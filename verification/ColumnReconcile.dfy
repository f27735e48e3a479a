/**
 Reconciling a variable-length column-store page: the cells of a page, overlaid with the updates
 visible to the reconciliation and followed by the appended records, are written as new run-length
 encoded cells.
 */
module ColumnReconcile {
  import opened Basics

  /** What a reader gets for one record. */
  datatype Rec = Deleted | Value(data: Bytes)

  /** A cell stands for `rle` equal records; an overflow cell has its value in a block of its own. */
  datatype Cell = Del(rle: nat) | Val(data: Bytes, rle: nat) | Ovfl(addr: nat, rle: nat)

  /** The update of a record's chain that the reconciliation may write, if any is visible to it. */
  datatype Read = NoneVisible | Visible(rec: Rec)

  datatype Insert = Insert(recno: nat, upd: Read)

  /** An entry of the page in memory: its cell, and the updates of the records the cell stands for. */
  datatype Slot = Slot(cell: Cell, ins: seq<Insert>)

  // ----- what cells mean -----

  function RecOf(c: Cell, disk: nat -> Bytes): (x: Rec) {
    match c
    case Del(_) => Deleted
    case Val(d, _) => Value(d)
    case Ovfl(a, _) => Value(disk(a))
  }

  ghost function Repeat(x: Rec, n: nat): (s: seq<Rec>) {
    seq(n, _ => x)
  }

  lemma RepeatAdd(x: Rec, a: nat, b: nat)
    ensures Repeat(x, 0) == [] && Repeat(x, a) + Repeat(x, b) == Repeat(x, a + b)
  {
  }

  /** The records a sequence of cells stands for. */
  ghost function Expand(cells: seq<Cell>, disk: nat -> Bytes): (s: seq<Rec>) {
    if cells == [] then [] else
      Expand(cells[..|cells| - 1], disk) + Repeat(RecOf(cells[|cells| - 1], disk), cells[|cells| - 1].rle)
  }

  lemma NothingWritten(disk: nat -> Bytes)
    ensures Expand([], disk) == [] && Addrs([]) == [] && NoMissed([])
  {
  }

  lemma ExpandSnoc(cells: seq<Cell>, c: Cell, disk: nat -> Bytes)
    ensures Expand(cells + [c], disk) == Expand(cells, disk) + Repeat(RecOf(c, disk), c.rle)
  {
    assert (cells + [c])[..|cells|] == cells;
  }

  // ----- what a page means -----

  ghost predicate Ascending(ins: seq<Insert>) {
    forall i, j {:trigger ins[i], ins[j]} :: 0 <= i < j < |ins| ==> ins[i].recno < ins[j].recno
  }

  /** The update for a record in a list of updates. */
  ghost function UpdateAt(ins: seq<Insert>, r: nat): (u: Read) {
    if ins == [] then NoneVisible else if ins[0].recno == r then ins[0].upd else UpdateAt(ins[1..], r)
  }

  function Count(slot: Slot): (n: nat) {
    slot.cell.rle
  }

  function Original(slot: Slot, disk: nat -> Bytes): (x: Rec) {
    RecOf(slot.cell, disk)
  }

  /** Record `r` of a slot. */
  ghost function RecAt(slot: Slot, r: nat, disk: nat -> Bytes): (x: Rec) {
    match UpdateAt(slot.ins, r)
    case NoneVisible => Original(slot, disk)
    case Visible(x) => x
  }

  /** The records of a slot whose first record is `s`. */
  ghost function SlotRecs(slot: Slot, s: nat, disk: nat -> Bytes): (recs: seq<Rec>)
    ensures |recs| == Count(slot)
  {
    seq(Count(slot), i requires 0 <= i => RecAt(slot, s + i, disk))
  }

  ghost function PageRecs(slots: seq<Slot>, s: nat, disk: nat -> Bytes): (recs: seq<Rec>) {
    if slots == [] then [] else
      var front := PageRecs(slots[..|slots| - 1], s, disk);
      front + SlotRecs(slots[|slots| - 1], s + |front|, disk)
  }

  /** One after the last record with a visible update, and at least `s`. */
  ghost function AppendEnd(app: seq<Insert>, s: nat): (e: nat)
    ensures e >= s
  {
    if app == [] then s
    else if app[|app| - 1].upd.Visible? && app[|app| - 1].recno >= s then app[|app| - 1].recno + 1
    else AppendEnd(app[..|app| - 1], s)
  }

  ghost function AppendAt(app: seq<Insert>, r: nat): (x: Rec) {
    match UpdateAt(app, r)
    case NoneVisible => Deleted
    case Visible(x) => x
  }

  /** The appended records, from `s` on; records nobody wrote are deleted ones. */
  ghost function AppendRecs(app: seq<Insert>, s: nat): (recs: seq<Rec>)
    ensures |recs| == AppendEnd(app, s) - s
  {
    seq(AppendEnd(app, s) - s, i requires 0 <= i => AppendAt(app, s + i))
  }

  /** The updates of a slot are in order and of records of that slot. */
  ghost predicate InSlot(slot: Slot, s: nat) {
    Count(slot) > 0 && Within(slot.ins, s, s + Count(slot))
  }

  ghost predicate Within(ins: seq<Insert>, lo: nat, hi: nat) {
    Ascending(ins) && forall k :: 0 <= k < |ins| ==> lo <= ins[k].recno < hi
  }

  ghost predicate GoodPage(slots: seq<Slot>, s: nat, disk: nat -> Bytes) {
    forall k :: 0 <= k < |slots| ==> InSlot(slots[k], s + |PageRecs(slots[..k], s, disk)|)
  }

  // ----- updates by record number -----

  lemma {:induction false} NoneBelow(ins: seq<Insert>, r: nat)
    requires Ascending(ins) && (ins != [] ==> r < ins[0].recno)
    ensures UpdateAt(ins, r) == NoneVisible
  {
    if ins != [] {
      NoneBelow(ins[1..], r);
    }
  }

  lemma {:induction false} UpdateIs(ins: seq<Insert>, k: nat)
    requires Ascending(ins) && k < |ins|
    ensures UpdateAt(ins, ins[k].recno) == ins[k].upd
  {
    if k > 0 {
      assert ins[0].recno < ins[k].recno;
      UpdateIs(ins[1..], k - 1);
    }
  }

  lemma {:induction false} NoUpdate(ins: seq<Insert>, r: nat)
    requires forall k :: 0 <= k < |ins| && ins[k].recno == r ==> ins[k].upd == NoneVisible
    ensures UpdateAt(ins, r) == NoneVisible
  {
    if ins != [] && ins[0].recno != r {
      NoUpdate(ins[1..], r);
    }
  }

  /** From record `lo` on, the updates of `all` are those of `ins`. */
  ghost predicate SameFrom(all: seq<Insert>, ins: seq<Insert>, lo: nat) {
    forall r :: r >= lo ==> UpdateAt(all, r) == UpdateAt(ins, r)
  }

  lemma TakeFirst(all: seq<Insert>, ins: seq<Insert>, lo: nat, hi: nat)
    requires SameFrom(all, ins, lo) && Within(ins, lo, hi) && ins != [] && ins[0].recno == lo
    ensures UpdateAt(all, lo) == ins[0].upd && SameFrom(all, ins[1..], lo + 1) && Within(ins[1..], lo + 1, hi)
    ensures |ins| > 1 ==> lo < ins[1].recno < hi
  {
  }

  lemma Skip(all: seq<Insert>, ins: seq<Insert>, lo: nat, mid: nat, hi: nat)
    requires SameFrom(all, ins, lo) && Within(ins, lo, hi) && lo <= mid && (ins != [] ==> mid <= ins[0].recno)
    ensures SameFrom(all, ins, mid) && Within(ins, mid, hi)
  {
  }

  lemma Untaken(ins: seq<Insert>, lo: nat, hi: nat)
    ensures SameFrom(ins, ins, lo) && Within([], lo, hi)
  {
  }

  lemma TakeNone(all: seq<Insert>, ins: seq<Insert>, lo: nat, hi: nat)
    requires SameFrom(all, ins, lo) && Within(ins, lo, hi) && (ins == [] || ins[0].recno != lo)
    ensures UpdateAt(all, lo) == NoneVisible && SameFrom(all, ins, lo + 1) && Within(ins, lo + 1, hi)
    ensures ins != [] ==> lo < ins[0].recno < hi
  {
    NoneBelow(ins, lo);
  }

  // ----- run-length encoding -----

  ghost predicate Differ(a: Cell, b: Cell) {
    !(a.Del? && b.Del?) && !(a.Val? && b.Val? && a.data == b.data)
  }

  /** No two neighbouring cells that should have been one. */
  ghost predicate NoMissed(cells: seq<Cell>) {
    |cells| < 2 || (Differ(cells[|cells| - 2], cells[|cells| - 1]) && NoMissed(cells[..|cells| - 1]))
  }

  lemma NoMissedSnoc(cells: seq<Cell>, c: Cell)
    requires NoMissed(cells) && (cells != [] ==> Differ(cells[|cells| - 1], c))
    ensures NoMissed(cells + [c])
  {
    assert (cells + [c])[..|cells|] == cells;
  }

  lemma {:induction false} NoMissedAt(cells: seq<Cell>, k: nat)
    requires NoMissed(cells) && k + 1 < |cells|
    ensures Differ(cells[k], cells[k + 1])
  {
    if k + 2 < |cells| {
      NoMissedAt(cells[..|cells| - 1], k);
    }
  }

  /** The verifier's look for records on a page, a part of the cells, that should have been run-length encoded. */
  method VerifyRle(cells: seq<Cell>, lo: nat, hi: nat) returns (ok: bool)
    requires lo <= hi <= |cells|
    ensures NoMissed(cells) ==> ok
    ensures ok <==> forall k, l :: lo <= k < hi && l == k + 1 < hi ==> Differ(cells[k], cells[l])
  {
    var lastDeleted, lastHasData, lastData: Bytes := false, false, [];
    var i := lo;
    while i < hi
      invariant lo <= i <= hi
      invariant i > lo ==>
        && lastDeleted == cells[i - 1].Del? && lastHasData == cells[i - 1].Val?
        && (lastHasData ==> lastData == cells[i - 1].data)
      invariant i == lo ==> !lastDeleted && !lastHasData
      invariant forall k, l :: lo <= k < i && l == k + 1 < i ==> Differ(cells[k], cells[l])
    {
      if i > lo && NoMissed(cells) {
        NoMissedAt(cells, i - 1);
      }
      if lastDeleted {
        if cells[i].Del? {
          assert !Differ(cells[i - 1], cells[i]);
          return false;
        }
      } else if cells[i].Val? && lastHasData && lastData == cells[i].data {
        assert !Differ(cells[i - 1], cells[i]);
        return false;
      }
      match cells[i] {
        case Del(_) => lastDeleted, lastHasData := true, false;
        case Ovfl(_, _) => lastDeleted, lastHasData := false, false;
        case Val(d, _) => lastDeleted, lastHasData, lastData := false, true, d;
      }
      i := i + 1;
    }
    ok := true;
  }

  // ----- overflow values -----

  ghost function Addrs(cells: seq<Cell>): (s: seq<nat>) {
    if cells == [] then [] else
      Addrs(cells[..|cells| - 1]) + (if cells[|cells| - 1].Ovfl? then [cells[|cells| - 1].addr] else [])
  }

  lemma AddrsSnoc(cells: seq<Cell>, c: Cell)
    ensures Addrs(cells + [c]) == Addrs(cells) + (if c.Ovfl? then [c.addr] else [])
  {
    assert (cells + [c])[..|cells|] == cells;
  }

  ghost predicate Covered(slot: Slot, s: nat) {
    forall r :: s <= r < s + Count(slot) ==> UpdateAt(slot.ins, r).Visible?
  }

  predicate HasOvfl(slot: Slot) {
    slot.cell.Ovfl?
  }

  /** The overflow values of the page: those still needed, and those every record of which was updated. */
  ghost function Kept(slots: seq<Slot>, s: nat, disk: nat -> Bytes, needed: bool): (a: seq<nat>) {
    if slots == [] then [] else
      var n := |slots| - 1;
      Kept(slots[..n], s, disk, needed) +
      if HasOvfl(slots[n]) && needed == !Covered(slots[n], s + |PageRecs(slots[..n], s, disk)|)
      then [slots[n].cell.addr] else []
  }

  // ----- one step of each loop -----

  lemma Joined(o: seq<Rec>, a: seq<Rec>, b: seq<Rec>)
    ensures (o + a) + b == o + (a + b)
  {
  }

  lemma UpdatedNext(slot: Slot, s: nat, n: nat, disk: nat -> Bytes)
    requires n < Count(slot) && UpdateAt(slot.ins, s + n).Visible?
    ensures SlotRecs(slot, s, disk)[..n + 1] == SlotRecs(slot, s, disk)[..n] + Repeat(UpdateAt(slot.ins, s + n).rec, 1)
  {
    assert SlotRecs(slot, s, disk)[n] == RecAt(slot, s + n, disk);
  }

  lemma OriginalNext(slot: Slot, s: nat, n: nat, count: nat, disk: nat -> Bytes)
    requires n + count <= Count(slot) && forall r :: s + n <= r < s + n + count ==> UpdateAt(slot.ins, r) == NoneVisible
    ensures SlotRecs(slot, s, disk)[..n + count] == SlotRecs(slot, s, disk)[..n] + Repeat(Original(slot, disk), count)
  {
    var all := SlotRecs(slot, s, disk);
    forall i | n <= i < n + count ensures all[i] == Original(slot, disk) {
      assert all[i] == RecAt(slot, s + i, disk);
    }
    assert all[..n + count] == all[..n] + Repeat(Original(slot, disk), count);
  }

  lemma AppendNext(app: seq<Insert>, s: nat, k: nat, r: nat)
    requires Ascending(app) && k < |app| && app[k].upd.Visible? && AppendEnd(app[..k], s) <= r <= app[k].recno
    requires s <= r < AppendEnd(app, s)
    ensures AppendRecs(app, s)[..r - s + 1] ==
            AppendRecs(app, s)[..r - s] + Repeat(if r < app[k].recno then Deleted else app[k].upd.rec, 1)
  {
    GapOrLast(app, s, k, r);
    assert AppendRecs(app, s)[r - s] == AppendAt(app, s + (r - s));
  }

  lemma PageStart(slots: seq<Slot>, s: nat, disk: nat -> Bytes)
    ensures PageRecs(slots[..0], s, disk) == []
    ensures Kept(slots[..0], s, disk, true) == [] == Kept(slots[..0], s, disk, false)
  {
    assert slots[..0] == [];
  }

  lemma PageNext(slots: seq<Slot>, k: nat, s: nat, disk: nat -> Bytes)
    requires k < |slots|
    ensures var r := s + |PageRecs(slots[..k], s, disk)|;
      && PageRecs(slots[..k + 1], s, disk) == PageRecs(slots[..k], s, disk) + SlotRecs(slots[k], r, disk)
      && s + |PageRecs(slots[..k + 1], s, disk)| == r + Count(slots[k])
      && forall b :: Kept(slots[..k + 1], s, disk, b) ==
           Kept(slots[..k], s, disk, b) +
           if HasOvfl(slots[k]) && b == !Covered(slots[k], r) then [slots[k].cell.addr] else []
  {
    assert slots[..k + 1][..k] == slots[..k] && slots[..k + 1][k] == slots[k];
  }

  class Reconcile {
    const disk: nat -> Bytes
    var out: seq<Cell>
    var recno: nat
    var last: Bytes
    var lastDeleted: bool
    var rle: nat
    var tracked: seq<nat>

    constructor (disk: nat -> Bytes, start: nat)
      ensures this.disk == disk && out == [] && recno == start && rle == 0 && tracked == []
    {
      this.disk := disk;
      out, recno, last, lastDeleted, rle, tracked := [], start, [], false, 0, [];
    }

    function Pending(): (c: Cell)
      reads this`last, this`lastDeleted, this`rle
    {
      if lastDeleted then Del(rle) else Val(last, rle)
    }

    /** The records written so far, those of the run being counted included. */
    ghost function Records(): (s: seq<Rec>)
      reads this`out, this`last, this`lastDeleted, this`rle
    {
      Expand(out, disk) + Repeat(RecOf(Pending(), disk), rle)
    }

    /** The first record of the page; `recno` is the next to be written. */
    ghost function First(): (r: int)
      reads this`out, this`recno
    {
      recno - |Expand(out, disk)|
    }

    ghost predicate Valid()
      reads this`out, this`last, this`lastDeleted, this`rle
    {
      if rle > 0 then NoMissed(out) && (out != [] ==> Differ(out[|out| - 1], Pending()))
      else NoMissed(out) && (out != [] ==> out[|out| - 1].Ovfl?)
    }

    /** Write a cell. */
    method Helper(c: Cell)
      modifies this`out, this`recno
      ensures out == old(out) + [c] && First() == old(First())
      ensures Expand(out, disk) == old(Expand(out, disk)) + Repeat(RecOf(c, disk), c.rle)
      ensures Addrs(out) == old(Addrs(out)) + (if c.Ovfl? then [c.addr] else [])
      ensures old(NoMissed(out) && (out != [] ==> Differ(out[|out| - 1], c))) ==> NoMissed(out)
    {
      ExpandSnoc(out, c, disk);
      AddrsSnoc(out, c);
      if NoMissed(out) && (out != [] ==> Differ(out[|out| - 1], c)) {
        NoMissedSnoc(out, c);
      }
      out, recno := out + [c], recno + c.rle;
    }

    /** The next `count` records are `x`: count them with the current run, or end it and start another. */
    method Compare(x: Rec, count: nat)
      requires Valid() && count > 0
      modifies this
      ensures Valid() && Records() == old(Records()) + Repeat(x, count)
      ensures Addrs(out) == old(Addrs(out)) && tracked == old(tracked)
      ensures First() == old(First())
    {
      hide Repeat, Expand, NoMissed, Addrs;
      RepeatAdd(x, rle, count);
      RepeatAdd(RecOf(Pending(), disk), 0, 0);
      if rle != 0 {
        if (x.Deleted? && lastDeleted) || (!lastDeleted && !x.Deleted? && last == x.data) {
          assert Expand(out, disk) + Repeat(x, rle) + Repeat(x, count)
              == Expand(out, disk) + (Repeat(x, rle) + Repeat(x, count));
          rle := rle + count;
          return;
        }
        Helper(Pending());
      }
      if !x.Deleted? {
        last := x.data;
      }
      lastDeleted := x.Deleted?;
      rle := count;
    }

    /** An overflow value is written as it is, once, for the next `count` records. */
    method UseOvfl(addr: nat, count: nat)
      requires Valid() && count > 0
      modifies this
      ensures Valid() && Records() == old(Records()) + Repeat(Value(disk(addr)), count)
      ensures Addrs(out) == old(Addrs(out)) + [addr] && tracked == old(tracked)
      ensures First() == old(First())
    {
      hide Repeat, Expand, NoMissed, Addrs;
      RepeatAdd(RecOf(Pending(), disk), 0, 0);
      if rle != 0 {
        Helper(Pending());
        rle := 0;
      }
      Helper(Ovfl(addr, count));
      RepeatAdd(RecOf(Pending(), disk), 0, 0);
    }

    /**
     The slot's own value for the next `count` records: an overflow value not used yet as it is, any
     other by comparing.
     */
    method UseOriginal(slot: Slot, unused: bool, count: nat)
      requires Valid() && count > 0 && (unused ==> HasOvfl(slot))
      modifies this
      ensures Valid() && Records() == old(Records()) + Repeat(Original(slot, disk), count)
      ensures Addrs(out) == old(Addrs(out)) + (if unused then [slot.cell.addr] else []) && tracked == old(tracked)
      ensures First() == old(First())
    {
      hide Repeat, Addrs, Records, First, Valid;
      if unused {
        UseOvfl(slot.cell.addr, count);
      } else {
        Compare(Original(slot, disk), count);
      }
    }

    /** The update of record `lo`, if there is one, and the first record after it that may have another. */
    static method NextUpdate(ins: seq<Insert>, lo: nat, hi: nat, ghost all: seq<Insert>)
      returns (upd: Read, rest: seq<Insert>, end: nat)
      requires SameFrom(all, ins, lo) && Within(ins, lo, hi) && lo < hi
      ensures lo < end <= hi && UpdateAt(all, lo) == upd
      ensures SameFrom(all, rest, lo + 1) && Within(rest, lo + 1, hi)
      ensures SameFrom(all, rest, end) && Within(rest, end, hi)
      ensures forall r :: lo < r < end ==> UpdateAt(all, r) == NoneVisible
    {
      upd, rest := NoneVisible, ins;
      if ins != [] && ins[0].recno == lo {
        TakeFirst(all, ins, lo, hi);
        upd, rest := ins[0].upd, ins[1..];
      } else {
        TakeNone(all, ins, lo, hi);
      }
      end := if rest == [] then hi else rest[0].recno;
      forall r | lo < r < end ensures UpdateAt(all, r) == NoneVisible {
        NoneBelow(rest, r);
      }
      Skip(all, rest, lo + 1, end, hi);
    }

    /** The records of one slot, from record `s` on. */
    method SlotLoop(slot: Slot, s: nat)
      requires Valid() && InSlot(slot, s)
      modifies this
      ensures Valid() && Records() == old(Records()) + SlotRecs(slot, s, disk)
      ensures First() == old(First())
      ensures HasOvfl(slot) && !Covered(slot, s) ==>
        Addrs(out) == old(Addrs(out)) + [slot.cell.addr] && tracked == old(tracked)
      ensures HasOvfl(slot) && Covered(slot, s) ==>
        Addrs(out) == old(Addrs(out)) && tracked == old(tracked) + [slot.cell.addr]
      ensures !HasOvfl(slot) ==> Addrs(out) == old(Addrs(out)) && tracked == old(tracked)
    {
      hide Repeat, Expand, NoMissed, Addrs, SlotRecs, Records, First, Valid, RecAt, UpdateAt, SameFrom, Within;
      var ins := slot.ins;
      var nrepeat := Count(slot);
      var unused := HasOvfl(slot);
      ghost var all := SlotRecs(slot, s, disk);
      var n := 0;
      Untaken(ins, s, s + nrepeat);
      assert all[..0] == [];
      while n < nrepeat
        invariant n <= nrepeat && Valid() && Records() == old(Records()) + all[..n]
        invariant Within(ins, s + n, s + nrepeat) && SameFrom(slot.ins, ins, s + n)
        invariant First() == old(First()) && tracked == old(tracked)
        invariant unused ==> HasOvfl(slot) && Addrs(out) == old(Addrs(out))
        invariant unused ==> forall r :: s <= r < s + n ==> UpdateAt(slot.ins, r).Visible?
        invariant !unused && HasOvfl(slot) ==> Addrs(out) == old(Addrs(out)) + [slot.cell.addr] && !Covered(slot, s)
        invariant !HasOvfl(slot) ==> Addrs(out) == old(Addrs(out))
      {
        var upd, end;
        upd, ins, end := NextUpdate(ins, s + n, s + nrepeat, slot.ins);
        if upd.Visible? {
          Compare(upd.rec, 1);
          UpdatedNext(slot, s, n, disk);
          Joined(old(Records()), all[..n], Repeat(upd.rec, 1));
          n := n + 1;
        } else {
          var count: nat := end - (s + n);
          OriginalNext(slot, s, n, count, disk);
          Joined(old(Records()), all[..n], Repeat(Original(slot, disk), count));
          UseOriginal(slot, unused, count);
          unused := false;
          n := n + count;
        }
      }
      assert all[..n] == all;
      if unused {
        tracked := tracked + [slot.cell.addr];
      }
    }

    /** The records appended to the page, from record `s` on. */
    method AppendLoop(app: seq<Insert>, s: nat)
      requires Valid() && Ascending(app)
      modifies this
      ensures Valid() && Records() == old(Records()) + AppendRecs(app, s)
      ensures Addrs(out) == old(Addrs(out)) && tracked == old(tracked) && First() == old(First())
    {
      hide Repeat, Expand, NoMissed, Addrs, AppendRecs, Records, First, Valid, UpdateAt, AppendAt;
      var src, k := s, 0;
      ghost var all := AppendRecs(app, s);
      EndWithin(app, s, 0);
      assert app[..0] == [] && all[..0] == [];
      while k < |app|
        invariant k <= |app| && src == AppendEnd(app[..k], s) && s <= src <= AppendEnd(app, s) && Valid()
        invariant Records() == old(Records()) + all[..src - s]
        invariant Addrs(out) == old(Addrs(out)) && tracked == old(tracked) && First() == old(First())
      {
        assert app[..k + 1][..k] == app[..k];
        EndWithin(app, s, k + 1);
        EndPast(app[..k], s);
        if app[k].upd.Visible? {
          ghost var e := src;
          while src <= app[k].recno
            invariant e <= src && (src > e ==> src <= app[k].recno + 1) && src <= AppendEnd(app, s) && Valid()
            invariant app[k].recno + 1 <= src ==> src == AppendEnd(app[..k + 1], s)
            invariant src <= app[k].recno ==> app[k].recno + 1 == AppendEnd(app[..k + 1], s)
            invariant Records() == old(Records()) + all[..src - s]
            invariant Addrs(out) == old(Addrs(out)) && tracked == old(tracked) && First() == old(First())
          {
            var x := if src < app[k].recno then Deleted else app[k].upd.rec;
            AppendNext(app, s, k, src);
            Joined(old(Records()), all[..src - s], Repeat(x, 1));
            Compare(x, 1);
            src := src + 1;
          }
        }
        k := k + 1;
      }
      assert app[..k] == app;
      assert all[..src - s] == all;
    }

    /**
     The cells written stand for the records of the page and then the appended ones; nothing that
     could have been run-length encoded was missed; each overflow value was written once if a record
     still has it, and is to be discarded if none does.
     */
    method ColVar(slots: seq<Slot>, app: seq<Insert>)
      requires out == [] && rle == 0 && tracked == [] && GoodPage(slots, recno, disk) && Ascending(app)
      modifies this
      ensures var recs := PageRecs(slots, old(recno), disk);
        Expand(out, disk) == recs + AppendRecs(app, old(recno) + |recs|)
      ensures NoMissed(out) && recno == old(recno) + |Expand(out, disk)|
      ensures Addrs(out) == Kept(slots, old(recno), disk, true) && tracked == Kept(slots, old(recno), disk, false)
    {
      hide Repeat, Expand, NoMissed, Addrs, SlotRecs, AppendRecs, PageRecs, Kept, InSlot;
      ghost var s0 := recno;
      var src, k := recno, 0;
      NothingWritten(disk);
      PageStart(slots, s0, disk);
      RepeatAdd(RecOf(Pending(), disk), 0, 0);
      while k < |slots|
        invariant k <= |slots| && Valid() && Records() == PageRecs(slots[..k], s0, disk)
        invariant src == s0 + |PageRecs(slots[..k], s0, disk)| && First() == s0
        invariant Addrs(out) == Kept(slots[..k], s0, disk, true) && tracked == Kept(slots[..k], s0, disk, false)
      {
        PageNext(slots, k, s0, disk);
        SlotLoop(slots[k], src);
        src := src + slots[k].cell.rle;
        k := k + 1;
      }
      assert slots[..k] == slots;
      AppendLoop(app, src);
      RepeatAdd(RecOf(Pending(), disk), 0, 0);
      if rle != 0 {
        Helper(Pending());
        rle := 0;
      }
    }
  }

  lemma {:induction false} EndPast(app: seq<Insert>, s: nat)
    ensures AppendEnd(app, s) >= s
    ensures forall j :: 0 <= j < |app| && app[j].upd.Visible? && Ascending(app) ==> app[j].recno < AppendEnd(app, s)
    ensures Ascending(app) && AppendEnd(app, s) > s ==> app != [] && AppendEnd(app, s) <= app[|app| - 1].recno + 1
  {
    if app != [] {
      EndPast(app[..|app| - 1], s);
    }
  }

  /** Appending further updates only moves the end on. */
  lemma {:induction false} EndWithin(app: seq<Insert>, s: nat, k: nat)
    requires Ascending(app) && k <= |app|
    ensures s <= AppendEnd(app[..k], s) <= AppendEnd(app, s)
    decreases |app|
  {
    EndPast(app[..k], s);
    if k < |app| {
      EndWithin(app[..|app| - 1], s, k);
      assert app[..|app| - 1][..k] == app[..k];
      EndPast(app[..|app| - 1], s);
    } else {
      assert app[..k] == app;
    }
  }

  lemma GapOrLast(app: seq<Insert>, s: nat, k: nat, r: nat)
    requires Ascending(app) && k < |app| && app[k].upd.Visible? && AppendEnd(app[..k], s) <= r <= app[k].recno
    ensures AppendAt(app, r) == if r < app[k].recno then Deleted else app[k].upd.rec
  {
    if r < app[k].recno {
      EndPast(app[..k], s);
      forall j | 0 <= j < |app| && app[j].recno == r ensures app[j].upd == NoneVisible {
        assert j < k ==> app[..k][j] == app[j];
      }
      NoUpdate(app, r);
    } else {
      UpdateIs(app, k);
    }
  }
}
