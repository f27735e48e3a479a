/**
 The block manager's operations as steps of a run: an open file whose extent lists hold what the
 abstract state says, and whose every operation is the step of that name.  The invariant of the runs
 then rules out the errors the operations check for.
 */
module Files {
  import opened Extents
  import opened ExtLists
  import opened Chains
  import opened Checkpoints
  import opened BlockRuns
  import Blocks
  import opened Units
  import ListImages
  import Basics

  class OpenFile {
    const m: Blocks.Manager
    /** The avail list of the last durable checkpoint, if there is one, and that of a checkpoint just written. */
    var durable: Basics.Option<ListImages.Saved>
    var pending: Basics.Option<ListImages.Saved>
    ghost var s: State

    constructor (allocsize: int)
      requires allocsize > 0
      ensures fresh(m) && fresh({m.alloc, m.discard, m.avail, m.ckptAvail}) && Refines() && Init(s)
      ensures m.allocsize == allocsize && durable == Basics.None
    {
      m := new Blocks.Manager(allocsize);
      durable, pending := Basics.None, Basics.None;
      s := State(Meta([], {}, DESC_SECTOR), Idle, true, DESC_SECTOR, {}, {}, {}, {}, {});
      new;
      InitInv(s);
      InitAligned(allocsize, s);
    }

    /** What the live lists hold while a checkpoint is being written: the lists of its last record. */
    ghost function Live(): (r: (set<int>, set<int>)) reads this {
      if s.phase.Writing? && s.phase.recs != []
      then var l := s.phase.recs[|s.phase.recs| - 1].link; (l.alloc, l.discard)
      else (s.alloc, s.discard)
    }

    ghost predicate Refines()
      reads this, m, m.alloc, m.discard, m.avail, m.ckptAvail
    {
      && m.Valid() && s.up && Inv(s)
      && AlignedState(m.allocsize, s) && OnDisk(m.allocsize, s.disk, durable)
      && (s.phase.Written? ==> OnDisk(m.allocsize, s.phase.meta, pending))
      && m.fileSize == s.size && m.avail.Held() == s.avail && m.ckptAvail.Held() == s.ckptAvail
      && (m.alloc.Held(), m.discard.Held()) == Live()
    }

    /** Allocate a block; with space in whole units and room in the file this always succeeds. */
    method Alloc(n: int) returns (st: Status, off: int)
      requires Refines() && Running(s) && n > 0
      modifies this, m, m.avail, m.alloc
      ensures Refines()
      ensures st == Ok ==> NextState(old(s), s, Step.Alloc(Range(off, n))) && UnitRange(m.allocsize, off, n)
      ensures st != Ok ==> s == old(s)
      ensures st == Ok <== n % m.allocsize == 0 && old(s).size <= Blocks.INT64_MAX - n
    {
      hide ExtList.Valid, Space, Range, Blocks.NoFit, Blocks.BestFit, Aligned, Inv, AlignedRecs, OnDisk;
      LiveApart(s);
      st, off := m.Alloc(n);
      if st == Ok {
        s := s.(avail := m.avail.Held(), size := m.fileSize, alloc := m.alloc.Held());
        StepInv(old(s), s, Step.Alloc(Range(off, n)));
        StepAligned(m.allocsize, old(s), s, Step.Alloc(Range(off, n)));
      }
    }

    /** Free a block of the live tree, which an address gives in whole units; this never fails. */
    method Free(off: int, n: int) returns (st: Status)
      requires Refines() && Running(s) && UnitRange(m.allocsize, off, n)
      requires Range(off, n) <= Pages(Links(Recs(s))) + s.alloc - s.discard
      requires Range(off, n) <= s.alloc || Range(off, n) !! s.alloc
      modifies this, m.avail, m.alloc, m.discard
      ensures Refines()
      ensures st == Ok && NextState(old(s), s, Step.Free(Range(off, n)))
    {
      hide ExtList.Valid, Space, Range, Inv, Aligned, AlignedRecs, OnDisk;
      LiveApart(s);
      st := m.Free(off, n);
      s := s.(avail := m.avail.Held(), alloc := m.alloc.Held(), discard := m.discard.Held());
      StepInv(old(s), s, Step.Free(Range(off, n)));
      StepAligned(m.allocsize, old(s), s, Step.Free(Range(off, n)));
    }

    /** Cut available space off the end of the file. */
    method Truncate()
      requires Refines() && s.phase.Writing?
      modifies this, m, m.avail
      ensures Refines() && NextState(old(s), s, Step.Truncate)
    {
      hide ExtList.Valid, Space, Range, Inv, Aligned, AlignedRecs, OnDisk;
      LiveApart(s);
      m.Truncate();
      s := s.(avail := m.avail.Held(), size := m.fileSize);
      StepInv(old(s), s, Step.Truncate);
      StepAligned(m.allocsize, old(s), s, Step.Truncate);
    }

    /** Write one of a checkpoint's lists; an empty one needs no block. */
    method WriteList(ghost i: nat, ghost kind: ListKind, el: ExtList)
      returns (st: Status, p: ListImages.Pairs, blk: Block)
      requires Refines() && s.phase.Writing? && i < |s.phase.recs| && GetList(s.phase.recs[i], kind) == {}
      requires el.Valid() && el.Held() == ListOf(s.phase.recs[i].link, kind)
      modifies this, m, m.avail, m.alloc
      ensures Refines()
      ensures st == Ok ==> NextState(old(s), s, Step.WriteList(i, kind, Bytes(blk)))
      ensures st == Ok ==> (blk.off == INVALID_OFFSET <==> old(el.entries) == 0)
      ensures st == Ok && blk.off != INVALID_OFFSET ==>
        p == ListImages.Image(old(el.off), []) && ListImages.Holds(p, blk, m.allocsize)
      ensures st != Ok ==> s == old(s)
    {
      hide ExtList.Valid, Space, Range, Inv, Aligned, AlignedRecs, OnDisk, ListImages.Image, Takes, File, UnitRange;
      p, blk := [], Block(INVALID_OFFSET, 0);
      if el.entries == 0 {
        NoWrite(s, i, kind);
        return Ok, p, blk;
      }
      WritingApart(s);
      LiveApart(s);
      p := ListImages.BuildImage(el, null);
      st, blk := ListImages.WriteBlock(m, el.entries);
      if st == Ok {
        ghost var b := Range(blk.off, blk.size);
        s := s.(avail := m.avail.Held(), size := m.fileSize,
                phase := Writing(s.phase.recs[i := SetList(s.phase.recs[i], kind, b)]));
        StepInv(old(s), s, Step.WriteList(i, kind, b));
        StepAligned(m.allocsize, old(s), s, Step.WriteList(i, kind, b));
      }
    }

    /** Write the avail list, which completes the checkpoint, and start over with empty live lists. */
    method Finish() returns (st: Status, blk: Block)
      requires Refines() && s.phase.Writing? && s.phase.recs != []
      requires s.phase.recs[|s.phase.recs| - 1].lists.avail == {}
      modifies this, m, m.avail, m.alloc, m.discard
      ensures Refines()
      ensures st == Ok ==> NextState(old(s), s, Step.Finish(Bytes(blk)))
      ensures st == Ok ==> pending.Some? && pending.value.blk == blk
      ensures st == Ok && blk.off != INVALID_OFFSET ==> ListImages.Holds(pending.value.pairs, blk, m.allocsize)
      ensures st != Ok ==> s == old(s)
    {
      hide ExtList.Valid, Space, Range, Inv, Aligned, AlignedRecs, OnDisk, NextState, UnitBlock, Takes;
      LiveApart(s);
      WritingApart(s);
      ListIs(m.avail);
      ListIs(m.ckptAvail);
      ghost var off, ckptOff, none := m.avail.off, m.ckptAvail.off, m.avail.entries + m.ckptAvail.entries == 0;
      var p;
      st, p, blk := ListImages.WriteAvail(m);
      if st != Ok { return; }
      pending := Basics.Some(ListImages.Saved(p, blk, m.fileSize));
      m.alloc.Reset();
      m.discard.Reset();
      Finishing(m.allocsize, s, off, ckptOff, none, pending.value, m.avail.Held());
      s := Finished(s, Bytes(blk), m.avail.Held(), m.fileSize);
    }

    /** The metadata is on stable storage. */
    method Durable()
      requires Refines() && s.phase.Written?
      modifies this
      ensures Refines() && NextState(old(s), s, Step.Durable)
    {
      hide ExtList.Valid, Space, Range, Inv, Aligned, AlignedRecs, OnDisk;
      durable := pending;
      s := s.(disk := s.phase.meta, phase := Resolving);
      StepInv(old(s), s, Step.Durable);
      StepAligned(m.allocsize, old(s), s, Step.Durable);
    }

    /** `cs` are the checkpoints of the metadata as read from disk, then the live lists with a new root. */
    ghost predicate Loaded(cs: seq<Ckpt>, n: nat)
      requires m.allocsize > 0
      reads this, cs, ExtListsOf(cs)
    {
      && |cs| == n + 1 == |s.disk.recs| + 1
      && (forall i :: 0 <= i < |cs| ==> cs[i].Valid()) && Separate(cs, m.ckptAvail) && m.avail !in ExtListsOf(cs)
      && cs[n].alloc == m.alloc && cs[n].discard == m.discard && Bytes(cs[n].root) <= s.alloc
      && UnitBlock(m.allocsize, Bytes(cs[n].root))
      && Views(cs) == Joined(s, Bytes(cs[n].root)) && Checkpoints.Blocks(cs) == JoinedLists(s)
    }

    /** Begin a checkpoint: the chain loses the deleted checkpoints.  This never fails. */
    method Begin(cs: seq<Ckpt>, del: seq<bool>) returns (st: Status, ghost root: set<int>)
      requires Refines() && s.phase == Idle && Loaded(cs, |del|)
      modifies this, ExtListsOf(cs), m.ckptAvail
      ensures Refines() && st == Ok && NextState(old(s), s, Step.Begin(del, root))
      ensures |cs| == |del + [false]| && s.phase == Writing(Recs(s))
      ensures Survivors(Views(cs), del + [false]) == Links(Recs(s))
    {
      hide ExtList.Valid, Ckpt.Valid, Space, Range, Inv, Survivors, RollAll, KeptLists, Released, WellFormed;
      hide ListsApart, Aligned, AlignedRecs, OnDisk, Allocs, AllLists, Pages, Used, Joined, JoinedLists, KeptPages;
      hide AllPages, KeptRoots, Roots;
      root := Bytes(cs[|del|].root);
      ghost var d := del + [false];
      ghost var c, bs := Joined(s, root), JoinedLists(s);
      BeginReady(s, root, d);
      st := DeleteCheckpoints(cs, del + [false], m.ckptAvail);
      ghost var recs := Zip(RollAll(c, d).kept, KeptLists(bs, d, |d|));
      CkptLists(cs[|del|]);
      LastSurvivor(Views(cs), d);
      LastZipped(RollAll(c, d).kept, KeptLists(bs, d, |d|));
      assert Views(cs)[|del|] == cs[|del|].View();
      s := s.(phase := Writing(recs), alloc := {}, discard := {}, ckptAvail := m.ckptAvail.Held());
      StepInv(old(s), s, Step.Begin(del, root));
      StepAligned(m.allocsize, old(s), s, Step.Begin(del, root));
    }

    /** Make what a durable checkpoint freed available; this never fails. */
    method Resolve() returns (st: Status)
      requires Refines() && s.phase == Resolving
      modifies this, m.avail, m.ckptAvail
      ensures Refines() && st == Ok && NextState(old(s), s, Step.Resolve)
    {
      hide ExtList.Valid, Space, Range, Inv, Aligned, AlignedRecs, OnDisk;
      LiveApart(s);
      st := m.Resolve();
      s := s.(phase := Idle, avail := m.avail.Held(), ckptAvail := {});
      StepInv(old(s), s, Step.Resolve);
      StepAligned(m.allocsize, old(s), s, Step.Resolve);
    }

    /**
     Crash, and load the last durable checkpoint: its avail list is read from the file as the crash
     left it, and refused if it reaches past the end; then the file is cut off or extended to the size
     the checkpoint was written for.
     */
    method Crash() returns (st: Status)
      requires Refines()
      modifies this, m, m.alloc, m.discard, m.avail, m.ckptAvail
      ensures NextState(old(s), s, Step.Crash)
      ensures st == Ok <==> s.up
      ensures st == Ok ==> Refines()
      ensures st == Ok && old(s).disk.recs != [] ==> m.avail.Held() == old(s).disk.avail
    {
      hide ExtList.Valid, Space, Range, Inv, Aligned, AlignedRecs, ListImages.Saves;
      m.alloc.Reset();
      m.discard.Reset();
      m.avail.Reset();
      m.ckptAvail.Reset();
      match durable {
      case None =>
        st := Ok;
        s := State(s.disk, Idle, true, s.size, {}, {}, {}, {}, File(s.size));
      case Some(v) =>
        AvailBlock(m.allocsize, s, durable);
        st := ListImages.LoadAvail(v, m.allocsize, m.fileSize, m.avail, s.disk.avail);
        if st != Ok {
          s := s.(up := false);
          return;
        }
        m.fileSize := v.size;
        s := State(s.disk, Idle, true, s.disk.size, s.disk.avail, {}, {}, {}, s.leaked);
      }
      StepInv(old(s), s, Step.Crash);
      StepAligned(m.allocsize, old(s), s, Step.Crash);
    }

    /**
     Complete a checkpoint, make it durable, and then either go on or crash and load it: either way
     the same space is available, what was available and what the checkpoint freed without the block
     of the list itself.  Once the list is written nothing of this fails.
     */
    method Complete(crash: bool) returns (st: Status, blk: Block)
      requires Refines() && s.phase.Writing? && s.phase.recs != []
      requires s.phase.recs[|s.phase.recs| - 1].lists.avail == {}
      modifies this, m, m.alloc, m.discard, m.avail, m.ckptAvail
      ensures Refines()
      ensures st != Ok ==> s == old(s)
      ensures st == Ok ==>
                && s.phase == Idle && m.avail.Held() == (old(m.avail.Held()) + old(m.ckptAvail.Held())) - Bytes(blk)
                && m.alloc.Held() == {} == m.discard.Held() && m.ckptAvail.Held() == {}
    {
      hide ExtList.Valid, Space, Range, Inv, AlignedState, OnDisk, Referenced;
      st, blk := Finish();
      if st != Ok { return; }
      ghost var t := s;
      Durable();
      ghost var u := s;
      CompletedLoads(old(s), t, Bytes(blk), u);
      if crash {
        st := Crash();
      } else {
        st := Resolve();
      }
    }
  }

  /** The block of a stored avail list is within the file. */
  lemma AvailBlock(a: int, s: State, v: Basics.Option<ListImages.Saved>)
    requires a > 0 && Inv(s) && OnDisk(a, s.disk, v) && v.Some?
    ensures Bytes(v.value.blk) <= File(s.size)
  {
    var recs := s.disk.recs;
    var n := |recs| - 1;
    assert ListsIn(recs)[n] == recs[n].lists;
    assert ListBytes(recs[n].lists) <= AllLists(ListsIn(recs));
  }

  /** A checkpoint just made durable can be loaded, and this gives what resolving gives. */
  lemma CompletedLoads(s: State, t: State, b: set<int>, u: State)
    requires Inv(s) && NextState(s, t, Step.Finish(b)) && NextState(t, u, Step.Durable)
    ensures u.disk.recs != [] && u.disk.avail <= File(u.size) && u.alloc == {} == u.discard
    ensures u.avail + u.ckptAvail == (s.avail + s.ckptAvail) - b == u.disk.avail
  {
    FinishInv(s, t, b);
    var c, bs := Links(s.phase.recs), ListsIn(s.phase.recs);
    FinishTiles(s.size, s.avail, s.ckptAvail, Allocs(c), AllLists(bs), s.leaked, b, t.avail, t.size);
  }

  /** The avail list stored with the last checkpoint of the metadata is the one the metadata stands for. */
  ghost predicate OnDisk(a: int, d: Meta, v: Basics.Option<ListImages.Saved>)
    requires a > 0
  {
    match v
    case None => d.recs == []
    case Some(w) =>
      && d.recs != [] && ListImages.Saves(a, w, d.avail) && w.size == d.size
      && d.recs[|d.recs| - 1].lists.avail == Bytes(w.blk)
  }

  lemma ListIs(el: ExtList)
    requires el.Valid()
    ensures Ordered(el.off) && Space(el.off) == el.Held() && (el.entries == 0 ==> el.Held() == {}) && el.entries >= 0
  {
  }

  /** The state when a checkpoint is completed, with its avail list in block `b`. */
  ghost function Finished(s: State, b: set<int>, avail: set<int>, size: int): (t: State)
    requires s.phase.Writing? && s.phase.recs != []
  {
    var recs := s.phase.recs;
    var r := recs[|recs| - 1];
    s.(avail := avail, size := size,
       phase := Written(Meta(recs[..|recs| - 1] + [r.(lists := r.lists.(avail := b))],
                             (s.avail + s.ckptAvail) - b, size)))
  }

  /** The list stored when a checkpoint is completed is the one its metadata stands for. */
  lemma FinishOnDisk(a: int, s: State, off: seq<Ext>, ckptOff: seq<Ext>, none: bool,
                     v: ListImages.Saved, avail': set<int>)
    requires a > 0 && Inv(s) && s.up && AlignedState(a, s) && Ordered(off) && Ordered(ckptOff)
    requires Space(off) == s.avail && Space(ckptOff) == s.ckptAvail && GoodBlock(v.blk)
    requires if none then v.blk.off == INVALID_OFFSET && s.avail == {} == s.ckptAvail
             else v.blk.off != INVALID_OFFSET && v.pairs == ListImages.Image(off, ckptOff) &&
                  Takes(s.avail, s.size, Range(v.blk.off, v.blk.size), avail', v.size)
    ensures ListImages.Saves(a, v, (s.avail + s.ckptAvail) - Bytes(v.blk))
  {
    hide Space, Ordered, Range, Aligned, ListImages.Readable, ListImages.PairSpace, Inv, ListImages.ReadsAs, Referenced;
    LiveApart(s);
    if v.blk.off != INVALID_OFFSET {
      ListImages.WrittenSaves(a, off, ckptOff, s.size, v.blk, avail', v.size);
    }
  }

  lemma Finishing(a: int, s: State, off: seq<Ext>, ckptOff: seq<Ext>, none: bool, v: ListImages.Saved, avail': set<int>)
    requires a > 0 && Inv(s) && s.up && AlignedState(a, s) && Ordered(off) && Ordered(ckptOff)
    requires s.phase.Writing? && s.phase.recs != [] && s.phase.recs[|s.phase.recs| - 1].lists.avail == {}
    requires Space(off) == s.avail && Space(ckptOff) == s.ckptAvail && GoodBlock(v.blk) && UnitBlock(a, Bytes(v.blk))
    requires if none then v.blk.off == INVALID_OFFSET && s.avail == {} == s.ckptAvail == avail' && v.size == s.size
             else v.blk.off != INVALID_OFFSET && v.pairs == ListImages.Image(off, ckptOff) &&
                  Takes(s.avail, s.size, Range(v.blk.off, v.blk.size), avail', v.size)
    ensures var t := Finished(s, Bytes(v.blk), avail', v.size);
      && NextState(s, t, Step.Finish(Bytes(v.blk))) && Inv(t) && AlignedState(a, t)
      && OnDisk(a, t.phase.meta, Basics.Some(v)) && t.alloc == {} == t.discard
  {
    hide Space, Ordered, Range, Aligned, AlignedRecs, Inv, ListImages.Saves, UnitBlock, AlignedMeta, ListImages.Image;
    FinishOnDisk(a, s, off, ckptOff, none, v, avail');
    var t := Finished(s, Bytes(v.blk), avail', v.size);
    FinishBlock(s, avail', v.size, v.blk);
    WritingLists(s);
    assert NextState(s, t, Step.Finish(Bytes(v.blk)));
    hide NextState, Takes, AlignedState, FinishStep;
    StepInv(s, t, Step.Finish(Bytes(v.blk)));
    StepAligned(a, s, t, Step.Finish(Bytes(v.blk)));
  }

  ghost function Zip(c: seq<Link>, bs: seq<Lists>): (r: seq<Record>)
    requires |c| == |bs|
    ensures Zips(r, c, bs)
  {
    var r := seq(|c|, i requires 0 <= i < |c| => Record(c[i], bs[i]));
    assert Links(r) == c && ListsIn(r) == bs;
    r
  }

  /** While a checkpoint is written, its own lists are part of the used space. */
  lemma WritingApart(s: State)
    requires Inv(s) && s.up && s.phase.Writing? && s.phase.recs != []
    ensures var l := s.phase.recs[|s.phase.recs| - 1].link;
            s.avail !! l.alloc && l.alloc <= File(s.size)
  {
    var c := Links(s.phase.recs);
    assert c[|c| - 1] == s.phase.recs[|s.phase.recs| - 1].link;
    assert c[|c| - 1].alloc <= Allocs(c);
  }

  /** The lists of the running system do not overlap. */
  lemma LiveApart(s: State)
    requires Inv(s) && s.up
    ensures s.avail !! s.alloc && s.ckptAvail !! s.avail
    ensures s.avail <= File(s.size) && s.ckptAvail <= File(s.size) && s.alloc <= File(s.size)
    ensures s.size >= DESC_SECTOR
  {
  }

  /** Writing an avail list that may turn out empty takes a block, or nothing. */
  lemma FinishBlock(s: State, avail: set<int>, size: int, blk: Block)
    requires GoodBlock(blk)
    requires blk.off == INVALID_OFFSET ==> avail == s.avail && size == s.size
    requires blk.off != INVALID_OFFSET ==> Takes(s.avail, s.size, Range(blk.off, blk.size), avail, size)
    ensures Takes(s.avail, s.size, Bytes(blk), avail, size)
  {
  }

  ghost function ListOf(l: Link, kind: ListKind): (b: set<int>) {
    match kind
    case AllocList => l.alloc
    case DiscardList => l.discard
  }

  lemma NoWrite(s: State, i: nat, kind: ListKind)
    requires s.up && s.phase.Writing? && i < |s.phase.recs| && GetList(s.phase.recs[i], kind) == {}
    ensures NextState(s, s, Step.WriteList(i, kind, {}))
  {
    assert s.phase.recs[i := SetList(s.phase.recs[i], kind, {})] == s.phase.recs;
  }

  lemma WritingLists(s: State)
    requires Inv(s) && s.up && s.phase.Writing?
    ensures s.alloc == {} && s.discard == {}
  {
  }

  /** An idle file's chain, with the live lists as its last link, can lose any of its checkpoints. */
  lemma BeginReady(s: State, root: set<int>, d: seq<bool>)
    requires Inv(s) && s.up && s.phase == Idle && root <= s.alloc && |d| == |s.disk.recs| + 1 && !d[|d| - 1]
    ensures s.ckptAvail == {}
    ensures |Joined(s, root)| == |JoinedLists(s)| == |d|
    ensures Deletable(Joined(s, root), JoinedLists(s))
    ensures |RollAll(Joined(s, root), d).kept| == |KeptLists(JoinedLists(s), d, |d|)| > 0
    ensures Used(Joined(s, root)) - Used(RollAll(Joined(s, root), d).kept) == RollAll(Joined(s, root), d).freed
  {
    var c, bs := Joined(s, root), JoinedLists(s);
    JoinedOk(s, root);
    SameCount(c, bs, d, |d|);
    assert c[..|d|] == c && d[..|d|] == d;
    DeleteFrees(c, d);
  }

  lemma CkptLists(c: Ckpt)
    requires c.Valid()
    ensures c.alloc.Valid() && c.discard.Valid() && c.View() == Link(c.alloc.Held(), c.discard.Held(), Bytes(c.root))
  {
  }

  lemma LastZipped(c: seq<Link>, bs: seq<Lists>)
    requires |c| == |bs| > 0
    ensures |Zip(c, bs)| == |c| && Zip(c, bs)[|c| - 1].link == c[|c| - 1]
  {
  }

  lemma LastSurvivor(w: seq<Link>, d: seq<bool>)
    requires |w| == |d| > 0 && !d[|d| - 1]
    ensures Survivors(w, d) != [] && Survivors(w, d)[|Survivors(w, d)| - 1] == w[|w| - 1]
  {
  }
}
