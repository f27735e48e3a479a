/** Checkpoint records and the loop that deletes checkpoints from the chain. */
module Checkpoints {
  import opened Extents
  import opened ExtLists
  import Overlaps
  import opened Chains

  /** A block of the file written for a checkpoint; offset 0 says that there is none. */
  datatype Block = Block(off: int, size: int)

  const INVALID_OFFSET: int := 0

  ghost function Bytes(b: Block): (r: set<int>) {
    if b.off == INVALID_OFFSET then {} else Range(b.off, b.size)
  }

  ghost predicate GoodBlock(b: Block) {
    b.off != INVALID_OFFSET ==> b.size > 0
  }

  class Ckpt {
    const alloc: ExtList
    const discard: ExtList
    var root: Block
    var allocAt: Block
    var availAt: Block
    var discardAt: Block

    constructor (alloc: ExtList, discard: ExtList)
      ensures this.alloc == alloc && this.discard == discard
      ensures root == allocAt == availAt == discardAt == Block(INVALID_OFFSET, 0)
    {
      this.alloc, this.discard := alloc, discard;
      root, allocAt := Block(INVALID_OFFSET, 0), Block(INVALID_OFFSET, 0);
      availAt, discardAt := Block(INVALID_OFFSET, 0), Block(INVALID_OFFSET, 0);
    }

    ghost predicate Valid() reads this, alloc, discard {
      && alloc != discard && alloc.Valid() && discard.Valid()
      && GoodBlock(root) && GoodBlock(allocAt) && GoodBlock(availAt) && GoodBlock(discardAt)
    }

    ghost function View(): (r: Link) reads this, alloc, discard {
      Link(alloc.Held(), discard.Held(), Bytes(root))
    }
  }

  /** Merge every extent of one list into another. */
  method ExtlistMerge(a: ExtList, b: ExtList) returns (st: Status)
    requires a != b && a.Valid() && b.Valid()
    modifies b
    ensures b.Valid()
    ensures st == Ok <==> a.Held() !! old(b.Held())
    ensures st == Ok ==> b.Held() == old(b.Held()) + a.Held()
  {
    hide ExtList.Valid, Space;
    var i := 0;
    MergeStart(a.off);
    while i < |a.off|
      invariant i <= |a.off| && a.Valid() && b.Valid()
      invariant Space(a.off[..i]) !! old(b.Held())
      invariant b.Held() == old(b.Held()) + Space(a.off[..i])
    {
      MergeStep(a, i);
      st := b.Merge(a.off[i].off, a.off[i].size);
      if st != Ok { return; }
      i := i + 1;
    }
    assert a.off[..i] == a.off;
    return Ok;
  }

  lemma MergeStart(s: seq<Ext>)
    ensures Space(s[..0]) == {}
  {
    assert s[..0] == [];
  }

  lemma MergeStep(a: ExtList, i: nat)
    requires a.Valid() && i < |a.off|
    ensures GoodExt(a.off[i]) && Span(a.off[i]) <= a.Held() && Space(a.off[..i]) !! Span(a.off[i])
    ensures Space(a.off[..i + 1]) == Space(a.off[..i]) + Span(a.off[i])
  {
    var s := a.off;
    assert s[..i + 1] == s[..i] + [s[i]];
    SpaceConcat(s[..i], [s[i]]);
    SpaceOne(s[i]);
    SpaceHas(s, i);
    forall y | y in Space(s[..i]) ensures y !in Span(s[i]) {
      var q := SpaceAt(s[..i], y);
      assert Before(s[q], s[i]);
    }
  }

  /** Free a block: it goes to the list of extents available once the checkpoint is resolved. */
  method FreeBlock(b: Block, avail: ExtList) returns (st: Status)
    requires avail.Valid() && GoodBlock(b)
    modifies avail
    ensures avail.Valid()
    ensures st == Ok <==> Bytes(b) !! old(avail.Held())
    ensures st == Ok ==> avail.Held() == old(avail.Held()) + Bytes(b)
  {
    hide ExtList.Valid, Space, Range;
    if b.off == INVALID_OFFSET {
      return Ok;
    }
    st := avail.Merge(b.off, b.size);
  }

  ghost function ListsOf(c: Ckpt): (r: Lists) reads c {
    Lists(Bytes(c.allocAt), Bytes(c.availAt), Bytes(c.discardAt))
  }

  // ----- rolling one checkpoint into the next -----

  /** What rolling `x` into `y` makes available: list blocks, then what `y` allocates and discards. */
  ghost function RollFrees(x: Link, y: Link, keep: bool, xs: Lists, ys: Lists, rewrite: bool): (r: set<int>) {
    ListBytes(xs) +
    (if keep then (x.alloc + y.alloc) * (x.discard + x.root + y.discard) else {}) +
    (if rewrite then ys.alloc + ys.discard else {})
  }

  /** None of the merges that rolling does will find an overlap. */
  ghost predicate CanRoll(x: Link, y: Link, keep: bool, xs: Lists, ys: Lists, rewrite: bool, v: set<int>) {
    && x.root !! x.discard && x.alloc !! y.alloc && (x.discard + x.root) !! y.discard
    && OwnApart(xs) && ListBytes(xs) !! v
    && (keep ==> (x.alloc + y.alloc) * (x.discard + x.root + y.discard) !! v + ListBytes(xs))
    && (rewrite ==> ys.alloc !! ys.discard &&
                    ys.alloc + ys.discard !!
                      v + ListBytes(xs) + (x.alloc + y.alloc) * (x.discard + x.root + y.discard))
  }

  ghost function Rolled(x: Link, y: Link, keep: bool): (r: Link) {
    if keep then Absorb(x.alloc, x.discard + x.root, y)
    else Link(y.alloc + x.alloc, y.discard + (x.discard + x.root), y.root)
  }

  /** The five lists a roll works on are different objects. */
  ghost predicate FiveLists(a: Ckpt, b: Ckpt, avail: ExtList) {
    && a.alloc != b.alloc && a.alloc != b.discard && a.discard != b.alloc && a.discard != b.discard
    && avail != a.alloc && avail != a.discard && avail != b.alloc && avail != b.discard
  }

  method FreeLists(a: Ckpt, avail: ExtList) returns (st: Status)
    requires a.Valid() && avail.Valid() && avail != a.alloc && avail != a.discard
    modifies avail
    ensures avail.Valid()
    ensures OwnApart(ListsOf(a)) && ListBytes(ListsOf(a)) !! old(avail.Held()) ==>
              st == Ok && avail.Held() == old(avail.Held()) + ListBytes(ListsOf(a))
  {
    hide ExtList.Valid, Space, Range;
    st := FreeBlock(a.allocAt, avail);
    if st != Ok { return; }
    st := FreeBlock(a.availAt, avail);
    if st != Ok { return; }
    st := FreeBlock(a.discardAt, avail);
  }

  /** Merge a deleted checkpoint's lists into the next checkpoint's. */
  method MergeLists(a: Ckpt, b: Ckpt) returns (st: Status)
    requires a.Valid() && b.Valid()
    requires a.alloc != b.alloc && a.alloc != b.discard && a.discard != b.alloc && a.discard != b.discard
    modifies b.alloc, b.discard
    ensures b.Valid()
    ensures old(a.alloc.Held() !! b.alloc.Held() && a.discard.Held() !! b.discard.Held()) ==>
              && st == Ok
              && b.alloc.Held() == old(b.alloc.Held()) + a.alloc.Held()
              && b.discard.Held() == old(b.discard.Held()) + a.discard.Held()
  {
    hide ExtList.Valid, Space, Range;
    if a.alloc.entries != 0 {
      st := ExtlistMerge(a.alloc, b.alloc);
      if st != Ok { return; }
    } else {
      NoEntries(a.alloc);
    }
    st := Ok;
    if a.discard.entries != 0 {
      st := ExtlistMerge(a.discard, b.discard);
    } else {
      NoEntries(a.discard);
    }
  }

  lemma NoEntries(el: ExtList)
    requires el.Valid()
    ensures el.entries == 0 ==> el.Held() == {}
  {
  }

  method RollInto(a: Ckpt, b: Ckpt, keep: bool, rewrite: bool, avail: ExtList) returns (st: Status)
    requires a.Valid() && b.Valid() && avail.Valid() && FiveLists(a, b, avail) && (rewrite ==> keep)
    modifies a.discard, b.alloc, b.discard, avail
    ensures a.Valid() && b.Valid() && avail.Valid()
    ensures old(CanRoll(a.View(), b.View(), keep, ListsOf(a), ListsOf(b), rewrite, avail.Held())) ==>
              && st == Ok
              && b.View() == Rolled(old(a.View()), old(b.View()), keep)
              && avail.Held() == old(avail.Held()) +
                                 old(RollFrees(a.View(), b.View(), keep, ListsOf(a), ListsOf(b), rewrite))
  {
    hide ExtList.Valid, Space, Range;
    ghost var x, y := a.View(), b.View();
    st := FreeBlock(a.root, a.discard);
    if st != Ok { return; }
    st := FreeLists(a, avail);
    if st != Ok { return; }
    st := MergeLists(a, b);
    if st != Ok { return; }
    if !keep {
      return;
    }
    RolledMeets(x, y);
    st := Overlaps.ExtlistOverlap(b.alloc, b.discard, avail);
    if st != Ok || !rewrite {
      return;
    }
    st := FreeBlock(b.allocAt, avail);
    if st != Ok { return; }
    st := FreeBlock(b.discardAt, avail);
  }

  lemma RolledMeets(x: Link, y: Link)
    ensures var raw := Rolled(x, y, false);
            && raw.alloc * raw.discard == (x.alloc + y.alloc) * (x.discard + x.root + y.discard)
            && Rolled(x, y, true) == Link(raw.alloc - raw.discard, raw.discard - raw.alloc, y.root)
  {
  }

  // ----- the loop over the checkpoints -----

  ghost predicate NoShare(a: Ckpt, b: Ckpt) {
    a.alloc != b.alloc && a.alloc != b.discard && a.discard != b.alloc && a.discard != b.discard
  }

  ghost predicate Separate(cs: seq<Ckpt>, avail: ExtList) {
    && (forall i :: 0 <= i < |cs| ==> avail != cs[i].alloc && avail != cs[i].discard)
    && (forall i, j {:trigger NoShare(cs[i], cs[j])} :: 0 <= i < j < |cs| ==> NoShare(cs[i], cs[j]))
  }

  ghost function ExtListsOf(cs: seq<Ckpt>): (r: set<ExtList>) {
    (set i | 0 <= i < |cs| :: cs[i].alloc) + (set i | 0 <= i < |cs| :: cs[i].discard)
  }

  ghost function Views(cs: seq<Ckpt>): (r: seq<Link>)
    reads cs, ExtListsOf(cs)
  {
    seq(|cs|, i requires 0 <= i < |cs| reads cs, ExtListsOf(cs) => cs[i].View())
  }

  ghost function Blocks(cs: seq<Ckpt>): (r: seq<Lists>)
    reads cs
  {
    seq(|cs|, i requires 0 <= i < |cs| reads cs => ListsOf(cs[i]))
  }

  /** What the chain's bookkeeping guarantees when checkpoints are deleted. */
  ghost predicate Deletable(c: seq<Link>, bs: seq<Lists>) {
    WellFormed(c) && ListsApart(bs) && Allocs(c) !! AllLists(bs)
  }

  /** The link a checkpoint that stays has in the end. */
  ghost function KeptAt(c: seq<Link>, del: seq<bool>, k: nat): (r: Link)
    requires k < |c| == |del|
  {
    var s := RollAll(c[..k], del[..k]);
    Absorb(s.alloc, s.discard, c[k])
  }

  /** The links that stay, in order. */
  ghost function Survivors(w: seq<Link>, del: seq<bool>): (r: seq<Link>)
    requires |w| == |del|
  {
    if w == [] then [] else
      Survivors(w[..|w| - 1], del[..|w| - 1]) + if del[|w| - 1] then [] else [w[|w| - 1]]
  }

  lemma {:induction false} SurvivorsAre(w: seq<Link>, c: seq<Link>, del: seq<bool>)
    requires |w| == |c| == |del|
    requires forall k :: 0 <= k < |c| && !del[k] ==> w[k] == KeptAt(c, del, k)
    ensures Survivors(w, del) == RollAll(c, del).kept
  {
    if c != [] {
      var m := |c| - 1;
      var w', c', d' := w[..m], c[..m], del[..m];
      forall k | 0 <= k < m && !d'[k] ensures w'[k] == KeptAt(c', d', k) {
        assert c'[..k] == c[..k] && d'[..k] == del[..k];
      }
      SurvivorsAre(w', c', d');
    }
  }

  /** The lists of checkpoint `k` when the loop reaches it. */
  ghost function Pending(c: seq<Link>, del: seq<bool>, k: nat): (r: Link)
    requires k < |c| == |del|
  {
    var s := RollAll(c[..k], del[..k]);
    if del[k] then Link(c[k].alloc + s.alloc, c[k].discard + s.discard, c[k].root) else KeptAt(c, del, k)
  }

  ghost function FreedAt(c: seq<Link>, del: seq<bool>, k: nat): (r: set<int>)
    requires k < |c| == |del|
  {
    RollAll(c[..k + 1], del[..k + 1]).freed
  }

  lemma RollAt(c: seq<Link>, del: seq<bool>, k: nat)
    requires k < |c| == |del|
    ensures RollAll(c[..k + 1], del[..k + 1]) == Roll(RollAll(c[..k], del[..k]), c[k], del[k])
  {
    assert c[..k + 1][..k] == c[..k] && del[..k + 1][..k] == del[..k];
  }

  lemma {:induction false} PrefixWellFormed(c: seq<Link>, k: nat)
    requires WellFormed(c) && k < |c|
    ensures WellFormed(c[..k]) && Next(Pages(c[..k]), Allocs(c[..k]), c[k])
    ensures Allocs(c[..k]) <= Allocs(c) && c[k].alloc <= Allocs(c)
  {
    var f := c[..|c| - 1];
    if k < |c| - 1 {
      PrefixWellFormed(f, k);
      assert f[..k] == c[..k];
    }
  }

  /** A well-formed link does not both allocate and discard a byte. */
  lemma LinkApart(c: seq<Link>, k: nat)
    requires WellFormed(c) && k < |c|
    ensures c[k].alloc !! c[k].discard && Absorb({}, {}, c[k]) == c[k]
  {
    PrefixWellFormed(c, k);
    PagesAllocated(c[..k]);
  }

  lemma PendingStart(c: seq<Link>, del: seq<bool>)
    requires WellFormed(c) && |c| == |del| > 0
    ensures Pending(c, del, 0) == c[0] && FreedAt(c, del, 0) == {}
  {
    RollAt(c, del, 0);
    LinkApart(c, 0);
    assert c[..0] == [] && del[..0] == [];
  }

  lemma PendingSkip(c: seq<Link>, del: seq<bool>, k: nat)
    requires WellFormed(c) && k + 1 < |c| == |del| && !del[k]
    ensures Pending(c, del, k + 1) == c[k + 1] && FreedAt(c, del, k + 1) == FreedAt(c, del, k)
  {
    RollAt(c, del, k);
    RollAt(c, del, k + 1);
    LinkApart(c, k + 1);
  }

  lemma PendingRoll(c: seq<Link>, del: seq<bool>, k: nat)
    requires WellFormed(c) && k + 1 < |c| == |del| && del[k]
    ensures var x, y, keep := Pending(c, del, k), c[k + 1], !del[k + 1];
            && Rolled(x, y, keep) == Pending(c, del, k + 1)
            && FreedAt(c, del, k + 1) ==
                 FreedAt(c, del, k) + if keep then (x.alloc + y.alloc) * (x.discard + x.root + y.discard) else {}
  {
    RollAt(c, del, k);
    RollAt(c, del, k + 1);
  }

  /** The free space, when the loop reaches checkpoint `i`. */
  ghost function FreeAt(c: seq<Link>, bs: seq<Lists>, del: seq<bool>, i: nat): (r: set<int>)
    requires i < |c| == |bs| == |del|
  {
    FreedAt(c, del, i) + Released(bs, del, i)
  }

  lemma PendingCanRoll(c: seq<Link>, bs: seq<Lists>, del: seq<bool>, k: nat)
    requires Deletable(c, bs) && k + 1 < |c| == |bs| == |del| && del[k]
    ensures CanRoll(Pending(c, del, k), c[k + 1], !del[k + 1], bs[k], bs[k + 1], Rewritten(del, k + 1),
                    FreeAt(c, bs, del, k))
  {
    ReleasesApart(bs, del, k);
    ApartPrefix(bs, k);
    ApartPrefix(bs, k + 1);
    PrefixWellFormed(c, k);
    PrefixWellFormed(c, k + 1);
    RollAt(c, del, k);
    DeleteKeepsMeaning(c[..k], del[..k]);
    DeleteKeepsMeaning(c[..k + 1], del[..k + 1]);
    PagesAllocated(c[..k]);
    PagesAllocated(c[..k + 1]);
    var s, t := RollAll(c[..k], del[..k]), RollAll(c[..k + 1], del[..k + 1]);
    PagesAllocated(s.kept);
    assert s.discard <= Allocs(c[..k]);
    CanRollSets(Pending(c, del, k), c[k + 1], !del[k + 1], bs[k], bs[k + 1], Rewritten(del, k + 1),
                t.freed, Released(bs, del, k), Allocs(c[..k + 1]), AllLists(bs));
  }

  lemma CanRollSets(x: Link, y: Link, keep: bool, xs: Lists, ys: Lists, rewrite: bool,
                    freed: set<int>, released: set<int>, allocs: set<int>, lists: set<int>)
    requires x.root !! x.discard && x.alloc <= allocs && y.alloc !! allocs && x.discard + x.root !! y.discard
    requires freed <= allocs && freed !! x.alloc && (allocs + y.alloc) !! lists
    requires ListBytes(xs) <= lists && released <= lists && OwnApart(xs) && ListBytes(xs) !! released
    requires rewrite ==> ys.alloc !! ys.discard && ys.alloc + ys.discard <= lists
    requires rewrite ==> ys.alloc + ys.discard !! released + ListBytes(xs)
    ensures CanRoll(x, y, keep, xs, ys, rewrite, freed + released)
  {
    var o := (x.alloc + y.alloc) * (x.discard + x.root + y.discard);
    assert o <= x.alloc + y.alloc;
    assert o !! freed && o !! lists;
  }

  /** Roll checkpoint `i` of the list into the next; the others are untouched. */
  method RollAtIndex(cs: seq<Ckpt>, i: nat, keep: bool, rewrite: bool, avail: ExtList) returns (st: Status)
    requires i + 1 < |cs| && (rewrite ==> keep)
    requires (forall k :: 0 <= k < |cs| ==> cs[k].Valid()) && avail.Valid() && Separate(cs, avail)
    modifies cs[i].discard, cs[i + 1].alloc, cs[i + 1].discard, avail
    ensures (forall k :: 0 <= k < |cs| ==> cs[k].Valid()) && avail.Valid()
    ensures forall k :: 0 <= k < |cs| && k != i && k != i + 1 ==> cs[k].View() == old(cs[k].View())
    ensures old(CanRoll(cs[i].View(), cs[i + 1].View(), keep,
                        ListsOf(cs[i]), ListsOf(cs[i + 1]), rewrite, avail.Held())) ==>
              && st == Ok
              && cs[i + 1].View() == Rolled(old(cs[i].View()), old(cs[i + 1].View()), keep)
              && avail.Held() == old(avail.Held()) +
                                 old(RollFrees(cs[i].View(), cs[i + 1].View(), keep,
                                               ListsOf(cs[i]), ListsOf(cs[i + 1]), rewrite))
  {
    hide ExtList.Valid, Space, Range, CanRoll, Rolled, RollFrees;
    assert NoShare(cs[i], cs[i + 1]);
    forall k | 0 <= k < |cs| && k != i && k != i + 1
      ensures NoShare(cs[k], cs[i]) && NoShare(cs[k], cs[i + 1])
    {
      Apart(cs, avail, k, i);
      Apart(cs, avail, k, i + 1);
    }
    st := RollInto(cs[i], cs[i + 1], keep, rewrite, avail);
  }

  /** The lists, when the loop reaches checkpoint `i`. */
  ghost predicate Reached(w: seq<Link>, c: seq<Link>, del: seq<bool>, i: nat) {
    && |w| == |c| == |del| && i < |c|
    && (forall k :: i < k < |c| ==> w[k] == c[k])
    && w[i] == Pending(c, del, i)
    && (forall k :: 0 <= k < i && !del[k] ==> w[k] == KeptAt(c, del, k))
  }

  lemma ReachedStart(c: seq<Link>, del: seq<bool>)
    requires WellFormed(c) && |c| == |del| > 0
    ensures Reached(c, c, del, 0)
  {
    PendingStart(c, del);
  }

  lemma ReachedSkip(w: seq<Link>, c: seq<Link>, del: seq<bool>, i: nat)
    requires Reached(w, c, del, i) && WellFormed(c) && i + 1 < |c| && !del[i]
    ensures Reached(w, c, del, i + 1)
  {
    PendingSkip(c, del, i);
  }

  lemma ReachedRoll(w: seq<Link>, w': seq<Link>, c: seq<Link>, del: seq<bool>, i: nat)
    requires Reached(w, c, del, i) && WellFormed(c) && i + 1 < |c| && del[i]
    requires |w'| == |w| && w'[i + 1] == Rolled(w[i], w[i + 1], !del[i + 1])
    requires forall k :: 0 <= k < |w| && k != i && k != i + 1 ==> w'[k] == w[k]
    ensures Reached(w', c, del, i + 1)
  {
    PendingRoll(c, del, i);
  }

  lemma FreeStart(c: seq<Link>, bs: seq<Lists>, del: seq<bool>)
    requires WellFormed(c) && |c| == |bs| == |del| > 0
    ensures FreeAt(c, bs, del, 0) == {}
  {
    PendingStart(c, del);
  }

  lemma FreeSkip(c: seq<Link>, bs: seq<Lists>, del: seq<bool>, i: nat)
    requires WellFormed(c) && i + 1 < |c| == |bs| == |del| && !del[i]
    ensures FreeAt(c, bs, del, i + 1) == FreeAt(c, bs, del, i)
  {
    PendingSkip(c, del, i);
    ReleasedNext(bs, del, i);
  }

  lemma FreeRoll(c: seq<Link>, bs: seq<Lists>, del: seq<bool>, i: nat)
    requires WellFormed(c) && i + 1 < |c| == |bs| == |del| && del[i]
    ensures FreeAt(c, bs, del, i + 1) ==
              FreeAt(c, bs, del, i) +
              RollFrees(Pending(c, del, i), c[i + 1], !del[i + 1], bs[i], bs[i + 1], Rewritten(del, i + 1))
  {
    PendingRoll(c, del, i);
    ReleasedNext(bs, del, i);
  }

  /** The loop body, for checkpoint `i`. */
  method DeleteAt(cs: seq<Ckpt>, del: seq<bool>, i: nat, avail: ExtList, ghost c: seq<Link>, ghost bs: seq<Lists>)
    returns (st: Status)
    requires i + 1 < |cs| == |del| == |c| == |bs|
    requires (forall k :: 0 <= k < |cs| ==> cs[k].Valid()) && avail.Valid() && Separate(cs, avail)
    requires Blocks(cs) == bs
    modifies cs[i].discard, cs[i + 1].alloc, cs[i + 1].discard, avail
    ensures (forall k :: 0 <= k < |cs| ==> cs[k].Valid()) && avail.Valid()
    ensures Deletable(c, bs) && old(Reached(Views(cs), c, del, i) && avail.Held() == FreeAt(c, bs, del, i)) ==>
              st == Ok && Reached(Views(cs), c, del, i + 1) && avail.Held() == FreeAt(c, bs, del, i + 1)
  {
    hide ExtList.Valid, Space, Range, Ckpt.Valid, WellFormed, RollAll, Released, ListsApart, CanRoll, Rolled, KeptAt;
    hide Reached, RollFrees, FreeAt, Bytes;
    ghost var w := Views(cs);
    ghost var fine := Deletable(c, bs) && Reached(w, c, del, i) && avail.Held() == FreeAt(c, bs, del, i);
    if !del[i] {
      if fine {
        ReachedSkip(w, c, del, i);
        FreeSkip(c, bs, del, i);
      }
      return Ok;
    }
    if fine {
      ReachedHere(w, c, del, i);
      PendingCanRoll(c, bs, del, i);
      FreeRoll(c, bs, del, i);
      assert ListsOf(cs[i]) == bs[i] && ListsOf(cs[i + 1]) == bs[i + 1];
    }
    st := RollAtIndex(cs, i, !del[i + 1], !del[i + 1] && i + 1 < |cs| - 1, avail);
    if fine {
      ReachedRoll(w, Views(cs), c, del, i);
    }
  }

  /**
   Delete the checkpoints marked in `del`, rolling each into the next; the last entry is the live
   system.  If the chain is in order it still is afterwards, every checkpoint that stays refers to
   the same pages as before, and `avail` holds what nothing needs any more: the bytes no link refers
   to and the blocks of the extent lists that are gone or will be written again.
   */
  method DeleteCheckpoints(cs: seq<Ckpt>, del: seq<bool>, avail: ExtList) returns (st: Status)
    requires |cs| == |del| > 0 && !del[|del| - 1]
    requires (forall i :: 0 <= i < |cs| ==> cs[i].Valid()) && avail.Valid() && Separate(cs, avail)
    requires avail.Held() == {}
    modifies ExtListsOf(cs), avail
    ensures (forall i :: 0 <= i < |cs| ==> cs[i].Valid()) && avail.Valid()
    ensures var c, bs := old(Views(cs)), old(Blocks(cs));
            Deletable(c, bs) ==>
              var kept := Survivors(Views(cs), del);
              && st == Ok
              && kept == RollAll(c, del).kept
              && WellFormed(kept) && AllPages(kept) == KeptPages(c, del) && Roots(kept) == KeptRoots(c, del)
              && avail.Held() == (Used(c) - Used(kept)) + Released(bs, del, |bs| - 1)
  {
    hide ExtList.Valid, Space, Range, Ckpt.Valid, WellFormed, RollAll, Released, ListsApart, CanRoll, Rolled, KeptAt;
    hide Reached, RollFrees, FreeAt, Bytes;
    ghost var c, bs := Views(cs), Blocks(cs);
    ghost var fine := Deletable(c, bs);
    if fine {
      ReachedStart(c, del);
      FreeStart(c, bs, del);
    }
    var i := 0;
    while i < |cs| - 1
      invariant 0 <= i < |cs| && avail.Valid()
      invariant forall k :: 0 <= k < |cs| ==> cs[k].Valid()
      invariant fine ==> Reached(Views(cs), c, del, i) && avail.Held() == FreeAt(c, bs, del, i)
      invariant Blocks(cs) == bs
    {
      st := DeleteAt(cs, del, i, avail, c, bs);
      if st != Ok { return; }
      i := i + 1;
    }
    st := Ok;
    if fine {
      ReachedEnd(Views(cs), c, bs, del);
      SurvivorsAre(Views(cs), c, del);
      DeleteKeepsMeaning(c, del);
      DeleteFrees(c, del);
    }
  }

  lemma ReachedHere(w: seq<Link>, c: seq<Link>, del: seq<bool>, i: nat)
    requires Reached(w, c, del, i) && i + 1 < |c|
    ensures w[i] == Pending(c, del, i) && w[i + 1] == c[i + 1]
  {
  }

  lemma ReachedEnd(w: seq<Link>, c: seq<Link>, bs: seq<Lists>, del: seq<bool>)
    requires |c| == |bs| == |del| > 0 && !del[|c| - 1] && Reached(w, c, del, |c| - 1)
    ensures forall k :: 0 <= k < |c| && !del[k] ==> w[k] == KeptAt(c, del, k)
    ensures FreeAt(c, bs, del, |c| - 1) == RollAll(c, del).freed + Released(bs, del, |c| - 1)
  {
    assert c[..|c|] == c && del[..|c|] == del;
  }

  lemma ReleasedNext(bs: seq<Lists>, del: seq<bool>, i: nat)
    requires i < |bs| == |del|
    ensures Released(bs, del, i + 1) == Released(bs, del, i) + ReleasedAt(bs, del, i)
  {
  }

  lemma Apart(cs: seq<Ckpt>, avail: ExtList, i: nat, j: nat)
    requires Separate(cs, avail) && i < |cs| && j < |cs| && i != j
    ensures NoShare(cs[i], cs[j])
  {
    assert NoShare(cs[if i < j then i else j], cs[if i < j then j else i]);
  }
}
