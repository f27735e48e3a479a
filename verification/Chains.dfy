/**
 The chain of checkpoints of a file, oldest first, as sets of file bytes: what each allocated, what
 it discarded and the bytes of its root page.  The live system is the last link of the chain.
 */
module Chains {

  datatype Link = Link(alloc: set<int>, discard: set<int>, root: set<int>)

  /**
   The pages a checkpoint refers to, as verification accumulates them: allocated somewhere up to this
   checkpoint, not discarded since, roots excepted.
   */
  ghost function Pages(c: seq<Link>): (r: set<int>) {
    if c == [] then {} else
      var l := c[|c| - 1];
      Pages(c[..|c| - 1]) + l.alloc - l.discard - l.root
  }

  ghost function Allocs(c: seq<Link>): (r: set<int>) {
    if c == [] then {} else Allocs(c[..|c| - 1]) + c[|c| - 1].alloc
  }

  /** Everything some link refers to: its pages and its root. */
  ghost function Used(c: seq<Link>): (r: set<int>) {
    if c == [] then {} else Used(c[..|c| - 1]) + Pages(c) + c[|c| - 1].root
  }

  /** Nothing is allocated twice, and only what the chain still refers to is discarded. */
  ghost predicate WellFormed(c: seq<Link>) {
    c == [] ||
    var f, l := c[..|c| - 1], c[|c| - 1];
    WellFormed(f) && Next(Pages(f), Allocs(f), l)
  }

  ghost predicate Next(pages: set<int>, allocs: set<int>, l: Link) {
    l.root <= l.alloc && l.discard <= pages && l.alloc !! allocs
  }

  lemma Snoc(c: seq<Link>, l: Link)
    ensures Pages(c + [l]) == Pages(c) + l.alloc - l.discard - l.root
    ensures Allocs(c + [l]) == Allocs(c) + l.alloc
    ensures Used(c + [l]) == Used(c) + Pages(c + [l]) + l.root
    ensures WellFormed(c + [l]) <==> WellFormed(c) && Next(Pages(c), Allocs(c), l)
  {
    assert (c + [l])[..|c + [l]| - 1] == c;
  }

  lemma {:induction false} PagesAllocated(c: seq<Link>)
    ensures Pages(c) <= Allocs(c)
  {
    if c != [] {
      PagesAllocated(c[..|c| - 1]);
    }
  }

  /** In a well-formed chain, what was allocated is exactly what some link refers to. */
  lemma {:induction false} UsedIsAllocated(c: seq<Link>)
    requires WellFormed(c)
    ensures Used(c) == Allocs(c)
  {
    if c != [] {
      var f, l := c[..|c| - 1], c[|c| - 1];
      UsedIsAllocated(f);
      PagesAllocated(f);
      UsedStep(Pages(f), Allocs(f), l);
    }
  }

  lemma UsedStep(p: set<int>, a: set<int>, l: Link)
    requires p <= a && Next(p, a, l)
    ensures a + (p + l.alloc - l.discard - l.root) + l.root == a + l.alloc
  {
    forall y | y in l.alloc ensures y !in l.discard {
      assert y !in p;
    }
  }

  // ----- deleting checkpoints -----

  /** The links kept so far, what deleted links before the next one carry into it, and what is free. */
  datatype Rolling = Rolling(kept: seq<Link>, alloc: set<int>, discard: set<int>, freed: set<int>)

  /** A link that stays takes over what was carried; what it then both allocates and discards is free. */
  ghost function Absorb(alloc: set<int>, discard: set<int>, l: Link): (r: Link) {
    var a, d := l.alloc + alloc, l.discard + discard;
    Link(a - d, d - a, l.root)
  }

  ghost function Roll(s: Rolling, l: Link, del: bool): (r: Rolling) {
    var a, d := l.alloc + s.alloc, l.discard + s.discard;
    if del then
      Rolling(s.kept, a, d + l.root, s.freed)
    else
      Rolling(s.kept + [Absorb(s.alloc, s.discard, l)], {}, {}, s.freed + a * d)
  }

  ghost function RollAll(c: seq<Link>, del: seq<bool>): (r: Rolling)
    requires |c| == |del|
  {
    if c == [] then Rolling([], {}, {}, {}) else
      Roll(RollAll(c[..|c| - 1], del[..|c| - 1]), c[|c| - 1], del[|c| - 1])
  }

  /** The pages of every link that stays. */
  ghost function KeptPages(c: seq<Link>, del: seq<bool>): (r: seq<set<int>>)
    requires |c| == |del|
  {
    if c == [] then [] else
      KeptPages(c[..|c| - 1], del[..|c| - 1]) + (if del[|c| - 1] then [] else [Pages(c)])
  }

  ghost function KeptRoots(c: seq<Link>, del: seq<bool>): (r: seq<set<int>>)
    requires |c| == |del|
  {
    if c == [] then [] else
      KeptRoots(c[..|c| - 1], del[..|c| - 1]) + (if del[|c| - 1] then [] else [c[|c| - 1].root])
  }

  ghost function AllPages(c: seq<Link>): (r: seq<set<int>>) {
    KeptPages(c, seq(|c|, i => false))
  }

  ghost function Roots(c: seq<Link>): (r: seq<set<int>>) {
    KeptRoots(c, seq(|c|, i => false))
  }

  /** What has been rolled agrees with the chain so far, once the carried bytes are counted in. */
  ghost predicate Agrees(pages: set<int>, allocs: set<int>, s: Rolling) {
    && WellFormed(s.kept)
    && pages == Pages(s.kept) + s.alloc - s.discard
    && s.alloc !! Allocs(s.kept) && s.discard <= Pages(s.kept) + s.alloc
    && allocs == Allocs(s.kept) + s.alloc + s.freed && s.freed !! Allocs(s.kept) + s.alloc
  }

  lemma AgreesDeleted(p: set<int>, a: set<int>, s: Rolling, l: Link)
    requires Agrees(p, a, s) && Next(p, a, l)
    ensures Agrees(p + l.alloc - l.discard - l.root, a + l.alloc, Roll(s, l, true))
  {
    PagesAllocated(s.kept);
    var k := Pages(s.kept);
    assert s.discard <= a;
    assert k + s.alloc - s.discard + l.alloc - l.discard - l.root
        == k + (l.alloc + s.alloc) - (l.discard + s.discard + l.root);
  }

  lemma AgreesKept(p: set<int>, a: set<int>, s: Rolling, l: Link)
    requires Agrees(p, a, s) && Next(p, a, l)
    ensures Agrees(p + l.alloc - l.discard - l.root, a + l.alloc, Roll(s, l, false))
    ensures Pages(Roll(s, l, false).kept) == p + l.alloc - l.discard - l.root
  {
    PagesAllocated(s.kept);
    var k, q := Pages(s.kept), Absorb(s.alloc, s.discard, l);
    Snoc(s.kept, q);
    assert s.discard <= a;
    assert p <= a;
    AbsorbPages(k, s.alloc, s.discard, l);
    assert Next(k, Allocs(s.kept), q);
  }

  lemma AbsorbPages(k: set<int>, alloc: set<int>, discard: set<int>, l: Link)
    requires alloc !! k && l.alloc !! k && l.alloc !! discard
    ensures var q := Absorb(alloc, discard, l);
            k + q.alloc - q.discard - q.root == k + alloc - discard + l.alloc - l.discard - l.root
  {
  }

  /**
   Deleting checkpoints: the chain stays well-formed, every checkpoint that stays refers to the same
   pages and root as before, and what becomes free is exactly what no link refers to any more.
   */
  lemma {:induction false} DeleteKeepsMeaning(c: seq<Link>, del: seq<bool>)
    requires |c| == |del| && WellFormed(c)
    ensures Agrees(Pages(c), Allocs(c), RollAll(c, del))
    ensures AllPages(RollAll(c, del).kept) == KeptPages(c, del)
    ensures Roots(RollAll(c, del).kept) == KeptRoots(c, del)
  {
    if c != [] {
      var f, fd, l, d := c[..|c| - 1], del[..|c| - 1], c[|c| - 1], del[|c| - 1];
      DeleteKeepsMeaning(f, fd);
      var s := RollAll(f, fd);
      if d {
        AgreesDeleted(Pages(f), Allocs(f), s, l);
      } else {
        AgreesKept(Pages(f), Allocs(f), s, l);
        var q := Absorb(s.alloc, s.discard, l);
        KeptSnoc(s.kept, q);
      }
    }
  }

  lemma KeptSnoc(c: seq<Link>, l: Link)
    ensures AllPages(c + [l]) == AllPages(c) + [Pages(c + [l])]
    ensures Roots(c + [l]) == Roots(c) + [l.root]
  {
    var d := c + [l];
    assert d[..|d| - 1] == c;
    assert seq(|d|, i => false)[..|d| - 1] == seq(|c|, i => false);
  }

  lemma {:induction false} FirstDiscardsNothing(c: seq<Link>)
    requires WellFormed(c) && c != []
    ensures c[0].discard == {}
  {
    if |c| > 1 {
      FirstDiscardsNothing(c[..|c| - 1]);
    } else {
      assert c[..0] == [];
    }
  }

  /** With the last link staying: nothing is left to carry, and the first link discards nothing. */
  lemma DeleteFrees(c: seq<Link>, del: seq<bool>)
    requires |c| == |del| > 0 && WellFormed(c) && !del[|c| - 1]
    ensures var s := RollAll(c, del);
            && s.freed == Used(c) - Used(s.kept)
            && s.alloc == {} && s.discard == {}
            && WellFormed(s.kept) && s.kept != [] && s.kept[0].discard == {}
            && Pages(s.kept) == Pages(c)
  {
    var s := RollAll(c, del);
    DeleteKeepsMeaning(c, del);
    UsedIsAllocated(c);
    UsedIsAllocated(s.kept);
    FirstDiscardsNothing(s.kept);
  }

  // ----- the blocks that hold the extent lists -----

  /** The file bytes of the blocks a checkpoint's three extent lists are written in. */
  datatype Lists = Lists(alloc: set<int>, avail: set<int>, discard: set<int>)

  ghost function ListBytes(t: Lists): (r: set<int>) {
    t.alloc + t.avail + t.discard
  }

  ghost predicate OwnApart(t: Lists) {
    t.alloc !! t.avail && t.alloc !! t.discard && t.avail !! t.discard
  }

  ghost function AllLists(bs: seq<Lists>): (r: set<int>) {
    if bs == [] then {} else AllLists(bs[..|bs| - 1]) + ListBytes(bs[|bs| - 1])
  }

  ghost predicate ListsApart(bs: seq<Lists>) {
    bs == [] ||
    (ListsApart(bs[..|bs| - 1]) && OwnApart(bs[|bs| - 1]) && ListBytes(bs[|bs| - 1]) !! AllLists(bs[..|bs| - 1]))
  }

  /** A checkpoint other than the new one is written again when the one before it is deleted. */
  ghost predicate Rewritten(del: seq<bool>, i: int) {
    0 < i < |del| - 1 && del[i - 1] && !del[i]
  }

  /** The list blocks given up by deleting link `i`: its own, and those of a link that is rewritten. */
  ghost function ReleasedAt(bs: seq<Lists>, del: seq<bool>, i: nat): (r: set<int>)
    requires i < |bs| == |del|
  {
    if !del[i] then {} else
      ListBytes(bs[i]) + if Rewritten(del, i + 1) then bs[i + 1].alloc + bs[i + 1].discard else {}
  }

  ghost function Released(bs: seq<Lists>, del: seq<bool>, n: nat): (r: set<int>)
    requires n <= |bs| == |del|
  {
    if n == 0 then {} else Released(bs, del, n - 1) + ReleasedAt(bs, del, n - 1)
  }

  lemma {:induction false} ReleasedWhere(bs: seq<Lists>, del: seq<bool>, n: nat)
    requires n <= |bs| == |del|
    ensures Released(bs, del, n) <=
              AllLists(bs[..n]) + if Rewritten(del, n) then bs[n].alloc + bs[n].discard else {}
  {
    if n > 0 {
      ReleasedWhere(bs, del, n - 1);
      assert bs[..n][..n - 1] == bs[..n - 1];
    }
  }

  lemma {:induction false} ApartPrefix(bs: seq<Lists>, n: nat)
    requires ListsApart(bs) && n < |bs|
    ensures ListsApart(bs[..n]) && OwnApart(bs[n]) && ListBytes(bs[n]) !! AllLists(bs[..n])
    ensures AllLists(bs[..n]) <= AllLists(bs) && ListBytes(bs[n]) <= AllLists(bs)
  {
    var f := bs[..|bs| - 1];
    if n < |bs| - 1 {
      ApartPrefix(f, n);
      assert f[..n] == bs[..n];
    }
  }

  /** Deleting link `i` gives up blocks that nothing before it gave up. */
  lemma ReleasesApart(bs: seq<Lists>, del: seq<bool>, i: nat)
    requires i < |bs| == |del| && ListsApart(bs) && del[i]
    ensures OwnApart(bs[i]) && ListBytes(bs[i]) !! Released(bs, del, i)
    ensures Rewritten(del, i + 1) ==>
              && bs[i + 1].alloc !! bs[i + 1].discard
              && bs[i + 1].alloc + bs[i + 1].discard !! Released(bs, del, i) + ListBytes(bs[i])
    ensures Released(bs, del, i + 1) <= AllLists(bs)
  {
    ReleasedWhere(bs, del, i);
    ApartPrefix(bs, i);
    if i + 1 < |bs| {
      ApartPrefix(bs, i + 1);
      assert bs[..i + 1][..i] == bs[..i];
    }
  }
}
