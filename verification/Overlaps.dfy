/**
 Reconciling a checkpoint's alloc and discard lists: what is on both was allocated and freed without
 any checkpoint in between needing it, so it moves to the list of newly available extents.
 */
module Overlaps {
  import opened Extents
  import opened ExtLists

  lemma EmptyOrNot(a: set<int>)
    ensures a == {} || exists x :: x in a
  {
    if forall x :: x !in a {
      assert a == {};
    }
  }

  lemma AnyOf(a: set<int>) returns (y: int)
    requires a != {}
    ensures y in a
  {
    EmptyOrNot(a);
    y :| y in a;
  }

  lemma Meet(a: set<int>, b: set<int>) returns (y: int)
    requires !(a !! b)
    ensures y in a && y in b
  {
    if a * b == {} {
      forall x | x in a ensures x !in b { assert x in b ==> x in a * b; }
    }
    y := AnyOf(a * b);
  }

  lemma ShrinkRange(h: set<int>, gone: set<int>, left: set<int>, e: set<int>)
    requires e <= h && (gone + left == e || left + gone == e) && gone !! left
    ensures h - e + left == h - gone
  {
    forall y ensures y in h - e + left <==> y in h - gone {
      assert y in e <==> y in gone + left;
    }
  }

  // ----- taking bytes from the extent at one place of a list -----

  method TakeAll(el: ExtList, i: nat)
    requires el.Valid() && i < |el.off|
    modifies el
    ensures el.Valid() && SamePrefix(old(el.off), el.off, i)
    ensures el.Held() == old(el.Held()) - old(Span(el.off[i]))
  {
    hide Space, Indexed, Ordered, SamePrefix, Range;
    PrefixKept(el.off, i, el.off[i], i);
    var _, _ := el.Drop(el.off[i].off, i);
  }

  method TakeFront(el: ExtList, i: nat, n: int)
    requires el.Valid() && i < |el.off| && 0 < n < el.off[i].size
    modifies el
    ensures el.Valid() && SamePrefix(old(el.off), el.off, i)
    ensures el.Held() == old(el.Held()) - Range(old(el.off[i].off), n)
  {
    hide Space, Indexed, Ordered, SamePrefix, Range;
    var a := el.off[i];
    var left := a.(off := a.off + n, size := a.size - n);
    GoodAt(el.off, i);
    Neighbours(el.off, i);
    Neighbours(el.off, i + 1);
    RangeJoin(a.off, n, a.size - n);
    PrefixKept(el.off, i, left, i);
    SpaceHas(el.off, i);
    ShrinkRange(el.Held(), Range(a.off, n), Span(left), Span(a));
    el.Adjust(a.off, left, i);
  }

  method TakeBack(el: ExtList, i: nat, n: int)
    requires el.Valid() && i < |el.off| && 0 < n < el.off[i].size
    modifies el
    ensures el.Valid() && SamePrefix(old(el.off), el.off, i)
    ensures el.Held() == old(el.Held()) - Range(old(el.off[i].off + el.off[i].size) - n, n)
  {
    hide Space, Indexed, Ordered, SamePrefix, Range;
    var a := el.off[i];
    var left := a.(size := a.size - n);
    GoodAt(el.off, i);
    Neighbours(el.off, i);
    Neighbours(el.off, i + 1);
    RangeJoin(a.off, a.size - n, n);
    PrefixKept(el.off, i, left, i);
    SpaceHas(el.off, i);
    ShrinkRange(el.Held(), Range(a.off + a.size - n, n), Span(left), Span(a));
    el.Adjust(a.off, left, i);
  }

  /** The range lies inside the extent, which splits: its trailing part becomes a new extent. */
  method TakeMiddle(el: ExtList, i: nat, x: int, n: int) returns (st: Status)
    requires el.Valid() && i < |el.off| && n > 0
    requires el.off[i].off < x && x + n < el.off[i].off + el.off[i].size
    modifies el
    ensures el.Valid() && SamePrefix(old(el.off), el.off, i)
    ensures st == Ok && el.Held() == old(el.Held()) - Range(x, n)
  {
    hide Space, Indexed, Ordered, SamePrefix, Range;
    var a := el.off[i];
    var off := x + n;
    var size := (a.off + a.size) - off;
    ghost var h := el.Held();
    TakeBack(el, i, n + size);
    ghost var s := el.off;
    RangeJoin(x, n, size);
    SpaceHas(old(el.off), i);
    InnerRange(a, x, n + size);
    Refill(h, Range(x, n + size), Range(x, n), Range(off, size));
    PrefixShort(old(el.off), s, i, off);
    st := el.Merge(off, size, i);
    PrefixTrans(old(el.off), s, el.off, i, i);
  }

  lemma InnerRange(a: Ext, x: int, n: int)
    requires a.off <= x && x + n <= a.off + a.size
    ensures Range(x, n) <= Span(a)
  {
  }

  lemma PrefixShort(s: seq<Ext>, t: seq<Ext>, i: nat, x: int)
    requires Ordered(s) && SamePrefix(s, t, i) && i < |s| && s[i].off < x
    ensures i <= |t| && (i > 0 ==> t[i - 1].off + t[i - 1].size < x)
  {
    if i > 0 {
      assert Before(s[i - 1], s[i]);
      assert t[i - 1] == t[..i][i - 1] == s[..i][i - 1];
    }
  }

  lemma Refill(h: set<int>, both: set<int>, gone: set<int>, back: set<int>)
    requires both == gone + back && gone !! back && both <= h
    ensures h - both + back == h - gone && h - both !! back
  {
    forall y ensures y in h - both + back <==> y in h - gone {
      assert y in both <==> y in gone + back;
    }
  }

  lemma GoodAt(s: seq<Ext>, i: nat)
    requires Ordered(s) && i < |s|
    ensures GoodExt(s[i])
  {
  }

  /** What two overlapping ranges share. */
  lemma CommonSpan(a: Ext, b: Ext)
    requires GoodExt(a) && GoodExt(b) && a.off <= b.off < a.off + a.size
    ensures a.off + a.size >= b.off + b.size ==> Span(a) * Span(b) == Span(b)
    ensures a.off == b.off && a.size <= b.size ==> Span(a) * Span(b) == Span(a)
    ensures a.off + a.size <= b.off + b.size ==>
              Span(a) * Span(b) == Range(b.off, a.off + a.size - b.off)
  {
  }

  lemma GoodPlace(el: ExtList, i: nat)
    requires el.Valid() && i < |el.off|
    ensures GoodExt(el.off[i])
  {
  }

  // ----- one overlap -----

  /**
   The bytes that extent `i` of `ael` and extent `j` of `bel` had in common have left both lists for
   `avail`, unless `avail` held some of them.  Places before `i` and `j` are as they were, so a place
   now holds what is left of its range or, when nothing is left, the next range.
   */
  twostate predicate Reconciled(ael: ExtList, i: nat, bel: ExtList, j: nat, avail: ExtList, st: Status)
    requires old(i < |ael.off| && j < |bel.off|)
    reads ael, bel, avail
  {
    var gone := old(Span(ael.off[i]) * Span(bel.off[j]));
    && ael.Valid() && bel.Valid() && avail.Valid()
    && (st == Ok <==> gone !! old(avail.Held()))
    && (st == Ok ==>
          && ael.Held() == old(ael.Held()) - gone && SamePrefix(old(ael.off), ael.off, i)
          && bel.Held() == old(bel.Held()) - gone && SamePrefix(old(bel.off), bel.off, j)
          && avail.Held() == old(avail.Held()) + gone)
  }

  /** Both ranges start at the same offset. */
  method SameStart(ael: ExtList, i: nat, bel: ExtList, j: nat, avail: ExtList) returns (st: Status)
    requires ael != bel && ael != avail && bel != avail
    requires ael.Valid() && bel.Valid() && avail.Valid() && i < |ael.off| && j < |bel.off|
    requires ael.off[i].off == bel.off[j].off
    modifies ael, bel, avail
    ensures Reconciled(ael, i, bel, j, avail, st)
  {
    hide ExtList.Valid, Space, SamePrefix, Range;
    var a, b := ael.off[i], bel.off[j];
    GoodPlace(ael, i);
    GoodPlace(bel, j);
    CommonSpan(a, b);
    if a.size == b.size {                       // the same range
      st := avail.Merge(b.off, b.size);
      if st != Ok { return; }
      TakeAll(ael, i);
      TakeAll(bel, j);
    } else if a.size > b.size {                 // B is a prefix of A
      TakeFront(ael, i, b.size);
      st := avail.Merge(b.off, b.size);
      if st != Ok { return; }
      TakeAll(bel, j);
    } else {                                    // A is a prefix of B
      TakeFront(bel, j, a.size);
      st := avail.Merge(a.off, a.size);
      if st != Ok { return; }
      TakeAll(ael, i);
    }
  }

  /** The second range starts later and ends no later. */
  method Inside(ael: ExtList, i: nat, bel: ExtList, j: nat, avail: ExtList) returns (st: Status)
    requires ael != bel && ael != avail && bel != avail
    requires ael.Valid() && bel.Valid() && avail.Valid() && i < |ael.off| && j < |bel.off|
    requires ael.off[i].off < bel.off[j].off
    requires bel.off[j].off + bel.off[j].size <= ael.off[i].off + ael.off[i].size
    modifies ael, bel, avail
    ensures Reconciled(ael, i, bel, j, avail, st)
  {
    hide ExtList.Valid, Space, SamePrefix, Range;
    var a, b := ael.off[i], bel.off[j];
    GoodPlace(ael, i);
    GoodPlace(bel, j);
    CommonSpan(a, b);
    if a.off + a.size == b.off + b.size {       // B is a suffix of A
      assert a.off + a.size - b.size == b.off;
      TakeBack(ael, i, b.size);
    } else {                                    // B is the middle of A
      st := TakeMiddle(ael, i, b.off, b.size);
    }
    assert ael.Held() == old(ael.Held()) - Span(b);
    st := avail.Merge(b.off, b.size);
    if st != Ok { return; }
    TakeAll(bel, j);
  }

  /** The second range starts within the first and ends after it. */
  method EndOverlap(ael: ExtList, i: nat, bel: ExtList, j: nat, avail: ExtList) returns (st: Status)
    requires ael != bel && ael != avail && bel != avail
    requires ael.Valid() && bel.Valid() && avail.Valid() && i < |ael.off| && j < |bel.off|
    requires ael.off[i].off < bel.off[j].off < ael.off[i].off + ael.off[i].size < bel.off[j].off + bel.off[j].size
    modifies ael, bel, avail
    ensures Reconciled(ael, i, bel, j, avail, st)
  {
    hide ExtList.Valid, Space, SamePrefix, Range;
    var a, b := ael.off[i], bel.off[j];
    GoodPlace(ael, i);
    GoodPlace(bel, j);
    CommonSpan(a, b);
    var off, size := b.off, (a.off + a.size) - b.off;
    assert a.off + a.size - size == off;
    st := avail.Merge(off, size);
    if st != Ok { return; }
    TakeBack(ael, i, size);
    assert ael.Held() == old(ael.Held()) - Range(off, size);
    TakeFront(bel, j, size);
  }

  method ExtOverlap(ael: ExtList, i: nat, bel: ExtList, j: nat, avail: ExtList) returns (st: Status)
    requires ael != bel && ael != avail && bel != avail
    requires ael.Valid() && bel.Valid() && avail.Valid() && i < |ael.off| && j < |bel.off|
    requires ael.off[i].off < bel.off[j].off + bel.off[j].size && bel.off[j].off < ael.off[i].off + ael.off[i].size
    modifies ael, bel, avail
    ensures Reconciled(ael, i, bel, j, avail, st)
  {
    hide ExtList.Valid, Space, SamePrefix;
    var a, b := ael.off[i], bel.off[j];
    if a.off > b.off {                          // swap, so that A starts no later
      assert Span(a) * Span(b) == Span(b) * Span(a);
      if b.off + b.size >= a.off + a.size {
        st := Inside(bel, j, ael, i, avail);
      } else {
        st := EndOverlap(bel, j, ael, i, avail);
      }
    } else if a.off == b.off {
      st := SameStart(ael, i, bel, j, avail);
    } else if a.off + a.size >= b.off + b.size {
      st := Inside(ael, i, bel, j, avail);
    } else {
      st := EndOverlap(ael, i, bel, j, avail);
    }
  }

  // ----- the parallel walk -----

  /** What the walk has passed on either list meets nothing on the other. */
  ghost predicate Passed(a: seq<Ext>, i: nat, b: seq<Ext>, j: nat) {
    i <= |a| && j <= |b| && Space(a[..i]) !! Space(b) && Space(b[..j]) !! Space(a)
  }

  lemma PassOne(a: seq<Ext>, i: nat, b: seq<Ext>, j: nat)
    requires Ordered(a) && Ordered(b) && Passed(a, i, b, j) && i < |a| && j < |b|
    requires a[i].off + a[i].size <= b[j].off
    ensures Passed(a, i + 1, b, j)
  {
    assert a[..i + 1] == a[..i] + [a[i]];
    SpaceConcat(a[..i], [a[i]]);
    SpaceOne(a[i]);
    SpaceHas(a, i);
    forall y | y in Space(b) ensures y !in Span(a[i]) {
      var q := SpaceAt(b, y);
      if q < j {
        assert b[..j][q] == b[q];
        SpaceHas(b[..j], q);
      } else if j < q {
        assert Before(b[j], b[q]);
      }
    }
  }

  lemma PassedSwap(a: seq<Ext>, i: nat, b: seq<Ext>, j: nat)
    requires Passed(a, i, b, j)
    ensures Passed(b, j, a, i)
  {
  }

  lemma PassedKept(a: seq<Ext>, i: nat, b: seq<Ext>, j: nat, a': seq<Ext>, b': seq<Ext>)
    requires Passed(a, i, b, j) && SamePrefix(a, a', i) && SamePrefix(b, b', j)
    requires Space(a') <= Space(a) && Space(b') <= Space(b)
    ensures Passed(a', i, b', j)
  {
  }

  lemma PassedEnd(a: seq<Ext>, i: nat, b: seq<Ext>, j: nat)
    requires Passed(a, i, b, j) && (i == |a| || j == |b|)
    ensures Space(a) !! Space(b)
  {
    assert a[..|a|] == a && b[..|b|] == b;
  }

  /** How far the walk has come: `moved` has left both lists for `avail`. */
  ghost predicate Walked(a0: set<int>, d0: set<int>, v0: set<int>, moved: set<int>,
                         a: set<int>, d: set<int>, v: set<int>) {
    moved <= a0 * d0 && moved !! v0 && a == a0 - moved && d == d0 - moved && v == v0 + moved
  }

  lemma WalkedStep(a0: set<int>, d0: set<int>, v0: set<int>, moved: set<int>,
                   a: set<int>, d: set<int>, v: set<int>, gone: set<int>)
    requires Walked(a0, d0, v0, moved, a, d, v) && gone <= a * d && gone != {} && gone !! v
    ensures Walked(a0, d0, v0, moved + gone, a - gone, d - gone, v + gone)
    ensures |a - gone| < |a| && |d - gone| < |d|
  {
    var y := AnyOf(gone);
    assert a - gone <= a - {y} && d - gone <= d - {y};
    Fewer(a - gone, a - {y});
    Fewer(d - gone, d - {y});
  }

  lemma {:induction false} Fewer(a: set<int>, b: set<int>)
    requires a <= b
    ensures |a| <= |b|
  {
    assert b == a + (b - a);
  }

  lemma WalkedEnd(a0: set<int>, d0: set<int>, v0: set<int>, moved: set<int>, a: set<int>, d: set<int>, v: set<int>)
    requires Walked(a0, d0, v0, moved, a, d, v) && a !! d
    ensures a == a0 - d0 && d == d0 - a0 && v == v0 + a0 * d0 && a0 * d0 !! v0
  {
    forall y | y in a0 * d0 ensures y in moved {
      assert y !in a || y !in d;
    }
    assert moved == a0 * d0;
  }

  /**
   Walk the alloc and discard lists in parallel and move every overlap to `avail`.  The walk stops
   with an error exactly when `avail` already holds some of what has to move.
   */
  method ExtlistOverlap(alloc: ExtList, discard: ExtList, avail: ExtList) returns (st: Status)
    requires alloc != discard && alloc != avail && discard != avail
    requires alloc.Valid() && discard.Valid() && avail.Valid()
    modifies alloc, discard, avail
    ensures alloc.Valid() && discard.Valid() && avail.Valid()
    ensures st == Ok <==> old(alloc.Held() * discard.Held()) !! old(avail.Held())
    ensures st == Ok ==>
              && alloc.Held() == old(alloc.Held()) - old(discard.Held())
              && discard.Held() == old(discard.Held()) - old(alloc.Held())
              && avail.Held() == old(avail.Held()) + old(alloc.Held() * discard.Held())
  {
    hide Space, Indexed, Walked, Passed;
    ghost var a0, d0, v0, moved := alloc.Held(), discard.Held(), avail.Held(), {};
    var i, j := 0, 0;
    WalkStart(alloc.off, discard.off, v0);
    while i < |alloc.off| && j < |discard.off|
      invariant alloc.Valid() && discard.Valid() && avail.Valid()
      invariant i <= |alloc.off| && j <= |discard.off| && Passed(alloc.off, i, discard.off, j)
      invariant Walked(a0, d0, v0, moved, alloc.Held(), discard.Held(), avail.Held())
      decreases |alloc.Held()|, |alloc.off| - i + |discard.off| - j
    {
      var a, b := alloc.off[i], discard.off[j];
      if a.off + a.size <= b.off {
        PassOne(alloc.off, i, discard.off, j);
        i := i + 1;
      } else if b.off + b.size <= a.off {
        PassedSwap(alloc.off, i, discard.off, j);
        PassOne(discard.off, j, alloc.off, i);
        PassedSwap(discard.off, j + 1, alloc.off, i);
        j := j + 1;
      } else {
        ghost var gone := Span(a) * Span(b);
        GoneIs(alloc.off, i, discard.off, j);
        ghost var wa, wd, wv, sa, sd := alloc.Held(), discard.Held(), avail.Held(), alloc.off, discard.off;
        st := ExtOverlap(alloc, i, discard, j, avail);
        if st != Ok {
          WalkFailed(a0, d0, v0, moved, wa, wd, wv, gone);
          return;
        }
        WalkedStep(a0, d0, v0, moved, wa, wd, wv, gone);
        PassedKept(sa, i, sd, j, alloc.off, discard.off);
        moved := moved + gone;
      }
    }
    PassedEnd(alloc.off, i, discard.off, j);
    WalkedEnd(a0, d0, v0, moved, alloc.Held(), discard.Held(), avail.Held());
    return Ok;
  }

  lemma WalkStart(a: seq<Ext>, b: seq<Ext>, v: set<int>)
    ensures Passed(a, 0, b, 0) && Walked(Space(a), Space(b), v, {}, Space(a), Space(b), v)
  {
    assert a[..0] == [] && b[..0] == [];
  }

  lemma GoneIs(a: seq<Ext>, i: nat, b: seq<Ext>, j: nat)
    requires Ordered(a) && Ordered(b) && i < |a| && j < |b|
    requires a[i].off < b[j].off + b[j].size && b[j].off < a[i].off + a[i].size
    ensures Span(a[i]) * Span(b[j]) <= Space(a) * Space(b) && Span(a[i]) * Span(b[j]) != {}
  {
    SpaceHas(a, i);
    SpaceHas(b, j);
    assert GoodExt(a[i]) && GoodExt(b[j]);
    var y := if a[i].off < b[j].off then b[j].off else a[i].off;
    assert y in Span(a[i]) * Span(b[j]);
  }

  lemma WalkFailed(a0: set<int>, d0: set<int>, v0: set<int>, moved: set<int>,
                   a: set<int>, d: set<int>, v: set<int>, gone: set<int>)
    requires Walked(a0, d0, v0, moved, a, d, v) && gone <= a * d && !(gone !! v)
    ensures !(a0 * d0 !! v0)
  {
    var y := Meet(gone, v);
    assert y in a0 * d0 && y in v0;
  }
}
