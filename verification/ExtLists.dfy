/** The extent list object of the block manager and the operations on one list. */
module ExtLists {
  import SkipLists
  import opened Basics
  import opened Extents

  datatype Status = Ok | NotFound | Invalid

  function Offs(s: seq<Ext>): (r: seq<int>) { seq(|s|, i requires 0 <= i < |s| => s[i].off) }

  function Depths(s: seq<Ext>): (r: seq<nat>) { seq(|s|, i requires 0 <= i < |s| => s[i].depth) }

  /** Search a by-offset skiplist, the primary one or the one of a size entry. */
  method OffSrch(s: seq<Ext>, x: int) returns (k: nat)
    requires Ordered(s)
    ensures Splits(s, x, k)
  {
    var stack;
    OffsSorted(s);
    k, stack := SkipLists.Search(Offs(s), Depths(s), x);
    assert forall i :: 0 <= i < |s| ==> Offs(s)[i] == s[i].off;
  }

  lemma OffsSorted(s: seq<Ext>)
    requires Ordered(s)
    ensures SkipLists.Sorted(Offs(s))
  {
    forall i, j | 0 <= i < j < |s| ensures Offs(s)[i] < Offs(s)[j] {
      assert Before(s[i], s[j]);
    }
  }

  method SizeSrch(sz: seq<Size>, n: int) returns (k: nat)
    requires Ascending(sz) && forall i :: 0 <= i < |sz| ==> 1 <= sz[i].depth <= SkipLists.MAXDEPTH
    ensures SizeSplits(sz, n, k)
  {
    var keys := seq(|sz|, i requires 0 <= i < |sz| => sz[i].size);
    forall i, j | 0 <= i < j < |sz| ensures keys[i] < keys[j] {
      assert Smaller(sz[i], sz[j]);
    }
    var stack;
    k, stack := SkipLists.Search(keys, seq(|sz|, i requires 0 <= i < |sz| => sz[i].depth), n);
    assert forall i :: 0 <= i < |sz| ==> keys[i] == sz[i].size;
  }

  lemma SizeFound(sz: seq<Size>, n: int, k: nat)
    requires Ascending(sz) && SizeSplits(sz, n, k) && HasSize(sz, n)
    ensures k < |sz| && sz[k].size == n
  {
    var i :| 0 <= i < |sz| && sz[i].size == n;
    if k < i { assert Smaller(sz[k], sz[i]); }
  }

  lemma OrderedSplits(s: seq<Ext>, k: nat)
    requires Ordered(s) && k < |s|
    ensures Splits(s, s[k].off, k)
  {
    forall i | 0 <= i < k ensures s[i].off < s[k].off {
      assert Before(s[i], s[k]);
    }
    forall i | k < i < |s| ensures s[i].off >= s[k].off {
      assert Before(s[k], s[i]);
    }
  }

  /** Enter an extent in both indexes; the by-size one may need an entry for a new size. */
  method InsertBoth(off: seq<Ext>, sz: seq<Size>, e: Ext) returns (k: nat, sz': seq<Size>)
    requires Ordered(off) && Indexed(off, sz) && Fits(off, e)
    ensures Splits(off, e.off, k) && Ordered(InsertAt(off, k, e)) && Indexed(InsertAt(off, k, e), sz')
  {
    k := OffSrch(off, e.off);
    OrderedInsert(off, k, e);
    var j := SizeSrch(sz, e.size);
    if j == |sz| || sz[j].size != e.size {
      IndexedNewSize(off, k, sz, j, e);
      sz' := InsertAt(sz, j, Size(e.size, e.depth, [e]));
    } else {
      var l := BucketSrch(off, sz, j, k, e.off);
      IndexedOldSize(off, k, sz, j, e);
      sz' := Enlist(sz, j, l, e);
    }
  }

  /** Take extent `k` out of the by-size index, and its size's entry when that empties it. */
  method RemoveBoth(off: seq<Ext>, sz: seq<Size>, k: nat) returns (sz': seq<Size>)
    requires Ordered(off) && Indexed(off, sz) && k < |off|
    ensures Ordered(RemoveAt(off, k)) && Indexed(RemoveAt(off, k), sz')
  {
    OrderedRemove(off, k);
    var j := SizeSrch(sz, off[k].size);
    assert HasSize(sz, off[k].size);
    SizeFound(sz, off[k].size, j);
    OrderedSplits(off, k);
    var l := BucketSrch(off, sz, j, k, off[k].off);
    IndexedRemove(off, k, sz, j);
    sz' := Unlist(sz, j, l);
  }

  /** Search the offset list of a size entry: it splits where the extents of that size do. */
  method BucketSrch(off: seq<Ext>, sz: seq<Size>, j: nat, ghost k: nat, x: int) returns (l: nat)
    requires Ordered(off) && Indexed(off, sz) && j < |sz| && Splits(off, x, k)
    ensures l == |OfSize(off[..k], sz[j].size)|
  {
    assert GoodSize(off, sz[j]);
    OfSizeOrdered(off, sz[j].size);
    OfSizeSplits(off, k, x, sz[j].size);
    l := OffSrch(sz[j].exts, x);
    SplitsUnique(sz[j].exts, x, l, |OfSize(off[..k], sz[j].size)|);
  }

  class ExtList {
    var off: seq<Ext>
    var sz: seq<Size>
    var entries: nat
    var bytes: nat

    /** Both indexes describe the same sorted, disjoint, coalesced extents; the counters are exact. */
    ghost predicate Valid() reads this {
      && Ordered(off) && Indexed(off, sz)
      && entries == |off| && bytes == |Space(off)|
    }

    /** The bytes of the file on this list. */
    ghost function Held(): (r: set<int>) reads this { Space(off) }

    constructor ()
      ensures Valid() && off == [] && Held() == {}
    {
      off, sz, entries, bytes := [], [], 0, 0;
    }

    /** Discard every extent; lists are re-used. */
    method Reset()
      modifies this
      ensures Valid() && off == [] && Held() == {}
    {
      off, sz, entries, bytes := [], [], 0, 0;
    }

    method ExtInsert(e: Ext) returns (ghost k: nat)
      requires Valid() && Fits(off, e)
      modifies this
      ensures Valid()
      ensures Splits(old(off), e.off, k) && off == InsertAt(old(off), k, e)
      ensures old(Held()) !! Span(e) && Held() == old(Held()) + Span(e)
    {
      var p, sz' := InsertBoth(off, sz, e);
      HeldInsert(off, p, e);
      off, sz := InsertAt(off, p, e), sz';
      entries, bytes := entries + 1, bytes + e.size;
      k := p;
    }

    method OffRemove(x: int) returns (r: Option<Ext>, ghost k: nat)
      requires Valid()
      modifies this
      ensures Valid()
      ensures r == None <==> forall i :: 0 <= i < |old(off)| ==> old(off)[i].off != x
      ensures r == None ==> unchanged(this)
      ensures r.Some? ==>
                && k < |old(off)| && old(off)[k] == r.value && r.value.off == x
                && off == RemoveAt(old(off), k) && Held() == old(Held()) - Span(r.value)
    {
      var p := OffSrch(off, x);
      k := p;
      if p == |off| || off[p].off != x {
        forall i | 0 <= i < |off| ensures off[i].off != x {
          if p < i { assert Before(off[p], off[i]); }
        }
        return None, k;
      }
      r := Some(off[p]);
      var sz' := RemoveBoth(off, sz, p);
      HeldRemove(off, p);
      entries, bytes := entries - 1, bytes - off[p].size;
      off, sz := RemoveAt(off, p), sz';
    }

    /** The last extent starting below `x` and the first one starting at or after it. */
    method OffSrchPair(x: int) returns (before: Option<Ext>, after: Option<Ext>, k: nat)
      requires Valid()
      ensures Splits(off, x, k)
      ensures before == if k > 0 then Some(off[k - 1]) else None
      ensures after == if k < |off| then Some(off[k]) else None
    {
      var p := OffSrch(off, x);
      before := if p > 0 then Some(off[p - 1]) else None;
      after := if p < |off| then Some(off[p]) else None;
      k := p;
    }

    /** Remove the extent at `x`, adjust it and re-insert it; it keeps its place in the list. */
    method Adjust(x: int, e: Ext, ghost i: nat)
      requires Valid() && i < |off| && off[i].off == x && GoodExt(e)
      requires (i > 0 ==> Before(off[i - 1], e)) && (i + 1 < |off| ==> Before(e, off[i + 1]))
      modifies this
      ensures Valid() && off == old(off)[i := e]
      ensures Span(old(off)[i]) <= old(Held())
      ensures Span(e) !! old(Held()) - Span(old(off)[i])
      ensures Held() == old(Held()) - Span(old(off)[i]) + Span(e)
    {
      SwapAt(off, i, e);
      SpaceHas(off, i);
      var ext, k := Drop(x, i);
      k := ExtInsert(e);
      SplitsUnique(RemoveAt(old(off), i), e.off, k, i);
    }

    /** Remove the extent at `x`, known to be there. */
    method Drop(x: int, ghost i: nat) returns (ext: Ext, ghost k: nat)
      requires Valid() && i < |off| && off[i].off == x
      modifies this
      ensures Valid() && k == i && ext == old(off)[i] && off == RemoveAt(old(off), i)
      ensures Held() == old(Held()) - Span(ext)
    {
      OrderedSplits(off, i);
      var r, p := OffRemove(x);
      OrderedSplits(old(off), p);
      SplitsUnique(old(off), x, p, i);
      return r.value, p;
    }

    /** Insert a range, coalescing it with the extents it touches; overlap is an error. */
    method Merge(x: int, n: int, ghost m: nat := 0) returns (st: Status)
      requires Valid() && n > 0
      requires m <= |off| && (m > 0 ==> off[m - 1].off + off[m - 1].size < x)
      modifies this
      ensures Valid()
      ensures st == Ok <==> Range(x, n) !! old(Held())
      ensures st == Ok ==> Held() == old(Held()) + Range(x, n)
      ensures st != Ok ==> st == Invalid && unchanged(this)
      ensures SamePrefix(old(off), off, m)
    {
      var before, after, k := OffSrchPair(x);
      ClearIff(off, k, x, n);
      if before.Some? {
        if before.value.off + before.value.size > x { return Invalid; }
        if before.value.off + before.value.size != x { before := None; }
      }
      if after.Some? {
        if x + n > after.value.off { return Invalid; }
        if x + n != after.value.off { after := None; }
      }
      Join(x, n, before, after, k);
      ClearPrefix(old(off), off, k, x, if before.Some? then k - 1 else k, m);
      return Ok;
    }

    /** The range touches `before` or `after` exactly when that one is given. */
    method Join(x: int, n: int, before: Option<Ext>, after: Option<Ext>, ghost k: nat)
      requires Valid() && n > 0 && Splits(off, x, k) && Clear(off, k, x, n)
      requires before == if k > 0 && off[k - 1].off + off[k - 1].size == x then Some(off[k - 1]) else None
      requires after == if k < |off| && x + n == off[k].off then Some(off[k]) else None
      modifies this
      ensures Valid()
      ensures Held() == old(Held()) + Range(x, n)
      ensures SamePrefix(old(off), off, if before.Some? then k - 1 else k)
    {
      Neighbours(off, k);
      if before == None && after == None {
        var depth :| 1 <= depth <= SkipLists.MAXDEPTH;
        FitsGap(off, k, Ext(x, n, depth));
        ghost var p := ExtInsert(Ext(x, n, depth));
        SplitsUnique(old(off), x, p, k);
        PrefixKept(old(off), k, Ext(x, n, depth), k);
      } else if before == None {
        var e := after.value.(off := x, size := after.value.size + n);
        GrowSpace(off, k, x, n, e);
        PrefixKept(off, k, e, k);
        Adjust(after.value.off, e, k);
      } else if after == None {
        var e := before.value.(size := before.value.size + n);
        GrowSpace(off, k - 1, x, n, e);
        PrefixKept(off, k - 1, e, k - 1);
        Adjust(before.value.off, e, k - 1);
      } else {
        JoinBoth(x, n, before.value, after.value, k);
      }
    }

    /** The range fills the whole gap between two extents: one extent is left. */
    method JoinBoth(x: int, n: int, before: Ext, after: Ext, ghost k: nat)
      requires Valid() && n > 0 && 0 < k < |off| && before == off[k - 1] && after == off[k]
      requires before.off + before.size == x && x + n == after.off
      modifies this
      ensures Valid()
      ensures Held() == old(Held()) + Range(x, n)
      ensures SamePrefix(old(off), off, k - 1)
    {
      var e := before.(size := before.size + n + after.size);
      JoinBothFits(off, k, e);
      JoinBothSpace(off, k, x, n, e);
      PrefixKept(off, k, e, k);
      PrefixKept(RemoveAt(off, k), k - 1, e, k - 1);
      PrefixTrans(off, RemoveAt(off, k), RemoveAt(off, k)[k - 1 := e], k - 1, k);
      var ext, p := Drop(after.off, k);
      Adjust(before.off, e, k - 1);
    }

    /** Remove a range lying at most in one extent; what is left of that extent stays on the list. */
    method RemoveOverlap(x: int, n: int) returns (st: Status)
      requires Valid() && n > 0
      requires forall i :: 0 <= i < |off| && !(Span(off[i]) !! Range(x, n)) ==> x + n <= off[i].off + off[i].size
      modifies this
      ensures Valid()
      ensures st == if Range(x, n) !! old(Held()) then NotFound else Ok
      ensures st == NotFound ==> unchanged(this)
      ensures Held() == old(Held()) - Range(x, n)
    {
      var before, after, k := OffSrchPair(x);
      ClearIff(off, k, x, n);
      if before.Some? && before.value.off + before.value.size > x {
        assert x in Span(off[k - 1]) && x in Range(x, n);
        OnlyOneMeets(off, k - 1, k, x, n);
        Cut(before.value.off, x, n, k - 1);
        return Ok;
      } else if after.Some? && x + n > after.value.off {
        assert off[k].off in Span(off[k]) && off[k].off in Range(x, n);
        OnlyOneMeets(off, k, k, x, n);
        Cut(after.value.off, x, n, k);
        return Ok;
      }
      return NotFound;
    }

    /** Take a range out of the extent at `o`, which it meets and does not outlast. */
    method Cut(o: int, x: int, n: int, i: nat)
      requires Valid() && n > 0 && i < |off| && off[i].off == o && o < x + n <= o + off[i].size
      requires forall j :: 0 <= j < |off| && j != i ==> Span(off[j]) !! Range(x, n)
      modifies this
      ensures Valid() && Held() == old(Held()) - Range(x, n)
    {
      Neighbours(off, i + 1);
      Neighbours(off, i);
      assert GoodExt(off[i]);
      var ext := off[i];
      var low := ext.(size := x - o);
      var high := Ext(x + n, o + ext.size - (x + n), ext.depth);
      CutSpace(off, i, x, n, Span(low), Span(high));
      if x > o {
        Adjust(o, low, i);
        if x + n < o + ext.size {
          var depth :| 1 <= depth <= SkipLists.MAXDEPTH;
          InsertGap(high.(depth := depth), i + 1);
          assert Span(high.(depth := depth)) == Span(high);
        }
      } else if x + n < o + ext.size {
        Adjust(o, high, i);
      } else {
        var _, _ := Drop(o, i);
      }
    }

    /** Insert an extent that belongs, with a gap to either side, before extent `i`. */
    method InsertGap(e: Ext, ghost i: nat)
      requires Valid() && i <= |off| && GoodExt(e)
      requires (i > 0 ==> Before(off[i - 1], e)) && (i < |off| ==> Before(e, off[i]))
      modifies this
      ensures Valid() && off == InsertAt(old(off), i, e)
      ensures Held() == old(Held()) + Span(e)
    {
      FitsGap(off, i, e);
      var k := ExtInsert(e);
      SplitsUnique(old(off), e.off, k, i);
    }
  }

  lemma CutSpace(s: seq<Ext>, i: nat, x: int, n: int, a: set<int>, b: set<int>)
    requires Ordered(s) && i < |s| && n > 0 && s[i].off < x + n <= s[i].off + s[i].size
    requires forall j :: 0 <= j < |s| && j != i ==> Span(s[j]) !! Range(x, n)
    requires a == Range(s[i].off, x - s[i].off)
    requires b == Range(x + n, s[i].off + s[i].size - (x + n))
    ensures Space(s) - Span(s[i]) + a + b == Space(s) - Range(x, n)
    ensures x <= s[i].off ==> Space(s) - Span(s[i]) + b == Space(s) - Range(x, n)
    ensures x + n == s[i].off + s[i].size ==> Space(s) - Span(s[i]) + a == Space(s) - Range(x, n)
    ensures x <= s[i].off && x + n == s[i].off + s[i].size ==> Space(s) - Span(s[i]) == Space(s) - Range(x, n)
  {
    SpaceHas(s, i);
    var h, e, r := Space(s), Span(s[i]), Range(x, n);
    forall y | y in h && y !in e ensures y !in r {
      var j := SpaceAt(s, y);
    }
    assert forall y :: y in a || y in b ==> y in e && y !in r;
    assert forall y :: y in e && y !in r ==> y in a || y in b;
    CutSets(h, e, r, a, b);
    assert x <= s[i].off ==> a == {};
    assert x + n == s[i].off + s[i].size ==> b == {};
  }

  lemma CutSets(h: set<int>, e: set<int>, r: set<int>, a: set<int>, b: set<int>)
    requires e <= h && (h - e) !! r && a + b == e - r
    ensures h - e + a + b == h - r
  {
    forall y ensures y in h - e + a + b <==> y in h - r {
      assert y in a + b <==> y in e - r;
    }
  }

  /** An extent that meets a range and its neighbours, which then do not. */
  lemma OnlyOneMeets(s: seq<Ext>, i: nat, k: nat, x: int, n: int)
    requires Ordered(s) && Splits(s, x, k) && n > 0 && i < |s| && x + n <= s[i].off + s[i].size
    requires (i + 1 == k && s[i].off + s[i].size > x) || (i == k && (k > 0 ==> s[k - 1].off + s[k - 1].size <= x))
    ensures forall j :: 0 <= j < |s| && j != i ==> Span(s[j]) !! Range(x, n)
  {
    forall j | 0 <= j < |s| && j != i ensures Span(s[j]) !! Range(x, n) {
      if j < i {
        assert Before(s[j], s[i]);
        if i == k && j + 1 < k { assert Before(s[j], s[k - 1]); }
      } else {
        assert Before(s[i], s[j]);
      }
    }
  }

  /** Growing an extent over a range that touches it adds that range. */
  lemma GrowSpace(s: seq<Ext>, k: nat, x: int, n: nat, e: Ext)
    requires Ordered(s) && k < |s| && e.size == s[k].size + n
    requires (e.off == x && x + n == s[k].off) || (e.off == s[k].off && e.off + s[k].size == x)
    ensures Space(s) - Span(s[k]) + Span(e) == Space(s) + Range(x, n)
  {
    SpaceHas(s, k);
    assert GoodExt(s[k]);
    if e.off == x {
      RangeJoin(x, n, s[k].size);
    } else {
      RangeJoin(e.off, s[k].size, n);
    }
    Regrow(Space(s), Span(s[k]), Range(x, n), {}, Span(e));
  }

  lemma JoinBothSpace(s: seq<Ext>, k: nat, x: int, n: nat, e: Ext)
    requires Ordered(s) && 0 < k < |s|
    requires s[k - 1].off + s[k - 1].size == x && x + n == s[k].off
    requires e.off == s[k - 1].off && e.size == s[k - 1].size + n + s[k].size
    ensures Space(s) - Span(s[k]) - Span(s[k - 1]) + Span(e) == Space(s) + Range(x, n)
  {
    SpaceHas(s, k - 1);
    SpaceHas(s, k);
    assert GoodExt(s[k - 1]) && GoodExt(s[k]) && Before(s[k - 1], s[k]);
    RangeJoin(x, n, s[k].size);
    RangeJoin(e.off, s[k - 1].size, n + s[k].size);
    Regrow(Space(s), Span(s[k - 1]), Range(x, n), Span(s[k]), Span(e));
  }

  lemma Neighbours(s: seq<Ext>, k: nat)
    requires Ordered(s) && k <= |s|
    ensures 1 < k ==> Before(s[k - 2], s[k - 1])
    ensures 0 < k < |s| ==> Before(s[k - 1], s[k])
    ensures k + 1 < |s| ==> Before(s[k], s[k + 1])
  {
  }

  lemma JoinBothFits(s: seq<Ext>, k: nat, e: Ext)
    requires Ordered(s) && 0 < k < |s| && GoodExt(e)
    requires e.off == s[k - 1].off && e.off + e.size == s[k].off + s[k].size
    ensures k > 1 ==> Before(RemoveAt(s, k)[k - 2], e)
    ensures k < |s| - 1 ==> Before(e, RemoveAt(s, k)[k])
  {
    assert k > 1 ==> Before(s[k - 2], s[k - 1]);
    assert k < |s| - 1 ==> Before(s[k], s[k + 1]);
  }

  lemma Regrow(h: set<int>, b: set<int>, r: set<int>, a: set<int>, e: set<int>)
    requires b <= h - a && a <= h && e == b + (r + a)
    ensures h - a - b + e == h + r
  {
  }

  /** Extents ending short of `x` are those before the split, up to one that touches `x`. */
  lemma ClearPrefix(s: seq<Ext>, t: seq<Ext>, k: nat, x: int, n: nat, m: nat)
    requires Ordered(s) && Splits(s, x, k) && SamePrefix(s, t, n)
    requires n == if k > 0 && s[k - 1].off + s[k - 1].size == x then k - 1 else k
    requires m <= |s| && (m > 0 ==> s[m - 1].off + s[m - 1].size < x)
    ensures SamePrefix(s, t, m)
  {
    if m > 0 { assert GoodExt(s[m - 1]) && s[m - 1].off < x; }
    assert s[..m] == s[..n][..m] && t[..m] == t[..n][..m];
  }

  lemma HeldInsert(s: seq<Ext>, k: nat, e: Ext)
    requires Fits(s, e) && k <= |s|
    ensures Space(s) !! Span(e)
    ensures Space(InsertAt(s, k, e)) == Space(s) + Span(e)
    ensures |Space(InsertAt(s, k, e))| == |Space(s)| + e.size
  {
    SpaceInsert(s, k, e);
    FitsApart(s, e);
    RangeSize(e.off, e.size);
  }

  lemma HeldRemove(s: seq<Ext>, k: nat)
    requires Ordered(s) && k < |s|
    ensures Space(RemoveAt(s, k)) == Space(s) - Span(s[k])
    ensures |Space(RemoveAt(s, k))| == |Space(s)| - s[k].size
  {
    SpaceRemove(s, k);
    RangeSize(s[k].off, s[k].size);
  }
}
