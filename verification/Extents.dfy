/**
 Extent lists: the ranges of a file that are allocated, available or discarded.  A list keeps every
 extent twice, by offset and by size, and counts its entries and bytes.
 */
module Extents {
  import SkipLists

  datatype Ext = Ext(off: int, size: int, depth: nat)

  /** A by-size entry: the extents of one size, by offset. */
  datatype Size = Size(size: int, depth: nat, exts: seq<Ext>)

  // ----- ranges as sets of byte offsets -----

  ghost predicate InRange(x: int, off: int, size: int) {
    off <= x < off + size
  }

  ghost function Range(off: int, size: int): (r: set<int>) {
    set x | off <= x < off + size && InRange(x, off, size)
  }

  lemma {:induction false} RangeSize(off: int, size: nat)
    ensures |Range(off, size)| == size
  {
    if size == 0 {
      assert Range(off, size) == {};
    } else {
      RangeSize(off, size - 1);
      assert Range(off, size) == Range(off, size - 1) + {off + size - 1};
    }
  }

  ghost function Span(e: Ext): (r: set<int>) {
    Range(e.off, e.size)
  }

  /** The bytes an extent list covers. */
  ghost function Space(s: seq<Ext>): (r: set<int>) {
    if s == [] then {} else Space(s[..|s| - 1]) + Span(s[|s| - 1])
  }

  lemma {:induction false} SpaceConcat(a: seq<Ext>, b: seq<Ext>)
    ensures Space(a + b) == Space(a) + Space(b)
  {
    if b == [] {
      assert a + b == a;
    } else {
      SpaceConcat(a, b[..|b| - 1]);
      assert (a + b)[..|a + b| - 1] == a + b[..|b| - 1];
    }
  }

  lemma {:induction false} SpaceAt(s: seq<Ext>, x: int) returns (i: nat)
    requires x in Space(s)
    ensures i < |s| && x in Span(s[i])
  {
    if x in Span(s[|s| - 1]) {
      i := |s| - 1;
    } else {
      i := SpaceAt(s[..|s| - 1], x);
    }
  }

  lemma SpaceHas(s: seq<Ext>, i: nat)
    requires i < |s|
    ensures Span(s[i]) <= Space(s)
  {
    assert s == s[..i] + [s[i]] + s[i + 1..];
    SpaceConcat(s[..i] + [s[i]], s[i + 1..]);
    SpaceConcat(s[..i], [s[i]]);
  }

  // ----- the by-offset index -----

  ghost predicate GoodExt(e: Ext) {
    e.size > 0 && 1 <= e.depth <= SkipLists.MAXDEPTH
  }

  /** `a` ends below the start of `b`, with a gap between the two. */
  ghost predicate Before(a: Ext, b: Ext) {
    a.off + a.size < b.off
  }

  /** Sorted, disjoint and fully coalesced: two extents of a list never even touch. */
  ghost predicate Ordered(s: seq<Ext>) {
    && (forall i :: 0 <= i < |s| ==> GoodExt(s[i]))
    && (forall i, j {:trigger Before(s[i], s[j])} :: 0 <= i < j < |s| ==> Before(s[i], s[j]))
  }

  function InsertAt<T>(s: seq<T>, k: nat, e: T): (r: seq<T>)
    requires k <= |s|
  {
    s[..k] + [e] + s[k..]
  }

  function RemoveAt<T>(s: seq<T>, k: nat): (r: seq<T>)
    requires k < |s|
  {
    s[..k] + s[k + 1..]
  }

  /** The first `m` elements are the same. */
  ghost predicate SamePrefix<T>(a: seq<T>, b: seq<T>, m: int) {
    0 <= m <= |a| && m <= |b| && a[..m] == b[..m]
  }

  lemma PrefixKept<T>(s: seq<T>, k: nat, e: T, m: nat)
    requires m <= k <= |s|
    ensures SamePrefix(s, InsertAt(s, k, e), m)
    ensures k < |s| ==> SamePrefix(s, RemoveAt(s, k), m) && SamePrefix(s, s[k := e], m)
  {
    assert InsertAt(s, k, e)[..m] == s[..m];
    assert k < |s| ==> RemoveAt(s, k)[..m] == s[..m] && s[k := e][..m] == s[..m];
  }

  lemma PrefixTrans<T>(a: seq<T>, b: seq<T>, c: seq<T>, m: nat, n: nat)
    requires m <= n && SamePrefix(a, b, n) && SamePrefix(b, c, m)
    ensures SamePrefix(a, c, m)
  {
    assert a[..m] == a[..n][..m] && b[..m] == b[..n][..m];
  }

  /** The extents before `k` start below `x`, the others do not. */
  ghost predicate Splits(s: seq<Ext>, x: int, k: nat) {
    && k <= |s|
    && (forall i :: 0 <= i < k ==> s[i].off < x)
    && (forall i :: k <= i < |s| ==> s[i].off >= x)
  }

  /** `e` can join `s` as an extent of its own. */
  ghost predicate Fits(s: seq<Ext>, e: Ext) {
    GoodExt(e) && forall i :: 0 <= i < |s| ==> Before(s[i], e) || Before(e, s[i])
  }

  lemma OrderedInsert(s: seq<Ext>, k: nat, e: Ext)
    requires Ordered(s) && Fits(s, e) && Splits(s, e.off, k)
    ensures Ordered(InsertAt(s, k, e))
  {
    var r := InsertAt(s, k, e);
    forall i, j | 0 <= i < j < |r| ensures Before(r[i], r[j]) {
      var i0, j0 := if i < k then i else i - 1, if j < k then j else j - 1;
      assert i != k ==> r[i] == s[i0];
      assert j != k ==> r[j] == s[j0];
      assert i != k && j != k ==> Before(s[i0], s[j0]);
    }
  }

  lemma SpaceInsert(s: seq<Ext>, k: nat, e: Ext)
    requires k <= |s|
    ensures Space(InsertAt(s, k, e)) == Space(s) + Span(e)
  {
    hide Space, Range;
    var a, b := s[..k], s[k..];
    SpaceConcat(a + [e], b);
    SpaceConcat(a, [e]);
    SpaceConcat(a, b);
    assert s == a + b;
    SpaceOne(e);
    calc {
      Space(InsertAt(s, k, e));
      Space(a) + Span(e) + Space(b);
      { UnionSwap(Space(a), Span(e), Space(b)); }
      Space(a) + Space(b) + Span(e);
    }
  }

  lemma SpaceOne(e: Ext)
    ensures Space([e]) == Span(e)
  {
    assert [e][..0] == [];
  }

  lemma UnionSwap(a: set<int>, b: set<int>, c: set<int>)
    ensures a + b + c == a + c + b
  {
  }

  lemma FitsApart(s: seq<Ext>, e: Ext)
    requires Fits(s, e)
    ensures Space(s) !! Span(e)
  {
    forall x | x in Space(s) ensures x !in Span(e) {
      var i := SpaceAt(s, x);
    }
  }

  lemma OrderedRemove(s: seq<Ext>, k: nat)
    requires Ordered(s) && k < |s|
    ensures Ordered(RemoveAt(s, k)) && Fits(RemoveAt(s, k), s[k]) && Splits(RemoveAt(s, k), s[k].off, k)
    ensures InsertAt(RemoveAt(s, k), k, s[k]) == s
  {
    var r := RemoveAt(s, k);
    forall i | 0 <= i < |r| ensures if i < k then Before(r[i], s[k]) else Before(s[k], r[i]) {
      assert i < k ==> Before(s[i], s[k]);
      assert i >= k ==> Before(s[k], s[i + 1]);
    }
    forall i, j | 0 <= i < j < |r| ensures Before(r[i], r[j]) {
      assert Before(s[if i < k then i else i + 1], s[if j < k then j else j + 1]);
    }
  }

  lemma SpaceRemove(s: seq<Ext>, k: nat)
    requires Ordered(s) && k < |s|
    ensures Space(RemoveAt(s, k)) == Space(s) - Span(s[k]) && Span(s[k]) <= Space(s)
  {
    OrderedRemove(s, k);
    SpaceInsert(RemoveAt(s, k), k, s[k]);
    FitsApart(RemoveAt(s, k), s[k]);
  }

  lemma SplitsUnique(s: seq<Ext>, x: int, k: nat, l: nat)
    requires Splits(s, x, k) && Splits(s, x, l)
    ensures k == l
  {
    assert k < |s| ==> s[k].off >= x;
    assert l < |s| ==> s[l].off >= x;
  }

  /** The range fits between its neighbours, possibly touching them. */
  ghost predicate Clear(s: seq<Ext>, k: nat, x: int, n: int)
    requires k <= |s|
  {
    && (k > 0 ==> s[k - 1].off + s[k - 1].size <= x)
    && (k < |s| ==> x + n <= s[k].off)
  }

  /** Looking at the two neighbours is enough to tell whether a range meets any extent. */
  lemma ClearIff(s: seq<Ext>, k: nat, x: int, n: int)
    requires Ordered(s) && Splits(s, x, k) && n > 0
    ensures Clear(s, k, x, n) <==> Range(x, n) !! Space(s)
  {
    if Clear(s, k, x, n) {
      forall y | y in Space(s) ensures y !in Range(x, n) {
        var i := SpaceAt(s, y);
        if i < k - 1 { assert Before(s[i], s[k - 1]); }
        if k < i { assert Before(s[k], s[i]); }
      }
    } else if k > 0 && s[k - 1].off + s[k - 1].size > x {
      SpaceHas(s, k - 1);
      assert x in Span(s[k - 1]) && x in Range(x, n);
    } else {
      SpaceHas(s, k);
      assert s[k].off in Span(s[k]) && s[k].off in Range(x, n);
    }
  }

  lemma FitsGap(s: seq<Ext>, k: nat, e: Ext)
    requires Ordered(s) && GoodExt(e) && k <= |s|
    requires (k > 0 ==> Before(s[k - 1], e)) && (k < |s| ==> Before(e, s[k]))
    ensures Fits(s, e) && Splits(s, e.off, k)
  {
    forall i | 0 <= i < |s| ensures if i < k then Before(s[i], e) else Before(e, s[i]) {
      if i < k - 1 { assert Before(s[i], s[k - 1]); }
      if k < i { assert Before(s[k], s[i]); }
      assert GoodExt(s[i]);
    }
  }

  /** Taking out extent `i` and putting `e` in its place. */
  lemma SwapAt(s: seq<Ext>, i: nat, e: Ext)
    requires Ordered(s) && i < |s| && GoodExt(e)
    requires (i > 0 ==> Before(s[i - 1], e)) && (i + 1 < |s| ==> Before(e, s[i + 1]))
    ensures Fits(RemoveAt(s, i), e) && Splits(RemoveAt(s, i), e.off, i)
    ensures InsertAt(RemoveAt(s, i), i, e) == s[i := e]
  {
    OrderedRemove(s, i);
    FitsGap(RemoveAt(s, i), i, e);
  }

  lemma RangeJoin(x: int, m: nat, n: nat)
    ensures Range(x, m) + Range(x + m, n) == Range(x, m + n) && Range(x, m) !! Range(x + m, n)
  {
  }

  // ----- the by-size index -----

  /** The extents of one size, in list order. */
  ghost function OfSize(s: seq<Ext>, n: int): (r: seq<Ext>) {
    if s == [] then [] else OfSize(s[..|s| - 1], n) + (if s[|s| - 1].size == n then [s[|s| - 1]] else [])
  }

  ghost predicate HasSize(sz: seq<Size>, n: int) {
    exists i :: 0 <= i < |sz| && sz[i].size == n
  }

  ghost predicate GoodSize(off: seq<Ext>, b: Size) {
    1 <= b.depth <= SkipLists.MAXDEPTH && b.exts == OfSize(off, b.size) && b.exts != []
  }

  ghost predicate Smaller(a: Size, b: Size) {
    a.size < b.size
  }

  ghost predicate Ascending(sz: seq<Size>) {
    forall i, j {:trigger Smaller(sz[i], sz[j])} :: 0 <= i < j < |sz| ==> Smaller(sz[i], sz[j])
  }

  ghost predicate GoodSizes(off: seq<Ext>, sz: seq<Size>) {
    forall i :: 0 <= i < |sz| ==> GoodSize(off, sz[i])
  }

  ghost predicate AllSizes(off: seq<Ext>, sz: seq<Size>) {
    forall k :: 0 <= k < |off| ==> HasSize(sz, off[k].size)
  }

  /** `sz` groups exactly the extents of `off`, by ascending size and within a size by offset. */
  ghost predicate Indexed(off: seq<Ext>, sz: seq<Size>) {
    Ascending(sz) && GoodSizes(off, sz) && AllSizes(off, sz)
  }

  ghost predicate SizeSplits(sz: seq<Size>, n: int, k: nat) {
    && k <= |sz|
    && (forall i :: 0 <= i < k ==> sz[i].size < n)
    && (forall i :: k <= i < |sz| ==> sz[i].size >= n)
  }

  lemma {:induction false} OfSizeConcat(a: seq<Ext>, b: seq<Ext>, n: int)
    ensures OfSize(a + b, n) == OfSize(a, n) + OfSize(b, n)
  {
    if b == [] {
      assert a + b == a;
    } else {
      OfSizeConcat(a, b[..|b| - 1], n);
      assert (a + b)[..|a + b| - 1] == a + b[..|b| - 1];
    }
  }

  lemma OfSizeInsert(s: seq<Ext>, k: nat, e: Ext, n: int)
    requires k <= |s|
    ensures |OfSize(s[..k], n)| <= |OfSize(s, n)|
    ensures OfSize(InsertAt(s, k, e), n) ==
              if e.size == n then InsertAt(OfSize(s, n), |OfSize(s[..k], n)|, e) else OfSize(s, n)
  {
    OfSizeConcat(s[..k], s[k..], n);
    assert s == s[..k] + s[k..];
    OfSizeConcat(s[..k], [e], n);
    OfSizeConcat(s[..k] + [e], s[k..], n);
    assert OfSize([e], n) == if e.size == n then [e] else [];
  }

  lemma {:induction false} OfSizeIn(s: seq<Ext>, n: int, i: nat)
    requires i < |OfSize(s, n)|
    ensures OfSize(s, n)[i].size == n && OfSize(s, n)[i] in s
  {
    if i < |OfSize(s[..|s| - 1], n)| {
      OfSizeIn(s[..|s| - 1], n, i);
    }
  }

  lemma {:induction false} OfSizeOrdered(s: seq<Ext>, n: int)
    requires Ordered(s)
    ensures Ordered(OfSize(s, n))
  {
    if s != [] {
      var m := |s| - 1;
      var t, r := s[..m], OfSize(s, n);
      assert forall i, j {:trigger Before(t[i], t[j])} :: 0 <= i < j < m ==> Before(s[i], s[j]);
      OfSizeOrdered(t, n);
      forall i, j | 0 <= i < j < |r| ensures Before(r[i], r[j]) {
        OfSizeIn(t, n, i);
        if j < |OfSize(t, n)| {
          assert Before(OfSize(t, n)[i], OfSize(t, n)[j]);
        } else {
          var i0 :| 0 <= i0 < m && t[i0] == r[i];
          assert Before(s[i0], s[m]);
        }
      }
      forall i | 0 <= i < |r| ensures GoodExt(r[i]) {
        OfSizeIn(s, n, i);
      }
    }
  }

  /** The extents of one size split where the whole list does. */
  lemma OfSizeSplits(s: seq<Ext>, k: nat, x: int, n: int)
    requires Splits(s, x, k)
    ensures Splits(OfSize(s, n), x, |OfSize(s[..k], n)|)
  {
    var l, h := s[..k], s[k..];
    OfSizeConcat(l, h, n);
    assert s == l + h;
    forall i | 0 <= i < |OfSize(l, n)| ensures OfSize(s, n)[i].off < x {
      OfSizeIn(l, n, i);
    }
    forall i | |OfSize(l, n)| <= i < |OfSize(s, n)| ensures OfSize(s, n)[i].off >= x {
      OfSizeIn(h, n, i - |OfSize(l, n)|);
    }
  }

  // Entering an extent of a new size.

  lemma AscendingInsert(sz: seq<Size>, j: nat, b: Size)
    requires Ascending(sz) && SizeSplits(sz, b.size, j) && (j < |sz| ==> sz[j].size != b.size)
    ensures Ascending(InsertAt(sz, j, b)) && !HasSize(sz, b.size)
  {
    var r := InsertAt(sz, j, b);
    forall i | j < i < |sz| ensures sz[i].size > b.size {
      assert Smaller(sz[j], sz[i]);
    }
    forall i, m | 0 <= i < m < |r| ensures Smaller(r[i], r[m]) {
      var i0, m0 := if i < j then i else i - 1, if m < j then m else m - 1;
      assert i != j ==> r[i] == sz[i0];
      assert m != j ==> r[m] == sz[m0];
      assert i != j && m != j ==> Smaller(sz[i0], sz[m0]);
    }
  }

  lemma HasSizeInsert(sz: seq<Size>, j: nat, b: Size, n: int)
    requires j <= |sz| && (HasSize(sz, n) || n == b.size)
    ensures HasSize(InsertAt(sz, j, b), n)
  {
    var r := InsertAt(sz, j, b);
    if n == b.size {
      assert r[j].size == n;
    } else {
      var i :| 0 <= i < |sz| && sz[i].size == n;
      assert r[if i < j then i else i + 1].size == n;
    }
  }

  lemma {:induction false} OfSizeNone(off: seq<Ext>, sz: seq<Size>, n: int)
    requires AllSizes(off, sz) && !HasSize(sz, n)
    ensures OfSize(off, n) == []
  {
    if off != [] {
      assert HasSize(sz, off[|off| - 1].size);
      OfSizeNone(off[..|off| - 1], sz, n);
    }
  }

  lemma IndexedNewSize(off: seq<Ext>, k: nat, sz: seq<Size>, j: nat, e: Ext)
    requires Indexed(off, sz) && GoodExt(e) && k <= |off|
    requires SizeSplits(sz, e.size, j) && (j < |sz| ==> sz[j].size != e.size)
    ensures Indexed(InsertAt(off, k, e), InsertAt(sz, j, Size(e.size, e.depth, [e])))
  {
    var b := Size(e.size, e.depth, [e]);
    var off', sz' := InsertAt(off, k, e), InsertAt(sz, j, b);
    AscendingInsert(sz, j, b);
    OfSizeNone(off, sz, e.size);
    forall i | 0 <= i < |sz'| ensures GoodSize(off', sz'[i]) {
      assert sz'[i] == if i < j then sz[i] else if i == j then b else sz[i - 1];
      OfSizeInsert(off, k, e, sz'[i].size);
      if i != j { assert HasSize(sz, sz'[i].size); }
    }
    AllSizesInsert(off, k, e, sz, sz', j, b);
  }

  lemma AllSizesInsert(off: seq<Ext>, k: nat, e: Ext, sz: seq<Size>, sz': seq<Size>, j: nat, b: Size)
    requires AllSizes(off, sz) && k <= |off| && j <= |sz| && b.size == e.size
    requires sz' == InsertAt(sz, j, b)
    ensures AllSizes(InsertAt(off, k, e), sz')
  {
    var off' := InsertAt(off, k, e);
    forall i | 0 <= i < |off'| ensures HasSize(sz', off'[i].size) {
      assert off'[i] == if i < k then off[i] else if i == k then e else off[i - 1];
      HasSizeInsert(sz, j, b, off'[i].size);
    }
  }

  // Entering an extent of a size that has an entry.

  /** The entries keep their sizes. */
  ghost predicate SameSizes(sz: seq<Size>, sz': seq<Size>) {
    |sz| == |sz'| && forall i :: 0 <= i < |sz| ==> sz[i].size == sz'[i].size
  }

  lemma SameSizesKeep(sz: seq<Size>, sz': seq<Size>)
    requires SameSizes(sz, sz') && Ascending(sz)
    ensures Ascending(sz') && forall n :: HasSize(sz, n) ==> HasSize(sz', n)
  {
    forall i, j | 0 <= i < j < |sz'| ensures Smaller(sz'[i], sz'[j]) {
      assert Smaller(sz[i], sz[j]);
    }
    forall n | HasSize(sz, n) ensures HasSize(sz', n) {
      var i :| 0 <= i < |sz| && sz[i].size == n;
      assert sz'[i].size == n;
    }
  }

  function Enlist(sz: seq<Size>, j: nat, l: nat, e: Ext): (r: seq<Size>)
    requires j < |sz| && l <= |sz[j].exts|
  {
    sz[j := sz[j].(exts := InsertAt(sz[j].exts, l, e))]
  }

  lemma GoodSizesInsert(off: seq<Ext>, k: nat, sz: seq<Size>, j: nat, e: Ext)
    requires Ascending(sz) && GoodSizes(off, sz) && k <= |off| && j < |sz| && sz[j].size == e.size
    requires |OfSize(off[..k], e.size)| <= |sz[j].exts|
    ensures GoodSizes(InsertAt(off, k, e), Enlist(sz, j, |OfSize(off[..k], e.size)|, e))
  {
    var sz' := Enlist(sz, j, |OfSize(off[..k], e.size)|, e);
    forall i | 0 <= i < |sz'| ensures GoodSize(InsertAt(off, k, e), sz'[i]) {
      OfSizeInsert(off, k, e, sz'[i].size);
      if i != j { assert Smaller(sz[if i < j then i else j], sz[if i < j then j else i]); }
    }
  }

  lemma IndexedOldSize(off: seq<Ext>, k: nat, sz: seq<Size>, j: nat, e: Ext)
    requires Indexed(off, sz) && k <= |off|
    requires j < |sz| && sz[j].size == e.size
    ensures |OfSize(off[..k], e.size)| <= |sz[j].exts|
    ensures Indexed(InsertAt(off, k, e), Enlist(sz, j, |OfSize(off[..k], e.size)|, e))
  {
    OfSizeInsert(off, k, e, e.size);
    var off', sz' := InsertAt(off, k, e), Enlist(sz, j, |OfSize(off[..k], e.size)|, e);
    SameSizesKeep(sz, sz');
    GoodSizesInsert(off, k, sz, j, e);
    forall i | 0 <= i < |off'| ensures HasSize(sz', off'[i].size) {
      assert off'[i] == if i < k then off[i] else if i == k then e else off[i - 1];
      assert sz[j].size == e.size;
    }
  }

  // Removing an extent.

  /** Removing an extent from its bucket, and the bucket itself when that empties it. */
  function Unlist(sz: seq<Size>, j: nat, l: nat): (r: seq<Size>)
    requires j < |sz| && l < |sz[j].exts|
  {
    if |sz[j].exts| == 1 then RemoveAt(sz, j) else sz[j := sz[j].(exts := RemoveAt(sz[j].exts, l))]
  }

  lemma OfSizeRemove(s: seq<Ext>, k: nat, n: int)
    requires k < |s|
    ensures s[k].size == n ==>
              && |OfSize(s[..k], n)| < |OfSize(s, n)| && OfSize(s, n)[|OfSize(s[..k], n)|] == s[k]
              && OfSize(RemoveAt(s, k), n) == RemoveAt(OfSize(s, n), |OfSize(s[..k], n)|)
    ensures s[k].size != n ==> OfSize(RemoveAt(s, k), n) == OfSize(s, n)
  {
    var r := RemoveAt(s, k);
    assert InsertAt(r, k, s[k]) == s && r[..k] == s[..k];
    OfSizeInsert(r, k, s[k], n);
  }

  lemma AscendingRemove(sz: seq<Size>, j: nat)
    requires Ascending(sz) && j < |sz|
    ensures Ascending(RemoveAt(sz, j))
    ensures forall n :: HasSize(sz, n) && n != sz[j].size ==> HasSize(RemoveAt(sz, j), n)
  {
    var r := RemoveAt(sz, j);
    forall i, m | 0 <= i < m < |r| ensures Smaller(r[i], r[m]) {
      assert Smaller(sz[if i < j then i else i + 1], sz[if m < j then m else m + 1]);
    }
    forall n | HasSize(sz, n) && n != sz[j].size ensures HasSize(r, n) {
      var i :| 0 <= i < |sz| && sz[i].size == n;
      assert r[if i < j then i else i - 1].size == n;
    }
  }

  lemma {:induction false} OfSizeHas(s: seq<Ext>, k: nat)
    requires k < |s|
    ensures OfSize(s, s[k].size) != []
  {
    if k < |s| - 1 {
      OfSizeHas(s[..|s| - 1], k);
    }
  }

  lemma IndexedRemove(off: seq<Ext>, k: nat, sz: seq<Size>, j: nat)
    requires Indexed(off, sz) && k < |off| && j < |sz| && sz[j].size == off[k].size
    ensures |OfSize(off[..k], off[k].size)| < |sz[j].exts|
    ensures Indexed(RemoveAt(off, k), Unlist(sz, j, |OfSize(off[..k], off[k].size)|))
  {
    var n, l := off[k].size, |OfSize(off[..k], off[k].size)|;
    OfSizeRemove(off, k, n);
    var off', sz' := RemoveAt(off, k), Unlist(sz, j, l);
    if |sz[j].exts| == 1 {
      AscendingRemove(sz, j);
    } else {
      SameSizesKeep(sz, sz');
    }
    GoodSizesRemove(off, k, sz, j);
    forall i | 0 <= i < |off'| ensures HasSize(sz', off'[i].size) {
      OfSizeHas(off', i);
      assert HasSize(sz, off[if i < k then i else i + 1].size);
    }
  }

  lemma GoodSizesRemove(off: seq<Ext>, k: nat, sz: seq<Size>, j: nat)
    requires Ascending(sz) && GoodSizes(off, sz) && k < |off| && j < |sz| && sz[j].size == off[k].size
    requires |OfSize(off[..k], off[k].size)| < |sz[j].exts|
    ensures GoodSizes(RemoveAt(off, k), Unlist(sz, j, |OfSize(off[..k], off[k].size)|))
  {
    var sz' := Unlist(sz, j, |OfSize(off[..k], off[k].size)|);
    forall i | 0 <= i < |sz'| ensures GoodSize(RemoveAt(off, k), sz'[i]) {
      OfSizeRemove(off, k, sz'[i].size);
      var i0 := if |sz[j].exts| == 1 && i >= j then i + 1 else i;
      if i0 != j {
        assert sz'[i] == sz[i0];
        assert Smaller(sz[if i0 < j then i0 else j], sz[if i0 < j then j else i0]);
      }
    }
  }
}
