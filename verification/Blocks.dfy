/** The block manager of one file: the live extent lists, allocation, frees and the file's size. */
module Blocks {
  import opened Extents
  import opened ExtLists
  import Checkpoints
  import opened BlockRuns
  import opened Units

  const INT64_MAX: int := 0x7fff_ffff_ffff_ffff

  // ----- best fit -----

  /** The lowest of the extents of the smallest sufficient size. */
  ghost predicate BestFit(s: seq<Ext>, n: int, e: Ext) {
    && e in s && e.size >= n
    && forall i :: 0 <= i < |s| && s[i].size >= n ==> e.size < s[i].size || (e.size == s[i].size && e.off <= s[i].off)
  }

  ghost predicate NoFit(s: seq<Ext>, n: int) {
    forall i :: 0 <= i < |s| ==> s[i].size < n
  }

  /** The first extent of the first size entry that is large enough. */
  lemma BySizeFinds(off: seq<Ext>, sz: seq<Size>, j: nat, n: int)
    requires Ordered(off) && Indexed(off, sz) && SizeSplits(sz, n, j)
    ensures if j < |sz| then sz[j].exts != [] && BestFit(off, n, sz[j].exts[0]) else NoFit(off, n)
  {
    forall i | 0 <= i < |off| && off[i].size >= n
      ensures j < |sz| && sz[j].exts != []
      ensures sz[j].size < off[i].size || (sz[j].size == off[i].size && sz[j].exts[0].off <= off[i].off)
    {
      assert HasSize(sz, off[i].size);
      var m :| 0 <= m < |sz| && sz[m].size == off[i].size;
      assert GoodSize(off, sz[m]) && GoodSize(off, sz[j]);
      if m != j {
        assert Smaller(sz[j], sz[m]);
      } else {
        FirstOfSize(off, i);
      }
    }
    if j < |sz| {
      assert GoodSize(off, sz[j]);
      OfSizeIn(off, sz[j].size, 0);
    }
  }

  lemma {:induction false} FirstOfSize(s: seq<Ext>, i: nat)
    requires Ordered(s) && i < |s|
    ensures OfSize(s, s[i].size) != [] && OfSize(s, s[i].size)[0].off <= s[i].off
  {
    var m := |s| - 1;
    var t := s[..m];
    assert forall a, b {:trigger Before(t[a], t[b])} :: 0 <= a < b < m ==> Before(s[a], s[b]);
    if i < m {
      FirstOfSize(t, i);
    } else if OfSize(t, s[i].size) != [] {
      OfSizeIn(t, s[i].size, 0);
      var k :| 0 <= k < m && t[k] == OfSize(t, s[i].size)[0];
      assert Before(s[k], s[m]) && GoodExt(s[k]);
    }
  }

  /** A contiguous range covered by a coalesced list lies within one of its extents. */
  lemma WithinOne(s: seq<Ext>, x: int, n: int)
    requires Ordered(s) && n > 0 && Range(x, n) <= Space(s)
    ensures forall i :: 0 <= i < |s| && !(Span(s[i]) !! Range(x, n)) ==> x + n <= s[i].off + s[i].size
  {
    assert x in Range(x, n);
    var k := SpaceAt(s, x);
    NotTouched(s, k);
    assert s[k].off + s[k].size !in Range(x, n);
    forall i | 0 <= i < |s| && i != k ensures Span(s[i]) !! Range(x, n) {
      if i < k { assert Before(s[i], s[k]); } else { assert Before(s[k], s[i]); }
    }
  }

  // ----- the manager -----

  class Manager {
    const allocsize: int
    var fileSize: int
    const alloc: ExtList
    const discard: ExtList
    const avail: ExtList
    const ckptAvail: ExtList

    ghost predicate Valid()
      reads this, alloc, discard, avail, ckptAvail
    {
      && allocsize > 0
      && alloc != discard && alloc != avail && alloc != ckptAvail
      && discard != avail && discard != ckptAvail && avail != ckptAvail
      && alloc.Valid() && discard.Valid() && avail.Valid() && ckptAvail.Valid()
    }

    constructor (allocsize: int)
      requires allocsize > 0
      ensures Valid() && fresh({alloc, discard, avail, ckptAvail})
      ensures alloc.Held() == {} && discard.Held() == {} && avail.Held() == {} && ckptAvail.Held() == {}
      ensures this.allocsize == allocsize && fileSize == DESC_SECTOR
    {
      this.allocsize, fileSize := allocsize, DESC_SECTOR;
      alloc := new ExtList();
      discard := new ExtList();
      avail := new ExtList();
      ckptAvail := new ExtList();
    }

    /** Extend the file, unless it has no description sector or would grow past the largest offset. */
    method Extend(n: int) returns (st: Status, off: int)
      requires n > 0
      modifies this`fileSize
      ensures st == Ok <==> DESC_SECTOR <= old(fileSize) <= INT64_MAX - n
      ensures st == Ok ==> off == old(fileSize) && fileSize == old(fileSize) + n
      ensures st != Ok ==> fileSize == old(fileSize)
    {
      off := 0;
      if fileSize < DESC_SECTOR { return Invalid, off; }
      if fileSize > INT64_MAX - n { return Invalid, off; }
      off := fileSize;
      fileSize := fileSize + n;
      st := Ok;
    }

    /** Take the best fit from the avail list, putting back what is left of the extent. */
    method TakeFit(n: int) returns (found: bool, off: int)
      requires Valid() && n > 0
      modifies avail
      ensures Valid()
      ensures found <==> !NoFit(old(avail.off), n)
      ensures !found ==> avail.Held() == old(avail.Held())
      ensures found ==>
                && (exists e :: BestFit(old(avail.off), n, e) && e.off == off)
                && Range(off, n) <= old(avail.Held())
                && avail.Held() == old(avail.Held()) - Range(off, n)
      ensures found && Aligned(allocsize, old(avail.Held())) ==> (off - DESC_SECTOR) % allocsize == 0
    {
      hide Space, Range, ExtList.Valid, Aligned, NoFit, BestFit;
      off := 0;
      var j, i := FitSrch(avail, n);
      if j == |avail.sz| {
        return false, off;
      }
      var ext := avail.sz[j].exts[0];
      TakeSpace(avail, i, n);
      if Aligned(allocsize, avail.Held()) {
        AlignedAt(allocsize, avail, i);
      }
      off := ext.off;
      if ext.size > n {
        avail.Adjust(ext.off, ext.(off := ext.off + n, size := ext.size - n), i);
      } else {
        var _, _ := avail.Drop(ext.off, i);
      }
      found := true;
    }

    /**
     Allocate a block: the best fit of the available extents, or the end of the file when none is
     large enough.  The block is entered on the alloc list.
     */
    method Alloc(n: int) returns (st: Status, off: int)
      requires Valid() && n > 0
      modifies this`fileSize, avail, alloc
      ensures Valid()
      ensures st == Ok ==>
                && n % allocsize == 0
                && Takes(old(avail.Held()), old(fileSize), Range(off, n), avail.Held(), fileSize)
                && Range(off, n) !! old(alloc.Held()) && alloc.Held() == old(alloc.Held()) + Range(off, n)
                && if NoFit(old(avail.off), n) then off == old(fileSize) && fileSize == old(fileSize) + n
                   else exists e :: BestFit(old(avail.off), n, e) && e.off == off
      ensures st == Ok && Aligned(allocsize, old(avail.Held())) && (old(fileSize) - DESC_SECTOR) % allocsize == 0 ==>
                (off - DESC_SECTOR) % allocsize == 0
      ensures st != Ok && old(avail.Held() !! alloc.Held() && alloc.Held() <= File(fileSize)) ==>
                avail.Held() == old(avail.Held()) && alloc.Held() == old(alloc.Held()) && fileSize == old(fileSize)
      ensures (&& n % allocsize == 0 && DESC_SECTOR <= old(fileSize) <= INT64_MAX - n
               && old(avail.Held() !! alloc.Held() && alloc.Held() <= File(fileSize))) ==> st == Ok
    {
      hide Space, ExtList.Valid, NoFit, BestFit, Aligned;
      off := 0;
      if n % allocsize != 0 {
        return Invalid, off;
      }
      var found;
      found, off := TakeFit(n);
      if !found {
        st, off := Extend(n);
        if st != Ok { return; }
      }
      st := alloc.Merge(off, n);
    }

    /**
     Free a block, all of which or none of which was allocated since the last checkpoint: it is
     available at once in the first case and discarded in the second.
     */
    method Free(off: int, n: int) returns (st: Status)
      requires Valid() && n > 0
      requires Range(off, n) <= alloc.Held() || Range(off, n) !! alloc.Held()
      modifies avail, alloc, discard
      ensures Valid()
      ensures st == Ok ==>
                Frees(old(avail.Held()), old(alloc.Held()), old(discard.Held()), Range(off, n),
                      avail.Held(), alloc.Held(), discard.Held())
      ensures old(avail.Held() !! alloc.Held()) && Range(off, n) !! old(discard.Held()) ==> st == Ok
    {
      hide Space, ExtList.Valid;
      OneOrNone(alloc, off, n);
      st := alloc.RemoveOverlap(off, n);
      if st == Ok {
        st := avail.Merge(off, n);
      } else {
        st := discard.Merge(off, n);
      }
    }

    /** Cut the file off at the last available extent, if that one is at its end. */
    method Truncate()
      requires Valid() && avail.Held() <= File(fileSize) && fileSize >= DESC_SECTOR
      modifies this`fileSize, avail
      ensures Valid()
      ensures Cuts(old(avail.Held()), old(fileSize), avail.Held(), fileSize)
      ensures fileSize - 1 !in avail.Held()
      ensures Aligned(allocsize, old(avail.Held())) && (old(fileSize) - DESC_SECTOR) % allocsize == 0 ==>
                (fileSize - DESC_SECTOR) % allocsize == 0
    {
      hide Space, ExtList.Valid, Range, Aligned;
      LastExtent(avail, fileSize);
      if |avail.off| == 0 {
        return;
      }
      var ext := avail.off[|avail.off| - 1];
      if ext.off + ext.size != fileSize {
        return;
      }
      if Aligned(allocsize, avail.Held()) {
        AlignedAt(allocsize, avail, |avail.off| - 1);
      }
      var _, _ := avail.Drop(ext.off, |avail.off| - 1);
      fileSize := ext.off;
    }

    /** Resolve a checkpoint: what it freed becomes available. */
    method Resolve() returns (st: Status)
      requires Valid()
      modifies avail, ckptAvail
      ensures Valid()
      ensures ckptAvail.Held() == {}
      ensures st == Ok <==> old(ckptAvail.Held() !! avail.Held())
      ensures st == Ok ==> avail.Held() == old(avail.Held() + ckptAvail.Held())
    {
      hide Space, ExtList.Valid;
      st := Checkpoints.ExtlistMerge(ckptAvail, avail);
      ckptAvail.Reset();
    }
  }

  lemma OneOrNone(el: ExtList, x: int, n: int)
    requires el.Valid() && n > 0 && (Range(x, n) <= el.Held() || Range(x, n) !! el.Held())
    ensures forall i :: 0 <= i < |el.off| && !(Span(el.off[i]) !! Range(x, n)) ==>
                          x + n <= el.off[i].off + el.off[i].size
    ensures Range(x, n) !! el.Held() ==> Range(x, n) * el.Held() == {}
    ensures Range(x, n) <= el.Held() ==> !(Range(x, n) !! el.Held())
    ensures Range(x, n) !! el.Held() ==> el.Held() - Range(x, n) == el.Held()
  {
    assert x in Range(x, n);
    if Range(x, n) <= el.Held() {
      WithinOne(el.off, x, n);
    } else {
      forall i | 0 <= i < |el.off| ensures Span(el.off[i]) !! Range(x, n) {
        SpaceHas(el.off, i);
      }
    }
  }

  /** The last extent of a list within the file, and what dropping it leaves. */
  lemma LastExtent(el: ExtList, size: int)
    requires el.Valid() && el.Held() <= File(size) && size >= DESC_SECTOR
    ensures el.off == [] ==> el.Held() == {} && Cuts(el.Held(), size, el.Held(), size)
    ensures el.off != [] ==>
              var e := el.off[|el.off| - 1];
              && GoodExt(e) && DESC_SECTOR <= e.off && e.off + e.size <= size
              && (e.off + e.size < size ==> size - 1 !in el.Held() && Cuts(el.Held(), size, el.Held(), size))
              && (e.off + e.size == size ==> Cuts(el.Held(), size, el.Held() - Span(e), e.off))
              && e.off - 1 !in el.Held() - Span(e)
  {
    if el.off != [] {
      var m := |el.off| - 1;
      var e := el.off[m];
      SpaceHas(el.off, m);
      assert GoodExt(e);
      assert e.off in Span(e) && e.off + e.size - 1 in Span(e);
      NotTouched(el.off, m);
      forall y | y in el.Held() ensures y < e.off + e.size {
        var j := SpaceAt(el.off, y);
        if j < m { assert Before(el.off[j], el.off[m]); }
      }
    }
    RangeEmpty(size);
  }

  /** Search the by-size index for the best fit, found at place `i` of the list. */
  method FitSrch(el: ExtList, n: int) returns (j: nat, ghost i: nat)
    requires el.Valid()
    ensures j <= |el.sz| && (j == |el.sz| <==> NoFit(el.off, n))
    ensures j < |el.sz| ==>
              && el.sz[j].exts != [] && BestFit(el.off, n, el.sz[j].exts[0])
              && i < |el.off| && el.off[i] == el.sz[j].exts[0] && el.off[i].size >= n
  {
    j := SizeSrch(el.sz, n);
    i := 0;
    BySizeFinds(el.off, el.sz, j, n);
    if j < |el.sz| {
      i :| 0 <= i < |el.off| && el.off[i] == el.sz[j].exts[0];
    }
  }

  lemma AlignedAt(a: int, el: ExtList, i: nat)
    requires a > 0 && el.Valid() && Aligned(a, el.Held()) && i < |el.off|
    ensures (el.off[i].off - DESC_SECTOR) % a == 0
  {
    AlignedExts(a, el.off, i);
  }

  lemma TakeSpace(el: ExtList, i: nat, n: int)
    requires el.Valid() && i < |el.off| && 0 < n <= el.off[i].size
    ensures var e := el.off[i];
            && GoodExt(e) && Range(e.off, n) <= el.Held()
            && (i > 0 ==> Before(el.off[i - 1], e)) && (i + 1 < |el.off| ==> Before(e, el.off[i + 1]))
            && (n == e.size ==> el.Held() - Span(e) == el.Held() - Range(e.off, n))
            && (n < e.size ==> el.Held() - Span(e) + Range(e.off + n, e.size - n) == el.Held() - Range(e.off, n))
  {
    hide Space, Range, Indexed;
    var e := el.off[i];
    Neighbours(el.off, i);
    Neighbours(el.off, i + 1);
    SpaceHas(el.off, i);
    RangeJoin(e.off, n, e.size - n);
    RangeEmpty(e.off + n);
    TakeSets(el.Held(), Span(e), Range(e.off, n), Range(e.off + n, e.size - n));
  }

  lemma RangeEmpty(x: int)
    ensures Range(x, 0) == {}
  {
  }

  lemma TakeSets(h: set<int>, e: set<int>, x: set<int>, left: set<int>)
    requires e <= h && x + left == e && x !! left
    ensures h - e + left == h - x && x <= h
  {
    forall y ensures y in h - e + left <==> y in h - x {
      assert y in e <==> y in x + left;
    }
  }
}
