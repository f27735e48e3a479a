/** The on-disk form of an extent list, and reading it back. */
module ListImages {
  import opened Extents
  import opened ExtLists
  import opened BlockRuns
  import opened Checkpoints
  import Blocks
  import Basics
  import opened Units

  const EXTLIST_MAGIC: int := 71002
  const PAIR_SIZE: nat := 16

  /** Offset and size pairs, as they are stored. */
  type Pairs = seq<(int, int)>

  function PairsOf(s: seq<Ext>): (r: Pairs) {
    seq(|s|, i requires 0 <= i < |s| => (s[i].off, s[i].size))
  }

  ghost function Image(s: seq<Ext>, more: seq<Ext>): (r: Pairs) {
    [(EXTLIST_MAGIC, 0)] + PairsOf(s) + PairsOf(more) + [(INVALID_OFFSET, 0)]
  }

  ghost function PairSpace(p: Pairs): (r: set<int>) {
    if p == [] then {} else PairSpace(p[..|p| - 1]) + Range(p[|p| - 1].0, p[|p| - 1].1)
  }

  /** A range the reader accepts: past the description sector, in whole units, within the file. */
  predicate InFile(a: int, size: int, x: int, n: int)
    requires a > 0
  {
    DESC_SECTOR <= x && (x - DESC_SECTOR) % a == 0 && n % a == 0 && x + n <= size
  }

  /** Every range is acceptable, none is empty, and they do not overlap. */
  ghost predicate Readable(a: int, size: int, p: Pairs, held: set<int>)
    requires a > 0
  {
    p == [] ||
    (&& Readable(a, size, p[..|p| - 1], held)
     && InFile(a, size, p[|p| - 1].0, p[|p| - 1].1) && p[|p| - 1].1 > 0
     && Range(p[|p| - 1].0, p[|p| - 1].1) !! held + PairSpace(p[..|p| - 1]))
  }

  lemma {:induction false} PairSpaceOf(s: seq<Ext>)
    ensures PairSpace(PairsOf(s)) == Space(s)
  {
    if s != [] {
      PairSpaceOf(s[..|s| - 1]);
      assert PairsOf(s)[..|s| - 1] == PairsOf(s[..|s| - 1]);
    }
  }

  lemma {:induction false} PairSpaceConcat(p: Pairs, q: Pairs)
    ensures PairSpace(p + q) == PairSpace(p) + PairSpace(q)
  {
    if q == [] {
      assert p + q == p;
    } else {
      PairSpaceConcat(p, q[..|q| - 1]);
      assert (p + q)[..|p + q| - 1] == p + q[..|q| - 1];
    }
  }

  ghost function More(additional: ExtList?): (s: seq<Ext>)
    reads additional
  {
    if additional == null then [] else additional.off
  }

  /** Lay out a list, and a second one after it if there is one, between the leading and the terminating pair. */
  method BuildImage(el: ExtList, additional: ExtList?) returns (p: Pairs)
    requires el.Valid() && (additional != null ==> additional.Valid())
    ensures p == Image(el.off, More(additional)) && p[0] == (71002, 0) && p[|p| - 1] == (0, 0)
    ensures |p| == el.entries + (if additional == null then 0 else additional.entries) + 2
  {
    p := [(EXTLIST_MAGIC, 0)];
    var i := 0;
    while i < |el.off|
      invariant i <= |el.off|
      invariant p == [(EXTLIST_MAGIC, 0)] + PairsOf(el.off[..i])
    {
      assert el.off[..i + 1] == el.off[..i] + [el.off[i]];
      p := p + [(el.off[i].off, el.off[i].size)];
      i := i + 1;
    }
    assert el.off[..i] == el.off;
    ghost var q := p;
    if additional != null {
      i := 0;
      while i < |additional.off|
        invariant i <= |additional.off|
        invariant p == q + PairsOf(additional.off[..i])
      {
        assert additional.off[..i + 1] == additional.off[..i] + [additional.off[i]];
        p := p + [(additional.off[i].off, additional.off[i].size)];
        i := i + 1;
      }
      assert additional.off[..i] == additional.off;
    }
    p := p + [(INVALID_OFFSET, 0)];
  }

  /** Where the stored pairs end: at the first terminating offset after the leading pair. */
  ghost predicate EndsAt(p: Pairs, k: int) {
    1 <= k < |p| && p[k].0 == INVALID_OFFSET && forall i :: 1 <= i < k ==> p[i].0 != INVALID_OFFSET
  }

  /** Read a stored list into `el`: a wrong leading pair, a bad range or an overlap is an error. */
  method ReadImage(p: Pairs, a: int, size: int, el: ExtList, ghost k: int) returns (st: Status)
    requires a > 0 && el.Valid() && EndsAt(p, k) && (forall i :: 1 <= i < k ==> p[i].1 > 0)
    modifies el
    ensures el.Valid()
    ensures st == Ok <==> p[0] == (EXTLIST_MAGIC, 0) && Readable(a, size, p[1..k], old(el.Held()))
    ensures st == Ok ==> el.Held() == old(el.Held()) + PairSpace(p[1..k])
  {
    hide ExtList.Valid, Space, Range;
    if p[0].0 != EXTLIST_MAGIC || p[0].1 != 0 {
      return Invalid;
    }
    assert p[1..1] == [];
    var i := 1;
    while true
      invariant 1 <= i <= k && el.Valid()
      invariant Readable(a, size, p[1..i], old(el.Held()))
      invariant el.Held() == old(el.Held()) + PairSpace(p[1..i])
      decreases k - i
    {
      var (off, n) := p[i];
      if off == INVALID_OFFSET {
        break;
      }
      ReadableNext(a, size, p, i, k, old(el.Held()));
      if off < DESC_SECTOR || (off - DESC_SECTOR) % a != 0 || n % a != 0 || off + n > size {
        return Invalid;
      }
      st := el.Merge(off, n);
      if st != Ok { return; }
      i := i + 1;
    }
    return Ok;
  }

  lemma ReadableSnoc(a: int, size: int, p: Pairs, x: (int, int), held: set<int>)
    requires a > 0
    ensures PairSpace(p + [x]) == PairSpace(p) + Range(x.0, x.1)
    ensures Readable(a, size, p + [x], held) <==>
              && Readable(a, size, p, held) && InFile(a, size, x.0, x.1)
              && x.1 > 0 && Range(x.0, x.1) !! held + PairSpace(p)
  {
    assert (p + [x])[..|p|] == p;
  }

  lemma ReadableNext(a: int, size: int, p: Pairs, i: int, k: int, held: set<int>)
    requires a > 0 && 1 <= i < k <= |p|
    ensures PairSpace(p[1..i + 1]) == PairSpace(p[1..i]) + Range(p[i].0, p[i].1)
    ensures Readable(a, size, p[1..i + 1], held) <==>
              && Readable(a, size, p[1..i], held) && InFile(a, size, p[i].0, p[i].1) && p[i].1 > 0
              && Range(p[i].0, p[i].1) !! held + PairSpace(p[1..i])
    ensures Readable(a, size, p[1..k], held) ==> Readable(a, size, p[1..i + 1], held)
  {
    ReadableSnoc(a, size, p[1..i], p[i], held);
    assert p[1..i + 1] == p[1..i] + [p[i]];
    ReadablePrefix(a, size, p[1..k], held, i);
    assert p[1..k][..i] == p[1..i + 1];
  }

  lemma {:induction false} ReadablePrefix(a: int, size: int, p: Pairs, held: set<int>, n: nat)
    requires a > 0 && n <= |p|
    ensures Readable(a, size, p, held) ==> Readable(a, size, p[..n], held)
  {
    if n == |p| {
      assert p[..n] == p;
    } else {
      ReadablePrefix(a, size, p[..|p| - 1], held, n);
      assert p[..|p| - 1][..n] == p[..n];
    }
  }

  // ----- what is written can be read -----

  /** A list of whole units within the file, disjoint from what is held, is accepted. */
  lemma {:induction false} ListReadable(a: int, size: int, s: seq<Ext>, held: set<int>, n: nat)
    requires a > 0 && Ordered(s) && Aligned(a, Space(s)) && Space(s) <= File(size) && Space(s) !! held && n <= |s|
    ensures Readable(a, size, PairsOf(s)[..n], held)
  {
    if n > 0 {
      var m := n - 1;
      ListReadable(a, size, s, held, m);
      assert PairsOf(s)[..n][..m] == PairsOf(s)[..m] == PairsOf(s[..m]);
      PairSpaceOf(s[..m]);
      AlignedExts(a, s, m);
      SpaceHas(s, m);
      assert GoodExt(s[m]);
      assert s[m].off in Span(s[m]) && s[m].off + s[m].size - 1 in Span(s[m]);
      forall y | y in Space(s[..m]) ensures y !in Span(s[m]) {
        var q := SpaceAt(s[..m], y);
        assert Before(s[q], s[m]);
      }
    }
  }

  lemma {:induction false} ReadableConcat(a: int, size: int, p: Pairs, q: Pairs, held: set<int>)
    requires a > 0 && Readable(a, size, p, held) && Readable(a, size, q, held + PairSpace(p))
    ensures Readable(a, size, p + q, held)
  {
    if q == [] {
      assert p + q == p;
    } else {
      var m := |q| - 1;
      ReadableConcat(a, size, p, q[..m], held);
      PairSpaceConcat(p, q[..m]);
      assert (p + q)[..|p + q| - 1] == p + q[..m];
    }
  }

  lemma PairsReadable(a: int, size: int, s: seq<Ext>, t: seq<Ext>)
    requires a > 0 && Ordered(s) && Ordered(t) && Space(s) !! Space(t)
    requires Aligned(a, Space(s)) && Aligned(a, Space(t)) && Space(s) <= File(size) && Space(t) <= File(size)
    ensures Readable(a, size, PairsOf(s) + PairsOf(t), {})
    ensures PairSpace(PairsOf(s) + PairsOf(t)) == Space(s) + Space(t)
  {
    hide Space, Range, Ordered, Readable, PairSpace, Aligned;
    ListReadable(a, size, s, {}, |s|);
    assert PairsOf(s)[..|s|] == PairsOf(s);
    PairSpaceOf(s);
    ListReadable(a, size, t, {} + PairSpace(PairsOf(s)), |t|);
    assert PairsOf(t)[..|t|] == PairsOf(t);
    PairSpaceOf(t);
    ReadableConcat(a, size, PairsOf(s), PairsOf(t), {});
    PairSpaceConcat(PairsOf(s), PairsOf(t));
  }

  lemma PairsInFile(s: seq<Ext>, size: int, i: nat)
    requires Ordered(s) && Space(s) <= File(size) && i < |s|
    ensures PairsOf(s)[i].0 != INVALID_OFFSET && PairsOf(s)[i].1 > 0
  {
    assert GoodExt(s[i]);
    SpaceHas(s, i);
    assert s[i].off in Span(s[i]);
  }

  lemma ImageParts(s: seq<Ext>, t: seq<Ext>)
    ensures var p, k := Image(s, t), |s| + |t| + 1;
            && |p| == k + 1 && p[0] == (EXTLIST_MAGIC, 0) && p[k] == (INVALID_OFFSET, 0)
            && p[1..k] == PairsOf(s) + PairsOf(t)
  {
    var p, q := Image(s, t), PairsOf(s) + PairsOf(t);
    assert p == [(EXTLIST_MAGIC, 0)] + q + [(INVALID_OFFSET, 0)];
  }

  /** The image of two disjoint lists of a file reads back as all their space. */
  lemma ImageReadable(a: int, size: int, s: seq<Ext>, t: seq<Ext>)
    requires a > 0 && Ordered(s) && Ordered(t) && Space(s) !! Space(t)
    requires Aligned(a, Space(s)) && Aligned(a, Space(t)) && Space(s) <= File(size) && Space(t) <= File(size)
    ensures var p, k := Image(s, t), |s| + |t| + 1;
            && EndsAt(p, k) && (forall i :: 1 <= i < k ==> p[i].1 > 0)
            && p[0] == (EXTLIST_MAGIC, 0) && Readable(a, size, p[1..k], {})
            && PairSpace(p[1..k]) == Space(s) + Space(t)
  {
    hide Space, Range, Ordered, Readable, PairSpace, Aligned, Image;
    var p, k := Image(s, t), |s| + |t| + 1;
    ImageParts(s, t);
    PairsReadable(a, size, s, t);
    forall i | 1 <= i < k ensures p[i].0 != INVALID_OFFSET && p[i].1 > 0 {
      assert p[i] == p[1..k][i - 1];
      if i <= |s| { PairsInFile(s, size, i - 1); } else { PairsInFile(t, size, i - 1 - |s|); }
    }
  }

  // ----- blocks for lists -----

  /** Allocate the block for a list with this many entries; list blocks are on no extent list. */
  method WriteBlock(m: Blocks.Manager, entries: nat) returns (st: Status, blk: Block)
    requires m.Valid()
    modifies m`fileSize, m.avail, m.alloc
    ensures m.Valid()
    ensures st == Ok ==>
              && GoodBlock(blk)
              && blk.size == Basics.AlignUp(Basics.HEADER_SIZE + (entries + 2) * PAIR_SIZE, m.allocsize)
              && Takes(old(m.avail.Held()), old(m.fileSize), Range(blk.off, blk.size), m.avail.Held(), m.fileSize)
              && m.alloc.Held() == old(m.alloc.Held())
    ensures st == Ok && old(m.avail.Held() <= File(m.fileSize) && m.fileSize >= DESC_SECTOR) ==>
              blk.off >= DESC_SECTOR
    ensures st == Ok && old(Aligned(m.allocsize, m.avail.Held()) && (m.fileSize - DESC_SECTOR) % m.allocsize == 0) ==>
              UnitRange(m.allocsize, blk.off, blk.size)
    ensures old(m.avail.Held() !! m.alloc.Held() && m.alloc.Held() <= File(m.fileSize)) && st != Ok ==>
              && m.avail.Held() == old(m.avail.Held()) && m.fileSize == old(m.fileSize)
              && m.alloc.Held() == old(m.alloc.Held())
  {
    hide ExtList.Valid, Space, Blocks.NoFit, Blocks.BestFit, Aligned, Range;
    var n := Basics.AlignUp(Basics.HEADER_SIZE + (entries + 2) * PAIR_SIZE, m.allocsize);
    blk := Block(INVALID_OFFSET, 0);
    var off;
    st, off := m.Alloc(n);
    if st != Ok { return; }
    BlockAlone(m.alloc, old(m.alloc.Held()), off, n);
    st := m.alloc.RemoveOverlap(off, n);
    blk := Block(off, n);
    TakenWhere(old(m.avail.Held()), old(m.fileSize), off, n, m.avail.Held(), m.fileSize);
  }

  lemma TakenWhere(avail: set<int>, size: int, x: int, n: int, avail': set<int>, size': int)
    requires n > 0 && Takes(avail, size, Range(x, n), avail', size')
    ensures avail <= File(size) && size >= DESC_SECTOR ==> x >= DESC_SECTOR
  {
    assert x in Range(x, n);
  }

  lemma BlockAlone(el: ExtList, h: set<int>, x: int, n: int)
    requires el.Valid() && n > 0 && Range(x, n) !! h && el.Held() == h + Range(x, n)
    ensures forall i :: 0 <= i < |el.off| && !(Span(el.off[i]) !! Range(x, n)) ==>
                          x + n <= el.off[i].off + el.off[i].size
    ensures !(Range(x, n) !! el.Held()) && el.Held() - Range(x, n) == h
  {
    assert Range(x, n) <= el.Held();
    Blocks.OneOrNone(el, x, n);
  }

  /** A block for a header and the pairs, of two numbers of eight bytes each, and of no more units than they need. */
  ghost predicate Holds(p: Pairs, blk: Block, allocsize: int) {
    var bytes := Basics.HEADER_SIZE + |p| * 16;
    bytes <= blk.size < bytes + allocsize
  }

  /**
   Write the avail list of the live system: the available extents and those the checkpoint frees.
   Its own block, taken afterwards, may still be on the list as written.
   */
  method WriteAvail(m: Blocks.Manager) returns (st: Status, p: Pairs, blk: Block)
    requires m.Valid()
    modifies m`fileSize, m.avail, m.alloc
    ensures m.Valid()
    ensures st == Ok ==>
              && GoodBlock(blk)
              && (if old(m.avail.entries + m.ckptAvail.entries == 0)
                  then
                    && blk.off == INVALID_OFFSET
                    && m.avail.Held() == old(m.avail.Held()) && m.fileSize == old(m.fileSize)
                  else
                    && p == old(Image(m.avail.off, m.ckptAvail.off))
                    && Takes(old(m.avail.Held()), old(m.fileSize), Range(blk.off, blk.size),
                             m.avail.Held(), m.fileSize))
              && m.alloc.Held() == old(m.alloc.Held())
    ensures st == Ok && blk.off != INVALID_OFFSET ==> Holds(p, blk, m.allocsize)
    ensures st == Ok && old(m.avail.entries + m.ckptAvail.entries != 0) &&
            old(m.avail.Held() <= File(m.fileSize) && m.fileSize >= DESC_SECTOR) ==>
              blk.off != INVALID_OFFSET
    ensures st == Ok && old(Aligned(m.allocsize, m.avail.Held()) && (m.fileSize - DESC_SECTOR) % m.allocsize == 0) ==>
              UnitBlock(m.allocsize, Bytes(blk))
    ensures old(m.avail.Held() !! m.alloc.Held() && m.alloc.Held() <= File(m.fileSize)) && st != Ok ==>
              && m.avail.Held() == old(m.avail.Held()) && m.fileSize == old(m.fileSize)
              && m.alloc.Held() == old(m.alloc.Held())
  {
    hide ExtList.Valid, Space, Range, Aligned, Image, Takes, File, UnitRange, PairsOf;
    var entries := m.avail.entries + m.ckptAvail.entries;
    p, blk := [], Block(INVALID_OFFSET, 0);
    if entries == 0 {
      return Ok, p, blk;
    }
    p := BuildImage(m.avail, m.ckptAvail);
    st, blk := WriteBlock(m, entries);
  }

  /** Read an avail list: the block it was written in is not available, whether or not it is listed. */
  method ReadAvail(p: Pairs, blk: Block, a: int, size: int, el: ExtList, ghost k: int) returns (st: Status)
    requires a > 0 && el.Valid() && el.Held() == {} && GoodBlock(blk)
    requires blk.off != INVALID_OFFSET ==>
               && EndsAt(p, k) && (forall i :: 1 <= i < k ==> p[i].1 > 0)
               && (Bytes(blk) <= PairSpace(p[1..k]) || Bytes(blk) !! PairSpace(p[1..k]))
    modifies el
    ensures el.Valid()
    ensures blk.off == INVALID_OFFSET ==> st == Ok && el.Held() == {}
    ensures blk.off != INVALID_OFFSET ==>
              && (st == Ok <==> p[0] == (EXTLIST_MAGIC, 0) && Readable(a, size, p[1..k], {}))
              && (st == Ok ==> el.Held() == PairSpace(p[1..k]) - Bytes(blk))
  {
    hide ExtList.Valid, Space, Range, Readable, PairSpace;
    if blk.off == INVALID_OFFSET {
      return Ok;
    }
    st := ReadImage(p, a, size, el, k);
    if st != Ok { return; }
    assert {} + PairSpace(p[1..k]) == PairSpace(p[1..k]);
    Blocks.OneOrNone(el, blk.off, blk.size);
    st := el.RemoveOverlap(blk.off, blk.size);
    st := Ok;
  }

  // ----- what is stored of an avail list -----

  /** A stored avail list: the image, the block it is in, and the size of the file it was written for. */
  datatype Saved = Saved(pairs: Pairs, blk: Block, size: int)

  /** The image ends at `k`, can be read from a file of this size, and lists this space. */
  ghost predicate ReadsAs(a: int, size: int, v: Saved, k: int, space: set<int>)
    requires a > 0
  {
    && EndsAt(v.pairs, k) && (forall i :: 1 <= i < k ==> v.pairs[i].1 > 0) && v.pairs[0] == (EXTLIST_MAGIC, 0)
    && Readable(a, size, v.pairs[1..k], {}) && PairSpace(v.pairs[1..k]) == space
  }

  /** Reading the stored list gives this available space. */
  ghost predicate Saves(a: int, v: Saved, avail: set<int>)
    requires a > 0
  {
    && GoodBlock(v.blk)
    && (v.blk.off == INVALID_OFFSET ==> avail == {})
    && (v.blk.off != INVALID_OFFSET ==>
          exists k, space ::
            && ReadsAs(a, v.size, v, k, space)
            && (Bytes(v.blk) <= space || Bytes(v.blk) !! space) && avail == space - Bytes(v.blk))
  }

  /** An image that reads from a file of some size reads from another exactly if its space is within that. */
  lemma {:induction false} ReadableElsewhere(a: int, size: int, size': int, p: Pairs, held: set<int>)
    requires a > 0 && Readable(a, size, p, held)
    ensures Readable(a, size', p, held) <==> PairSpace(p) <= File(size')
  {
    if p != [] {
      var n := |p| - 1;
      ReadableElsewhere(a, size, size', p[..n], held);
      var x, m := p[n].0, p[n].1;
      assert x + m - 1 in Range(x, m);
      assert Range(x, m) <= File(size') <==> x + m <= size';
    }
  }

  /** What is written is what is read: the two lists without the block the image is in. */
  lemma WrittenSaves(a: int, s: seq<Ext>, t: seq<Ext>, size: int, b: Block, avail': set<int>, size': int)
    requires a > 0 && Ordered(s) && Ordered(t) && Space(s) !! Space(t) && GoodBlock(b) && b.off != INVALID_OFFSET
    requires Aligned(a, Space(s)) && Aligned(a, Space(t)) && Space(s) <= File(size) && Space(t) <= File(size)
    requires Takes(Space(s), size, Bytes(b), avail', size')
    ensures Saves(a, Saved(Image(s, t), b, size'), (Space(s) + Space(t)) - Bytes(b))
  {
    hide Space, Ordered, Readable, PairSpace, Aligned;
    var v, k, space := Saved(Image(s, t), b, size'), |s| + |t| + 1, Space(s) + Space(t);
    FileGrows(size, size');
    ImageReadable(a, size', s, t);
    assert ReadsAs(a, size', v, k, space);
    if size' > size {
      assert Bytes(b) !! File(size);
    }
  }

  lemma FileGrows(size: int, size': int)
    ensures size <= size' ==> File(size) <= File(size')
  {
  }

  /** Read a stored avail list back, from a file that may have another size by now. */
  method LoadAvail(v: Saved, a: int, size: int, el: ExtList, ghost avail: set<int>) returns (st: Status)
    requires a > 0 && el.Valid() && el.Held() == {} && Saves(a, v, avail) && Bytes(v.blk) <= File(size)
    modifies el
    ensures el.Valid()
    ensures st == Ok <==> avail <= File(size)
    ensures st == Ok ==> el.Held() == avail
  {
    hide ExtList.Valid, Space, Readable, PairSpace, Range;
    if v.blk.off == INVALID_OFFSET {
      st := ReadAvail(v.pairs, v.blk, a, size, el, 0);
      return;
    }
    ghost var k, space :|
      && ReadsAs(a, v.size, v, k, space)
      && (Bytes(v.blk) <= space || Bytes(v.blk) !! space) && avail == space - Bytes(v.blk);
    ReadableElsewhere(a, v.size, size, v.pairs[1..k], {});
    st := ReadAvail(v.pairs, v.blk, a, size, el, k);
  }
}
