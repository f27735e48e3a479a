/**
 Splitting a page being reconciled.  Cells are copied into one buffer of the maximum page size;
 boundaries are noted at split-size steps, and only if the cells do not all fit after all are the
 chunks between boundaries written as pages of their own.
 */
module Splits {
  import opened Basics
  import Keys

  /** An entry to be written: its key and its value, the number of cells, and of records. */
  datatype Item = Item(key: Bytes, val: Bytes, entries: nat, recs: nat)

  /** An item as it was copied to the page: the cell of its key, and the bytes of all its cells. */
  datatype Placed = Placed(item: Item, cell: Keys.Cell, image: Bytes)

  /** The bytes for the cell of a key and a value; how they are packed is left open. */
  type Packing = (Keys.Cell, Bytes) -> Bytes

  /** Entries of a column-store have no keys; on leaf pages promoted keys may be cut short. */
  datatype Kind = ColumnStore | RowInternal | RowLeaf(suffix: bool)

  datatype Tracking = Boundary | Max | Off

  datatype Bnd = Bnd(recno: nat, start: nat, entries: nat)

  /** A page written: its first record, its number of cells, and the cells. */
  datatype Page = Page(recno: nat, entries: nat, image: Bytes)

  // ----- sequences of items -----

  ghost function Flat(s: seq<Placed>): (b: Bytes) {
    if s == [] then [] else Flat(s[..|s| - 1]) + s[|s| - 1].image
  }

  ghost function Entries(s: seq<Placed>): (n: nat) {
    if s == [] then 0 else Entries(s[..|s| - 1]) + s[|s| - 1].item.entries
  }

  ghost function Recs(s: seq<Placed>): (n: nat) {
    if s == [] then 0 else Recs(s[..|s| - 1]) + s[|s| - 1].item.recs
  }

  ghost function Items(s: seq<Placed>): (r: seq<Item>) {
    seq(|s|, i requires 0 <= i < |s| => s[i].item)
  }

  ghost function Cat(c: seq<seq<Placed>>): (s: seq<Placed>) {
    if c == [] then [] else Cat(c[..|c| - 1]) + c[|c| - 1]
  }

  lemma Nothing()
    ensures Flat([]) == [] && Entries([]) == 0 == Recs([]) && Cat([]) == [] && Coded([])
    ensures forall first :: Holds([], [], first)
  {
  }

  lemma Snoc(s: seq<Placed>, p: Placed)
    ensures Flat(s + [p]) == Flat(s) + p.image
    ensures Entries(s + [p]) == Entries(s) + p.item.entries && Recs(s + [p]) == Recs(s) + p.item.recs
    ensures Items(s + [p]) == Items(s) + [p.item]
  {
    assert (s + [p])[..|s|] == s;
  }

  lemma {:induction false} FlatJoin(a: seq<Placed>, b: seq<Placed>)
    ensures Flat(a + b) == Flat(a) + Flat(b)
  {
    if b == [] {
      assert a + b == a;
    } else {
      var n := |b| - 1;
      FlatJoin(a, b[..n]);
      assert a + b == (a + b[..n]) + [b[n]] && b == b[..n] + [b[n]];
      hide Flat;
      Snoc(a + b[..n], b[n]);
      Snoc(b[..n], b[n]);
    }
  }

  lemma {:induction false} CountJoin(a: seq<Placed>, b: seq<Placed>)
    ensures Entries(a + b) == Entries(a) + Entries(b) && Recs(a + b) == Recs(a) + Recs(b)
  {
    if b == [] {
      assert a + b == a;
    } else {
      CountJoin(a, b[..|b| - 1]);
      assert (a + b)[..|a + b| - 1] == a + b[..|b| - 1];
    }
  }

  lemma CatSnoc(c: seq<seq<Placed>>, s: seq<Placed>)
    ensures Cat(c + [s]) == Cat(c) + s
    ensures Flat(Cat(c + [s])) == Flat(Cat(c)) + Flat(s)
    ensures Entries(Cat(c + [s])) == Entries(Cat(c)) + Entries(s)
    ensures Recs(Cat(c + [s])) == Recs(Cat(c)) + Recs(s)
  {
    assert (c + [s])[..|c|] == c;
    FlatJoin(Cat(c), s);
    CountJoin(Cat(c), s);
  }

  // ----- pages that can be read on their own -----

  ghost function Cells(s: seq<Placed>): (c: seq<Keys.Cell>) {
    seq(|s|, i requires 0 <= i < |s| => s[i].cell)
  }

  ghost function KeysOf(s: seq<Placed>): (k: seq<Bytes>) {
    seq(|s|, i requires 0 <= i < |s| => s[i].item.key)
  }

  /** The cells of the keys, read from the first on, give the keys: none is compressed against one on another page. */
  ghost predicate Coded(s: seq<Placed>) {
    Keys.Encodes(Cells(s), KeysOf(s))
  }

  /** The last key there that another may be compressed against. */
  ghost function LastOf(s: seq<Placed>): (key: Bytes)
    requires Coded(s)
  {
    Keys.LastKey(Cells(s), |s|)
  }

  /** The cell can go next and then stands for the key. */
  ghost predicate Follows(s: seq<Placed>, cell: Keys.Cell, key: Bytes) {
    Coded(s) && Keys.Suits(cell, key, LastOf(s))
  }

  lemma CodedSnoc(s: seq<Placed>, p: Placed)
    requires Follows(s, p.cell, p.item.key)
    ensures Coded(s + [p]) && LastOf(s + [p]) == if p.cell.Ovfl? then LastOf(s) else p.item.key
  {
    hide Keys.LastKey, Keys.Readable;
    assert Cells(s + [p]) == Cells(s) + [p.cell] && KeysOf(s + [p]) == KeysOf(s) + [p.item.key];
    Keys.EncodesSnoc(Cells(s), KeysOf(s), p.cell, p.item.key);
  }

  /** A cell that is not compressed can go anywhere. */
  lemma WholeFollows(s: seq<Placed>, cell: Keys.Cell, key: Bytes)
    requires Coded(s) && Keys.Suits(cell, key, [])
    ensures Follows(s, cell, key)
  {
  }

  lemma CodedJoin(a: seq<Placed>, b: seq<Placed>)
    requires Coded(a) && Coded(b)
    ensures Coded(a + b)
  {
    assert Cells(a + b) == Cells(a) + Cells(b) && KeysOf(a + b) == KeysOf(a) + KeysOf(b);
    Keys.EncodesJoin(Cells(a), KeysOf(a), Cells(b), KeysOf(b));
  }

  lemma {:induction false} CodedCat(c: seq<seq<Placed>>, room: int)
    requires GoodChunks(c, room)
    ensures Coded(Cat(c))
  {
    hide Coded;
    if c == [] {
      Nothing();
    } else {
      CodedCat(c[..|c| - 1], room);
      CodedJoin(Cat(c[..|c| - 1]), c[|c| - 1]);
    }
  }

  ghost function Joined(read: seq<seq<Bytes>>): (keys: seq<Bytes>) {
    if read == [] then [] else Joined(read[..|read| - 1]) + read[|read| - 1]
  }

  /** Whatever reads the key cells of each page by itself has all keys together. */
  lemma {:induction false} ReadBack(c: seq<seq<Placed>>, read: seq<seq<Bytes>>, room: int)
    requires GoodChunks(c, room) && |read| == |c|
    requires forall k :: 0 <= k < |c| ==> Keys.Encodes(Cells(c[k]), read[k])
    ensures Joined(read) == KeysOf(Cat(c))
  {
    hide Keys.Encodes, Flat, Cells;
    if c != [] {
      var n := |c| - 1;
      ReadBack(c[..n], read[..n], room);
      assert GoodChunk(c[n], room);
      Keys.EncodesOnce(Cells(c[n]), KeysOf(c[n]), read[n]);
      hide GoodChunk, Coded, Joined;
      assert KeysOf(Cat(c)) == KeysOf(Cat(c[..n])) + KeysOf(c[n]);
    }
  }

  /** What a split page holds: something, no more than `room`, and all that is needed to read it. */
  ghost predicate GoodChunk(s: seq<Placed>, room: int) {
    s != [] && |Flat(s)| <= room && Coded(s)
  }

  ghost predicate GoodChunks(c: seq<seq<Placed>>, room: int) {
    forall k :: 0 <= k < |c| ==> GoodChunk(c[k], room)
  }

  lemma GoodSnoc(c: seq<seq<Placed>>, s: seq<Placed>, room: int)
    requires GoodChunks(c, room) && GoodChunk(s, room)
    ensures GoodChunks(c + [s], room)
  {
  }

  /** The pages hold the chunks, in order; `first` is the first record. */
  ghost predicate Holds(pages: seq<Page>, c: seq<seq<Placed>>, first: nat) {
    && |pages| == |c|
    && forall k :: 0 <= k < |c| ==> pages[k] == Page(first + Recs(Cat(c[..k])), Entries(c[k]), Flat(c[k]))
  }

  lemma HoldsSnoc(pages: seq<Page>, c: seq<seq<Placed>>, first: nat, s: seq<Placed>)
    requires Holds(pages, c, first)
    ensures Holds(pages + [Page(first + Recs(Cat(c)), Entries(s), Flat(s))], c + [s], first)
  {
    hide Flat, Recs, Cat, Entries;
    assert forall k :: 0 <= k < |c| ==> (c + [s])[..k] == c[..k];
    assert (c + [s])[..|c|] == c;
  }

  /** The boundaries noted for the chunks in the buffer, and the one at which the next chunk starts. */
  ghost predicate Bounds(bnd: seq<Bnd>, c: seq<seq<Placed>>, first: nat) {
    && |bnd| == |c| + 1
    && (forall k :: 0 <= k < |bnd| ==> bnd[k].recno == first + Recs(Cat(c[..k])) && bnd[k].start == |Flat(Cat(c[..k]))|)
    && (forall k :: 0 <= k < |c| ==> bnd[k].entries == Entries(c[k]))
  }

  lemma BoundsSnoc(bnd: seq<Bnd>, c: seq<seq<Placed>>, first: nat, s: seq<Placed>)
    requires Bounds(bnd, c, first)
    ensures var n := |c|;
      Bounds(bnd[n := bnd[n].(entries := Entries(s))] +
             [Bnd(first + Recs(Cat(c + [s])), |Flat(Cat(c + [s]))|, 0)], c + [s], first)
  {
    hide Flat, Recs, Cat, Entries;
    assert forall k :: 0 <= k <= |c| ==> (c + [s])[..k] == c[..k];
    assert (c + [s])[..|c| + 1] == c + [s];
  }

  /** The bytes between two boundaries are those of the chunk. */
  lemma {:induction false} Between(c: seq<seq<Placed>>, rest: Bytes, k: nat)
    requires k < |c|
    ensures var b := Flat(Cat(c)) + rest;
      |Flat(Cat(c[..k]))| <= |Flat(Cat(c[..k + 1]))| <= |b| &&
      b[|Flat(Cat(c[..k]))|..|Flat(Cat(c[..k + 1]))|] == Flat(c[k])
  {
    hide Flat, Recs, Cat, Entries;
    var n := |c| - 1;
    CatSnoc(c[..n], c[n]);
    assert c[..n] + [c[n]] == c;
    if k < n {
      Between(c[..n], Flat(c[n]) + rest, k);
      assert c[..n][..k] == c[..k] && c[..n][..k + 1] == c[..k + 1];
      assert Flat(Cat(c[..n])) + (Flat(c[n]) + rest) == Flat(Cat(c)) + rest;
    } else {
      assert c[..k + 1] == c;
    }
  }

  /** The pages for the chunks noted in a buffer. */
  method ChunkPages(bnd: seq<Bnd>, buf: Bytes, ghost c: seq<seq<Placed>>, ghost rest: Bytes, ghost first: nat)
    returns (pages: seq<Page>)
    requires Bounds(bnd, c, first) && buf == Flat(Cat(c)) + rest
    ensures Holds(pages, c, first) && bnd[|c|].start == |Flat(Cat(c))| && bnd[|c|].recno == first + Recs(Cat(c))
  {
    hide Flat, Recs, Cat, Entries;
    pages := [];
    var i := 0;
    while i < |bnd| - 1
      invariant i <= |c| && Holds(pages, c[..i], first)
    {
      Between(c, rest, i);
      HoldsSnoc(pages, c[..i], first, c[i]);
      assert c[..i + 1] == c[..i] + [c[i]];
      pages := pages + [Page(bnd[i].recno, bnd[i].entries, buf[bnd[i].start..bnd[i + 1].start])];
      i := i + 1;
    }
    assert c[..i] == c;
  }

  // ----- promoted keys -----

  /** How many items there are up to the end of a chunk. */
  ghost function UpTo(c: seq<seq<Placed>>, k: nat): (n: nat)
    requires k < |c|
  {
    |Cat(c[..k + 1])|
  }

  /** A promoted key for each boundary: above the last key before it, and not above the first one after it. */
  ghost predicate Separated(keys: seq<Bytes>, c: seq<seq<Placed>>, items: seq<Item>) {
    |keys| == |c| && forall k :: 0 <= k < |keys| ==> Separates(items, UpTo(c, k), keys[k])
  }

  ghost predicate Separates(items: seq<Item>, n: nat, key: Bytes) {
    0 < n < |items| && Keys.Less(items[n - 1].key, key) && Keys.AtMost(key, items[n].key)
  }

  lemma SeparatedSnoc(keys: seq<Bytes>, c: seq<seq<Placed>>, items: seq<Item>, s: seq<Placed>, key: Bytes)
    requires Separated(keys, c, items) && Separates(items, |Cat(c + [s])|, key)
    ensures Separated(keys + [key], c + [s], items)
  {
    hide Cat, Separates;
    forall k | 0 <= k <= |c| ensures Separates(items, UpTo(c + [s], k), (keys + [key])[k]) {
      if k < |c| {
        assert (c + [s])[..k + 1] == c[..k + 1] && UpTo(c + [s], k) == UpTo(c, k);
      } else {
        assert (c + [s])[..k + 1] == c + [s];
      }
    }
  }

  lemma SeparatedMore(keys: seq<Bytes>, c: seq<seq<Placed>>, items: seq<Item>, item: Item)
    requires Separated(keys, c, items)
    ensures Separated(keys, c, items + [item])
  {
    hide Cat;
    forall k | 0 <= k < |keys| ensures Separates(items + [item], UpTo(c, k), keys[k]) {
      assert Separates(items, UpTo(c, k), keys[k]);
    }
  }

  /** The last key of each page is less than the key promoted for the next, which is at most the first key there. */
  ghost predicate Parted(keys: seq<Bytes>, c: seq<seq<Placed>>) {
    |keys| == |c| - 1 && forall k :: 0 <= k < |keys| ==> PartedAt(c[k], keys[k], c[k + 1])
  }

  ghost predicate PartedAt(s: seq<Placed>, key: Bytes, t: seq<Placed>) {
    s != [] && t != [] && Keys.Less(s[|s| - 1].item.key, key) && Keys.AtMost(key, t[0].item.key)
  }

  lemma {:induction false} CatAt(c: seq<seq<Placed>>, k: nat)
    requires k + 1 < |c| && c[k] != [] && c[k + 1] != []
    ensures var n := UpTo(c, k); 0 < n < |Cat(c)| && Cat(c)[n - 1] == c[k][|c[k]| - 1] && Cat(c)[n] == c[k + 1][0]
  {
    var m := |c| - 1;
    if k + 1 < m {
      CatAt(c[..m], k);
      assert c[..m][..k + 1] == c[..k + 1];
    } else {
      assert c[..k + 1][..k] == c[..k] && c[..m] == c[..k + 1];
    }
  }

  lemma PartedIs(keys: seq<Bytes>, c: seq<seq<Placed>>, items: seq<Item>, room: int)
    requires |c| > 0 && Separated(keys, c[..|c| - 1], items) && Items(Cat(c)) == items && GoodChunks(c, room)
    ensures Parted(keys, c)
  {
    hide Cat, Flat;
    forall k | 0 <= k < |keys| ensures PartedAt(c[k], keys[k], c[k + 1]) {
      assert GoodChunk(c[k], room) && GoodChunk(c[k + 1], room);
      CatAt(c, k);
      assert c[..|c| - 1][..k + 1] == c[..k + 1];
      assert Separates(items, UpTo(c[..|c| - 1], k), keys[k]);
    }
  }

  /**
   What is known of keys while a page is written: those promoted, the last one that was no overflow key,
   and whether the next may be shortened when it is promoted.
   */
  datatype Keying = Keying(kind: Kind, keys: seq<Bytes>, last: Bytes, sfx: bool)

  /** Then the last one is the last of all. */
  ghost predicate LastKnown(v: State, q: Keying) {
    q.sfx ==> q.kind.RowLeaf? && All(v) != [] && q.last == All(v)[|All(v)| - 1].item.key
  }

  /** If the next key may be compressed, it is against the last one of the page. */
  ghost predicate LastOnPage(s: seq<Placed>, last: Bytes, compress: bool) {
    compress ==> Coded(s) && last == LastOf(s)
  }

  /** The keys promoted so far are right for the boundaries so far. */
  ghost predicate Keyed(v: State, q: Keying) {
    LastKnown(v, q) && (q.kind != ColumnStore ==> Separated(q.keys, v.written + v.noted, Items(All(v))))
  }

  /** The item comes after those there are. */
  ghost predicate Below(v: State, kind: Kind, item: Item) {
    kind != ColumnStore && All(v) != [] ==> Keys.Less(All(v)[|All(v)| - 1].item.key, item.key)
  }

  /** They are, if this item comes next. */
  ghost predicate Ahead(v: State, q: Keying, item: Item) {
    && LastKnown(v, q) && Below(v, q.kind, item)
    && (q.kind != ColumnStore ==> Separated(q.keys, v.written + v.noted, Items(All(v)) + [item]))
  }

  // ----- the cell of a key -----

  /** A cell that may be written for a key: a compressed or a whole one, or one by itself if the key is too long. */
  ghost predicate Form(cell: Keys.Cell, key: Bytes, kind: Kind, maxItem: nat) {
    match cell
    case Ovfl(o) => o == key && (kind == ColumnStore || |key| > maxItem)
    case Key(prefix, suffix) => kind != ColumnStore && |suffix| <= maxItem && prefix <= Keys.PREFIX_MAX
  }

  ghost predicate BestCell(cell: Keys.Cell, key: Bytes, last: Bytes, compress: bool, kind: Kind, maxItem: nat) {
    if kind == ColumnStore then cell == Keys.Ovfl(key) else Keys.Best(cell, key, last, compress, maxItem)
  }

  /** The key cell of an item; an entry of a column-store has its key by itself, if any. */
  method KeyCell(key: Bytes, last: Bytes, compress: bool, kind: Kind, maxItem: nat) returns (cell: Keys.Cell)
    ensures Form(cell, key, kind, maxItem) && Keys.Suits(cell, key, if compress then last else [])
    ensures BestCell(cell, key, last, compress, kind, maxItem)
  {
    if kind == ColumnStore {
      cell := Keys.Ovfl(key);
    } else {
      cell := Keys.BuildKey(key, last, compress, maxItem);
      Keys.BestSuits(cell, key, last, compress, maxItem);
    }
  }

  /** Whatever cell is written for its key, the item fits. */
  ghost predicate Fits(item: Item, pack: Packing, kind: Kind, maxItem: nat, room: int) {
    item.entries > 0 && forall c :: Form(c, item.key, kind, maxItem) ==> |pack(c, item.val)| <= room
  }

  lemma FitsForm(item: Item, cell: Keys.Cell, pack: Packing, kind: Kind, maxItem: nat, room: int)
    requires Fits(item, pack, kind, maxItem, room) && Form(cell, item.key, kind, maxItem)
    ensures |pack(cell, item.val)| <= room
  {
  }

  /** The bytes are those of the item with this key cell, and it may be written. */
  ghost predicate Built(p: Placed, pack: Packing, kind: Kind, maxItem: nat) {
    p.image == pack(p.cell, p.item.val) && Form(p.cell, p.item.key, kind, maxItem)
  }

  ghost predicate AllBuilt(s: seq<Placed>, pack: Packing, kind: Kind, maxItem: nat) {
    forall p :: p in s ==> Built(p, pack, kind, maxItem)
  }

  lemma BuiltSnoc(s: seq<Placed>, p: Placed, pack: Packing, kind: Kind, maxItem: nat)
    requires AllBuilt(s, pack, kind, maxItem) && Built(p, pack, kind, maxItem)
    ensures AllBuilt(s + [p], pack, kind, maxItem)
  {
  }

  // ----- sizes -----

  /** What page sizes and split percentages may be configured. */
  ghost predicate Configured(max: nat, allocsize: nat, pct: nat) {
    512 <= allocsize && 0 < max <= 0x2000_0000 && max % allocsize == 0 && 25 <= pct <= 100
  }

  function PageSize(max: nat, allocsize: nat): (size: nat)
    requires allocsize > 0
  {
    AlignUp(max + HEADER_SIZE, allocsize)
  }

  function SplitSize(max: nat, allocsize: nat, pct: nat): (split: nat)
    requires allocsize > 0
  {
    AlignUp(PageSize(max, allocsize) * pct / 100, allocsize)
  }

  /** A split page is as large as the page, or smaller by more than a header. */
  lemma SizesFit(max: nat, allocsize: nat, pct: nat)
    requires Configured(max, allocsize, pct)
    ensures var size, split := PageSize(max, allocsize), SplitSize(max, allocsize, pct);
      HEADER_SIZE < split <= size <= 0x5000_0000 && (split == size || split + HEADER_SIZE <= size)
  {
    MultiplesApart(allocsize, 0, max);
    SplitSizes(PageSize(max, allocsize), allocsize, pct);
  }

  lemma SplitSizes(size: nat, allocsize: nat, pct: nat)
    requires 512 <= allocsize && size > 0 && size % allocsize == 0 && 25 <= pct <= 100
    ensures var split := AlignUp(size * pct / 100, allocsize);
      HEADER_SIZE < split <= size && (split == size || split + HEADER_SIZE <= size)
  {
    var x := size * pct / 100;
    assert x <= size && x >= size / 4 by { Percent(size, pct); }
    var split := AlignUp(x, allocsize);
    MultiplesApart(allocsize, 0, size);
    if split < size {
      MultiplesApart(allocsize, split, size);
    } else if split > size {
      MultiplesApart(allocsize, size, split);
    }
  }

  lemma Percent(size: nat, pct: nat)
    requires 25 <= pct <= 100
    ensures size / 4 <= size * pct / 100 <= size
  {
    assert size * 25 <= size * pct <= size * 100;
  }

  // ----- the split state -----

  /**
   The state of a split, with the first record, the chunks written, those between boundaries in the
   buffer, and the last one.
   */
  datatype State = State(pageSize: nat, splitSize: nat, tracking: Tracking, bnd: seq<Bnd>, totalEntries: nat,
                         recno: nat, entries: nat, buf: Bytes, spaceAvail: nat, pages: seq<Page>,
                         first: nat, written: seq<seq<Placed>>, noted: seq<seq<Placed>>, cur: seq<Placed>)

  ghost function All(v: State): (s: seq<Placed>) {
    Cat(v.written) + Cat(v.noted) + v.cur
  }

  ghost function Room(v: State): (n: int) {
    v.splitSize - HEADER_SIZE
  }

  ghost predicate Sizes(v: State) {
    && HEADER_SIZE < v.splitSize <= v.pageSize <= 0x5000_0000
    && (v.splitSize == v.pageSize || v.splitSize + HEADER_SIZE <= v.pageSize)
  }

  /** The room left: in a split page, or after the last boundary in the page. */
  ghost predicate Space(v: State) {
    match v.tracking
    case Boundary =>
      HEADER_SIZE + |Flat(Cat(v.noted))| + v.splitSize <= v.pageSize && v.spaceAvail == Room(v) - |Flat(v.cur)|
    case Max =>
      && HEADER_SIZE + |Flat(Cat(v.noted))| + v.splitSize > v.pageSize
      && v.spaceAvail == v.pageSize - HEADER_SIZE - (HEADER_SIZE + |Flat(Cat(v.noted))|) - |Flat(v.cur)|
    case Off =>
      v.spaceAvail == Room(v) - |Flat(v.cur)|
  }

  /** The boundaries: while none is written, of the chunks in the buffer; then only of the next page. */
  ghost predicate Where(v: State) {
    if v.tracking == Off then
      v.noted == [] && |v.bnd| == |v.written| + 1 && v.bnd[|v.written|].recno == v.first + Recs(Cat(v.written))
    else
      v.written == [] && Bounds(v.bnd, v.noted, v.first) && v.totalEntries == Entries(Cat(v.noted))
  }

  ghost predicate Valid(v: State) {
    && Sizes(v) && Space(v) && Where(v) && Holds(v.pages, v.written, v.first)
    && GoodChunks(v.written, Room(v)) && GoodChunks(v.noted, Room(v)) && Coded(v.cur)
    && v.buf == Flat(Cat(v.noted)) + Flat(v.cur) && v.entries == Entries(Cat(v.noted)) + Entries(v.cur)
    && v.recno == v.first + Recs(All(v))
  }

  /** The same items on the same pages. */
  ghost predicate Kept(v: State, v': State) {
    All(v') == All(v) && v'.first == v.first && v'.pageSize == v.pageSize && v'.splitSize == v.splitSize
  }

  lemma NoteKeeps(v: State, v': State)
    requires Valid(v) && v.tracking == Boundary && v.cur != []
    requires var n := |v.bnd| - 1; var len := HEADER_SIZE + |v.buf|;
      v' == v.(bnd := v.bnd[n := v.bnd[n].(entries := v.entries - v.totalEntries)] + [Bnd(v.recno, |v.buf|, 0)],
               totalEntries := v.entries,
               tracking := if len + v.splitSize <= v.pageSize then Boundary else Max,
               spaceAvail := if len + v.splitSize <= v.pageSize then v.splitSize - HEADER_SIZE
                             else (v.pageSize - HEADER_SIZE) - len,
               noted := v.noted + [v.cur], cur := [])
    ensures Valid(v') && Kept(v, v')
  {
    hide Flat, Recs, Cat, Entries, Coded, GoodChunks, Holds;
    GoodSnoc(v.noted, v.cur, Room(v));
    CatSnoc(v.noted, v.cur);
    BoundsSnoc(v.bnd, v.noted, v.first, v.cur);
    Nothing();
    assert All(v) == Cat(v.noted + [v.cur]) == All(v');
  }

  lemma FixupKeeps(v: State, v': State)
    requires Valid(v) && v.tracking == Max && Holds(v'.pages, v.noted, v.first)
    requires var start := v.bnd[|v.bnd| - 1].start;
      start <= |v.buf| && v.totalEntries <= v.entries && |v.buf| - start <= v.splitSize - HEADER_SIZE &&
      v' == v.(pages := v'.pages, buf := v.buf[start..], entries := v.entries - v.totalEntries,
               spaceAvail := (v.splitSize - HEADER_SIZE) - (|v.buf| - start), tracking := Off,
               written := v.noted, noted := [])
    ensures Valid(v') && Kept(v, v')
  {
    hide Flat, Recs, Cat, Entries, Coded, GoodChunks, Holds;
    Nothing();
    assert v.noted[..|v.noted|] == v.noted;
    assert v'.buf == Flat(v.cur) == Flat(Cat([])) + Flat(v.cur);
    assert All(v) == Cat(v.noted) + Cat([]) + v.cur;
  }

  /** What is left over when the page is full is less than a split page. */
  lemma Remnant(v: State)
    requires Valid(v) && v.tracking == Max
    ensures v.written == [] && |v.bnd| > 0
    ensures var start := v.bnd[|v.bnd| - 1].start; start <= |v.buf| && |v.buf| - start < v.splitSize - HEADER_SIZE
    ensures v.totalEntries <= v.entries && Bounds(v.bnd, v.noted, v.first) && v.buf == Flat(Cat(v.noted)) + Flat(v.cur)
  {
    assert v.noted[..|v.noted|] == v.noted;
  }

  lemma WriteKeeps(v: State, v': State)
    requires Valid(v) && v.tracking == Off && v.cur != []
    requires v' == v.(pages := v.pages + [Page(v.bnd[|v.bnd| - 1].recno, v.entries, v.buf)],
                      bnd := v.bnd + [Bnd(v.recno, 0, 0)], entries := 0, buf := [],
                      spaceAvail := v.splitSize - HEADER_SIZE, written := v.written + [v.cur], cur := [])
    ensures Valid(v') && Kept(v, v')
  {
    hide Flat, Recs, Cat, Entries, Coded, Holds, GoodChunks;
    GoodSnoc(v.written, v.cur, Room(v));
    HoldsSnoc(v.pages, v.written, v.first, v.cur);
    CatSnoc(v.written, v.cur);
    Nothing();
    assert All(v) == Cat(v.written + [v.cur]) == All(v') && v.buf == Flat(v.cur);
  }

  lemma CopyKeeps(v: State, p: Placed, v': State)
    requires Valid(v) && |p.image| <= v.spaceAvail && Follows(v.cur, p.cell, p.item.key)
    requires v' == v.(buf := v.buf + p.image, entries := v.entries + p.item.entries, recno := v.recno + p.item.recs,
                      spaceAvail := v.spaceAvail - |p.image|, cur := v.cur + [p])
    ensures Valid(v') && All(v') == All(v) + [p] && Items(All(v')) == Items(All(v)) + [p.item]
  {
    hide Flat, Recs, Cat, Entries, Coded, Holds, Bounds, GoodChunks, Follows, LastOf, Items;
    Snoc(v.cur, p);
    Snoc(All(v), p);
    CodedSnoc(v.cur, p);
    assert Flat(Cat(v.noted)) + Flat(v.cur) + p.image == Flat(Cat(v.noted)) + (Flat(v.cur) + p.image);
    assert All(v') == All(v) + [p];
  }

  /** All so far is on one page, and no page is written unless there is no more to a page than to a split page. */
  ghost predicate One(v: State) {
    v.written == [] && (v.tracking == Off ==> v.pageSize == v.splitSize)
  }

  /** So it stays if this many bytes more fit the page, less a header. */
  ghost predicate OnePage(v: State, most: nat) {
    One(v) && |Flat(All(v))| + most <= v.pageSize - 2 * HEADER_SIZE
  }

  lemma OnePageOne(v: State, most: nat)
    ensures OnePage(v, most) ==> One(v)
  {
  }

  /** Only the boundary of a split page can be in the way. */
  lemma OneFits(v: State, most: nat)
    requires Valid(v) && OnePage(v, most) && v.tracking != Boundary
    ensures most <= v.spaceAvail
  {
    hide Flat, Recs, Cat, Entries, Coded, Holds, Bounds, GoodChunks;
    Nothing();
    FlatJoin(Cat(v.noted), v.cur);
    assert All(v) == Cat(v.noted) + v.cur;
  }

  lemma OneCross(v: State, u: State, most: nat, n: nat, u': State)
    requires Valid(u) && n <= most && n > u.spaceAvail && Kept(u, u')
    requires (OnePage(v, most) ==> OnePage(u, most))
    requires u.tracking == Boundary ==> u'.written == u.written && u'.tracking != Off
    ensures OnePage(v, most) ==> OnePage(u', most)
  {
    hide Valid, Flat, All;
    if OnePage(v, most) && u.tracking != Boundary {
      OneFits(u, most);
    }
  }

  lemma OneCopy(v: State, p: Placed, v': State)
    requires All(v') == All(v) + [p]
    ensures |Flat(All(v'))| == |Flat(All(v))| + |p.image|
  {
    hide Flat, All;
    Snoc(All(v), p);
  }

  /** An empty chunk has room for any item that fits a split page. */
  lemma Fresh(v: State)
    requires Valid(v)
    ensures v.cur == [] && v.tracking != Max ==> v.spaceAvail == Room(v)
  {
  }

  // ----- the end of a page -----

  /** The pages hold the items, as one page of the maximum size or as several of the split size. */
  ghost predicate Done(v: State, pages: seq<Page>, c: seq<seq<Placed>>) {
    && Cat(c) == All(v) && Holds(pages, c, v.first) && GoodChunks(c, v.pageSize - HEADER_SIZE)
    && (|c| > 1 ==> GoodChunks(c, v.splitSize - HEADER_SIZE))
  }

  lemma LastPage(v: State)
    requires Valid(v) && v.tracking == Off && v.cur != []
    ensures Done(v, v.pages + [Page(v.bnd[|v.bnd| - 1].recno, v.entries, v.buf)], v.written + [v.cur])
  {
    hide Flat, Recs, Cat, Entries, Coded, Holds;
    HoldsSnoc(v.pages, v.written, v.first, v.cur);
    CatSnoc(v.written, v.cur);
    Nothing();
    assert All(v) == Cat(v.written + [v.cur]) && v.buf == Flat(v.cur);
  }

  lemma OnlyPage(v: State)
    requires Valid(v) && v.tracking != Off && All(v) != []
    ensures Done(v, [Page(v.bnd[0].recno, v.entries, v.buf)], [All(v)])
  {
    hide Flat, Recs, Cat, Entries, Coded, Holds;
    Nothing();
    CodedCat(v.noted, Room(v));
    CodedJoin(Cat(v.noted), v.cur);
    FlatJoin(Cat(v.noted), v.cur);
    CountJoin(Cat(v.noted), v.cur);
    assert All(v) == Cat(v.noted) + v.cur && v.noted[..0] == [];
    CatSnoc([], All(v));
    HoldsSnoc([], [], v.first, All(v));
    var p := Page(v.first, Entries(All(v)), Flat(All(v)));
    assert [] + [All(v)] == [All(v)] && [] + [p] == [p];
    assert p == Page(v.bnd[0].recno, v.entries, v.buf);
  }

  lemma NoPage(v: State)
    requires Valid(v) && All(v) == []
    ensures Done(v, [], [])
  {
    Nothing();
  }

  class Split {
    var pageSize: nat
    var splitSize: nat
    var tracking: Tracking
    var bnd: seq<Bnd>
    var totalEntries: nat
    var recno: nat
    var entries: nat
    var buf: Bytes
    var spaceAvail: nat
    var pfxCompress: bool
    var pages: seq<Page>
    const kind: Kind
    const maxItem: nat
    const compress: bool
    const pack: Packing
    var keys: seq<Bytes>
    var last: Bytes
    var sfxCompress: bool

    ghost var first: nat
    ghost var written: seq<seq<Placed>>
    ghost var noted: seq<seq<Placed>>
    ghost var cur: seq<Placed>

    ghost function View(): (v: State)
      reads this
    {
      State(pageSize, splitSize, tracking, bnd, totalEntries, recno, entries, buf, spaceAvail, pages,
            first, written, noted, cur)
    }

    ghost predicate Ready()
      reads this
    {
      && Valid(View()) && (cur == [] ==> All(View()) == []) && (entries > 0) == (cur != [])
      && Keyed(View(), KeyView()) && LastOnPage(cur, last, pfxCompress) && AllBuilt(All(View()), pack, kind, maxItem)
    }

    ghost function KeyView(): (q: Keying)
      reads this
    {
      Keying(kind, keys, last, sfxCompress)
    }

    constructor (kind: Kind, maxItem: nat, compress: bool, pack: Packing,
                 max: nat, allocsize: nat, pct: nat, recno: nat)
      requires Configured(max, allocsize, pct)
      ensures Ready() && All(View()) == [] && first == recno
      ensures this.kind == kind && this.maxItem == maxItem && this.pack == pack && this.compress == compress
      ensures One(View())
      ensures pageSize == PageSize(max, allocsize) && splitSize == SplitSize(max, allocsize, pct)
    {
      hide PageSize, SplitSize;
      var size, split := PageSize(max, allocsize), SplitSize(max, allocsize, pct);
      SizesFit(max, allocsize, pct);
      pageSize, splitSize := size, split;
      tracking := if size == split then Off else Boundary;
      bnd := [Bnd(recno, 0, 0)];
      totalEntries, this.recno, entries, buf := 0, recno, 0, [];
      spaceAvail := split - HEADER_SIZE;
      pfxCompress, sfxCompress := false, false;
      pages, keys, last := [], [], [];
      this.kind, this.maxItem, this.compress, this.pack := kind, maxItem, compress, pack;
      first, written, noted, cur := recno, [], [], [];
      new;
      Nothing();
      assert noted[..0] == [];
    }

    /** The whole key, or as much of it as is needed if the last key of the page before is known. */
    ghost predicate Promotes(key: Bytes, first: Bytes)
      reads this
    {
      if sfxCompress then key <= first && forall n :: 0 <= n < |key| ==> !Keys.Less(last, first[..n]) else key == first
    }

    /** The key for the page that starts with an item: on a leaf page no more of it than is needed. */
    method Promote(item: Item)
      requires Ahead(View(), KeyView(), item) && All(View()) != []
      modifies `keys
      ensures kind == ColumnStore ==> keys == old(keys)
      ensures kind != ColumnStore ==>
        exists key :: keys == old(keys) + [key] && Separates(Items(All(View())) + [item], |All(View())|, key)
      ensures kind != ColumnStore ==> old(keys) < keys && Promotes(keys[|keys| - 1], item.key)
    {
      hide All, Separated;
      ghost var items := Items(All(View()));
      if kind == ColumnStore {
      } else if kind.RowLeaf? && sfxCompress {
        var sep := Keys.Promote(last, item.key);
        assert Separates(items + [item], |items|, sep);
        keys := keys + [sep];
      } else {
        assert Separates(items + [item], |items|, item.key);
        keys := keys + [item.key];
      }
    }

    /** Note a boundary, and make room for another chunk or else for what the page still has. */
    method Note()
      requires Valid(View()) && tracking == Boundary && cur != []
      modifies `bnd, `totalEntries, `tracking, `spaceAvail, `noted, `cur
      ensures Valid(View()) && Kept(old(View()), View()) && cur == [] && tracking in {Boundary, Max}
      ensures noted == old(noted + [cur])
    {
      hide Valid, Kept, Flat, Cat, Recs, Entries;
      ghost var v := View();
      NoteFits(v);
      var n := |bnd| - 1;
      var finished := entries - totalEntries;
      bnd := bnd[n := bnd[n].(entries := finished)] + [Bnd(recno, |buf|, 0)];
      totalEntries := entries;
      var currentLen := HEADER_SIZE + |buf|;
      var another := currentLen + splitSize <= pageSize;
      tracking := if another then Boundary else Max;
      spaceAvail := if another then splitSize - HEADER_SIZE else (pageSize - HEADER_SIZE) - currentLen;
      noted, cur := noted + [cur], [];
      NoteKeeps(v, View());
    }

    /** Write the chunks noted as pages, and move what is left to the start of the buffer. */
    method Fixup()
      requires Valid(View()) && tracking == Max
      modifies `pages, `buf, `entries, `spaceAvail, `tracking, `written, `noted
      ensures Valid(View()) && Kept(old(View()), View()) && cur == old(cur) && tracking == Off
      ensures written == old(noted) && noted == old(written) == []
    {
      hide Valid, Holds, Kept, Bounds, Flat, Cat, Recs, Entries;
      ghost var v := View();
      Remnant(v);
      var written' := ChunkPages(bnd, buf, noted, Flat(cur), first);
      pages := written';
      var start := bnd[|bnd| - 1].start;
      var len := |buf| - start;
      assert len < splitSize - HEADER_SIZE;
      buf := buf[start..];
      entries := entries - totalEntries;
      spaceAvail := (splitSize - HEADER_SIZE) - len;
      tracking := Off;
      written, noted := noted, [];
      FixupKeeps(v, View());
    }

    /** Write the chunk in the buffer as a page. */
    method Write()
      requires Valid(View()) && tracking == Off && cur != []
      modifies `pages, `bnd, `entries, `buf, `spaceAvail, `written, `cur
      ensures Valid(View()) && Kept(old(View()), View()) && cur == [] && tracking == Off
      ensures written == old(written + [cur]) && noted == []
    {
      hide Valid, Kept, Flat, Cat, Recs, Entries;
      ghost var v := View();
      HasBound(v);
      pages := pages + [Page(bnd[|bnd| - 1].recno, entries, buf)];
      bnd := bnd + [Bnd(recno, 0, 0)];
      entries, buf := 0, [];
      spaceAvail := splitSize - HEADER_SIZE;
      written, cur := written + [cur], [];
      WriteKeeps(v, View());
    }

    /** Handle the page bookkeeping when the next item does not fit. */
    method Cross(item: Item)
      requires Valid(View()) && (tracking != Max ==> cur != [])
      requires Ahead(View(), KeyView(), item)
      modifies `keys, `pages, `bnd, `totalEntries, `tracking, `entries, `buf, `spaceAvail, `written, `noted, `cur
      ensures Valid(View()) && Kept(old(View()), View())
      ensures Ahead(View(), KeyView(), item)
      ensures if old(tracking) == Max then tracking == Off && cur == old(cur)
              else cur == [] && (tracking == Off) == (old(tracking) == Off)
      ensures old(tracking) == Boundary ==> written == old(written)
    {
      hide Valid, Kept, Flat, Cat, Recs, Entries, Items, Separates, Ahead;
      ghost var v, q := View(), KeyView();
      if tracking == Max {
        Fixup();
        FixupAhead(v, q, item, View());
      } else {
        HasBound(v);
        Promote(item);
        if tracking == Boundary {
          Note();
        } else {
          Write();
        }
        PromotedAhead(v, q, item, View(), KeyView());
      }
    }

    /** Copy an item to the page, splitting before it if need be: twice at the most. */
    method Add(item: Item, ghost most: nat) returns (crossed: nat)
      requires Ready() && Below(View(), kind, item) && Fits(item, pack, kind, maxItem, most)
      requires most <= splitSize - HEADER_SIZE
      modifies this
      ensures Ready() && first == old(first) && pageSize == old(pageSize) && splitSize == old(splitSize) && cur != []
      ensures Items(All(View())) == old(Items(All(View()))) + [item] && crossed <= 2
      ensures
        var cell := cur[|cur| - 1].cell;
        && (if crossed == 0 then BestCell(cell, item.key, old(last), old(pfxCompress), kind, maxItem)
            else BestCell(cell, item.key, [], false, kind, maxItem))
        && last == (if cell.Key? then item.key else old(last))
        && pfxCompress == (if cell.Key? then compress else old(pfxCompress) && crossed == 0)
        && sfxCompress == (cell.Key? && kind == RowLeaf(true))
      ensures crossed == 0 ==> old(cur) < cur && |cur[|cur| - 1].image| <= old(spaceAvail)
      ensures |Flat(All(View()))| <= old(|Flat(All(View()))|) + most
      ensures OnePage(old(View()), most) ==> One(View())
    {
      hide Valid, Cat, Coded, Items, Ahead, Keyed, Below, Form, Keys.Suits, All, AllBuilt, Follows, BestCell, Flat;
      var cell := KeyCell(item.key, last, pfxCompress, kind, maxItem);
      FirstFollows(View(), last, pfxCompress, cell, item.key);
      LookAhead(View(), KeyView(), item);
      var image;
      cell, image, crossed := MakeRoom(item, cell, most);
      ghost var v := View();
      Place(item, cell, image);
      OneCopy(v, Placed(item, cell, image), View());
    }

    /** Split before an item as long as it does not fit. */
    method MakeRoom(item: Item, built: Keys.Cell, ghost most: nat)
      returns (cell: Keys.Cell, image: Bytes, crossed: nat)
      requires Valid(View()) && Ahead(View(), KeyView(), item) && LastOnPage(cur, last, pfxCompress)
      requires Fits(item, pack, kind, maxItem, most) && most <= splitSize - HEADER_SIZE
      requires Form(built, item.key, kind, maxItem) && Follows(cur, built, item.key)
      modifies `keys, `pages, `bnd, `totalEntries, `tracking, `entries, `buf, `spaceAvail, `written, `noted, `cur
      modifies `pfxCompress
      ensures Valid(View()) && Kept(old(View()), View()) && Ahead(View(), KeyView(), item)
      ensures LastOnPage(cur, last, pfxCompress) && Follows(cur, cell, item.key) && |image| <= spaceAvail
      ensures Form(cell, item.key, kind, maxItem) && image == pack(cell, item.val) && crossed <= 2
      ensures crossed == 0 <==> |pack(built, item.val)| <= old(spaceAvail)
      ensures crossed == 0 ==> cell == built && View() == old(View()) && pfxCompress == old(pfxCompress)
      ensures crossed > 0 ==> !pfxCompress && BestCell(cell, item.key, [], false, kind, maxItem)
      ensures OnePage(old(View()), most) ==> One(View())
    {
      hide Valid, Flat, Recs, Cat, Entries, Coded, Items, Ahead, Form, Keys.Suits, All, Follows, LastOnPage, BestCell;
      hide OnePage, One, Fits;
      ghost var v := View();
      cell, image, crossed := built, pack(built, item.val), 0;
      FitsForm(item, cell, pack, kind, maxItem, most);
      Fresh(v);
      while |image| > spaceAvail
        invariant Valid(View()) && Kept(v, View()) && Ahead(View(), KeyView(), item)
        invariant Form(cell, item.key, kind, maxItem) && image == pack(cell, item.val) && |image| <= most
        invariant crossed <= 2 && (crossed > 0 ==> |pack(built, item.val)| > old(spaceAvail))
        invariant if crossed == 0 then View() == v && pfxCompress == old(pfxCompress) && cell == built
                  else && !pfxCompress
                       && Keys.Suits(cell, item.key, [])
                       && BestCell(cell, item.key, [], false, kind, maxItem)
        invariant OnePage(v, most) ==> OnePage(View(), most)
        invariant crossed == 1 ==> cur == [] || tracking == Off
        invariant crossed == 2 ==> cur == [] && tracking == Off
        invariant cur == [] && tracking != Max ==> spaceAvail == splitSize - HEADER_SIZE
        decreases 2 - crossed
      {
        ghost var u := View();
        var n := |image|;
        cell, image := SplitBefore(item, cell);
        OneCross(v, u, most, n, View());
        FitsForm(item, cell, pack, kind, maxItem, most);
        crossed := crossed + 1;
      }
      RoomFollows(View(), crossed, last, pfxCompress, cell, item.key);
      OnePageOne(View(), most);
    }

    /** Split, and build the key again without compression. */
    method SplitBefore(item: Item, cell: Keys.Cell) returns (cell': Keys.Cell, image: Bytes)
      requires Valid(View()) && (tracking != Max ==> cur != [])
      requires Ahead(View(), KeyView(), item) && Form(cell, item.key, kind, maxItem)
      modifies `keys, `pages, `bnd, `totalEntries, `tracking, `entries, `buf, `spaceAvail, `written, `noted, `cur
      modifies `pfxCompress
      ensures Valid(View()) && Kept(old(View()), View()) && Ahead(View(), KeyView(), item) && !pfxCompress
      ensures if old(tracking) == Max then tracking == Off && cur == old(cur)
              else cur == [] && (tracking == Off) == (old(tracking) == Off)
      ensures old(tracking) == Boundary ==> written == old(written)
      ensures cur == [] && tracking != Max ==> spaceAvail == splitSize - HEADER_SIZE
      ensures Form(cell', item.key, kind, maxItem) && Keys.Suits(cell', item.key, [])
      ensures image == pack(cell', item.val) && BestCell(cell', item.key, [], false, kind, maxItem)
    {
      hide Valid, Kept, Ahead, Form, Keys.Suits, BestCell;
      Cross(item);
      Fresh(View());
      pfxCompress := false;
      cell', image := Rebuild(item, cell);
    }

    /** After a split a key is no longer compressed; as a whole it may be too long. */
    method Rebuild(item: Item, cell: Keys.Cell) returns (cell': Keys.Cell, image: Bytes)
      requires Form(cell, item.key, kind, maxItem)
      ensures Form(cell', item.key, kind, maxItem) && Keys.Suits(cell', item.key, [])
      ensures image == pack(cell', item.val) && BestCell(cell', item.key, [], false, kind, maxItem)
    {
      cell' := cell;
      if cell.Key? {
        cell' := KeyCell(item.key, last, false, kind, maxItem);
      }
      image := pack(cell', item.val);
    }

    /** Copy an item to the page and say how the next key may be compressed. */
    method Place(item: Item, cell: Keys.Cell, image: Bytes)
      requires Valid(View()) && |image| <= spaceAvail && Follows(cur, cell, item.key)
      requires Ahead(View(), KeyView(), item) && LastOnPage(cur, last, pfxCompress)
      requires AllBuilt(All(View()), pack, kind, maxItem)
      requires Built(Placed(item, cell, image), pack, kind, maxItem)
      modifies `buf, `entries, `recno, `spaceAvail, `cur, `pfxCompress, `last, `sfxCompress
      ensures Valid(View()) && Keyed(View(), KeyView()) && LastOnPage(cur, last, pfxCompress)
      ensures AllBuilt(All(View()), pack, kind, maxItem) && Items(All(View())) == old(Items(All(View()))) + [item]
      ensures All(View()) == old(All(View())) + [Placed(item, cell, image)]
      ensures cur == old(cur) + [Placed(item, cell, image)] && entries == old(entries) + item.entries
      ensures last == (if cell.Key? then item.key else old(last))
      ensures pfxCompress == (if cell.Key? then compress else old(pfxCompress))
      ensures sfxCompress == (cell.Key? && kind == RowLeaf(true))
    {
      hide Valid, Items, All, Keyed, Ahead, Coded, Keys.Suits, Built, AllBuilt;
      ghost var v, q, p := View(), KeyView(), Placed(item, cell, image);
      Copy(item, cell, image);
      if cell.Ovfl? {
        sfxCompress := false;
      } else {
        pfxCompress, last := compress, item.key;
        sfxCompress := kind.RowLeaf? && kind.suffix;
      }
      KeyedCopy(v, q, p, View(), KeyView());
      CodedSnoc(v.cur, p);
      BuiltSnoc(All(v), p, pack, kind, maxItem);
    }

    /** Copy an item to the page. */
    method Copy(item: Item, cell: Keys.Cell, image: Bytes)
      requires Valid(View()) && |image| <= spaceAvail && Follows(cur, cell, item.key)
      modifies `buf, `entries, `recno, `spaceAvail, `cur
      ensures Valid(View()) && All(View()) == old(All(View())) + [Placed(item, cell, image)]
      ensures Items(All(View())) == old(Items(All(View()))) + [item]
      ensures cur == old(cur) + [Placed(item, cell, image)] && entries == old(entries) + item.entries
    {
      hide Valid, Items, All, Flat, Cat, Recs, Entries, Follows;
      ghost var v, p := View(), Placed(item, cell, image);
      buf, entries, recno := buf + image, entries + item.entries, recno + item.recs;
      spaceAvail := spaceAvail - |image|;
      cur := cur + [p];
      CopyKeeps(v, p, View());
    }

    /** Write the last page, or the only one, or none if there was nothing to write. */
    method Finish()
      requires Ready()
      modifies this
      ensures Done(old(View()), pages, written)
      ensures One(old(View())) ==> |written| <= 1
      ensures kind != ColumnStore && written != [] ==> Parted(keys, written)
    {
      hide Valid, Done, Flat, Cat, Recs, Entries, Items, Separated, Parted;
      ghost var v := View();
      HasBound(v);
      if entries == 0 {
        NoPage(v);
        pages, written := [], [];
      } else if tracking == Off {
        LastPage(v);
        pages := pages + [Page(bnd[|bnd| - 1].recno, entries, buf)];
        LastParted(v, keys);
        written := written + [cur];
      } else {
        OnlyPage(v);
        pages := [Page(bnd[0].recno, entries, buf)];
        written, keys := [All(v)], [];
        OneParted(All(v));
      }
    }
  }

  lemma FirstFollows(v: State, last: Bytes, compress: bool, cell: Keys.Cell, key: Bytes)
    requires Valid(v) && LastOnPage(v.cur, last, compress) && Keys.Suits(cell, key, if compress then last else [])
    ensures Follows(v.cur, cell, key)
  {
    hide Coded;
    if !compress {
      WholeFollows(v.cur, cell, key);
    }
  }

  lemma RoomFollows(v: State, crossed: nat, last: Bytes, compress: bool, cell: Keys.Cell, key: Bytes)
    requires Valid(v) && (if crossed == 0 then Follows(v.cur, cell, key) else !compress && Keys.Suits(cell, key, []))
    ensures Follows(v.cur, cell, key) && (crossed > 0 ==> LastOnPage(v.cur, last, compress))
  {
    hide Coded;
    if crossed > 0 {
      WholeFollows(v.cur, cell, key);
    }
  }

  lemma LookAhead(v: State, q: Keying, item: Item)
    requires Keyed(v, q) && Below(v, q.kind, item)
    ensures Ahead(v, q, item)
  {
    hide All, Separated;
    if q.kind != ColumnStore {
      SeparatedMore(q.keys, v.written + v.noted, Items(All(v)), item);
    }
  }

  lemma FixupAhead(v: State, q: Keying, item: Item, v': State)
    requires Ahead(v, q, item) && Kept(v, v') && v'.written == v.noted && v'.noted == v.written == []
    ensures Ahead(v', q, item)
  {
    hide Separated;
    assert v'.written + v'.noted == v.written + v.noted;
  }

  /** The key promoted for the end of the chunk in the buffer goes with the boundary there. */
  lemma PromotedAhead(v: State, q: Keying, item: Item, v': State, q': Keying)
    requires Valid(v) && v.tracking != Max && Ahead(v, q, item)
    requires Kept(v, v') && q' == q.(keys := q'.keys)
    requires
      || (v'.written == v.written && v'.noted == v.noted + [v.cur])
      || (v'.written == v.written + [v.cur] && v.noted == [] == v'.noted)
    requires q.kind != ColumnStore ==>
      exists key :: q'.keys == q.keys + [key] && Separates(Items(All(v)) + [item], |All(v)|, key)
    ensures Ahead(v', q', item)
  {
    hide Flat, Recs, Cat, Entries, Coded, Holds, GoodChunks, Bounds, Separates, Separated, Items;
    if q.kind != ColumnStore {
      var key :| q'.keys == q.keys + [key] && Separates(Items(All(v)) + [item], |All(v)|, key);
      var c := v.written + v.noted;
      CatSnoc(c, v.cur);
      Nothing();
      assert c == if v.tracking == Off then v.written else v.noted;
      assert Cat(c + [v.cur]) == All(v) && v'.written + v'.noted == c + [v.cur];
      SeparatedSnoc(q.keys, c, Items(All(v)) + [item], v.cur, key);
    }
  }

  lemma KeyedCopy(v: State, q: Keying, p: Placed, v': State, q': Keying)
    requires Ahead(v, q, p.item) && All(v') == All(v) + [p] && v'.written == v.written && v'.noted == v.noted
    requires q'.kind == q.kind && q'.keys == q.keys && (q'.sfx ==> q.kind.RowLeaf? && q'.last == p.item.key)
    ensures Keyed(v', q')
  {
    hide All, Separated, Keys.Less;
    assert Items(All(v')) == Items(All(v)) + [p.item];
  }

  lemma LastParted(v: State, keys: seq<Bytes>)
    requires Valid(v) && v.tracking == Off && v.cur != []
    ensures Separated(keys, v.written + v.noted, Items(All(v))) ==> Parted(keys, v.written + [v.cur])
  {
    hide Flat, Recs, Cat, Entries, Coded, Holds, Separated, Parted, Items;
    CatSnoc(v.written, v.cur);
    Nothing();
    var c := v.written + [v.cur];
    assert v.written + v.noted == v.written == c[..|c| - 1] && All(v) == Cat(c);
    GoodSnoc(v.written, v.cur, Room(v));
    if Separated(keys, v.written, Items(All(v))) {
      PartedIs(keys, c, Items(All(v)), Room(v));
    }
  }

  lemma OneParted(s: seq<Placed>)
    ensures Parted([], [s])
  {
  }

  lemma HasBound(v: State)
    requires Valid(v)
    ensures |v.bnd| > 0 && HEADER_SIZE < v.splitSize && (v.cur != [] ==> All(v) != [])
    ensures v.tracking == Off ==> v.noted == []
  {
  }

  /** A boundary is noted within the page, so no count or length falls below zero. */
  lemma NoteFits(v: State)
    requires Valid(v) && v.tracking == Boundary
    ensures |v.bnd| > 0 && v.totalEntries <= v.entries && HEADER_SIZE < v.splitSize
    ensures HEADER_SIZE + |v.buf| + HEADER_SIZE <= v.pageSize
  {
  }

  /**
   The items are on the pages as whole chunks: on one that fits the page, or on several that each fit a
   split page.  Each page can be read on its own, and gives the keys back.
   */
  ghost predicate HoldItems(pages: seq<Page>, items: seq<Item>, first: nat, c: seq<seq<Placed>>,
                            room: int, splitRoom: int) {
    && Holds(pages, c, first) && Items(Cat(c)) == items && GoodChunks(c, room)
    && (|c| > 1 ==> GoodChunks(c, splitRoom))
  }

  lemma NextKey(v: State, items: seq<Item>, i: nat)
    requires i < |items| && Items(All(v)) == items[..i] && InKeyOrder(items)
    ensures i > 0 ==> |All(v)| == i && Keys.Less(All(v)[i - 1].item.key, items[i].key)
  {
    hide All;
    if i > 0 {
      assert Items(All(v))[i - 1] == All(v)[i - 1].item && Keys.Less(items[i - 1].key, items[i - 1 + 1].key);
    }
  }

  ghost function Sum(n: seq<nat>): (s: nat) {
    if n == [] then 0 else Sum(n[..|n| - 1]) + n[|n| - 1]
  }

  lemma SumNext(n: seq<nat>, i: nat)
    requires i < |n|
    ensures Sum(n[..i + 1]) == Sum(n[..i]) + n[i]
  {
    assert n[..i + 1][..i] == n[..i];
  }

  ghost predicate InKeyOrder(items: seq<Item>) {
    forall i :: 0 <= i < |items| - 1 ==> Keys.Less(items[i].key, items[i + 1].key)
  }

  /**
   Items that each fit a split page are written in order: on one page if they all fit one, else on
   pages of the split size, none of them empty, each with its first record and its number of cells
   right.  The key cells of each page give back its keys, whatever was compressed and whatever was too
   long; in a row-store the keys promoted lead to the right page.  `most` bounds the bytes of each item:
   items that fit one page, less a header, are written as one.
   */
  method WriteItems(kind: Kind, items: seq<Item>, maxItem: nat, compress: bool, pack: Packing,
                    max: nat, allocsize: nat, pct: nat, recno: nat, ghost most: seq<nat>)
    returns (pages: seq<Page>, keys: seq<Bytes>, ghost c: seq<seq<Placed>>)
    requires Configured(max, allocsize, pct) && (kind != ColumnStore ==> InKeyOrder(items))
    requires |most| == |items| && forall i :: 0 <= i < |items| ==>
      Fits(items[i], pack, kind, maxItem, most[i]) && most[i] <= SplitSize(max, allocsize, pct) - HEADER_SIZE
    ensures HoldItems(pages, items, recno, c, PageSize(max, allocsize) - HEADER_SIZE,
                      SplitSize(max, allocsize, pct) - HEADER_SIZE)
    ensures AllBuilt(Cat(c), pack, kind, maxItem)
    ensures kind != ColumnStore && c != [] ==> Parted(keys, c)
    ensures Sum(most) <= PageSize(max, allocsize) - 2 * HEADER_SIZE ==> |c| <= 1
  {
    hide Flat, Cat, Recs, Entries, Valid, PageSize, SplitSize, Keys.Less, Separated, Parted, Built, Fits, Coded;
    Nothing();
    assert most[..0] == [] && Sum([]) == 0;
    hide BestCell, Sum, All;
    var whole := PageSize(max, allocsize) - 2 * HEADER_SIZE;
    var r := new Split(kind, maxItem, compress, pack, max, allocsize, pct, recno);
    var i := 0;
    assert Items([]) == [] == items[..0];
    while i < |items|
      invariant i <= |items| && r.Ready() && r.first == recno && Items(All(r.View())) == items[..i]
      invariant r.pageSize == PageSize(max, allocsize) && r.splitSize == SplitSize(max, allocsize, pct)
      invariant |Flat(All(r.View()))| <= Sum(most[..i]) && (Sum(most[..i]) <= whole ==> One(r.View()))
    {
      SumNext(most, i);
      if kind != ColumnStore {
        NextKey(r.View(), items, i);
      }
      var crossed := r.Add(items[i], most[i]);
      assert items[..i + 1] == items[..i] + [items[i]];
      i := i + 1;
    }
    assert items[..i] == items && most[..i] == most;
    r.Finish();
    pages, keys, c := r.pages, r.keys, r.written;
  }
}
