/**
 Runs of the block manager over one file: allocation, frees, checkpoints that are written, made
 durable in the metadata and resolved, and crashes at any point.  File space is a set of byte
 offsets; the lists of the running system and of every checkpoint on disk are sets.
 */
module BlockRuns {
  import opened Extents
  import opened Chains

  const DESC_SECTOR: int := 512

  /** The bytes of a file of this size, the description sector excepted. */
  ghost function File(size: int): (r: set<int>) {
    Range(DESC_SECTOR, size - DESC_SECTOR)
  }

  /** A checkpoint in the metadata: its link of the chain and the blocks holding its extent lists. */
  datatype Record = Record(link: Link, lists: Lists)

  /**
   The metadata: the checkpoints, and the last one's avail list (as loading it gives it) and file size.
   */
  datatype Meta = Meta(recs: seq<Record>, avail: set<int>, size: int)

  /**
   `Writing`: the checkpoint's lists are being written.  `Written`: its metadata is not durable yet.
   `Resolving`: it is durable, and the space it freed is not available yet.
   */
  datatype Phase = Idle | Writing(recs: seq<Record>) | Written(meta: Meta) | Resolving

  datatype State = State(disk: Meta, phase: Phase, up: bool, size: int,
                         avail: set<int>, ckptAvail: set<int>, alloc: set<int>, discard: set<int>,
                         leaked: set<int>)

  ghost function Links(recs: seq<Record>): (r: seq<Link>) {
    seq(|recs|, i requires 0 <= i < |recs| => recs[i].link)
  }

  ghost function ListsIn(recs: seq<Record>): (r: seq<Lists>) {
    seq(|recs|, i requires 0 <= i < |recs| => recs[i].lists)
  }

  /** The checkpoints the running system builds on. */
  ghost function Recs(s: State): (r: seq<Record>) {
    match s.phase
    case Idle => s.disk.recs
    case Writing(recs) => recs
    case Written(m) => m.recs
    case Resolving => s.disk.recs
  }

  /** Every byte a checkpoint of the metadata refers to: pages, root or extent-list block. */
  ghost function Referenced(m: Meta): (r: set<int>) {
    Used(Links(m.recs)) + AllLists(ListsIn(m.recs))
  }

  // ----- changes of the file space, shared with the imperative model -----

  /** Range `b` is handed out: from the available space, or by extending the file. */
  ghost predicate Takes(avail: set<int>, size: int, b: set<int>, avail': set<int>, size': int) {
    || (b <= avail && avail' == avail - b && size' == size)
    || (avail' == avail && size' > size && b == Range(size, size' - size))
  }

  /** Range `b` is freed: reusable at once if allocated since the last checkpoint, else discarded. */
  ghost predicate Frees(avail: set<int>, alloc: set<int>, discard: set<int>, b: set<int>,
                        avail': set<int>, alloc': set<int>, discard': set<int>) {
    || (b <= alloc && alloc' == alloc - b && avail' == avail + b && discard' == discard)
    || (b !! alloc && alloc' == alloc && avail' == avail && discard' == discard + b)
  }

  /** The file ends earlier: its last bytes were available and are gone. */
  ghost predicate Cuts(avail: set<int>, size: int, avail': set<int>, size': int) {
    DESC_SECTOR <= size' <= size && Range(size', size - size') <= avail && avail' == avail - Range(size', size - size')
  }

  // ----- steps -----

  datatype ListKind = AllocList | DiscardList

  datatype Step =
    | Alloc(b: set<int>)
    | Free(b: set<int>)
    | Begin(del: seq<bool>, root: set<int>)
    | WriteList(i: nat, kind: ListKind, b: set<int>)
    | Truncate
    | Finish(b: set<int>)
    | Durable
    | Resolve
    | Crash

  /** A new checkpoint joins the chain: the live lists and its root page are its link. */
  ghost function Joined(s: State, root: set<int>): (r: seq<Link>) {
    Links(s.disk.recs) + [Link(s.alloc, s.discard, root)]
  }

  ghost function JoinedLists(s: State): (r: seq<Lists>) {
    ListsIn(s.disk.recs) + [Lists({}, {}, {})]
  }

  /** The list blocks that stay: a rewritten checkpoint keeps only its avail list. */
  ghost function KeptLists(bs: seq<Lists>, del: seq<bool>, n: nat): (r: seq<Lists>)
    requires n <= |bs| == |del|
  {
    if n == 0 then [] else
      KeptLists(bs, del, n - 1) +
      if del[n - 1] then []
      else if Rewritten(del, n - 1) then [Lists({}, bs[n - 1].avail, {})] else [bs[n - 1]]
  }

  ghost predicate Zips(recs: seq<Record>, c: seq<Link>, bs: seq<Lists>) {
    Links(recs) == c && ListsIn(recs) == bs
  }

  ghost function SetList(r: Record, kind: ListKind, b: set<int>): (r': Record) {
    match kind
    case AllocList => r.(lists := r.lists.(alloc := b))
    case DiscardList => r.(lists := r.lists.(discard := b))
  }

  ghost function GetList(r: Record, kind: ListKind): (b: set<int>) {
    match kind
    case AllocList => r.lists.alloc
    case DiscardList => r.lists.discard
  }

  ghost predicate Running(s: State) {
    s.up && !s.phase.Writing?
  }

  ghost predicate BeginStep(s: State, t: State, del: seq<bool>, root: set<int>) {
    && s.up && s.phase == Idle && |del| == |s.disk.recs| && root <= s.alloc
    && t.phase.Writing?
    && var c, bs, d := Joined(s, root), JoinedLists(s), del + [false];
       && Zips(t.phase.recs, RollAll(c, d).kept, KeptLists(bs, d, |d|))
       && t == s.(phase := t.phase, alloc := {}, discard := {},
                  ckptAvail := RollAll(c, d).freed + Released(bs, d, |bs| - 1))
  }

  /** The avail list goes last: it lists all that is free once resolved, save the block it is in. */
  ghost predicate FinishStep(s: State, t: State, b: set<int>) {
    && s.up && s.phase.Writing? && s.phase.recs != []
    && var r := s.phase.recs[|s.phase.recs| - 1];
       && r.lists.avail == {}
       && Takes(s.avail, s.size, b, t.avail, t.size)
       && t == s.(avail := t.avail, size := t.size,
                  phase := Written(Meta(s.phase.recs[..|s.phase.recs| - 1] + [r.(lists := r.lists.(avail := b))],
                                        (s.avail + s.ckptAvail) - b, t.size)))
  }

  /** Loading the last durable checkpoint; an avail list reaching past the end of the file is refused. */
  ghost predicate CrashStep(s: State, t: State) {
    if s.disk.recs == [] then
      t == State(s.disk, Idle, true, s.size, {}, {}, {}, {}, File(s.size))
    else if s.disk.avail <= File(s.size) then
      t == State(s.disk, Idle, true, s.disk.size, s.disk.avail, {}, {}, {}, s.leaked)
    else
      t == s.(up := false)
  }

  ghost predicate NextState(s: State, t: State, step: Step) {
    match step
    case Alloc(b) =>
      Running(s) && Takes(s.avail, s.size, b, t.avail, t.size) &&
      t == s.(avail := t.avail, size := t.size, alloc := s.alloc + b)
    case Free(b) =>
      // the tree frees what it refers to
      Running(s) && b <= Pages(Links(Recs(s))) + s.alloc - s.discard &&
      Frees(s.avail, s.alloc, s.discard, b, t.avail, t.alloc, t.discard) &&
      t == s.(avail := t.avail, alloc := t.alloc, discard := t.discard)
    case Begin(del, root) => BeginStep(s, t, del, root)
    case WriteList(i, kind, b) =>
      s.up && s.phase.Writing? && i < |s.phase.recs| && GetList(s.phase.recs[i], kind) == {} &&
      Takes(s.avail, s.size, b, t.avail, t.size) &&
      t == s.(avail := t.avail, size := t.size,
              phase := Writing(s.phase.recs[i := SetList(s.phase.recs[i], kind, b)]))
    case Truncate =>
      s.up && s.phase.Writing? && Cuts(s.avail, s.size, t.avail, t.size) &&
      t == s.(avail := t.avail, size := t.size)
    case Finish(b) => FinishStep(s, t, b)
    case Durable =>
      s.up && s.phase.Written? && t == s.(disk := s.phase.meta, phase := Resolving)
    case Resolve =>
      s.up && s.phase == Resolving &&
      t == s.(phase := Idle, avail := s.avail + s.ckptAvail, ckptAvail := {})
    case Crash => CrashStep(s, t)
  }

  /** A file just created: no checkpoint, no space beyond the description sector. */
  ghost predicate Init(s: State) {
    s == State(Meta([], {}, DESC_SECTOR), Idle, true, DESC_SECTOR, {}, {}, {}, {}, {})
  }

  // ----- the invariant -----

  /** Five disjoint parts make up the file. */
  ghost predicate Tiles(size: int, a: set<int>, b: set<int>, c: set<int>, d: set<int>, e: set<int>) {
    && a !! b && a !! c && a !! d && a !! e && b !! c && b !! d && b !! e && c !! d && c !! e && d !! e
    && a + b + c + d + e == File(size) && size >= DESC_SECTOR
  }

  /** What loading this metadata's last checkpoint relies on. */
  ghost predicate Stored(m: Meta, leaked: set<int>) {
    && WellFormed(Links(m.recs)) && ListsApart(ListsIn(m.recs))
    && (m.recs != [] ==> Tiles(m.size, m.avail, {}, Allocs(Links(m.recs)), AllLists(ListsIn(m.recs)), leaked))
  }

  ghost predicate LiveInv(s: State) {
    var c, bs := Links(Recs(s)), ListsIn(Recs(s));
    && WellFormed(c) && ListsApart(bs) && Next(Pages(c), Allocs(c), Link(s.alloc, s.discard, {}))
    && Tiles(s.size, s.avail, s.ckptAvail, Allocs(c) + s.alloc, AllLists(bs), s.leaked)
    && Referenced(s.disk) !! s.avail
    && (s.phase.Written? ==> Referenced(s.disk) !! s.alloc && Stored(s.phase.meta, s.leaked))
    && (s.phase.Writing? ==> s.alloc == {} && s.discard == {})
    && (s.phase == Idle ==> s.ckptAvail == {})
  }

  ghost predicate Inv(s: State) {
    && Stored(s.disk, s.leaked) && Referenced(s.disk) <= File(s.size) && s.size >= DESC_SECTOR
    && (s.up ==> LiveInv(s))
  }

  lemma InitInv(s: State)
    requires Init(s)
    ensures Inv(s)
  {
  }

  // ----- sets -----

  /** Taking a range from the available space or from beyond the end keeps the tiling. */
  lemma TakeTiles(size: int, a: set<int>, b: set<int>, c: set<int>, d: set<int>, e: set<int>,
                  x: set<int>, a': set<int>, size': int)
    requires Tiles(size, a, b, c, d, e) && Takes(a, size, x, a', size')
    ensures Tiles(size', a', b, c + x, d, e) && Tiles(size', a', b, c, d + x, e)
    ensures x !! b && x !! c && x !! d && x !! e && x !! a'
    ensures size' >= size && File(size) <= File(size')
  {
    if size' > size {
      RangeJoin(DESC_SECTOR, size - DESC_SECTOR, size' - size);
    }
    assert File(size') == File(size) + x;
  }

  lemma CutTiles(size: int, a: set<int>, b: set<int>, c: set<int>, d: set<int>, e: set<int>, a': set<int>, size': int)
    requires Tiles(size, a, b, c, d, e) && Cuts(a, size, a', size')
    ensures Tiles(size', a', b, c, d, e) && File(size') == File(size) - Range(size', size - size')
  {
    RangeJoin(DESC_SECTOR, size' - DESC_SECTOR, size - size');
  }

  /** On top of its own metadata, the running system's used space is all it refers to. */
  lemma ReferencedIs(m: Meta)
    requires WellFormed(Links(m.recs))
    ensures Referenced(m) == Allocs(Links(m.recs)) + AllLists(ListsIn(m.recs))
  {
    UsedIsAllocated(Links(m.recs));
  }

  lemma AllocInv(s: State, t: State, b: set<int>)
    requires Inv(s) && NextState(s, t, Alloc(b))
    ensures Inv(t) && b !! Referenced(s.disk)
  {
    hide WellFormed, Pages, Allocs, AllLists, ListsApart, Used, Links, ListsIn, Stored, Referenced, Range;
    var c, bs := Links(Recs(s)), ListsIn(Recs(s));
    TakeTiles(s.size, s.avail, s.ckptAvail, Allocs(c) + s.alloc, AllLists(bs), s.leaked, b, t.avail, t.size);
    assert Allocs(c) + s.alloc + b == Allocs(c) + t.alloc;
    TakeBeyond(s.avail, s.size, b, t.avail, t.size, Referenced(s.disk));
  }

  lemma TakeBeyond(avail: set<int>, size: int, b: set<int>, avail': set<int>, size': int, r: set<int>)
    requires Takes(avail, size, b, avail', size') && r !! avail && r <= File(size)
    ensures r !! b && r !! avail'
  {
  }

  lemma FreeInv(s: State, t: State, b: set<int>)
    requires Inv(s) && NextState(s, t, Free(b))
    ensures Inv(t)
  {
    hide WellFormed, Pages, Allocs, AllLists, ListsApart, Used, Links, ListsIn, Stored, Referenced, Range;
    var c, bs := Links(Recs(s)), ListsIn(Recs(s));
    if !s.phase.Written? { ReferencedDisk(s); }
    if b <= s.alloc && t.alloc == s.alloc - b {
      FreeTiles(s.size, s.avail, s.ckptAvail, Allocs(c), s.alloc, AllLists(bs), s.leaked, b);
    }
  }

  lemma ReferencedDisk(s: State)
    requires Inv(s) && s.up && (s.phase == Idle || s.phase == Resolving)
    ensures Referenced(s.disk) == Allocs(Links(Recs(s))) + AllLists(ListsIn(Recs(s)))
    ensures Referenced(s.disk) !! s.alloc
  {
    ReferencedIs(s.disk);
  }

  lemma FreeTiles(size: int, a: set<int>, b: set<int>, c: set<int>, live: set<int>,
                  d: set<int>, e: set<int>, x: set<int>)
    requires Tiles(size, a, b, c + live, d, e) && x <= live && c !! live
    ensures Tiles(size, a + x, b, c + (live - x), d, e)
  {
    forall y ensures y in (a + x) + b + (c + (live - x)) + d + e <==> y in a + b + (c + live) + d + e {
    }
  }

  lemma TruncateInv(s: State, t: State)
    requires Inv(s) && NextState(s, t, Truncate)
    ensures Inv(t) && (File(s.size) - File(t.size)) !! Referenced(s.disk)
  {
    hide WellFormed, Pages, Allocs, AllLists, ListsApart, Used, Links, ListsIn, Stored, Referenced, Range;
    var c, bs := Links(Recs(s)), ListsIn(Recs(s));
    CutTiles(s.size, s.avail, s.ckptAvail, Allocs(c) + s.alloc, AllLists(bs), s.leaked, t.avail, t.size);
  }

  lemma ResolveInv(s: State, t: State)
    requires Inv(s) && NextState(s, t, Resolve)
    ensures Inv(t)
  {
    hide WellFormed, Pages, Allocs, AllLists, ListsApart, Used, Links, ListsIn, Stored, Referenced, Range;
    ReferencedDisk(s);
    assert s.avail + s.ckptAvail + {} + (Allocs(Links(Recs(s))) + s.alloc) + AllLists(ListsIn(Recs(s))) + s.leaked
        == s.avail + s.ckptAvail + (Allocs(Links(Recs(s))) + s.alloc) + AllLists(ListsIn(Recs(s))) + s.leaked;
  }

  lemma DurableInv(s: State, t: State)
    requires Inv(s) && NextState(s, t, Durable)
    ensures Inv(t)
  {
    hide WellFormed, Pages, Allocs, AllLists, ListsApart, Used, Links, ListsIn, Referenced, Range;
    ReferencedIs(t.disk);
  }

  lemma CrashInv(s: State, t: State)
    requires Inv(s) && NextState(s, t, Crash)
    ensures Inv(t)
  {
    if t.up {
      ReferencedIs(s.disk);
      if s.disk.recs == [] {
        assert Links(s.disk.recs) == [] && ListsIn(s.disk.recs) == [];
      }
    }
  }

  // ----- writing a checkpoint -----

  lemma {:induction false} ListsGrow(bs: seq<Lists>, i: nat, t: Lists, b: set<int>)
    requires i < |bs| && ListsApart(bs) && b !! AllLists(bs)
    requires OwnApart(t) && ListBytes(t) == ListBytes(bs[i]) + b
    ensures ListsApart(bs[i := t]) && AllLists(bs[i := t]) == AllLists(bs) + b
  {
    var m := |bs| - 1;
    var r := bs[i := t];
    if i == m {
      assert r[..m] == bs[..m];
    } else {
      ListsGrow(bs[..m], i, t, b);
      assert r[..m] == bs[..m][i := t] && r[m] == bs[m];
    }
  }

  lemma ListsHas(bs: seq<Lists>, i: nat)
    requires ListsApart(bs) && i < |bs|
    ensures OwnApart(bs[i]) && ListBytes(bs[i]) <= AllLists(bs)
  {
    ApartPrefix(bs, i);
  }

  /** A list block joins record `i`: its link is unchanged, its list blocks grow by `b`. */
  lemma RecordGrows(recs: seq<Record>, i: nat, r: Record, b: set<int>)
    requires i < |recs| && ListsApart(ListsIn(recs)) && b !! AllLists(ListsIn(recs))
    requires r.link == recs[i].link && OwnApart(r.lists) && ListBytes(r.lists) == ListBytes(recs[i].lists) + b
    ensures Links(recs[i := r]) == Links(recs)
    ensures ListsApart(ListsIn(recs[i := r]))
    ensures AllLists(ListsIn(recs[i := r])) == AllLists(ListsIn(recs)) + b
  {
    ListsGrow(ListsIn(recs), i, r.lists, b);
    assert ListsIn(recs[i := r]) == ListsIn(recs)[i := r.lists];
  }

  lemma WriteListInv(s: State, t: State, i: nat, kind: ListKind, b: set<int>)
    requires Inv(s) && NextState(s, t, WriteList(i, kind, b))
    ensures Inv(t) && b !! Referenced(s.disk)
  {
    hide WellFormed, Pages, Allocs, AllLists, ListsApart, Used, Stored, Referenced, Range;
    var recs := s.phase.recs;
    var c, bs := Links(recs), ListsIn(recs);
    TakeTiles(s.size, s.avail, s.ckptAvail, Allocs(c) + s.alloc, AllLists(bs), s.leaked, b, t.avail, t.size);
    TakeBeyond(s.avail, s.size, b, t.avail, t.size, Referenced(s.disk));
    ListsHas(bs, i);
    RecordGrows(recs, i, SetList(recs[i], kind, b), b);
  }

  lemma FinishInv(s: State, t: State, b: set<int>)
    requires Inv(s) && NextState(s, t, Finish(b))
    ensures Inv(t) && b !! Referenced(s.disk)
  {
    hide WellFormed, Pages, Allocs, AllLists, ListsApart, Used, Referenced, Range;
    var recs := s.phase.recs;
    var m, c, bs := |recs| - 1, Links(recs), ListsIn(recs);
    var r := recs[m].(lists := recs[m].lists.(avail := b));
    TakeTiles(s.size, s.avail, s.ckptAvail, Allocs(c) + s.alloc, AllLists(bs), s.leaked, b, t.avail, t.size);
    TakeBeyond(s.avail, s.size, b, t.avail, t.size, Referenced(s.disk));
    ListsHas(bs, m);
    RecordGrows(recs, m, r, b);
    assert recs[..m] + [r] == recs[m := r];
    FinishTiles(s.size, s.avail, s.ckptAvail, Allocs(c), AllLists(bs), s.leaked, b, t.avail, t.size);
  }

  lemma FinishTiles(size: int, a: set<int>, k: set<int>, c: set<int>, d: set<int>, e: set<int>,
                    b: set<int>, a': set<int>, size': int)
    requires Tiles(size, a, k, c + {}, d, e) && Takes(a, size, b, a', size')
    ensures Tiles(size', (a + k) - b, {}, c, d + b, e)
    ensures (a + k) - b == a' + k
  {
    TakeTiles(size, a, k, c + {}, d, e, b, a', size');
    assert (a + k) - b == a' + k;
    assert c + {} == c;
  }

  // ----- beginning a checkpoint -----

  /** `kept` and `released` are parts of the list blocks `all`, of which `extra` comes from the next record. */
  ghost predicate Split(kept: set<int>, released: set<int>, all: set<int>, extra: set<int>) {
    kept !! released && kept <= all && kept + released == all + extra
  }

  lemma SplitDeleted(k: set<int>, r: set<int>, all: set<int>, l: set<int>, extra: set<int>)
    requires Split(k, r, all, {}) && l !! all && extra !! all + l
    ensures Split(k, r + (l + extra), all + l, extra)
  {
  }

  lemma SplitRewritten(k: set<int>, r: set<int>, all: set<int>, t: Lists)
    requires Split(k, r, all, t.alloc + t.discard) && OwnApart(t) && ListBytes(t) !! all
    ensures Split(k + ListBytes(Lists({}, t.avail, {})), r, all + ListBytes(t), {})
    ensures ListBytes(Lists({}, t.avail, {})) !! k
  {
  }

  lemma SplitKept(k: set<int>, r: set<int>, all: set<int>, l: set<int>)
    requires Split(k, r, all, {}) && l !! all
    ensures Split(k + l, r, all + l, {}) && l !! k
  {
  }

  lemma ListsSnoc(bs: seq<Lists>, t: Lists)
    ensures AllLists(bs + [t]) == AllLists(bs) + ListBytes(t)
    ensures ListsApart(bs + [t]) <==> ListsApart(bs) && OwnApart(t) && ListBytes(t) !! AllLists(bs)
  {
    assert (bs + [t])[..|bs|] == bs;
  }

  ghost function Extra(bs: seq<Lists>, del: seq<bool>, n: nat): (r: set<int>)
    requires n <= |bs| == |del|
  {
    if Rewritten(del, n) then bs[n].alloc + bs[n].discard else {}
  }

  lemma {:induction false} KeptListsAre(bs: seq<Lists>, del: seq<bool>, n: nat)
    requires n <= |bs| == |del| && ListsApart(bs)
    ensures ListsApart(KeptLists(bs, del, n))
    ensures Split(AllLists(KeptLists(bs, del, n)), Released(bs, del, n), AllLists(bs[..n]), Extra(bs, del, n))
  {
    hide ListsApart, AllLists, ListBytes, OwnApart, Split;
    if n == 0 {
      NoLists(bs, del);
    } else {
      var m := n - 1;
      KeptListsAre(bs, del, m);
      ApartPrefix(bs, m);
      assert bs[..n] == bs[..m] + [bs[m]];
      ListsSnoc(bs[..m], bs[m]);
      ListsSnoc(KeptLists(bs, del, m), Lists({}, bs[m].avail, {}));
      ListsSnoc(KeptLists(bs, del, m), bs[m]);
      var k, r, all := AllLists(KeptLists(bs, del, m)), Released(bs, del, m), AllLists(bs[..m]);
      if del[m] {
        ExtraApart(bs, del, n);
        SplitDeleted(k, r, all, ListBytes(bs[m]), Extra(bs, del, n));
        assert KeptLists(bs, del, n) == KeptLists(bs, del, m);
      } else if Rewritten(del, m) {
        OwnPart(bs[m]);
        SplitRewritten(k, r, all, bs[m]);
      } else {
        SplitKept(k, r, all, ListBytes(bs[m]));
      }
      ReleasedAtIs(bs, del, m);
    }
  }

  lemma NoLists(bs: seq<Lists>, del: seq<bool>)
    requires |bs| == |del|
    ensures ListsApart(KeptLists(bs, del, 0))
    ensures Split(AllLists(KeptLists(bs, del, 0)), Released(bs, del, 0), AllLists(bs[..0]), Extra(bs, del, 0))
  {
  }

  lemma OwnPart(t: Lists)
    requires OwnApart(t)
    ensures OwnApart(Lists({}, t.avail, {}))
  {
  }

  lemma ExtraApart(bs: seq<Lists>, del: seq<bool>, n: nat)
    requires n <= |bs| == |del| && ListsApart(bs)
    ensures Extra(bs, del, n) !! AllLists(bs[..n])
  {
    if n < |bs| { ApartPrefix(bs, n); }
  }

  lemma ReleasedAtIs(bs: seq<Lists>, del: seq<bool>, m: nat)
    requires m < |bs| == |del|
    ensures Released(bs, del, m + 1) ==
              if del[m] then Released(bs, del, m) + (ListBytes(bs[m]) + Extra(bs, del, m + 1)) else Released(bs, del, m)
  {
  }

  /** There is one record for every checkpoint that stays. */
  lemma {:induction false} SameCount(c: seq<Link>, bs: seq<Lists>, del: seq<bool>, n: nat)
    requires n <= |c| == |bs| == |del|
    ensures |RollAll(c[..n], del[..n]).kept| == |KeptLists(bs, del, n)|
  {
    if n > 0 {
      SameCount(c, bs, del, n - 1);
      assert c[..n][..n - 1] == c[..n - 1] && del[..n][..n - 1] == del[..n - 1];
    }
  }

  lemma JoinedOk(s: State, root: set<int>)
    requires Inv(s) && s.up && s.phase == Idle && root <= s.alloc
    ensures WellFormed(Joined(s, root)) && Allocs(Joined(s, root)) == Allocs(Links(s.disk.recs)) + s.alloc
    ensures ListsApart(JoinedLists(s)) && AllLists(JoinedLists(s)) == AllLists(ListsIn(s.disk.recs))
  {
    Snoc(Links(s.disk.recs), Link(s.alloc, s.discard, root));
    var bs := JoinedLists(s);
    assert bs[..|bs| - 1] == ListsIn(s.disk.recs);
  }

  /** The bytes a checkpoint frees and the list blocks it gives up become one list; nothing else moves. */
  lemma BeginTiles(size: int, a: set<int>, c: set<int>, d: set<int>, e: set<int>,
                   c': set<int>, freed: set<int>, d': set<int>, released: set<int>)
    requires Tiles(size, a, {}, c, d, e)
    requires c == c' + freed && freed !! c' && d == d' + released && d' !! released
    ensures Tiles(size, a, freed + released, c' + {}, d', e)
  {
    assert a + (freed + released) + (c' + {}) + d' + e == a + {} + c + d + e;
  }

  lemma BeginInv(s: State, t: State, del: seq<bool>, root: set<int>)
    requires Inv(s) && NextState(s, t, Begin(del, root))
    ensures Inv(t)
  {
    hide WellFormed, Pages, Allocs, AllLists, ListsApart, Used, Stored, Referenced, Range, RollAll, KeptLists, Released;
    hide Links, ListsIn;
    var c, bs, d := Joined(s, root), JoinedLists(s), del + [false];
    JoinedOk(s, root);
    BeginCounts(s, root, d);
    DeleteKeepsMeaning(c, d);
    DeleteFrees(c, d);
    KeptListsAre(bs, d, |bs|);
    assert bs[..|bs|] == bs;
    ReleasedLast(bs, d);
    var r := RollAll(c, d);
    BeginTiles(s.size, s.avail, Allocs(c), AllLists(bs), s.leaked,
               Allocs(r.kept), r.freed, AllLists(KeptLists(bs, d, |d|)), Released(bs, d, |bs| - 1));
  }

  lemma BeginCounts(s: State, root: set<int>, d: seq<bool>)
    requires |d| == |s.disk.recs| + 1
    ensures |Joined(s, root)| == |JoinedLists(s)| == |d|
  {
  }

  lemma ReleasedLast(bs: seq<Lists>, del: seq<bool>)
    requires |bs| == |del| > 0 && !del[|del| - 1]
    ensures Released(bs, del, |bs|) == Released(bs, del, |bs| - 1)
  {
  }

  // ----- every run -----

  ghost predicate IsRun(tr: seq<State>, steps: seq<Step>) {
    && |tr| == |steps| + 1 && Init(tr[0])
    && forall i :: 0 <= i < |steps| ==> NextState(tr[i], tr[i + 1], steps[i])
  }

  lemma StepInv(s: State, t: State, step: Step)
    requires Inv(s) && NextState(s, t, step)
    ensures Inv(t)
  {
    hide *;
    match step
    case Alloc(b) => AllocInv(s, t, b);
    case Free(b) => FreeInv(s, t, b);
    case Begin(del, root) => BeginInv(s, t, del, root);
    case WriteList(i, kind, b) => WriteListInv(s, t, i, kind, b);
    case Truncate => TruncateInv(s, t);
    case Finish(b) => FinishInv(s, t, b);
    case Durable => DurableInv(s, t);
    case Resolve => ResolveInv(s, t);
    case Crash => CrashInv(s, t);
  }

  lemma {:induction false} RunInv(tr: seq<State>, steps: seq<Step>, i: nat)
    requires IsRun(tr, steps) && i < |tr|
    ensures Inv(tr[i])
  {
    hide Init, NextState, Inv;
    if i == 0 {
      InitInv(tr[0]);
    } else {
      RunInv(tr, steps, i - 1);
      StepInv(tr[i - 1], tr[i], steps[i - 1]);
    }
  }

  /** The bytes a step hands out for writing or cuts off the file. */
  ghost function Touched(s: State, t: State, step: Step): (r: set<int>) {
    match step
    case Alloc(b) => b
    case WriteList(_, _, b) => b
    case Finish(b) => b
    case _ => File(s.size) - File(t.size)
  }

  /**
   In every run, no step writes to or cuts off a byte of a page, root or extent-list block that a
   checkpoint of the last durable metadata refers to; those bytes are always part of the file.
   */
  lemma DurableUntouched(tr: seq<State>, steps: seq<Step>, i: nat)
    requires IsRun(tr, steps) && i < |steps|
    ensures Touched(tr[i], tr[i + 1], steps[i]) !! Referenced(tr[i].disk)
    ensures Referenced(tr[i].disk) <= File(tr[i].size)
  {
    RunInv(tr, steps, i);
    RunInv(tr, steps, i + 1);
    var s, t := tr[i], tr[i + 1];
    match steps[i]
    case Alloc(b) => AllocInv(s, t, b);
    case WriteList(k, kind, b) => WriteListInv(s, t, k, kind, b);
    case Finish(b) => FinishInv(s, t, b);
    case _ => UntouchedSize(s, t, steps[i]);
  }

  lemma UntouchedSize(s: State, t: State, step: Step)
    requires Inv(s) && Inv(t) && NextState(s, t, step)
    requires !step.Alloc? && !step.WriteList? && !step.Finish?
    ensures (File(s.size) - File(t.size)) !! Referenced(s.disk)
  {
    hide Stored, LiveInv, Referenced;
    if step == Crash {
      assert Referenced(t.disk) <= File(t.size);
    } else if step == Truncate {
      TruncateInv(s, t);
    }
  }

  /**
   While the system is up, every byte of the file is in exactly one place, or was lost before any
   checkpoint; what is discarded is neither available nor newly allocated.
   */
  lemma NothingLost(tr: seq<State>, steps: seq<Step>, i: nat)
    requires IsRun(tr, steps) && i < |tr| && tr[i].up
    ensures var s := tr[i];
            Tiles(s.size, s.avail, s.ckptAvail, Used(Links(Recs(s)) + [Link(s.alloc, s.discard, {})]),
                  AllLists(ListsIn(Recs(s))), s.leaked)
    ensures var s := tr[i]; s.discard !! s.avail && s.discard !! s.alloc && s.avail !! s.alloc
  {
    RunInv(tr, steps, i);
    var s := tr[i];
    PagesAllocated(Links(Recs(s)));
    Snoc(Links(Recs(s)), Link(s.alloc, s.discard, {}));
    UsedIsAllocated(Links(Recs(s)) + [Link(s.alloc, s.discard, {})]);
  }

  /** Space is only ever lost by a crash before the first checkpoint is durable. */
  lemma {:induction false} LossOnlyAtFirst(tr: seq<State>, steps: seq<Step>, i: nat)
    requires IsRun(tr, steps) && i < |tr|
    requires forall k :: 0 <= k < i && steps[k] == Crash ==> tr[k].disk.recs != []
    ensures tr[i].leaked == {}
  {
    if i > 0 {
      LossOnlyAtFirst(tr, steps, i - 1);
    }
  }

  /**
   Loading a checkpoint right after its metadata is durable gives the very state that resolving it
   gives: the same free space, wherever the block of the avail list came from.
   */
  lemma LoadIsResolve(s: State, t: State, b: set<int>, u: State, v: State, w: State)
    requires Inv(s) && NextState(s, t, Finish(b)) && NextState(t, u, Durable)
    requires NextState(u, v, Resolve) && NextState(u, w, Crash)
    ensures v == w
  {
    FinishInv(s, t, b);
    var c, bs := Links(s.phase.recs), ListsIn(s.phase.recs);
    FinishTiles(s.size, s.avail, s.ckptAvail, Allocs(c), AllLists(bs), s.leaked, b, t.avail, t.size);
    assert u.disk.recs != [];
    assert u.disk.avail <= File(u.size);
  }
}
