/** Whole allocation units: every list and block of a file is made of them, in every run. */
module Units {
  import opened Basics
  import opened Extents
  import opened Chains
  import opened BlockRuns

  /** The first byte of the allocation unit that holds `x`. */
  function Base(a: int, x: int): (b: int)
    requires a > 0
  {
    DESC_SECTOR + (x - DESC_SECTOR) / a * a
  }

  lemma BaseIs(a: int, x: int)
    requires a > 0
    ensures Base(a, x) <= x < Base(a, x) + a
  {
  }

  lemma BaseUnique(a: int, x: int, y: int)
    requires a > 0 && Base(a, x) <= y < Base(a, x) + a
    ensures Base(a, y) == Base(a, x)
  {
    var q := (x - DESC_SECTOR) / a;
    var z := y - DESC_SECTOR - q * a;
    assert 0 <= z < a && y - DESC_SECTOR == q * a + z;
    DivIs(q * a + z, a, q, z);
  }

  /** A set of whole allocation units. */
  ghost predicate Aligned(a: int, s: set<int>)
    requires a > 0
  {
    forall x :: x in s ==> Range(Base(a, x), a) <= s
  }

  lemma AlignedUnion(a: int, s: set<int>, t: set<int>)
    requires a > 0 && Aligned(a, s) && Aligned(a, t)
    ensures Aligned(a, s + t)
  {
  }

  lemma AlignedMinus(a: int, s: set<int>, t: set<int>)
    requires a > 0 && Aligned(a, s) && Aligned(a, t)
    ensures Aligned(a, s - t)
  {
    forall x | x in s - t ensures Range(Base(a, x), a) <= s - t {
      forall y | y in Range(Base(a, x), a) ensures y !in t {
        BaseUnique(a, x, y);
        BaseIs(a, x);
      }
    }
  }

  lemma AlignedRange(a: int, x: int, n: int)
    requires a > 0 && (x - DESC_SECTOR) % a == 0 && n % a == 0
    ensures Aligned(a, Range(x, n))
  {
    forall y | y in Range(x, n) ensures Range(Base(a, y), a) <= Range(x, n) {
      BaseInside(a, x, n, y);
    }
  }

  lemma BaseInside(a: int, x: int, n: int, y: int)
    requires a > 0 && (x - DESC_SECTOR) % a == 0 && n % a == 0 && x <= y < x + n
    ensures x <= Base(a, y) && Base(a, y) + a <= x + n
  {
    var p, m, q := (x - DESC_SECTOR) / a, n / a, (y - DESC_SECTOR) / a;
    assert x - DESC_SECTOR == p * a && n == m * a;
    BaseIs(a, y);
    assert q >= p by {
      if q + 1 <= p { Times(q + 1, p, a); }
    }
    assert q + 1 <= p + m by {
      if p + m <= q { Times(p + m, q, a); }
    }
    Times(p, q, a);
    Times(q + 1, p + m, a);
  }

  ghost predicate UnitRange(a: int, x: int, n: int)
    requires a > 0
  {
    n > 0 && n % a == 0 && (x - DESC_SECTOR) % a == 0
  }

  lemma EndAligned(a: int, x: int, n: int)
    requires a > 0 && UnitRange(a, x, n)
    ensures (x + n - DESC_SECTOR) % a == 0
  {
    var p, m := (x - DESC_SECTOR) / a, n / a;
    assert x + n - DESC_SECTOR == (p + m) * a;
    ModIs(a, p + m);
  }

  lemma RangeSame(x: int, n: int, y: int, m: int)
    requires n > 0 && Range(x, n) == Range(y, m)
    ensures x == y && n == m
  {
    assert x in Range(y, m) && x + n - 1 in Range(y, m) && x + n !in Range(y, m) && x - 1 !in Range(y, m);
  }

  /** The extents of a coalesced list of whole units begin and end at unit boundaries. */
  lemma AlignedExts(a: int, s: seq<Ext>, i: nat)
    requires a > 0 && Ordered(s) && Aligned(a, Space(s)) && i < |s|
    ensures (s[i].off - DESC_SECTOR) % a == 0 && s[i].size % a == 0
  {
    var e := s[i];
    assert GoodExt(e);
    SpaceHas(s, i);
    var first, last := Base(a, e.off), Base(a, e.off + e.size - 1);
    BaseIs(a, e.off);
    BaseIs(a, e.off + e.size - 1);
    assert e.off in Span(e) && e.off + e.size - 1 in Span(e);
    if first < e.off {
      assert e.off - 1 in Range(first, a);
      NotTouched(s, i);
    }
    if e.off + e.size < last + a {
      assert e.off + e.size in Range(last, a);
      NotTouched(s, i);
    }
    UnitsBetween(a, e.off, e.size);
  }

  lemma NotTouched(s: seq<Ext>, i: nat)
    requires Ordered(s) && i < |s|
    ensures s[i].off - 1 !in Space(s) && s[i].off + s[i].size !in Space(s)
  {
    forall y | y in Space(s) ensures y != s[i].off - 1 && y != s[i].off + s[i].size {
      var j := SpaceAt(s, y);
      if j < i { assert Before(s[j], s[i]); } else if i < j { assert Before(s[i], s[j]); }
    }
  }

  lemma UnitsBetween(a: int, x: int, n: int)
    requires a > 0 && n > 0 && Base(a, x) == x && Base(a, x + n - 1) + a == x + n
    ensures (x - DESC_SECTOR) % a == 0 && n % a == 0
  {
    var p, q := (x - DESC_SECTOR) / a, (x + n - 1 - DESC_SECTOR) / a;
    assert x - DESC_SECTOR == p * a;
    assert n == (q + 1 - p) * a;
    ModIs(a, p);
    ModIs(a, q + 1 - p);
  }

  lemma AlignedMeet(a: int, s: set<int>, t: set<int>)
    requires a > 0 && Aligned(a, s) && Aligned(a, t)
    ensures Aligned(a, s * t)
  {
  }

  /** A block of whole units, or none. */
  ghost predicate UnitBlock(a: int, b: set<int>)
    requires a > 0
  {
    b == {} || exists x, n :: UnitRange(a, x, n) && b == Range(x, n)
  }

  lemma BlockAligned(a: int, b: set<int>)
    requires a > 0 && UnitBlock(a, b)
    ensures Aligned(a, b)
  {
    if b != {} {
      var x, n :| UnitRange(a, x, n) && b == Range(x, n);
      AlignedRange(a, x, n);
    }
  }

  // ----- all of a state -----

  ghost predicate AlignedLink(a: int, l: Link)
    requires a > 0
  {
    Aligned(a, l.alloc) && Aligned(a, l.discard) && Aligned(a, l.root)
  }

  ghost predicate AlignedLinks(a: int, c: seq<Link>)
    requires a > 0
  {
    forall i :: 0 <= i < |c| ==> AlignedLink(a, c[i])
  }

  ghost predicate AlignedList(a: int, t: Lists)
    requires a > 0
  {
    Aligned(a, t.alloc) && Aligned(a, t.avail) && Aligned(a, t.discard)
  }

  ghost predicate AlignedLists(a: int, bs: seq<Lists>)
    requires a > 0
  {
    forall i :: 0 <= i < |bs| ==> AlignedList(a, bs[i])
  }

  ghost predicate AlignedRecs(a: int, recs: seq<Record>)
    requires a > 0
  {
    forall i :: 0 <= i < |recs| ==> AlignedLink(a, recs[i].link) && AlignedList(a, recs[i].lists)
  }

  ghost predicate AlignedMeta(a: int, m: Meta)
    requires a > 0
  {
    AlignedRecs(a, m.recs) && Aligned(a, m.avail) && (m.size - DESC_SECTOR) % a == 0
  }

  /** The lists of the running system, those of every checkpoint, and the blocks they are in. */
  ghost predicate AlignedState(a: int, s: State)
    requires a > 0
  {
    && AlignedMeta(a, s.disk) && (s.size - DESC_SECTOR) % a == 0
    && (s.phase.Writing? ==> AlignedRecs(a, s.phase.recs)) && (s.phase.Written? ==> AlignedMeta(a, s.phase.meta))
    && Aligned(a, s.avail) && Aligned(a, s.ckptAvail) && Aligned(a, s.alloc) && Aligned(a, s.discard)
  }

  // ----- deleting checkpoints -----

  ghost predicate AlignedRolling(a: int, s: Rolling)
    requires a > 0
  {
    AlignedLinks(a, s.kept) && Aligned(a, s.alloc) && Aligned(a, s.discard) && Aligned(a, s.freed)
  }

  lemma RollAligned(a: int, s: Rolling, l: Link, del: bool)
    requires a > 0 && AlignedRolling(a, s) && AlignedLink(a, l)
    ensures AlignedRolling(a, Roll(s, l, del))
  {
    hide Aligned;
    var x, y := l.alloc + s.alloc, l.discard + s.discard;
    AlignedUnion(a, l.alloc, s.alloc);
    AlignedUnion(a, l.discard, s.discard);
    AlignedUnion(a, y, l.root);
    AlignedMinus(a, x, y);
    AlignedMinus(a, y, x);
    AlignedMeet(a, x, y);
    AlignedUnion(a, s.freed, x * y);
    NoneAligned(a);
  }

  lemma NoneAligned(a: int)
    requires a > 0
    ensures Aligned(a, {})
  {
  }

  lemma {:induction false} RollAllAligned(a: int, c: seq<Link>, del: seq<bool>)
    requires a > 0 && |c| == |del| && AlignedLinks(a, c)
    ensures AlignedRolling(a, RollAll(c, del))
  {
    NoneAligned(a);
    hide Aligned;
    if c != [] {
      RollAllAligned(a, c[..|c| - 1], del[..|c| - 1]);
      RollAligned(a, RollAll(c[..|c| - 1], del[..|c| - 1]), c[|c| - 1], del[|c| - 1]);
    }
  }

  lemma {:induction false} ReleasedAligned(a: int, bs: seq<Lists>, del: seq<bool>, n: nat)
    requires a > 0 && n <= |bs| == |del| && AlignedLists(a, bs)
    ensures Aligned(a, Released(bs, del, n))
  {
    NoneAligned(a);
    hide Aligned;
    if n > 0 {
      ReleasedAligned(a, bs, del, n - 1);
      var t := bs[n - 1];
      AlignedUnion(a, t.alloc, t.avail);
      AlignedUnion(a, t.alloc + t.avail, t.discard);
      if Rewritten(del, n) {
        AlignedUnion(a, bs[n].alloc, bs[n].discard);
        AlignedUnion(a, ListBytes(t), bs[n].alloc + bs[n].discard);
      } else {
        AlignedUnion(a, ListBytes(t), {});
      }
      AlignedUnion(a, Released(bs, del, n - 1), ReleasedAt(bs, del, n - 1));
    }
  }

  lemma {:induction false} KeptListsAligned(a: int, bs: seq<Lists>, del: seq<bool>, n: nat)
    requires a > 0 && n <= |bs| == |del| && AlignedLists(a, bs)
    ensures AlignedLists(a, KeptLists(bs, del, n))
  {
    NoneAligned(a);
    hide Aligned;
    if n > 0 {
      KeptListsAligned(a, bs, del, n - 1);
    }
  }

  lemma ZippedAligned(a: int, recs: seq<Record>, c: seq<Link>, bs: seq<Lists>)
    requires a > 0 && Zips(recs, c, bs)
    ensures AlignedRecs(a, recs) <==> AlignedLinks(a, c) && AlignedLists(a, bs)
  {
    hide Aligned;
    forall i | 0 <= i < |recs| ensures c[i] == recs[i].link && bs[i] == recs[i].lists {
      assert Links(recs)[i] == recs[i].link && ListsIn(recs)[i] == recs[i].lists;
    }
    assert |c| == |recs| == |bs|;
  }

  lemma BeginAligned(a: int, s: State, t: State, del: seq<bool>, root: set<int>)
    requires a > 0 && AlignedState(a, s) && BeginStep(s, t, del, root) && Aligned(a, root)
    ensures AlignedState(a, t)
  {
    NoneAligned(a);
    hide Aligned, RollAll, Released, KeptLists;
    var c, bs, d := Joined(s, root), JoinedLists(s), del + [false];
    ZippedAligned(a, s.disk.recs, Links(s.disk.recs), ListsIn(s.disk.recs));
    RollAllAligned(a, c, d);
    KeptListsAligned(a, bs, d, |d|);
    ZippedAligned(a, t.phase.recs, RollAll(c, d).kept, KeptLists(bs, d, |d|));
    ReleasedAligned(a, bs, d, |bs| - 1);
    AlignedUnion(a, RollAll(c, d).freed, Released(bs, d, |bs| - 1));
  }

  // ----- the other steps -----

  lemma TakesAligned(a: int, avail: set<int>, size: int, b: set<int>, avail': set<int>, size': int)
    requires a > 0 && Aligned(a, avail) && (size - DESC_SECTOR) % a == 0 && UnitBlock(a, b)
    requires Takes(avail, size, b, avail', size')
    ensures Aligned(a, b) && Aligned(a, avail') && (size' - DESC_SECTOR) % a == 0
  {
    hide Aligned;
    BlockAligned(a, b);
    AlignedMinus(a, avail, b);
    if size' > size {
      assert size in b;
      var x, n :| UnitRange(a, x, n) && b == Range(x, n);
      RangeSame(x, n, size, size' - size);
      EndAligned(a, x, n);
    }
  }

  lemma FreesAligned(a: int, s: State, t: State, b: set<int>)
    requires a > 0 && AlignedState(a, s) && UnitBlock(a, b) && NextState(s, t, Step.Free(b))
    ensures AlignedState(a, t)
  {
    hide Aligned;
    BlockAligned(a, b);
    AlignedMinus(a, s.alloc, b);
    AlignedUnion(a, s.avail, b);
    AlignedUnion(a, s.discard, b);
  }

  /** What an operation has to see to: that the blocks it is given and the end of the file are at units. */
  ghost predicate InUnits(a: int, t: State, step: Step)
    requires a > 0
  {
    match step
    case Alloc(b) => UnitBlock(a, b)
    case Free(b) => UnitBlock(a, b)
    case Begin(_, root) => UnitBlock(a, root)
    case WriteList(_, _, b) => UnitBlock(a, b)
    case Truncate => (t.size - DESC_SECTOR) % a == 0
    case Finish(b) => UnitBlock(a, b)
    case _ => true
  }

  /** Every step keeps all lists and blocks of a file, and of every checkpoint of it, in whole units. */
  lemma StepAligned(a: int, s: State, t: State, step: Step)
    requires a > 0 && AlignedState(a, s) && NextState(s, t, step) && InUnits(a, t, step)
    ensures AlignedState(a, t)
  {
    NoneAligned(a);
    hide Aligned, Range, UnitBlock;
    match step
    case Alloc(b) =>
      TakesAligned(a, s.avail, s.size, b, t.avail, t.size);
      AlignedUnion(a, s.alloc, b);
    case Free(b) => FreesAligned(a, s, t, b);
    case Begin(del, root) =>
      BlockAligned(a, root);
      BeginAligned(a, s, t, del, root);
    case WriteList(i, kind, b) => TakesAligned(a, s.avail, s.size, b, t.avail, t.size);
    case Truncate =>
      CutAligned(a, s.size, t.size);
      AlignedMinus(a, s.avail, Range(t.size, s.size - t.size));
    case Finish(b) =>
      TakesAligned(a, s.avail, s.size, b, t.avail, t.size);
      AlignedUnion(a, s.avail, s.ckptAvail);
      AlignedMinus(a, s.avail + s.ckptAvail, b);
    case Resolve => AlignedUnion(a, s.avail, s.ckptAvail);
    case _ =>
  }

  lemma InitAligned(a: int, s: State)
    requires a > 0 && Init(s)
    ensures AlignedState(a, s)
  {
  }

  /** So they are in every state of a run. */
  lemma {:induction false} RunAligned(a: int, tr: seq<State>, steps: seq<Step>, i: nat)
    requires a > 0 && IsRun(tr, steps) && i < |tr|
    requires forall j :: 0 <= j < |steps| ==> InUnits(a, tr[j + 1], steps[j])
    ensures AlignedState(a, tr[i])
  {
    hide Init, NextState, AlignedState, InUnits;
    if i == 0 {
      InitAligned(a, tr[0]);
    } else {
      RunAligned(a, tr, steps, i - 1);
      StepAligned(a, tr[i - 1], tr[i], steps[i - 1]);
    }
  }

  lemma CutAligned(a: int, size: int, size': int)
    requires a > 0 && (size - DESC_SECTOR) % a == 0 && (size' - DESC_SECTOR) % a == 0
    ensures Aligned(a, Range(size', size - size'))
  {
    var p, q := (size - DESC_SECTOR) / a, (size' - DESC_SECTOR) / a;
    assert size - size' == (p - q) * a;
    ModIs(a, p - q);
    AlignedRange(a, size', size - size');
  }
}
