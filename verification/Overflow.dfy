/**
 Overflow values and their readers.  A reader walks a record's updates without a lock and may go to
 sleep before it reads the overflow block the on-page cell names; in the meantime reconciliation may
 find the value replaced and have its block freed.  This is a model of one such cell as a system of
 steps, with any number of readers, transactions and reconciliations.
 */
module Overflow {
  import opened Basics

  /** A transaction id; `Id(0)` is that of no transaction. */
  datatype Txn = Id(n: nat) | Aborted

  datatype Upd = Upd(txn: Txn, val: int)

  /** What a reader sees: what was committed when it took its snapshot, or everything. */
  datatype Iso = Snapshot(lo: nat, hi: nat, conc: set<nat>) | Uncommitted(pin: nat)

  predicate Sees(iso: Iso, t: Txn) {
    match t
    case Aborted => false
    case Id(n) =>
      n == 0 ||
      match iso
      case Uncommitted(_) => true
      case Snapshot(lo, hi, conc) => n <= hi && (conc == {} || n < lo || n !in conc)
  }

  /**
   An oldest id as a session keeps it, and the running transactions it did not look at when it worked
   it out: none when a snapshot transaction begins, its own when it takes a snapshot, all when only the
   snapshots of others count.
   */
  datatype Look = Look(blind: set<nat>, h: nat)

  predicate SeenByAll(t: Txn, oldest: nat) {
    t.Id? && t.n < oldest
  }

  /** `cell` says that a value was that of the cell, not of an update. */
  datatype Phase = Start | Holding | Done(val: int, cell: bool) | NotFound

  /**
   A reader, with the value it had to find when it began, whether that was the value of an update, and
   the times it was told to start again.
   */
  datatype Reader = Reader(iso: Iso, want: int, had: bool, phase: Phase, restarts: nat)

  /** A row-store record has one list of updates; a column-store cell may stand for many records. */
  datatype Kind = Row | Column(single: bool)

  datatype Tracked = Untracked | ToFree | Discarded

  datatype Stage = Started | Listed | Cached

  /** A reconciliation, with the oldest id it began with and the least id its snapshot holds, if it has one. */
  datatype Rec = NoRec | Rec(stage: Stage, look: Look, held: Option<nat>)

  /**
   `removed` is the mark on the on-page cell, `chain` the updates in memory, newest first, `cached` the
   column-store's copy of the value; `freed` counts how often the block was freed.  `looks` are the
   oldest ids sessions work with, however old.  The updates ever made are in `hist`: of them `chain` has
   the first `kept`, and behind them the value itself if it was `appended`.
   */
  datatype State = State(kind: Kind, base: int, removed: bool, chain: seq<Upd>, cached: bool, freed: nat,
                         track: Tracked, rec: Rec, current: nat, looks: set<Look>, running: set<nat>,
                         readers: seq<Reader>, hist: seq<Upd>, kept: nat, appended: bool)

  datatype Step =
    | BeginTxn | Update(t: nat, val: int) | Commit(t: nat) | Abort(t: nat) | Oldest(l: Look)
    | Truncate(l: Look, k: nat) | BeginRead(iso: Iso) | Search(i: nat) | ReadOvfl(i: nat)
    | RecBegin(l: Look, held: Option<nat>) | RecTrack | RecCache(l: Look, k: nat) | RecSuccess | RecError

  /** The first update in the list that the reader sees. */
  function FirstVisible(c: seq<Upd>, iso: Iso): (f: Option<int>) {
    if c == [] then None else if Sees(iso, c[0].txn) then Some(c[0].val) else FirstVisible(c[1..], iso)
  }

  function Value(c: seq<Upd>, iso: Iso, base: int): (v: int) {
    match FirstVisible(c, iso)
    case None => base
    case Some(v) => v
  }

  function Undone(c: seq<Upd>, t: nat): (u: seq<Upd>) {
    seq(|c|, i requires 0 <= i < |c| => if c[i].txn == Id(t) then c[i].(txn := Aborted) else c[i])
  }

  /** Some update in the list is seen by everybody. */
  ghost predicate HasSeenByAll(c: seq<Upd>, oldest: nat) {
    exists k :: 0 <= k < |c| && SeenByAll(c[k].txn, oldest)
  }

  predicate Active(r: Reader) {
    r.phase in {Start, Holding}
  }

  function Pin(r: Reader): (n: nat) {
    match r.iso
    case Snapshot(lo, _, _) => lo
    case Uncommitted(p) => p
  }

  /** The view a reader starts with. */
  ghost predicate FreshView(s: State, iso: Iso) {
    match iso
    case Uncommitted(p) => p == s.current
    case Snapshot(lo, hi, conc) =>
      && hi == s.current && conc == s.running
      && (if conc == {} then lo == hi else lo in conc && forall t :: t in conc ==> lo <= t)
  }

  /** An oldest id worked out now: at most the ids running, but for the blind ones, and those readers hold. */
  ghost predicate FreshLook(s: State, l: Look) {
    && 1 <= l.h <= s.current && l.blind <= s.running && (forall t :: t in s.running - l.blind ==> l.h <= t)
    && forall r :: r in s.readers && Active(r) ==> l.h <= Pin(r)
  }

  /** A snapshot in the table keeps every oldest id worked out by its session at or below `lo`. */
  ghost predicate Holds(s: State, l: Look, lo: nat) {
    l.h <= lo <= s.current && forall t :: t in s.running ==> lo <= t
  }

  /** What the reconciliation can see: all that ended before its snapshot, or all up to an eviction's oldest id. */
  ghost predicate Chosen(s: State, t: Txn)
    requires s.rec.Rec?
  {
    t.Id? && if s.rec.held.Some? then t.n !in s.running else t.n <= s.rec.look.h
  }

  ghost predicate Enabled(s: State, step: Step) {
    match step
    case BeginTxn => true
    case Update(t, _) => t in s.running
    case Commit(t) => t in s.running
    case Abort(t) => t in s.running
    case Oldest(l) => FreshLook(s, l)
    case Truncate(l, k) => l in s.looks && k < |s.chain| && SeenByAll(s.chain[k].txn, l.h)
    case BeginRead(iso) => FreshView(s, iso)
    case Search(i) => i < |s.readers| && s.readers[i].phase == Start
    case ReadOvfl(i) => i < |s.readers| && s.readers[i].phase == Holding
    case RecBegin(l, held) =>
      s.rec == NoRec && FreshLook(s, l) && (held.Some? ==> l.blind == {} && Holds(s, l, held.value))
    case RecTrack => s.rec.Rec? && s.rec.stage == Started && s.chain != []
    case RecCache(l, k) =>
      && s.rec.Rec? && s.rec.stage == Listed && k < |s.chain| && Chosen(s, s.chain[k].txn)
      && FreshLook(s, l) && (s.rec.held.Some? ==> l.h <= s.rec.held.value)
    case RecSuccess => s.rec.Rec? && s.rec.stage in {Started, Cached}
    case RecError => s.rec.Rec?
  }

  ghost function SetReader(s: State, i: nat, r: Reader): (s': State)
    requires i < |s.readers|
  {
    s.(readers := s.readers[i := r])
  }

  /** Walk the updates; if none is to be seen, the value is that of the cell, still to be read. */
  ghost function SearchStep(s: State, i: nat): (s': State)
    requires i < |s.readers|
    ensures |s'.readers| == |s.readers| && s'.readers[i].iso == s.readers[i].iso
    ensures s' == s.(readers := s.readers[i := s'.readers[i]])
  {
    var r := s.readers[i];
    match FirstVisible(s.chain, r.iso)
    case Some(v) => SetReader(s, i, r.(phase := Done(v, false)))
    case None => SetReader(s, i, r.(phase := Holding))
  }

  /** Under the lock: read the block, unless the cell is marked; then start again, or take the cached copy. */
  ghost function ReadStep(s: State, i: nat): (s': State)
    requires i < |s.readers|
    ensures |s'.readers| == |s.readers| && s'.readers[i].iso == s.readers[i].iso
    ensures s' == s.(readers := s.readers[i := s'.readers[i]])
  {
    var r := s.readers[i];
    if !s.removed then SetReader(s, i, r.(phase := Done(s.base, true)))
    else if s.kind.Row? then SetReader(s, i, r.(phase := Start, restarts := r.restarts + 1))
    else if s.cached then SetReader(s, i, r.(phase := Done(s.base, true)))
    else SetReader(s, i, r.(phase := NotFound))
  }

  /**
   Everybody seems to see an update.  For a row the oldest id is worked out again if that of the
   reconciliation finds no such update.
   */
  ghost predicate SeemsSeen(s: State, l: Look, k: nat)
    requires s.rec.Rec? && k < |s.chain|
  {
    match s.kind
    case Row => HasSeenByAll(s.chain, s.rec.look.h) || HasSeenByAll(s.chain, l.h)
    case Column(single) => single && SeenByAll(s.chain[k].txn, s.rec.look.h)
  }

  /** Under the lock: unless everybody seems to see an update, keep a copy of the value; then mark the cell. */
  ghost function CacheStep(s: State, l: Look, k: nat): (s': State)
    requires s.rec.Rec? && k < |s.chain|
    ensures s' == s.(rec := s.rec.(stage := Cached), removed := true,
                     chain := s'.chain, appended := s'.appended, cached := s'.cached)
  {
    var done := s.(rec := s.rec.(stage := Cached), removed := true);
    if s.removed || SeemsSeen(s, l, k) then done
    else if s.kind.Row? then done.(chain := s.chain + [Upd(Id(0), s.base)], appended := true)
    else done.(cached := true)
  }

  ghost function Next(s: State, step: Step): (s': State)
    requires Enabled(s, step)
  {
    match step
    case BeginTxn => s.(current := s.current + 1, running := s.running + {s.current + 1})
    case Update(t, v) => s.(chain := [Upd(Id(t), v)] + s.chain, hist := [Upd(Id(t), v)] + s.hist, kept := s.kept + 1)
    case Commit(t) => s.(running := s.running - {t})
    case Abort(t) => s.(chain := Undone(s.chain, t), hist := Undone(s.hist, t), running := s.running - {t})
    case Oldest(l) => s.(looks := s.looks + {l})
    case Truncate(_, k) =>
      if k < s.kept then s.(chain := s.chain[..k + 1], kept := k + 1, appended := false)
      else s.(chain := s.chain[..k + 1])
    case BeginRead(iso) =>
      var r := Reader(iso, Value(s.hist, iso, s.base), FirstVisible(s.hist, iso).Some?, Start, 0);
      s.(readers := s.readers + [r])
    case Search(i) => SearchStep(s, i)
    case ReadOvfl(i) => ReadStep(s, i)
    case RecBegin(l, held) => s.(rec := Rec(Started, l, held))
    case RecTrack => s.(rec := s.rec.(stage := Listed), track := if s.track == Discarded then Discarded else ToFree)
    case RecCache(l, k) => CacheStep(s, l, k)
    case RecSuccess =>
      if s.track == ToFree then s.(rec := NoRec, track := Discarded, freed := s.freed + 1) else s.(rec := NoRec)
    case RecError => s.(rec := NoRec, track := if s.track == ToFree then Untracked else s.track)
  }

  // ----- views -----

  ghost predicate IdsOk(s: State) {
    && 1 <= s.current && (forall t :: t in s.running ==> 1 <= t <= s.current)
    && (forall u :: u in s.hist && u.txn.Id? ==> u.txn.n <= s.current)
  }

  ghost predicate SeesPast(iso: Iso, l: Look)
    requires iso.Snapshot?
  {
    l.h <= iso.hi && forall n :: n in iso.conc && n < l.h ==> n in l.blind
  }

  /** Whoever runs, or ran when somebody who reads began, is at or above an oldest id unless it was not looked at. */
  ghost predicate LookOk(s: State, l: Look) {
    && 1 <= l.h <= s.current && (forall n :: n in s.running && n < l.h ==> n in l.blind)
    && (forall r :: r in s.readers && Active(r) && r.iso.Snapshot? ==> SeesPast(r.iso, l))
  }

  ghost predicate LooksOk(s: State) {
    && (forall l :: l in s.looks ==> LookOk(s, l))
    && (s.rec.Rec? ==>
          && LookOk(s, s.rec.look)
          && (s.rec.held.Some? ==> s.rec.look.blind == {} && Holds(s, s.rec.look, s.rec.held.value)))
  }

  ghost predicate ViewOk(s: State, iso: Iso) {
    iso.Snapshot? ==>
      && iso.lo <= iso.hi <= s.current && (forall n :: n in iso.conc ==> iso.lo <= n && 1 <= n)
      && (forall t :: t in s.running ==> !Sees(iso, Id(t)))
  }

  /** Whatever had ended for one snapshot has for a later one. */
  ghost predicate Before(a: Iso, b: Iso) {
    a.Snapshot? && b.Snapshot? ==> a.hi <= b.hi && forall n :: n in b.conc && n <= a.hi ==> n in a.conc
  }

  ghost predicate ViewsOk(s: State) {
    && (forall r :: r in s.readers ==> ViewOk(s, r.iso))
    && (forall i, j :: 0 <= i < j < |s.readers| ==> Before(s.readers[i].iso, s.readers[j].iso))
  }

  /** What holds of ids, oldest ids and snapshots in every run, whatever was lost. */
  ghost predicate Views(s: State) {
    IdsOk(s) && LooksOk(s) && ViewsOk(s)
  }

  lemma SeesIs(s: State, iso: Iso, n: nat)
    requires ViewOk(s, iso) && iso.Snapshot?
    ensures Sees(iso, Id(n)) <==> n == 0 || (n <= iso.hi && n !in iso.conc)
  {
  }

  lemma {:induction false} Least(ids: set<nat>) returns (m: nat)
    requires ids != {}
    ensures m in ids && forall n :: n in ids ==> m <= n
  {
    m :| m in ids;
    if ids != {m} {
      var k := Least(ids - {m});
      assert ids == (ids - {m}) + {m};
      m := if k < m then k else m;
    }
  }

  lemma FreshExists(s: State) returns (iso: Iso)
    ensures iso.Snapshot? && FreshView(s, iso)
  {
    if s.running == {} {
      iso := Snapshot(s.current, s.current, {});
    } else {
      var m := Least(s.running);
      iso := Snapshot(m, s.current, s.running);
    }
  }

  lemma FreshOk(s: State, iso: Iso)
    requires IdsOk(s) && FreshView(s, iso)
    ensures ViewOk(s, iso)
  {
  }

  // ----- what a step leaves of them -----

  /** Whoever reads with a snapshot in `t` did in `s` or began there, and no id runs again. */
  ghost predicate Later(s: State, t: State) {
    && s.current <= t.current && (forall n :: n in t.running && n !in s.running ==> s.current < n)
    && (forall r :: r in t.readers && Active(r) && r.iso.Snapshot? ==> OldView(s, r.iso) || NewView(s, r.iso))
  }

  ghost predicate OldView(s: State, iso: Iso) {
    exists q :: q in s.readers && Active(q) && q.iso == iso
  }

  ghost predicate NewView(s: State, iso: Iso)
    requires iso.Snapshot?
  {
    s.current == iso.hi && iso.conc == s.running
  }

  lemma StepLater(s: State, step: Step)
    requires Enabled(s, step)
    ensures Later(s, Next(s, step))
  {
    var t := Next(s, step);
    RunningKeeps(s, step);
    ReadersFrom(s, step);
    hide Next, Enabled;
    forall r | r in t.readers && Active(r) && r.iso.Snapshot? ensures OldView(s, r.iso) || NewView(s, r.iso) {
      if r !in s.readers && step.BeginRead? {
        assert NewView(s, r.iso);
      } else if r !in s.readers {
        assert s.readers[step.i] in s.readers;
      }
    }
  }

  lemma ReadersFrom(s: State, step: Step)
    requires Enabled(s, step)
    ensures forall r :: r in Next(s, step).readers && r !in s.readers ==>
      match step
      case BeginRead(iso) => r.iso == iso && FreshView(s, iso)
      case Search(i) => i < |s.readers| && Active(s.readers[i]) && r.iso == s.readers[i].iso
      case ReadOvfl(i) => i < |s.readers| && Active(s.readers[i]) && r.iso == s.readers[i].iso
      case _ => false
  {
    hide FreshLook, Holds, Chosen, FirstVisible, Value, Undone, SearchStep, ReadStep, CacheStep;
  }

  lemma LookStays(s: State, t: State, l: Look)
    requires Later(s, t) && LookOk(s, l)
    ensures LookOk(t, l)
  {
    forall r | r in t.readers && Active(r) && r.iso.Snapshot? ensures SeesPast(r.iso, l) {
      if q :| q in s.readers && Active(q) && q.iso == r.iso {
        assert SeesPast(q.iso, l);
      }
    }
  }

  lemma FreshLookOk(s: State, l: Look)
    requires FreshLook(s, l) && ViewsOk(s)
    ensures LookOk(s, l)
  {
    forall r | r in s.readers && Active(r) && r.iso.Snapshot? ensures SeesPast(r.iso, l) {
      assert ViewOk(s, r.iso) && l.h <= Pin(r);
    }
    forall n | n in s.running && n < l.h ensures n in l.blind {
      assert n !in s.running - l.blind;
    }
  }

  lemma LooksKeep(s: State, step: Step)
    requires Views(s) && Enabled(s, step)
    ensures LooksOk(Next(s, step))
  {
    var t := Next(s, step);
    StepLater(s, step);
    LooksIn(s, step);
    RunningKeeps(s, step);
    hide Next, Enabled, LookOk, Later, IdsOk, ViewsOk;
    forall l | l in t.looks || (t.rec.Rec? && l == t.rec.look) ensures LookOk(t, l) {
      if FreshLook(s, l) {
        FreshLookOk(s, l);
      }
      LookStays(s, t, l);
    }
  }

  lemma LooksIn(s: State, step: Step)
    requires Enabled(s, step)
    ensures var t := Next(s, step);
      && (forall l :: l in t.looks ==> l in s.looks || FreshLook(s, l))
      && (t.rec.Rec? && (s.rec.Rec? ==> t.rec.look != s.rec.look || t.rec.held != s.rec.held) ==>
            && FreshLook(s, t.rec.look)
            && (t.rec.held.Some? ==> t.rec.look.blind == {} && Holds(s, t.rec.look, t.rec.held.value)))
  {
    hide FreshLook, FreshView, Holds, Chosen, SeemsSeen, FirstVisible, Value, Undone, SearchStep, ReadStep, CacheStep;
  }

  lemma IdsKeep(s: State, step: Step)
    requires IdsOk(s) && Enabled(s, step)
    ensures IdsOk(Next(s, step))
  {
    hide FreshView, FreshLook, Holds, Chosen, SeemsSeen, FirstVisible, Value, SearchStep, ReadStep, CacheStep;
    var t := Next(s, step);
    forall u | u in t.hist && u.txn.Id? ensures u.txn.n <= t.current {
      if step.Abort? {
        var i :| 0 <= i < |t.hist| && t.hist[i] == u;
        assert s.hist[i] in s.hist;
      }
    }
  }

  /** The snapshots of readers are those they had, and perhaps one taken now. */
  lemma IsosKeep(s: State, step: Step)
    requires Enabled(s, step)
    ensures var t := Next(s, step);
      && (forall i :: 0 <= i < |s.readers| ==> i < |t.readers| && t.readers[i].iso == s.readers[i].iso)
      && (forall i :: |s.readers| <= i < |t.readers| ==> FreshView(s, t.readers[i].iso) && i == |s.readers|)
  {
    hide FreshLook, Holds, Chosen, SeemsSeen, FirstVisible, Value, SearchStep, ReadStep, CacheStep;
  }

  lemma RunningKeeps(s: State, step: Step)
    requires Enabled(s, step)
    ensures var t := Next(s, step); s.current <= t.current
    ensures var t := Next(s, step);
      forall n :: n in t.running ==> n in s.running || (step.BeginTxn? && n == s.current + 1)
    ensures step.BeginRead? ==> Next(s, step).running == s.running
  {
    hide FreshLook, FreshView, Holds, Chosen, SeemsSeen, FirstVisible, Value, SearchStep, ReadStep, CacheStep;
  }

  lemma ViewsOkKeep(s: State, step: Step)
    requires Views(s) && Enabled(s, step)
    ensures ViewsOk(Next(s, step))
  {
    var t := Next(s, step);
    IsosKeep(s, step);
    RunningKeeps(s, step);
    hide Next, Enabled;
    forall r | r in t.readers ensures ViewOk(t, r.iso) {
      var i :| 0 <= i < |t.readers| && t.readers[i] == r;
      if i < |s.readers| {
        assert s.readers[i] in s.readers && ViewOk(s, r.iso);
      } else {
        FreshOk(s, r.iso);
      }
    }
    forall i, j | 0 <= i < j < |t.readers| ensures Before(t.readers[i].iso, t.readers[j].iso) {
      if j < |s.readers| {
        assert Before(s.readers[i].iso, s.readers[j].iso);
      } else {
        assert s.readers[i] in s.readers && ViewOk(s, s.readers[i].iso);
      }
    }
  }

  lemma ViewsKeep(s: State, step: Step)
    requires Views(s) && Enabled(s, step)
    ensures Views(Next(s, step)) && Later(s, Next(s, step))
  {
    hide Next, Enabled, LooksOk, IdsOk, ViewsOk, Later;
    IdsKeep(s, step);
    LooksKeep(s, step);
    ViewsOkKeep(s, step);
    StepLater(s, step);
  }

  // ----- lists of updates -----

  lemma {:induction false} VisibleConcat(a: seq<Upd>, b: seq<Upd>, iso: Iso)
    ensures var f := FirstVisible(a, iso); FirstVisible(a + b, iso) == if f == None then FirstVisible(b, iso) else f
  {
    if a == [] {
      assert a + b == b;
    } else {
      assert (a + b)[1..] == a[1..] + b;
      VisibleConcat(a[1..], b, iso);
    }
  }

  lemma {:induction false} VisibleIf(c: seq<Upd>, k: nat, iso: Iso)
    requires k < |c| && Sees(iso, c[k].txn)
    ensures FirstVisible(c, iso).Some?
  {
    if k > 0 {
      VisibleIf(c[1..], k - 1, iso);
    }
  }

  /** It is the newest of those the reader sees. */
  lemma {:induction false} FirstIs(c: seq<Upd>, iso: Iso, k: nat)
    requires k < |c| && Sees(iso, c[k].txn) && forall j :: 0 <= j < k ==> !Sees(iso, c[j].txn)
    ensures FirstVisible(c, iso) == Some(c[k].val)
  {
    if k > 0 {
      FirstIs(c[1..], iso, k - 1);
    }
  }

  lemma {:induction false} VisibleWhere(c: seq<Upd>, iso: Iso) returns (k: nat)
    requires FirstVisible(c, iso).Some?
    ensures k < |c| && Sees(iso, c[k].txn)
  {
    if Sees(iso, c[0].txn) {
      k := 0;
    } else {
      k := VisibleWhere(c[1..], iso);
      k := k + 1;
    }
  }

  lemma {:induction false} VisibleUndone(c: seq<Upd>, t: nat, iso: Iso)
    requires !Sees(iso, Id(t))
    ensures FirstVisible(Undone(c, t), iso) == FirstVisible(c, iso)
  {
    if c != [] {
      assert Undone(c, t)[1..] == Undone(c[1..], t);
      VisibleUndone(c[1..], t, iso);
    }
  }

  // ----- when everybody finds something -----

  /** Nobody reads, or will read, with a snapshot that leaves the transaction out. */
  ghost predicate Ended(s: State, n: nat) {
    && n <= s.current && n !in s.running
    && forall r :: r in s.readers && Active(r) && r.iso.Snapshot? ==> n <= r.iso.hi && n !in r.iso.conc
  }

  /** Some update in the list is seen by everybody. */
  ghost predicate HasEnded(s: State, c: seq<Upd>) {
    exists k :: 0 <= k < |c| && c[k].txn.Id? && Ended(s, c[k].txn.n)
  }

  /** The snapshot of somebody who reads, or who begins to now. */
  ghost predicate ReadsNow(s: State, iso: Iso) {
    iso.Snapshot? && (FreshView(s, iso) || OldView(s, iso))
  }

  ghost predicate AllFind(s: State, c: seq<Upd>) {
    forall iso :: ReadsNow(s, iso) ==> FirstVisible(c, iso).Some?
  }

  lemma NoTxnEnded(s: State)
    requires Views(s)
    ensures Ended(s, 0)
  {
    forall r | r in s.readers && Active(r) && r.iso.Snapshot? ensures 0 !in r.iso.conc {
      assert ViewOk(s, r.iso);
    }
  }

  /** What the first of those who read with a snapshot sees, all see. */
  lemma FirstSees(s: State, i: nat, n: nat)
    requires Views(s) && i < |s.readers| && s.readers[i].iso.Snapshot? && Sees(s.readers[i].iso, Id(n))
    requires forall j :: 0 <= j < i ==> !(Active(s.readers[j]) && s.readers[j].iso.Snapshot?)
    ensures Ended(s, n)
  {
    var iso := s.readers[i].iso;
    NoTxnEnded(s);
    assert s.readers[i] in s.readers && ViewOk(s, iso);
    forall r | n > 0 && r in s.readers && Active(r) && r.iso.Snapshot? ensures n <= r.iso.hi && n !in r.iso.conc {
      var j :| 0 <= j < |s.readers| && s.readers[j] == r;
      SeesIs(s, iso, n);
      assert i < j ==> Before(iso, r.iso);
    }
  }

  lemma {:induction false} FirstReader(s: State, k: nat) returns (i: nat)
    requires k < |s.readers| && Active(s.readers[k]) && s.readers[k].iso.Snapshot?
    ensures i <= k && Active(s.readers[i]) && s.readers[i].iso.Snapshot?
    ensures forall j :: 0 <= j < i ==> !(Active(s.readers[j]) && s.readers[j].iso.Snapshot?)
  {
    if j :| 0 <= j < k && Active(s.readers[j]) && s.readers[j].iso.Snapshot? {
      i := FirstReader(s, j);
    } else {
      i := k;
    }
  }

  /**
   Everybody who reads with a snapshot, or begins to now, finds an update in a list if and only if one
   update in it is seen by all of them.
   */
  lemma EndedIff(s: State, c: seq<Upd>)
    requires Views(s)
    ensures AllFind(s, c) <==> HasEnded(s, c)
  {
    if AllFind(s, c) {
      FindsEnded(s, c);
    } else if HasEnded(s, c) {
      var k :| 0 <= k < |c| && c[k].txn.Id? && Ended(s, c[k].txn.n);
      forall iso | ReadsNow(s, iso) ensures FirstVisible(c, iso).Some? {
        VisibleIf(c, k, iso);
      }
    }
  }

  lemma FindsEnded(s: State, c: seq<Upd>)
    requires Views(s) && AllFind(s, c)
    ensures HasEnded(s, c)
  {
    if k :| 0 <= k < |s.readers| && Active(s.readers[k]) && s.readers[k].iso.Snapshot? {
      var i := FirstReader(s, k);
      var iso := s.readers[i].iso;
      assert s.readers[i] in s.readers && OldView(s, iso) && ReadsNow(s, iso);
      var j := VisibleWhere(c, iso);
      FirstSees(s, i, c[j].txn.n);
    } else {
      var iso := FreshExists(s);
      assert ReadsNow(s, iso);
      var j := VisibleWhere(c, iso);
      FreshOk(s, iso);
      SeesIs(s, iso, c[j].txn.n);
      assert Ended(s, c[j].txn.n);
    }
  }

  /** Whoever reads sees what is seen by everybody. */
  lemma SeesEnded(s: State, r: Reader, c: seq<Upd>)
    requires r in s.readers && Active(r) && HasEnded(s, c)
    ensures FirstVisible(c, r.iso).Some?
  {
    var k :| 0 <= k < |c| && c[k].txn.Id? && Ended(s, c[k].txn.n);
    VisibleIf(c, k, r.iso);
  }

  lemma EndedStays(s: State, t: State, c: seq<Upd>)
    requires Later(s, t) && HasEnded(s, c)
    ensures HasEnded(t, c)
  {
    var k :| 0 <= k < |c| && c[k].txn.Id? && Ended(s, c[k].txn.n);
    assert Ended(t, c[k].txn.n);
  }

  // ----- when nobody misses what is cut off -----

  ghost predicate Committed(s: State, t: Txn) {
    t.Id? && t.n <= s.current && t.n !in s.running
  }

  ghost predicate HasCommitted(s: State, c: seq<Upd>) {
    exists k :: 0 <= k < |c| && Committed(s, c[k].txn)
  }

  /** The update is undone, or its transaction runs and has another one in the list. */
  ghost predicate Spare(s: State, c: seq<Upd>, u: Upd) {
    u.txn.Id? ==> u.txn.n in s.running && exists k :: 0 <= k < |c| && c[k].txn == u.txn
  }

  /**
   Nobody misses what is behind a list: who reads and sees one of those sees one of the list; and the
   list has a committed update, or those behind it are spare.
   */
  ghost predicate Serves(s: State, c: seq<Upd>, rest: seq<Upd>) {
    && (forall r :: r in s.readers && Active(r) && r.iso.Snapshot? && FirstVisible(rest, r.iso).Some? ==>
          FirstVisible(c, r.iso).Some?)
    && (HasCommitted(s, c) || forall k :: 0 <= k < |rest| ==> Spare(s, c, rest[k]))
  }

  lemma EndedServes(s: State, c: seq<Upd>, rest: seq<Upd>)
    requires HasEnded(s, c)
    ensures Serves(s, c, rest)
  {
    var k :| 0 <= k < |c| && c[k].txn.Id? && Ended(s, c[k].txn.n);
    assert Committed(s, c[k].txn);
    forall r | r in s.readers && Active(r) && r.iso.Snapshot? ensures FirstVisible(c, r.iso).Some? {
      VisibleIf(c, k, r.iso);
    }
  }

  /** Who begins to read is served. */
  lemma NewServed(s: State, t: State, c: seq<Upd>, rest: seq<Upd>, iso: Iso)
    requires Serves(s, c, rest) && iso.Snapshot? && NewView(s, iso) && ViewOk(t, iso)
    requires FirstVisible(rest, iso).Some?
    ensures FirstVisible(c, iso).Some?
  {
    if k :| 0 <= k < |c| && Committed(s, c[k].txn) {
      VisibleIf(c, k, iso);
    } else {
      var k := VisibleWhere(rest, iso);
      assert Spare(s, c, rest[k]);
      SeesIs(t, iso, rest[k].txn.n);
    }
  }

  lemma CommittedStays(s: State, t: State, c: seq<Upd>)
    requires Later(s, t) && HasCommitted(s, c)
    ensures HasCommitted(t, c)
  {
    var k :| 0 <= k < |c| && Committed(s, c[k].txn);
    assert Committed(t, c[k].txn);
  }

  lemma ServesStays(s: State, t: State, c: seq<Upd>, rest: seq<Upd>)
    requires Views(s) && Views(t) && Later(s, t) && Serves(s, c, rest)
    ensures Serves(t, c, rest)
  {
    hide FirstVisible;
    forall r | r in t.readers && Active(r) && r.iso.Snapshot? && FirstVisible(rest, r.iso).Some?
      ensures FirstVisible(c, r.iso).Some?
    {
      assert ViewOk(t, r.iso);
      if !OldView(s, r.iso) {
        NewServed(s, t, c, rest, r.iso);
      }
    }
    if HasCommitted(s, c) {
      CommittedStays(s, t, c);
    } else if k :| 0 <= k < |rest| && !Spare(t, c, rest[k]) {
      assert Spare(s, c, rest[k]);
      var j :| 0 <= j < |c| && c[j].txn == rest[k].txn;
      assert Committed(t, c[j].txn);
    }
  }

  lemma ServesMore(s: State, u: Upd, c: seq<Upd>, rest: seq<Upd>)
    requires Serves(s, c, rest)
    ensures Serves(s, [u] + c, rest)
  {
    var d := [u] + c;
    forall r | r in s.readers && Active(r) && r.iso.Snapshot? && FirstVisible(rest, r.iso).Some?
      ensures FirstVisible(d, r.iso).Some?
    {
      VisibleConcat([u], c, r.iso);
    }
    if k :| 0 <= k < |c| && Committed(s, c[k].txn) {
      assert d[k + 1] == c[k];
    } else {
      forall k | 0 <= k < |rest| ensures Spare(s, d, rest[k]) {
        assert Spare(s, c, rest[k]);
        if rest[k].txn.Id? {
          var j :| 0 <= j < |c| && c[j].txn == rest[k].txn;
          assert d[j + 1] == c[j];
        }
      }
    }
  }

  lemma ServesUndone(s: State, t: nat, c: seq<Upd>, rest: seq<Upd>)
    requires Views(s) && t in s.running && Serves(s, c, rest)
    ensures Serves(Next(s, Abort(t)), Undone(c, t), Undone(rest, t))
  {
    var s', c', rest' := Next(s, Abort(t)), Undone(c, t), Undone(rest, t);
    forall r | r in s'.readers && Active(r) && r.iso.Snapshot? && FirstVisible(rest', r.iso).Some?
      ensures FirstVisible(c', r.iso).Some?
    {
      assert ViewOk(s, r.iso);
      VisibleUndone(c, t, r.iso);
      VisibleUndone(rest, t, r.iso);
    }
    if k :| 0 <= k < |c| && Committed(s, c[k].txn) {
      assert c'[k] == c[k] && Committed(s', c'[k].txn);
    } else {
      forall k | 0 <= k < |rest'| ensures Spare(s', c', rest'[k]) {
        assert Spare(s, c, rest[k]);
        if rest'[k].txn.Id? {
          var j :| 0 <= j < |c| && c[j].txn == rest[k].txn;
          assert c'[j] == c[j];
        }
      }
    }
  }

  // ----- the condition on steps that drop something -----

  /**
   Updates are cut off rightly if nobody misses them, and if the cell is marked and has no copy, if one
   of those kept is seen by everybody.  A cell is marked without a copy rightly if an update is seen by
   everybody.
   */
  ghost predicate Sound(s: State, step: Step)
    requires Enabled(s, step)
  {
    match step
    case Truncate(_, k) =>
      k < s.kept <= |s.hist| ==>
        && Serves(s, s.hist[..k + 1], s.hist[k + 1..])
        && (s.removed && !s.cached ==> HasEnded(s, s.hist[..k + 1]))
    case RecCache(l, k) => s.removed || (SeemsSeen(s, l, k) ==> HasEnded(s, s.chain))
    case _ => true
  }

  // ----- the invariant -----

  /** The block is freed once, after a reconciliation that marked the cell or found it marked. */
  ghost predicate BlockOk(s: State) {
    && s.freed == (if s.track == Discarded then 1 else 0)
    && (s.track == Discarded ==> s.removed)
    && (s.rec.Rec? && s.rec.stage == Cached ==> s.removed)
    && (s.rec.Rec? && s.rec.stage != Started ==> s.track != Untracked)
    && (s.track == ToFree ==> s.rec.Rec? && s.rec.stage != Started)
  }

  /** Where the value is found once the cell is marked. */
  ghost predicate CopyOk(s: State) {
    && (s.cached ==> s.kind.Column? && s.removed)
    && (s.removed && !s.cached ==> s.kind != Column(false) && HasEnded(s, s.chain))
  }

  /** Nothing anybody could want is missing from the updates in memory. */
  ghost predicate ChainOk(s: State) {
    && s.kept <= |s.hist| && (s.appended ==> s.kind.Row? && s.removed)
    && s.chain == s.hist[..s.kept] + (if s.appended then [Upd(Id(0), s.base)] else [])
    && Serves(s, s.hist[..s.kept], s.hist[s.kept..])
  }

  ghost predicate ReaderOk(s: State, r: Reader) {
    && (r.phase == NotFound ==> s.kind == Column(true) && r.iso.Uncommitted?)
    && r.restarts <= 1 && (r.restarts == 1 ==> s.removed && s.kind.Row? && r.phase != Holding)
    && (r.iso.Snapshot? ==>
          && Value(s.hist, r.iso, s.base) == r.want && FirstVisible(s.hist, r.iso).Some? == r.had
          && (r.phase == Holding ==> !r.had)
          && (r.phase.Done? ==> r.phase.val == r.want && (r.phase.cell ==> !r.had)))
  }

  ghost predicate ReadersOk(s: State) {
    forall r :: r in s.readers ==> ReaderOk(s, r)
  }

  ghost predicate Inv(s: State) {
    BlockOk(s) && Views(s) && CopyOk(s) && ChainOk(s) && ReadersOk(s)
  }

  ghost predicate Init(s: State) {
    && !s.removed && s.chain == [] == s.hist && !s.cached && s.freed == 0 && s.track == Untracked && s.rec == NoRec
    && s.current == 1 && s.looks == {} && s.running == {} && s.readers == [] && s.kept == 0 && !s.appended
  }

  // ----- the test against an oldest id -----

  /** What the test leaves open: a transaction not looked at that runs, or that somebody who reads saw running. */
  ghost predicate Rightly(s: State, l: Look, n: nat) {
    n in l.blind ==>
      n !in s.running && forall r :: r in s.readers && Active(r) && r.iso.Snapshot? ==> n !in r.iso.conc
  }

  /** Everybody sees the transaction: those who read with a snapshot, and those who begin to now. */
  ghost predicate Everybody(s: State, n: nat) {
    forall iso :: ReadsNow(s, iso) ==> Sees(iso, Id(n))
  }

  lemma RightlyEnded(s: State, l: Look, n: nat)
    requires LookOk(s, l) && n < l.h && Rightly(s, l, n)
    ensures Ended(s, n)
  {
    forall r | r in s.readers && Active(r) && r.iso.Snapshot? ensures n <= r.iso.hi && n !in r.iso.conc {
      assert SeesPast(r.iso, l);
    }
  }

  /**
   Of an id below an oldest id a session works with it is not always true that everybody sees it: exactly
   if it is not that of a transaction not looked at which runs, or did when somebody who still reads began.
   */
  lemma TestIff(s: State, l: Look, n: nat)
    requires Views(s) && (l in s.looks || (s.rec.Rec? && l == s.rec.look)) && n < l.h
    ensures Everybody(s, n) <==> Rightly(s, l, n)
  {
    if Rightly(s, l, n) {
      RightlyEnded(s, l, n);
      assert Everybody(s, n);
    } else if Everybody(s, n) {
      var now := FreshExists(s);
      assert ReadsNow(s, now) && Sees(now, Id(n));
      forall r | r in s.readers && Active(r) && r.iso.Snapshot? ensures n !in r.iso.conc {
        assert ViewOk(s, r.iso) && OldView(s, r.iso) && ReadsNow(s, r.iso);
        SeesIs(s, r.iso, n);
      }
      FreshOk(s, now);
      SeesIs(s, now, n);
    }
  }

  /** The update a step goes by is one of which the test is right. */
  ghost predicate TestsRight(s: State, step: Step)
    requires Enabled(s, step)
  {
    match step
    case Truncate(l, k) => Rightly(s, l, s.chain[k].txn.n)
    case RecCache(l, k) =>
      exists j, m {:trigger SeenByAll(s.chain[j].txn, m.h)} :: 0 <= j < |s.chain| && (m == s.rec.look || m == l) &&
        SeenByAll(s.chain[j].txn, m.h) && Rightly(s, m, s.chain[j].txn.n)
    case _ => true
  }

  /** Then nothing is lost. */
  lemma TestedSound(s: State, step: Step)
    requires Inv(s) && Enabled(s, step) && TestsRight(s, step)
    ensures Sound(s, step)
  {
    hide BlockOk, CopyOk, ReadersOk, ViewOk, FreshLook, Serves, SeemsSeen, Rightly;
    match step
    case Truncate(l, k) =>
      RightlyEnded(s, l, s.chain[k].txn.n);
      if k < s.kept {
        assert s.hist[..k + 1][k] == s.chain[k];
        EndedServes(s, s.hist[..k + 1], s.hist[k + 1..]);
      }
    case RecCache(l, k) =>
      FreshLookOk(s, l);
      var j, m :| 0 <= j < |s.chain| && (m == s.rec.look || m == l) &&
        SeenByAll(s.chain[j].txn, m.h) && Rightly(s, m, s.chain[j].txn.n);
      RightlyEnded(s, m, s.chain[j].txn.n);
    case _ =>
  }

  /** An oldest id worked out under a snapshot of one's own leaves nothing open. */
  lemma HeldEnded(s: State, h: nat, lo: nat, n: nat)
    requires Views(s) && h <= lo <= s.current && (forall t :: t in s.running ==> lo <= t) && n < h
    requires forall r :: r in s.readers && Active(r) ==> h <= Pin(r)
    ensures Ended(s, n)
  {
    forall r | r in s.readers && Active(r) && r.iso.Snapshot? ensures n <= r.iso.hi && n !in r.iso.conc {
      assert ViewOk(s, r.iso) && h <= Pin(r);
    }
  }

  /** A checkpoint's reconciliation, which has a snapshot in the table, never drops what somebody needs. */
  lemma HeldSound(s: State, l: Look, k: nat)
    requires Views(s) && Enabled(s, RecCache(l, k)) && s.rec.held.Some?
    ensures Sound(s, RecCache(l, k))
  {
    var look, lo := s.rec.look, s.rec.held.value;
    if j :| 0 <= j < |s.chain| && SeenByAll(s.chain[j].txn, look.h) {
      RightlyEnded(s, look, s.chain[j].txn.n);
    } else if j :| 0 <= j < |s.chain| && SeenByAll(s.chain[j].txn, l.h) {
      HeldEnded(s, l.h, lo, s.chain[j].txn.n);
    }
  }

  // ----- each step keeps it -----

  /** The updates in memory give a reader the same value as all the updates ever made. */
  lemma ChainAgrees(s: State, r: Reader)
    requires ChainOk(s) && ReaderOk(s, r) && r in s.readers && Active(r) && r.iso.Snapshot?
    ensures Value(s.chain, r.iso, s.base) == r.want
    ensures FirstVisible(s.chain, r.iso) == None ==> !r.had
    ensures FirstVisible(s.chain, r.iso).Some? && !s.appended ==> r.had
  {
    var front := s.hist[..s.kept];
    var tail := if s.appended then [Upd(Id(0), s.base)] else [];
    VisibleConcat(front, tail, r.iso);
    VisibleConcat(front, s.hist[s.kept..], r.iso);
    assert s.hist == front + s.hist[s.kept..];
  }

  lemma SameReadersOk(s: State, t: State)
    requires ReadersOk(s) && t.readers == s.readers && t.kind == s.kind && t.base == s.base && t.hist == s.hist
    requires s.removed ==> t.removed
    ensures ReadersOk(t)
  {
    forall r | r in t.readers ensures ReaderOk(t, r) {
      assert ReaderOk(s, r);
    }
  }

  /** A step after which the updates and the cell are as they were. */
  lemma StillOk(s: State, t: State)
    requires CopyOk(s) && ChainOk(s) && Views(s) && Views(t) && Later(s, t) && t.kind == s.kind && t.base == s.base
    requires t.removed == s.removed && t.cached == s.cached && t.chain == s.chain
    requires t.hist == s.hist && t.kept == s.kept && t.appended == s.appended
    ensures CopyOk(t) && ChainOk(t)
  {
    hide Views, Later, HasEnded, Serves;
    ServesStays(s, t, s.hist[..s.kept], s.hist[s.kept..]);
    if s.removed && !s.cached {
      EndedStays(s, t, s.chain);
    }
  }

  lemma UpdateKeeps(s: State, t: nat, v: int)
    requires Inv(s) && t in s.running
    ensures Inv(Next(s, Update(t, v)))
  {
    var s', u, front, rest := Next(s, Update(t, v)), Upd(Id(t), v), s.hist[..s.kept], s.hist[s.kept..];
    ViewsKeep(s, Update(t, v));
    assert s'.hist[..s'.kept] == [u] + front && s'.hist[s'.kept..] == rest;
    ServesStays(s, s', front, rest);
    ServesMore(s', u, front, rest);
    if s.removed && !s.cached {
      Prepended(s, s', s.chain, u);
    }
    forall r | r in s'.readers ensures ReaderOk(s', r) {
      assert ReaderOk(s, r) && ViewOk(s, r.iso) && s'.hist[1..] == s.hist;
    }
  }

  lemma Prepended(s: State, t: State, c: seq<Upd>, u: Upd)
    requires Later(s, t) && HasEnded(s, c)
    ensures HasEnded(t, [u] + c)
  {
    EndedStays(s, t, c);
    var k :| 0 <= k < |c| && c[k].txn.Id? && Ended(t, c[k].txn.n);
    assert ([u] + c)[k + 1] == c[k];
  }

  lemma AbortKeeps(s: State, t: nat)
    requires Inv(s) && t in s.running
    ensures Inv(Next(s, Abort(t)))
  {
    var s', front, rest := Next(s, Abort(t)), s.hist[..s.kept], s.hist[s.kept..];
    ViewsKeep(s, Abort(t));
    ServesUndone(s, t, front, rest);
    assert s'.hist[..s.kept] == Undone(front, t) && s'.hist[s.kept..] == Undone(rest, t);
    assert s'.chain == s'.hist[..s.kept] + (if s.appended then [Upd(Id(0), s.base)] else []);
    if s.removed && !s.cached {
      UndoneEnded(s, s', s.chain, t);
    }
    forall r | r in s'.readers ensures ReaderOk(s', r) {
      assert ReaderOk(s, r) && ViewOk(s, r.iso);
      if r.iso.Snapshot? {
        VisibleUndone(s.hist, t, r.iso);
      }
    }
  }

  lemma UndoneEnded(s: State, s': State, c: seq<Upd>, t: nat)
    requires t in s.running && Later(s, s') && HasEnded(s, c)
    ensures HasEnded(s', Undone(c, t))
  {
    var k :| 0 <= k < |c| && c[k].txn.Id? && Ended(s, c[k].txn.n);
    assert Ended(s', c[k].txn.n) && Undone(c, t)[k] == c[k];
  }

  lemma PlainKeeps(s: State, step: Step)
    requires Inv(s) && Enabled(s, step)
    requires step.BeginTxn? || step.Commit? || step.Oldest? || step.RecBegin? || step.RecTrack?
    ensures Inv(Next(s, step))
  {
    hide Views, ChainOk, CopyOk, ReadersOk, FreshLook, Holds;
    ViewsKeep(s, step);
    StillOk(s, Next(s, step));
    SameReadersOk(s, Next(s, step));
  }

  lemma RecEndKeeps(s: State, step: Step)
    requires Inv(s) && Enabled(s, step) && (step.RecSuccess? || step.RecError?)
    ensures Inv(Next(s, step))
  {
    hide Views, ChainOk, CopyOk, ReadersOk;
    ViewsKeep(s, step);
    StillOk(s, Next(s, step));
    SameReadersOk(s, Next(s, step));
  }

  lemma TruncateKeeps(s: State, l: Look, k: nat)
    requires Inv(s) && Enabled(s, Truncate(l, k)) && Sound(s, Truncate(l, k))
    ensures Inv(Next(s, Truncate(l, k)))
  {
    hide Views, ReadersOk, Serves, HasEnded, Later;
    var s', step := Next(s, Truncate(l, k)), Truncate(l, k);
    ViewsKeep(s, step);
    SameReadersOk(s, s');
    if k < s.kept {
      assert s'.chain == s.hist[..k + 1];
      ServesStays(s, s', s.hist[..k + 1], s.hist[k + 1..]);
      if s.removed && !s.cached {
        EndedStays(s, s', s'.chain);
      }
    } else {
      assert s'.chain == s.chain;
      StillOk(s, s');
    }
  }

  lemma BeginReadKeeps(s: State, iso: Iso)
    requires Inv(s) && Enabled(s, BeginRead(iso))
    ensures Inv(Next(s, BeginRead(iso)))
  {
    var s' := Next(s, BeginRead(iso));
    ViewsKeep(s, BeginRead(iso));
    StillOk(s, s');
    hide Views, ChainOk, CopyOk;
    forall r | r in s'.readers ensures ReaderOk(s', r) {
      if r in s.readers {
        assert ReaderOk(s, r);
      }
    }
  }

  lemma SearchDone(s: State, r: Reader)
    requires Inv(s) && r in s.readers && r.phase == Start
    ensures match FirstVisible(s.chain, r.iso)
      case Some(v) => ReaderOk(s, r.(phase := Done(v, false)))
      case None => ReaderOk(s, r.(phase := Holding))
  {
    hide Views, Serves;
    assert ReaderOk(s, r);
    if r.iso.Snapshot? {
      ChainAgrees(s, r);
    }
    if s.removed && s.kind.Row? {
      SeesEnded(s, r, s.chain);
    }
  }

  lemma SetReaderKeeps(s: State, step: Step, i: nat, r: Reader)
    requires Inv(s) && Enabled(s, step) && i < |s.readers| && ReaderOk(s, r) && Next(s, step) == SetReader(s, i, r)
    ensures Inv(Next(s, step))
  {
    var s' := SetReader(s, i, r);
    ViewsKeep(s, step);
    hide Views, ChainOk, CopyOk, Next, Enabled;
    StillOk(s, s');
    forall q | q in s'.readers ensures ReaderOk(s', q) {
      assert ReaderOk(s, q);
    }
  }

  lemma SearchKeeps(s: State, i: nat)
    requires Inv(s) && Enabled(s, Search(i))
    ensures Inv(Next(s, Search(i)))
  {
    SearchDone(s, s.readers[i]);
    hide Inv, ReaderOk, FirstVisible;
    SetReaderKeeps(s, Search(i), i, Next(s, Search(i)).readers[i]);
  }

  lemma ReadOvflDone(s: State, i: nat)
    requires Inv(s) && Enabled(s, ReadOvfl(i))
    ensures ReaderOk(s, Next(s, ReadOvfl(i)).readers[i])
  {
    hide Views, Serves, HasEnded;
    var r := s.readers[i];
    assert r in s.readers && ReaderOk(s, r);
    if r.iso.Snapshot? {
      ChainAgrees(s, r);
      if HasEnded(s, s.chain) {
        SeesEnded(s, r, s.chain);
      }
    }
  }

  lemma ReadOvflKeeps(s: State, i: nat)
    requires Inv(s) && Enabled(s, ReadOvfl(i))
    ensures Inv(Next(s, ReadOvfl(i)))
  {
    ReadOvflDone(s, i);
    hide Inv, ReaderOk;
    SetReaderKeeps(s, ReadOvfl(i), i, Next(s, ReadOvfl(i)).readers[i]);
  }

  lemma CacheKeeps(s: State, l: Look, k: nat)
    requires Inv(s) && Enabled(s, RecCache(l, k)) && Sound(s, RecCache(l, k))
    ensures Inv(Next(s, RecCache(l, k)))
  {
    var s' := Next(s, RecCache(l, k));
    ViewsKeep(s, RecCache(l, k));
    hide Views, Later, Serves, HasEnded, SeemsSeen, FreshLook, Chosen, ReadersOk;
    SameReadersOk(s, s');
    CacheCopies(s, l, k);
  }

  lemma CacheCopies(s: State, l: Look, k: nat)
    requires Inv(s) && Enabled(s, RecCache(l, k)) && Sound(s, RecCache(l, k))
    requires Views(CacheStep(s, l, k)) && Later(s, CacheStep(s, l, k))
    ensures CopyOk(CacheStep(s, l, k)) && ChainOk(CacheStep(s, l, k))
  {
    hide Views, Later, Serves, SeemsSeen, FreshLook, Chosen, ReadersOk, BlockOk, Ended;
    var s' := CacheStep(s, l, k);
    if s.removed {
      StillOk(s, s');
    } else {
      ServesStays(s, s', s.hist[..s.kept], s.hist[s.kept..]);
      assert s.chain == s.hist[..s.kept];
      if s'.appended {
        assert s'.chain[|s.chain|] == Upd(Id(0), s.base);
        NoTxnEnded(s');
      } else if SeemsSeen(s, l, k) {
        EndedStays(s, s', s.chain);
        SeemsOf(s, l, k);
      }
    }
  }

  lemma SeemsOf(s: State, l: Look, k: nat)
    requires s.rec.Rec? && k < |s.chain| && SeemsSeen(s, l, k)
    ensures s.kind != Column(false)
  {
  }

  lemma StepKeeps(s: State, step: Step)
    requires Inv(s) && Enabled(s, step) && Sound(s, step)
    ensures Inv(Next(s, step))
  {
    hide Inv, Next;
    match step
    case Update(t, v) => UpdateKeeps(s, t, v);
    case Abort(t) => AbortKeeps(s, t);
    case Truncate(l, k) => TruncateKeeps(s, l, k);
    case BeginRead(iso) => BeginReadKeeps(s, iso);
    case Search(i) => SearchKeeps(s, i);
    case ReadOvfl(i) => ReadOvflKeeps(s, i);
    case RecCache(l, k) => CacheKeeps(s, l, k);
    case RecSuccess => RecEndKeeps(s, step);
    case RecError => RecEndKeeps(s, step);
    case _ => PlainKeeps(s, step);
  }

  /**
   A copy of the value is kept exactly if need be: for a row if no update is older than the oldest id the
   reconciliation began with or one worked out now, for a column unless it is a single record and the update
   chosen is older than the former.
   */
  lemma CopyIff(s: State, l: Look, k: nat)
    requires CopyOk(s) && ChainOk(s) && Enabled(s, RecCache(l, k)) && !s.removed
    ensures var t := Next(s, RecCache(l, k));
      && t.removed
      && (s.kind.Row? ==>
            (t.appended <==> forall j :: 0 <= j < |s.chain| && s.chain[j].txn.Id? ==>
               s.rec.look.h <= s.chain[j].txn.n && l.h <= s.chain[j].txn.n))
      && (s.kind.Column? ==> (t.cached <==> !s.kind.single || s.rec.look.h <= s.chain[k].txn.n))
      && (t.appended ==> t.chain == s.chain + [Upd(Id(0), s.base)])
  {
    hide HasEnded, Serves, FreshLook;
    if SeemsSeen(s, l, k) && s.kind.Row? {
      var j :| 0 <= j < |s.chain| && (SeenByAll(s.chain[j].txn, s.rec.look.h) || SeenByAll(s.chain[j].txn, l.h));
    } else {
      assert forall j :: 0 <= j < |s.chain| && s.kind.Row? ==>
        !SeenByAll(s.chain[j].txn, s.rec.look.h) && !SeenByAll(s.chain[j].txn, l.h);
    }
  }

  /** Whether or not anything is lost. */
  lemma BlockStays(s: State, step: Step)
    requires BlockOk(s) && Enabled(s, step)
    ensures BlockOk(Next(s, step))
  {
    hide FreshView, FreshLook, Holds, Chosen, SeemsSeen, Undone, FirstVisible, Value, SearchStep, ReadStep, CacheStep;
  }

  lemma FreedOnly(s: State, step: Step)
    requires BlockOk(s) && Enabled(s, step)
    ensures var t := Next(s, step);
      if step == RecSuccess && s.rec.Rec? && s.rec.stage == Cached then t.freed == 1 else t.freed == s.freed
  {
    hide FreshView, FreshLook, Holds, Chosen, SeemsSeen, Undone, FirstVisible, Value, SearchStep, ReadStep, CacheStep;
  }

  /** What a step does to the transactions and to the updates of one of them. */
  lemma TxnStep(s: State, step: Step, t: nat)
    requires IdsOk(s) && Enabled(s, step)
    ensures var r := Next(s, step);
      && (t in r.running <==> (t in s.running && step != Commit(t) && step != Abort(t)) ||
                              (step == BeginTxn && t == r.current))
      && s.current <= r.current && (step == BeginTxn ==> r.current == s.current + 1)
    ensures step == Abort(t) ==> t <= s.current && forall u :: u in Next(s, step).hist ==> u.txn != Id(t)
    ensures t !in s.running && t <= s.current && (forall u :: u in s.hist ==> u.txn != Id(t)) ==>
      forall u :: u in Next(s, step).hist ==> u.txn != Id(t)
  {
    hide FreshView, FreshLook, Holds, Chosen, SeemsSeen, FirstVisible, Value, SearchStep, ReadStep, CacheStep;
    if step.Abort? {
      var h := Next(s, step).hist;
      forall u | u in h ensures u.txn != Id(step.t) && (u.txn.Aborted? || u in s.hist) {
        var k :| 0 <= k < |h| && h[k] == u;
        assert s.hist[k] in s.hist;
      }
    }
  }

  lemma EnabledTxn(s: State, step: Step)
    requires Enabled(s, step)
    ensures step.Commit? || step.Abort? ==> step.t in s.running
  {
  }

  ghost predicate Moves(s: State, t: State, step: Step) {
    Enabled(s, step) && t == Next(s, step)
  }

  /** The steps that read the overflow block: a reader's, and that of caching the value. */
  ghost predicate ReadsBlock(s: State, step: Step) {
    (step.ReadOvfl? || step.RecCache?) && !s.removed
  }

  // ----- what it says -----

  lemma InitKeeps(s: State)
    requires Init(s)
    ensures Inv(s)
  {
  }

  /**
   A reader with a snapshot gone wrong: it found nothing, was told to start again more than once, got
   another value than it had to, or got that of the cell though an update was there for it.
   */
  ghost predicate Wronged(r: Reader) {
    r.iso.Snapshot? &&
    match r.phase
    case NotFound => true
    case Done(val, cell) => val != r.want || (cell && r.had) || r.restarts > 1
    case _ => r.restarts > 1
  }

  lemma NoneWronged(s: State, r: Reader)
    requires Inv(s) && r in s.readers
    ensures !Wronged(r)
  {
    assert ReaderOk(s, r);
  }

  /** Whoever was told to start again finds something in memory. */
  lemma AgainFinds(s: State, i: nat)
    requires Inv(s) && i < |s.readers| && s.kind.Row? && s.readers[i].restarts > 0
    ensures s.readers[i].restarts == 1
    ensures s.readers[i].phase == Start ==> FirstVisible(s.chain, s.readers[i].iso).Some?
  {
    var r := s.readers[i];
    assert r in s.readers && ReaderOk(s, r);
    if r.phase == Start {
      SeesEnded(s, r, s.chain);
    }
  }
}
