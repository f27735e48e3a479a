/**
 All interleavings of readers, transactions and reconciliations around one overflow value.
 */
module OverflowRuns {
  import opened Basics
  import opened Overflow

  ghost predicate IsRun(tr: seq<State>, steps: seq<Step>) {
    Leads(tr, steps) && Init(tr[0])
  }

  ghost predicate Leads(tr: seq<State>, steps: seq<Step>) {
    && |tr| == |steps| + 1
    && forall i {:trigger steps[i]} :: 0 <= i < |steps| ==> Moves(tr[i], tr[i + 1], steps[i])
  }

  /** Whatever was dropped nobody needed. */
  ghost predicate AllSound(tr: seq<State>, steps: seq<Step>)
    requires Leads(tr, steps)
  {
    forall i {:trigger steps[i]} :: 0 <= i < |steps| ==> Moves(tr[i], tr[i + 1], steps[i]) && Sound(tr[i], steps[i])
  }

  ghost predicate Fine(tr: seq<State>, steps: seq<Step>) {
    Leads(tr, steps) && AllSound(tr, steps)
  }

  function End(tr: seq<State>): (s: State)
    requires |tr| > 0
  {
    tr[|tr| - 1]
  }

  // ----- every run -----

  lemma {:induction false} AlwaysViews(tr: seq<State>, steps: seq<Step>, i: nat)
    requires IsRun(tr, steps) && i < |tr|
    ensures BlockOk(tr[i]) && Views(tr[i])
  {
    if i == 0 {
      InitKeeps(tr[0]);
    } else {
      hide Next, Enabled, BlockOk, Views, Later;
      AlwaysViews(tr, steps, i - 1);
      assert Moves(tr[i - 1], tr[i - 1 + 1], steps[i - 1]);
      BlockStays(tr[i - 1], steps[i - 1]);
      ViewsKeep(tr[i - 1], steps[i - 1]);
    }
  }

  /**
   In every interleaving the block is freed at most once, and only after its cell was marked; so
   neither a reader nor the reconciliation that copies the value ever reads it once it is freed.
   */
  lemma FreedOnceUnread(tr: seq<State>, steps: seq<Step>, i: nat)
    requires IsRun(tr, steps) && i < |tr|
    ensures tr[i].freed <= 1 && (tr[i].freed == 1 ==> tr[i].removed)
    ensures forall step :: Enabled(tr[i], step) && ReadsBlock(tr[i], step) ==> tr[i].freed == 0
  {
    hide Views;
    AlwaysViews(tr, steps, i);
  }

  /**
   In every interleaving the block is freed when a reconciliation that found the value replaced succeeds,
   unless it was, and by no other step.
   */
  lemma FreedWhenDone(tr: seq<State>, steps: seq<Step>, i: nat)
    requires IsRun(tr, steps) && i < |steps|
    ensures var s, t := tr[i], tr[i + 1];
      if steps[i] == RecSuccess && s.rec.Rec? && s.rec.stage == Cached then t.freed == 1 else t.freed == s.freed
  {
    hide Views;
    AlwaysViews(tr, steps, i);
    assert Moves(tr[i], tr[i + 1], steps[i]);
    FreedOnly(tr[i], steps[i]);
  }

  /** In every interleaving, the exact condition for the test against an oldest id to be right. */
  lemma TestInRuns(tr: seq<State>, steps: seq<Step>, i: nat, l: Look, n: nat)
    requires IsRun(tr, steps) && i < |tr| && l in tr[i].looks && n < l.h
    ensures Everybody(tr[i], n) <==> Rightly(tr[i], l, n)
  {
    hide Views;
    AlwaysViews(tr, steps, i);
    TestIff(tr[i], l, n);
  }

  /** The id was given out in the first `i` steps. */
  ghost predicate Began(tr: seq<State>, steps: seq<Step>, i: nat, t: nat)
    requires Leads(tr, steps) && i <= |steps|
  {
    exists j :: 0 <= j < i && steps[j] == BeginTxn && tr[j + 1].current == t
  }

  /** Its transaction was committed or rolled back. */
  ghost predicate Over(steps: seq<Step>, i: nat, t: nat)
    requires i <= |steps|
  {
    exists j :: 0 <= j < i && steps[j] in {Commit(t), Abort(t)}
  }

  lemma BeganNext(tr: seq<State>, steps: seq<Step>, i: nat, t: nat)
    requires Leads(tr, steps) && i < |steps|
    ensures Began(tr, steps, i + 1, t) <==> Began(tr, steps, i, t) || (steps[i] == BeginTxn && tr[i + 1].current == t)
    ensures Over(steps, i + 1, t) <==> Over(steps, i, t) || steps[i] in {Commit(t), Abort(t)}
  {
  }

  lemma StepAt(tr: seq<State>, steps: seq<Step>, i: nat)
    requires IsRun(tr, steps) && i < |steps|
    ensures |tr| == |steps| + 1 && Leads(tr, steps)
    ensures IdsOk(tr[i]) && Enabled(tr[i], steps[i]) && tr[i + 1] == Next(tr[i], steps[i])
  {
    hide BlockOk, LooksOk, ViewsOk, Init, Next, Enabled;
    assert Moves(tr[i], tr[i + 1], steps[i]);
    AlwaysViews(tr, steps, i);
  }

  lemma {:induction false} RunningIs(tr: seq<State>, steps: seq<Step>, i: nat, t: nat)
    requires IsRun(tr, steps) && i <= |steps|
    ensures t in tr[i].running <==> Began(tr, steps, i, t) && !Over(steps, i, t)
  {
    if i > 0 {
      StepAt(tr, steps, i - 1);
      hide Leads, IsRun, Next, Enabled, Began, Over, IdsOk;
      RunningIs(tr, steps, i - 1, t);
      TxnStep(tr[i - 1], steps[i - 1], t);
      BeganNext(tr, steps, i - 1, t);
      if t > tr[i - 1].current {
        NotBefore(tr, steps, i - 1, t);
      }
    }
  }

  /** An id that is not given out yet has not ended. */
  lemma {:induction false} NotBefore(tr: seq<State>, steps: seq<Step>, i: nat, t: nat)
    requires IsRun(tr, steps) && i <= |steps| && t > tr[i].current
    ensures !Over(steps, i, t)
  {
    if i > 0 {
      StepAt(tr, steps, i - 1);
      hide Leads, IsRun, Next, Enabled, Began, Over;
      TxnStep(tr[i - 1], steps[i - 1], t);
      EnabledTxn(tr[i - 1], steps[i - 1]);
      NotBefore(tr, steps, i - 1, t);
      BeganNext(tr, steps, i - 1, t);
    }
  }

  /** In every interleaving a snapshot taken now sees exactly the transactions that do not run. */
  lemma SnapshotIs(tr: seq<State>, steps: seq<Step>, i: nat, t: nat, iso: Iso)
    requires IsRun(tr, steps) && i <= |steps| && FreshView(tr[i], iso) && iso.Snapshot? && 0 < t <= tr[i].current
    ensures Sees(iso, Id(t)) <==> !(Began(tr, steps, i, t) && !Over(steps, i, t))
  {
    hide BlockOk, LooksOk, ViewsOk, Init, Began, Over;
    RunningIs(tr, steps, i, t);
    AlwaysViews(tr, steps, i);
    FreshOk(tr[i], iso);
    SeesIs(tr[i], iso, t);
  }

  /** In every interleaving no update is left of a transaction that was rolled back. */
  lemma {:induction false} NoneUndone(tr: seq<State>, steps: seq<Step>, i: nat, t: nat)
    requires IsRun(tr, steps) && i <= |steps| && exists j :: 0 <= j < i && steps[j] == Abort(t)
    ensures t !in tr[i].running && t <= tr[i].current && forall u :: u in tr[i].hist ==> u.txn != Id(t)
  {
    StepAt(tr, steps, i - 1);
    hide Leads, IsRun, Next, Enabled, IdsOk;
    TxnStep(tr[i - 1], steps[i - 1], t);
    if steps[i - 1] != Abort(t) {
      NoneUndone(tr, steps, i - 1, t);
    }
  }

  // ----- runs in which nothing that is needed is dropped -----

  lemma {:induction false} KeptFrom(tr: seq<State>, steps: seq<Step>, i: nat)
    requires Leads(tr, steps) && Inv(tr[0]) && i < |tr|
    requires forall j {:trigger steps[j]} :: 0 <= j < i ==> Moves(tr[j], tr[j + 1], steps[j]) && Sound(tr[j], steps[j])
    ensures Inv(tr[i])
  {
    hide Inv, Sound, Next, Enabled;
    if i > 0 {
      KeptFrom(tr, steps, i - 1);
      assert Moves(tr[i - 1], tr[i - 1 + 1], steps[i - 1]) && Sound(tr[i - 1], steps[i - 1]);
      StepKeeps(tr[i - 1], steps[i - 1]);
    }
  }

  lemma RunKeeps(tr: seq<State>, steps: seq<Step>, i: nat)
    requires IsRun(tr, steps) && AllSound(tr, steps) && i < |tr|
    ensures Inv(tr[i])
  {
    hide Inv, Sound;
    InitKeeps(tr[0]);
    KeptFrom(tr, steps, i);
  }

  /** A reader with a snapshot gets the value its snapshot had when it began, whatever happens meanwhile. */
  lemma ReadsSnapshot(tr: seq<State>, steps: seq<Step>, i: nat, k: nat)
    requires IsRun(tr, steps) && AllSound(tr, steps)
    requires i < |tr| && k < |tr[i].readers| && tr[i].readers[k].iso.Snapshot?
    ensures tr[i].readers[k].phase != NotFound
    ensures tr[i].readers[k].phase.Done? ==> tr[i].readers[k].phase.val == tr[i].readers[k].want
  {
    hide AllSound, Inv;
    RunKeeps(tr, steps, i);
    NoneWronged(tr[i], tr[i].readers[k]);
  }

  /** A row-store reader that is told to start again finds a value in memory the next time. */
  lemma RestartFinds(tr: seq<State>, steps: seq<Step>, i: nat, k: nat)
    requires IsRun(tr, steps) && AllSound(tr, steps)
    requires i < |tr| && k < |tr[i].readers| && tr[i].kind.Row? && tr[i].readers[k].restarts > 0
    ensures tr[i].readers[k].restarts == 1
    ensures tr[i].readers[k].phase == Start ==> Next(tr[i], Search(k)).readers[k].phase.Done?
  {
    hide AllSound, Inv;
    RunKeeps(tr, steps, i);
    AgainFinds(tr[i], k);
  }

  /**
   A column-store reader that finds the cell marked finds the cached copy, unless the cell stands for
   a single record and the reader reads uncommitted updates.
   */
  lemma ColumnFinds(tr: seq<State>, steps: seq<Step>, i: nat, k: nat)
    requires IsRun(tr, steps) && AllSound(tr, steps)
    requires i < |tr| && k < |tr[i].readers| && tr[i].readers[k].phase == NotFound
    ensures tr[i].kind == Column(true) && tr[i].readers[k].iso.Uncommitted?
  {
    hide AllSound;
    RunKeeps(tr, steps, i);
    assert tr[i].readers[k] in tr[i].readers && ReaderOk(tr[i], tr[i].readers[k]);
  }

  // ----- and the others -----

  lemma Then(tr: seq<State>, steps: seq<Step>, step: Step) returns (tr': seq<State>, steps': seq<Step>)
    requires |tr| > 0 && Fine(tr, steps) && Enabled(End(tr), step) && Sound(End(tr), step)
    ensures |tr'| > 0 && Fine(tr', steps')
    ensures tr'[0] == tr[0] && End(tr') == Next(End(tr), step)
  {
    hide Enabled, Next, Sound;
    tr', steps' := tr + [Next(End(tr), step)], steps + [step];
    forall i | 0 <= i < |steps'| ensures Moves(tr'[i], tr'[i + 1], steps'[i]) && Sound(tr'[i], steps'[i]) {
      if i < |steps| {
        assert Moves(tr[i], tr[i + 1], steps[i]) && Sound(tr[i], steps[i]);
      }
    }
  }

  /** From here on nothing that is needed is dropped, and yet a reader with a snapshot goes wrong. */
  ghost predicate Hurts(s: State) {
    exists tr, steps ::
      Fine(tr, steps) && tr[0] == s && exists r :: r in End(tr).readers && Wronged(r)
  }

  lemma HurtsNext(s: State, step: Step)
    requires Enabled(s, step) && Sound(s, step) && Hurts(Next(s, step))
    ensures Hurts(s)
  {
    hide Enabled, Next, Sound, Wronged;
    var tr, steps :| Fine(tr, steps) && tr[0] == Next(s, step) &&
      exists r :: r in End(tr).readers && Wronged(r);
    var tr', steps' := [s] + tr, [step] + steps;
    forall i | 0 <= i < |steps'| ensures Moves(tr'[i], tr'[i + 1], steps'[i]) && Sound(tr'[i], steps'[i]) {
      if i > 0 {
        assert Moves(tr[i - 1], tr[i - 1 + 1], steps[i - 1]) && Sound(tr[i - 1], steps[i - 1]);
      }
    }
    assert Fine(tr', steps') && End(tr') == End(tr);
  }

  lemma NoneHurt(s: State)
    requires Inv(s)
    ensures !Hurts(s)
  {
    hide Inv, Wronged;
    if Hurts(s) {
      var tr, steps :| Fine(tr, steps) && tr[0] == s &&
        exists r :: r in End(tr).readers && Wronged(r);
      KeptFrom(tr, steps, |steps|);
      var r :| r in End(tr).readers && Wronged(r);
      NoneWronged(End(tr), r);
    }
  }

  lemma HurtsAtEnd(tr: seq<State>, steps: seq<Step>, i: nat)
    requires |tr| > 0 && Fine(tr, steps) && i < |End(tr).readers| && Wronged(End(tr).readers[i])
    ensures Hurts(tr[0])
  {
    assert End(tr).readers[i] in End(tr).readers;
  }

  /** The reader with this snapshot: one that reads already, or one that begins now. */
  lemma Comes(s: State, iso: Iso) returns (tr: seq<State>, steps: seq<Step>, i: nat)
    requires ReadsNow(s, iso)
    ensures |tr| > 0 && Fine(tr, steps) && tr[0] == s
    ensures var t := End(tr);
      && iso.Snapshot? && t == s.(readers := t.readers) && i < |t.readers|
      && Active(t.readers[i]) && t.readers[i].iso == iso
      && (t.readers[i] in s.readers ||
          (t.readers[i].phase == Start && t.readers[i].had == FirstVisible(s.hist, iso).Some?))
  {
    tr, steps := [s], [];
    if OldView(s, iso) {
      var q :| q in s.readers && Active(q) && q.iso == iso;
      i :| 0 <= i < |s.readers| && s.readers[i] == q;
    } else {
      i := |s.readers|;
      hide Fine, FirstVisible;
      tr, steps := Then(tr, steps, BeginRead(iso));
    }
  }

  /** The cell is marked and nothing kept, and somebody who reads with a snapshot sees no update. */
  ghost predicate Unserved(s: State, i: nat) {
    && s.removed && !s.cached && i < |s.readers| && s.readers[i].iso.Snapshot?
    && Active(s.readers[i]) && FirstVisible(s.chain, s.readers[i].iso) == None
  }

  /** In a row store it is told to start again, and again. */
  lemma {:induction false} Again(tr: seq<State>, steps: seq<Step>, i: nat, m: nat)
    returns (tr': seq<State>, steps': seq<Step>)
    requires |tr| > 0 && Fine(tr, steps) && Unserved(End(tr), i) && End(tr).kind.Row?
    ensures |tr'| > 0 && Fine(tr', steps') && tr'[0] == tr[0]
    ensures Unserved(End(tr'), i) && End(tr').kind.Row?
    ensures End(tr').readers[i].restarts == End(tr).readers[i].restarts + m
  {
    hide Fine, FirstVisible;
    tr', steps' := tr, steps;
    if m > 0 {
      tr', steps' := Again(tr, steps, i, m - 1);
      if End(tr').readers[i].phase == Start {
        tr', steps' := Then(tr', steps', Search(i));
      }
      tr', steps' := Then(tr', steps', ReadOvfl(i));
    }
  }

  /** In a column store it finds nothing. */
  lemma FindsNothing(tr: seq<State>, steps: seq<Step>, i: nat) returns (tr': seq<State>, steps': seq<Step>)
    requires |tr| > 0 && Fine(tr, steps) && Unserved(End(tr), i) && End(tr).kind.Column?
    ensures |tr'| > 0 && Fine(tr', steps') && tr'[0] == tr[0]
    ensures var t := End(tr');
      t.kind == End(tr).kind && i < |t.readers| && t.readers[i].iso.Snapshot? && t.readers[i].phase == NotFound
  {
    hide Fine, FirstVisible;
    tr', steps' := tr, steps;
    if End(tr).readers[i].phase == Start {
      tr', steps' := Then(tr', steps', Search(i));
    }
    tr', steps' := Then(tr', steps', ReadOvfl(i));
  }

  /** A reader gone wrong for want of a copy: told to start again `m` times, or left with nothing. */
  ghost predicate Lost(s: State, i: nat, m: nat) {
    && i < |s.readers| && s.readers[i].iso.Snapshot?
    && (if s.kind.Row? then s.readers[i].restarts >= m else s.readers[i].phase == NotFound)
  }

  lemma Loses(s: State, iso: Iso, m: nat) returns (tr: seq<State>, steps: seq<Step>, i: nat)
    requires s.removed && !s.cached && ReadsNow(s, iso) && FirstVisible(s.chain, iso) == None
    ensures |tr| > 0 && Fine(tr, steps) && tr[0] == s && Lost(End(tr), i, m)
  {
    hide Fine, FirstVisible, ReadsNow;
    tr, steps, i := Comes(s, iso);
    if s.kind.Row? {
      tr, steps := Again(tr, steps, i, m);
    } else {
      tr, steps := FindsNothing(tr, steps, i);
    }
  }

  lemma LostHurts(s: State, iso: Iso)
    requires s.removed && !s.cached && ReadsNow(s, iso) && FirstVisible(s.chain, iso) == None
    ensures Hurts(s)
  {
    hide Hurts, FirstVisible, ReadsNow, Fine;
    var tr, steps, i := Loses(s, iso, 2);
    HurtsAtEnd(tr, steps, i);
  }

  /** A reader that sees no update in memory, and had one, is given the value of the cell. */
  lemma OverlookedHurts(s: State, iso: Iso)
    requires (s.removed ==> s.cached && s.kind.Column?) && ReadsNow(s, iso)
    requires FirstVisible(s.chain, iso) == None && FirstVisible(s.hist, iso).Some?
    requires forall r :: r in s.readers && Active(r) && r.iso == iso ==> r.phase == Start && r.had
    ensures Hurts(s)
  {
    hide Hurts, FirstVisible, ReadsNow, Fine;
    var tr, steps, i := Comes(s, iso);
    tr, steps := Then(tr, steps, Search(i));
    tr, steps := Then(tr, steps, ReadOvfl(i));
    HurtsAtEnd(tr, steps, i);
  }

  // ----- a cut -----

  /** After a step that changed neither the readers nor what was ever written. */
  lemma CutOff(s: State, t: State, iso: Iso)
    requires Inv(s) && t.hist == s.hist && t.readers == s.readers && (t.removed ==> t.cached && t.kind.Column?)
    requires ReadsNow(t, iso) && FirstVisible(t.chain, iso) == None && FirstVisible(s.hist, iso).Some?
    ensures Hurts(t)
  {
    hide Hurts, Views, ChainOk, CopyOk;
    forall r | r in t.readers && Active(r) && r.iso == iso ensures r.phase == Start && r.had {
      assert ReaderOk(s, r);
    }
    OverlookedHurts(t, iso);
  }

  /** Who begins to read sees none of a list without a committed update. */
  lemma NoneSeen(s: State, c: seq<Upd>, iso: Iso)
    requires IdsOk(s) && FreshView(s, iso) && iso.Snapshot? && !HasCommitted(s, c)
    requires forall u :: u in c && u.txn.Id? ==> u.txn.n <= s.current
    ensures FirstVisible(c, iso) == None
  {
    if FirstVisible(c, iso).Some? {
      var k := VisibleWhere(c, iso);
      assert c[k] in c;
      FreshOk(s, iso);
      SeesIs(s, iso, c[k].txn.n);
    }
  }

  /** An update cut off that is not spare: its transaction has committed, or may. */
  lemma NotSpare(s: State, t: State, j: nat)
    requires Inv(s) && t == s.(chain := t.chain, kept := t.kept, appended := t.appended) && t.kept <= |s.hist|
    requires t.chain == s.hist[..t.kept] && (t.removed ==> t.cached && t.kind.Column?)
    requires !HasCommitted(s, t.chain) && t.kept <= j < |s.hist| && !Spare(s, t.chain, s.hist[j])
    ensures Hurts(t)
  {
    hide Hurts, LooksOk, ViewsOk, ChainOk, CopyOk, ReadersOk;
    var n := s.hist[j].txn.n;
    assert s.hist[j] in s.hist;
    var u := if n in s.running then Next(t, Commit(n)) else t;
    assert !HasCommitted(u, t.chain) by {
      if k :| 0 <= k < |t.chain| && Committed(u, t.chain[k].txn) {
        assert !Committed(s, t.chain[k].txn);
      }
    }
    var iso := FreshExists(u);
    assert forall v :: v in t.chain ==> v in s.hist;
    NoneSeen(u, t.chain, iso);
    FreshOk(u, iso);
    SeesIs(u, iso, n);
    VisibleIf(s.hist, j, iso);
    CutOff(s, u, iso);
    if n in s.running {
      HurtsNext(t, Commit(n));
    }
  }

  /** Somebody loses by every cut that is not sound. */
  lemma CutLoses(s: State, l: Look, k: nat)
    requires Inv(s) && Enabled(s, Truncate(l, k)) && !Sound(s, Truncate(l, k))
    ensures Hurts(Next(s, Truncate(l, k)))
  {
    hide Hurts, Views, ReadersOk, FirstVisible, HasEnded, Serves;
    var t, front, rest := Next(s, Truncate(l, k)), s.hist[..k + 1], s.hist[k + 1..];
    assert t.chain == front;
    if s.removed && !s.cached {
      if HasEnded(s, front) {
        EndedServes(s, front, rest);
      }
      EndedIff(s, front);
      var iso :| ReadsNow(s, iso) && FirstVisible(front, iso) == None;
      LostHurts(t, iso);
    } else {
      MissedHurts(s, t);
    }
  }

  lemma MissedHurts(s: State, t: State)
    requires Inv(s) && t == s.(chain := t.chain, kept := t.kept, appended := t.appended) && t.kept <= |s.hist|
    requires t.chain == s.hist[..t.kept] && (t.removed ==> t.cached && t.kind.Column?)
    requires !Serves(s, t.chain, s.hist[t.kept..])
    ensures Hurts(t)
  {
    hide Hurts, Views, ReadersOk, FirstVisible, HasCommitted, Spare, ChainOk, CopyOk;
    var front, rest := t.chain, s.hist[t.kept..];
    if r :| r in s.readers && Active(r) && r.iso.Snapshot? && FirstVisible(rest, r.iso).Some? &&
            FirstVisible(front, r.iso) == None {
      assert s.hist == front + rest && OldView(t, r.iso);
      VisibleConcat(front, rest, r.iso);
      CutOff(s, t, r.iso);
    } else {
      var j :| 0 <= j < |rest| && !Spare(s, front, rest[j]);
      NotSpare(s, t, t.kept + j);
    }
  }

  // ----- a mark -----

  /**
   Somebody loses by every mark that is not sound: a reader with a snapshot, one that reads already or
   the next one, is told to start again any number of times, or in a column store finds nothing.
   */
  lemma EvictLoses(s: State, l: Look, k: nat, m: nat) returns (tr: seq<State>, steps: seq<Step>, i: nat)
    requires Inv(s) && Enabled(s, RecCache(l, k)) && !Sound(s, RecCache(l, k))
    ensures |tr| > 0 && Fine(tr, steps) && tr[0] == Next(s, RecCache(l, k)) && Lost(End(tr), i, m)
  {
    hide Views, ReadersOk, FirstVisible, HasEnded, ChainOk, Fine, SeemsSeen;
    var t := Next(s, RecCache(l, k));
    EndedIff(s, s.chain);
    var iso :| ReadsNow(s, iso) && FirstVisible(s.chain, iso) == None;
    assert ReadsNow(t, iso) && t.chain == s.chain;
    tr, steps, i := Loses(t, iso, m);
  }

  // ----- exactly the sound steps -----

  /** After a step nobody who reads with a snapshot goes wrong if and only if the step is sound. */
  lemma SoundIff(s: State, step: Step)
    requires Inv(s) && Enabled(s, step)
    ensures Sound(s, step) <==> !Hurts(Next(s, step))
  {
    hide Inv, Next, Hurts, Sound, Enabled, Fine;
    if Sound(s, step) {
      StepKeeps(s, step);
      NoneHurt(Next(s, step));
    } else {
      SoundOnes(s, step);
      match step
      case Truncate(l, k) => CutLoses(s, l, k);
      case RecCache(l, k) =>
        var tr, steps, i := EvictLoses(s, l, k, 2);
        HurtsAtEnd(tr, steps, i);
    }
  }

  lemma SoundOnes(s: State, step: Step)
    requires Enabled(s, step) && !Sound(s, step)
    ensures step.Truncate? || step.RecCache?
  {
  }

  /** In every interleaving: nothing that is needed is dropped if and only if it comes to no harm at any time. */
  lemma RunIff(tr: seq<State>, steps: seq<Step>)
    requires IsRun(tr, steps)
    ensures AllSound(tr, steps) <==> forall i :: 0 <= i < |tr| ==> !Hurts(tr[i])
  {
    hide Inv, Next, Hurts, Sound, Enabled;
    InitKeeps(tr[0]);
    if AllSound(tr, steps) {
      forall i | 0 <= i < |tr| ensures !Hurts(tr[i]) {
        KeptFrom(tr, steps, i);
        NoneHurt(tr[i]);
      }
    } else if forall i :: 0 <= i < |tr| ==> !Hurts(tr[i]) {
      UnhurtSound(tr, steps, |steps|);
    }
  }

  lemma {:induction false} UnhurtSound(tr: seq<State>, steps: seq<Step>, n: nat)
    requires Leads(tr, steps) && Inv(tr[0]) && n <= |steps| && forall i :: 0 <= i < |tr| ==> !Hurts(tr[i])
    ensures forall j {:trigger steps[j]} :: 0 <= j < n ==> Moves(tr[j], tr[j + 1], steps[j]) && Sound(tr[j], steps[j])
  {
    hide Inv, Next, Hurts, Sound, Enabled;
    if n > 0 {
      UnhurtSound(tr, steps, n - 1);
      KeptFrom(tr, steps, n - 1);
      assert Moves(tr[n - 1], tr[n - 1 + 1], steps[n - 1]);
      SoundIff(tr[n - 1], steps[n - 1]);
    }
  }

  // ----- how it comes to that -----

  /** While a transaction runs another comes and goes; the session of the first looks at all ids but its own. */
  lemma Overtaken(tr: seq<State>, steps: seq<Step>, n: nat, l: Look) returns (tr': seq<State>, steps': seq<Step>)
    requires |tr| > 0 && Fine(tr, steps) && l == Look({n}, n + 1)
    requires var s := End(tr); s.current == n && s.running == {n} && s.readers == []
    ensures |tr'| > 0 && Fine(tr', steps') && tr'[0] == tr[0]
    ensures End(tr') == End(tr).(current := n + 1, looks := End(tr).looks + {l})
  {
    hide Fine;
    tr', steps' := Then(tr, steps, BeginTxn);
    tr', steps' := Then(tr', steps', Commit(n + 1));
    assert End(tr').running == {n};
    tr', steps' := Then(tr', steps', Oldest(l));
  }

  /** A cut that is not sound: a transaction that reads committed updates changes a record twice. */
  lemma CutReached(s: State, v: int, w: int) returns (tr: seq<State>, steps: seq<Step>, l: Look, k: nat)
    requires Init(s)
    ensures |tr| > 0 && Fine(tr, steps) && tr[0] == s
    ensures Enabled(End(tr), Truncate(l, k)) && !Sound(End(tr), Truncate(l, k))
  {
    l, k := Look({3}, 4), 1;
    tr, steps := [s], [];
    tr, steps := Then(tr, steps, BeginTxn);
    tr, steps := Then(tr, steps, Update(2, v));
    hide Fine;
    tr, steps := Then(tr, steps, Commit(2));
    tr, steps := Then(tr, steps, BeginTxn);
    tr, steps := Overtaken(tr, steps, 3, l);
    tr, steps := UpdatedTwice(tr, steps, v, w);
  }

  lemma UpdatedTwice(tr: seq<State>, steps: seq<Step>, v: int, w: int) returns (tr': seq<State>, steps': seq<Step>)
    requires |tr| > 0 && Fine(tr, steps)
    requires var s := End(tr);
      && s.hist == s.chain == [Upd(Id(2), v)] && s.kept == 1 && s.current == 4 && s.running == {3}
      && Look({3}, 4) in s.looks
    ensures |tr'| > 0 && Fine(tr', steps') && tr'[0] == tr[0]
    ensures var step := Truncate(Look({3}, 4), 1); Enabled(End(tr'), step) && !Sound(End(tr'), step)
  {
    hide Fine;
    tr', steps' := Then(tr, steps, Update(3, w));
    tr', steps' := Then(tr', steps', Update(3, w));
    var t := End(tr');
    assert t.hist == t.chain == [Upd(Id(3), w), Upd(Id(3), w), Upd(Id(2), v)];
    assert t.hist[2..][0] == Upd(Id(2), v) && !Spare(t, t.hist[..2], t.hist[2..][0]);
  }

  /** A mark that is not sound: an eviction while a transaction runs that has no snapshot. */
  lemma EvictReached(s: State, v: int) returns (tr: seq<State>, steps: seq<Step>, l: Look, k: nat)
    requires Init(s) && s.kind != Column(false)
    ensures |tr| > 0 && Fine(tr, steps) && tr[0] == s
    ensures Enabled(End(tr), RecCache(l, k)) && !Sound(End(tr), RecCache(l, k))
  {
    l, k := Look({2}, 3), 0;
    tr, steps := [s], [];
    tr, steps := Then(tr, steps, BeginTxn);
    hide Fine;
    tr, steps := Overtaken(tr, steps, 2, l);
    tr, steps := UpdatedOpen(tr, steps, v);
  }

  lemma UpdatedOpen(tr: seq<State>, steps: seq<Step>, v: int) returns (tr': seq<State>, steps': seq<Step>)
    requires |tr| > 0 && Fine(tr, steps)
    requires var s := End(tr);
      && s.chain == [] && s.kind != Column(false) && !s.removed && s.rec == NoRec && s.readers == []
      && s.current == 3 && s.running == {2}
    ensures |tr'| > 0 && Fine(tr', steps') && tr'[0] == tr[0]
    ensures var step := RecCache(Look({2}, 3), 0); Enabled(End(tr'), step) && !Sound(End(tr'), step)
  {
    hide Fine;
    tr', steps' := Then(tr, steps, Update(2, v));
    tr', steps' := Then(tr', steps', RecBegin(Look({2}, 3), None));
    tr', steps' := Then(tr', steps', RecTrack);
    assert SeenByAll(End(tr').chain[0].txn, 3);
  }

  /**
   A column-store reader of uncommitted updates may find nothing, though the record has a value all along
   and all steps are sound.
   */
  lemma ColumnLoses(s: State, v: int) returns (tr: seq<State>, steps: seq<Step>)
    requires Init(s) && s.kind == Column(true)
    ensures |tr| > 0 && Fine(tr, steps) && tr[0] == s
    ensures var t := End(tr); |t.readers| == 1 && t.readers[0].phase == NotFound
  {
    tr, steps := [s], [];
    tr, steps := Then(tr, steps, BeginTxn);
    tr, steps := Then(tr, steps, BeginTxn);
    hide Fine;
    tr, steps := Then(tr, steps, BeginRead(Uncommitted(3)));
    tr, steps := Then(tr, steps, Search(0));
    tr, steps := Then(tr, steps, Update(2, v));
    tr, steps := Then(tr, steps, Commit(2));
    tr, steps := MarkedUnread(tr, steps, Look({}, 3));
  }

  lemma MarkedUnread(tr: seq<State>, steps: seq<Step>, l: Look) returns (tr': seq<State>, steps': seq<Step>)
    requires |tr| > 0 && Fine(tr, steps) && l == Look({}, 3)
    requires var s := End(tr);
      && !s.removed && !s.cached && s.rec == NoRec && s.kind == Column(true) && s.current == 3 && s.running == {3}
      && |s.chain| == 1 && s.chain[0].txn == Id(2)
      && |s.readers| == 1 && s.readers[0].phase == Holding && s.readers[0].iso == Uncommitted(3)
    ensures |tr'| > 0 && Fine(tr', steps') && tr'[0] == tr[0]
    ensures var t := End(tr'); |t.readers| == 1 && t.readers[0].phase == NotFound
  {
    hide Fine;
    tr', steps' := Then(tr, steps, RecBegin(l, Some(3)));
    tr', steps' := Then(tr', steps', RecTrack);
    assert Ended(End(tr'), End(tr').chain[0].txn.n);
    tr', steps' := Then(tr', steps', RecCache(l, 0));
    tr', steps' := Then(tr', steps', ReadOvfl(0));
  }
}
