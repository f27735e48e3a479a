/**
 What a page in memory tracks across its reconciliations: blocks to free when a reconciliation is
 done, overflow records that may be used again, and copies of deleted overflow values.
 */
module Tracks {

  /** A slot of the list; an empty one is not an `object`. */
  datatype Track = Track(object_: bool, discard: bool, inUse: bool, justAdded: bool, onPage: bool, ovflValue: bool,
                         addr: nat, data: seq<int>)

  const EMPTY := Track(false, false, false, false, false, false, 0, [])

  /** The slot stands for blocks of the file that are the page's to free. */
  predicate Live(t: Track) {
    t.object_ && !t.ovflValue && !t.discard
  }

  /** The slot stands for blocks named on the page as it is on disk. */
  predicate FromPage(t: Track) {
    t.object_ && t.onPage && !t.ovflValue
  }

  ghost predicate GoodTrack(t: Track) {
    && (!t.object_ ==> t == EMPTY)
    && (t.discard ==> t.onPage && !t.justAdded && !t.inUse)
    && (t.ovflValue ==> !t.justAdded && !t.inUse && !t.discard)
    && (FromPage(t) ==> !t.inUse)
    && (FromPage(t) || (t.justAdded && !t.inUse) ==> t.data == [])
  }

  /**
   The list; the blocks of the file in use, now and when the reconciliation began; the addresses on
   the page on disk, and those of them freed, as often as they were.
   */
  datatype State = State(track: seq<Track>, alive: set<nat>, before: set<nat>, page: set<nat>, freed: multiset<nat>)

  ghost predicate Apart(a: Track, b: Track) {
    (Live(a) && Live(b) ==> a.addr != b.addr) && (FromPage(a) && FromPage(b) ==> a.addr != b.addr)
  }

  ghost predicate AllApart(s: seq<Track>) {
    forall i, j {:trigger Apart(s[i], s[j])} :: 0 <= i < |s| && 0 <= j < |s| && i != j ==> Apart(s[i], s[j])
  }

  ghost predicate Has(s: seq<Track>, a: nat) {
    exists i :: 0 <= i < |s| && FromPage(s[i]) && s[i].addr == a
  }

  ghost predicate HasLive(s: seq<Track>, a: nat) {
    exists i :: 0 <= i < |s| && Live(s[i]) && s[i].addr == a
  }

  ghost predicate HasDiscarded(s: seq<Track>, a: nat) {
    exists i :: 0 <= i < |s| && FromPage(s[i]) && s[i].discard && s[i].addr == a
  }

  /** Written by the reconciliation under way. */
  predicate Fresh(t: Track) {
    t.justAdded && t.inUse
  }

  ghost predicate HasFresh(s: seq<Track>, a: nat) {
    exists i :: 0 <= i < |s| && Fresh(s[i]) && s[i].addr == a
  }

  ghost predicate AllGood(s: seq<Track>) {
    forall i :: 0 <= i < |s| ==> GoodTrack(s[i])
  }

  /** Blocks to free are in use. */
  ghost predicate LiveAlive(v: State) {
    forall i :: 0 <= i < |v.track| && Live(v.track[i]) ==> v.track[i].addr in v.alive
  }

  ghost predicate PageOnly(v: State) {
    forall i :: 0 <= i < |v.track| && FromPage(v.track[i]) ==> v.track[i].addr in v.page
  }

  /** A block named on the page that was never tracked is in use, and nobody else's to free. */
  ghost predicate PageAlive(v: State) {
    forall a :: a in v.page && !Has(v.track, a) ==> a in v.alive && !HasLive(v.track, a)
  }

  /** The blocks in use are those at the start and those written since. */
  ghost predicate AliveIs(v: State) {
    && (forall a :: a in v.alive <==> a in v.before || HasFresh(v.track, a))
    && (forall i :: 0 <= i < |v.track| && Fresh(v.track[i]) ==> v.track[i].addr !in v.before)
  }

  /** A block named on the page is freed when it is marked as discarded, and not again. */
  ghost predicate FreedIs(v: State) {
    forall a :: v.freed[a] == if HasDiscarded(v.track, a) then 1 else 0
  }

  ghost predicate Valid(v: State) {
    && AllGood(v.track) && AllApart(v.track)
    && LiveAlive(v) && PageOnly(v) && PageAlive(v) && AliveIs(v) && FreedIs(v)
  }

  /** Between reconciliations nothing is marked. */
  ghost predicate Quiet(v: State) {
    forall i :: 0 <= i < |v.track| ==> !v.track[i].inUse && !v.track[i].justAdded
  }

  // ----- the end of a reconciliation -----

  predicate Frees(t: Track) {
    Live(t) && !t.inUse
  }

  function Wrapped(t: Track): (w: Track) {
    if !t.object_ || t.ovflValue || t.discard then t
    else if t.inUse then t.(justAdded := false, inUse := false)
    else if t.onPage then t.(justAdded := false, discard := true)
    else EMPTY
  }

  function Failed(t: Track): (w: Track) {
    if t.justAdded then EMPTY else t.(inUse := false)
  }

  ghost function Freed(s: seq<Track>, f: Track -> bool): (a: set<nat>) {
    set i | 0 <= i < |s| && f(s[i]) :: s[i].addr
  }

  predicate FreesPage(t: Track) {
    Frees(t) && t.onPage
  }

  ghost function PageFreed(s: seq<Track>): (m: multiset<nat>) {
    if s == [] then multiset{}
    else PageFreed(s[..|s| - 1]) + if FreesPage(s[|s| - 1]) then multiset{s[|s| - 1].addr} else multiset{}
  }

  lemma {:induction false} PageFreedAt(s: seq<Track>, a: nat)
    requires AllApart(s)
    ensures PageFreed(s)[a] == if a in Freed(s, FreesPage) then 1 else 0
  {
    if s != [] {
      hide AllApart, FreesPage;
      var n := |s| - 1;
      LastApart(s, a);
      PageFreedAt(s[..n], a);
    }
  }

  lemma LastApart(s: seq<Track>, a: nat)
    requires AllApart(s) && s != []
    ensures var n := |s| - 1;
      && AllApart(s[..n]) && !(a in Freed(s[..n], FreesPage) && FreesPage(s[n]) && s[n].addr == a)
      && (a in Freed(s, FreesPage) <==> a in Freed(s[..n], FreesPage) || (FreesPage(s[n]) && s[n].addr == a))
  {
    var n := |s| - 1;
    forall i, j | 0 <= i < n && 0 <= j < n && i != j ensures Apart(s[..n][i], s[..n][j]) {
      assert Apart(s[i], s[j]);
    }
    forall i | 0 <= i < n && FreesPage(s[i]) && s[i].addr == a ensures !(FreesPage(s[n]) && s[n].addr == a) {
      assert Apart(s[i], s[n]);
    }
    assert forall i :: 0 <= i < n ==> s[..n][i] == s[i];
  }

  ghost predicate AllWrapped(s: seq<Track>, s': seq<Track>) {
    |s'| == |s| && forall i :: 0 <= i < |s| ==> s'[i] == Wrapped(s[i])
  }

  lemma WrappedApart(s: seq<Track>, s': seq<Track>)
    requires AllGood(s) && AllApart(s) && AllWrapped(s, s')
    ensures AllGood(s') && AllApart(s')
  {
    forall i, j | 0 <= i < |s| && 0 <= j < |s| && i != j ensures Apart(s'[i], s'[j]) {
      assert Apart(s[i], s[j]);
    }
  }

  lemma WrappedHas(s: seq<Track>, s': seq<Track>, a: nat)
    requires AllGood(s) && AllWrapped(s, s')
    ensures Has(s', a) == Has(s, a)
    ensures HasLive(s', a) ==> HasLive(s, a)
    ensures HasDiscarded(s', a) == (HasDiscarded(s, a) || a in Freed(s, FreesPage))
    ensures !HasFresh(s', a)
  {
    if Has(s, a) {
      var i :| 0 <= i < |s| && FromPage(s[i]) && s[i].addr == a;
      assert FromPage(s'[i]) && s'[i].addr == a;
    }
    if HasDiscarded(s, a) {
      var i :| 0 <= i < |s| && FromPage(s[i]) && s[i].discard && s[i].addr == a;
      assert s'[i] == s[i];
    }
    if a in Freed(s, FreesPage) {
      var i :| 0 <= i < |s| && FreesPage(s[i]) && s[i].addr == a;
      assert FromPage(s'[i]) && s'[i].discard && s'[i].addr == a;
    }
  }

  /** A block still to be freed next time is not freed now. */
  lemma WrappedAlive(s: seq<Track>, s': seq<Track>, i: nat)
    requires AllGood(s) && AllApart(s) && AllWrapped(s, s') && i < |s| && Live(s'[i])
    ensures Live(s[i]) && s'[i].addr == s[i].addr && s[i].addr !in Freed(s, Frees)
  {
    forall j | 0 <= j < |s| && Frees(s[j]) ensures s[j].addr != s[i].addr {
      assert Apart(s[i], s[j]) || i == j;
    }
  }

  lemma OnceDiscarded(s: seq<Track>, a: nat)
    requires AllApart(s) && HasDiscarded(s, a)
    ensures a !in Freed(s, FreesPage)
  {
    var i :| 0 <= i < |s| && FromPage(s[i]) && s[i].discard && s[i].addr == a;
    forall j | 0 <= j < |s| && FreesPage(s[j]) ensures s[j].addr != a {
      assert i != j;
      assert Apart(s[i], s[j]);
    }
  }

  lemma Untracked(v: State, a: nat)
    requires Valid(v) && a in v.page && !Has(v.track, a)
    ensures a !in Freed(v.track, Frees)
  {
  }

  /** Success: every block no longer in use is freed, once, and everything is ready for the next time. */
  lemma WrappedKeeps(v: State, v': State)
    requires Valid(v) && AllWrapped(v.track, v'.track) && v'.freed == v.freed + PageFreed(v.track)
    requires v'.alive == v.alive - Freed(v.track, Frees) && v'.before == v'.alive && v'.page == v.page
    ensures Valid(v') && Quiet(v')
  {
    hide Freed, PageFreed, Has, HasLive, HasDiscarded, HasFresh;
    WrappedApart(v.track, v'.track);
    forall a ensures v'.freed[a] == if HasDiscarded(v'.track, a) then 1 else 0 {
      WrappedHas(v.track, v'.track, a);
      PageFreedAt(v.track, a);
      if HasDiscarded(v.track, a) {
        OnceDiscarded(v.track, a);
      }
    }
    forall i | 0 <= i < |v.track| && Live(v'.track[i]) ensures v'.track[i].addr in v'.alive {
      WrappedAlive(v.track, v'.track, i);
    }
    forall a | a in v'.page && !Has(v'.track, a) ensures a in v'.alive && !HasLive(v'.track, a) {
      WrappedHas(v.track, v'.track, a);
      Untracked(v, a);
    }
    forall a ensures !HasFresh(v'.track, a) {
      WrappedHas(v.track, v'.track, a);
    }
  }

  ghost predicate AllFailed(s: seq<Track>, s': seq<Track>) {
    |s'| == |s| && forall i :: 0 <= i < |s| ==> s'[i] == Failed(s[i])
  }

  lemma FailedApart(s: seq<Track>, s': seq<Track>)
    requires AllGood(s) && AllApart(s) && AllFailed(s, s')
    ensures AllGood(s') && AllApart(s')
  {
    forall i, j | 0 <= i < |s| && 0 <= j < |s| && i != j ensures Apart(s'[i], s'[j]) {
      assert Apart(s[i], s[j]);
    }
  }

  lemma FailedHas(s: seq<Track>, s': seq<Track>, a: nat)
    requires AllGood(s) && AllFailed(s, s')
    ensures HasDiscarded(s', a) == HasDiscarded(s, a) && !HasFresh(s', a)
    ensures HasLive(s', a) ==> HasLive(s, a)
  {
    if HasDiscarded(s, a) {
      var i :| 0 <= i < |s| && FromPage(s[i]) && s[i].discard && s[i].addr == a;
      assert FromPage(s'[i]) && s'[i].discard && s'[i].addr == a;
    }
  }

  /** Who has a block to free is not the one who has just written it, if that is another slot. */
  lemma LiveNotFresh(s: seq<Track>, i: nat)
    requires AllGood(s) && AllApart(s) && i < |s| && Live(s[i]) && !Fresh(s[i])
    ensures !HasFresh(s, s[i].addr)
  {
    forall j | 0 <= j < |s| && Fresh(s[j]) ensures s[j].addr != s[i].addr {
      assert Apart(s[i], s[j]);
    }
  }

  lemma FreshFreed(s: seq<Track>, a: nat)
    ensures a in Freed(s, Fresh) <==> HasFresh(s, a)
  {
  }

  /** A block of the page that failure makes untracked again was in use before, and is nobody else's. */
  lemma UntrackedAgain(v: State, s': seq<Track>, a: nat)
    requires Valid(v) && AllFailed(v.track, s') && a in v.page && !Has(s', a)
    ensures a in v.alive && !HasFresh(v.track, a) && !HasLive(s', a)
  {
    var s := v.track;
    if Has(s, a) {
      var i :| 0 <= i < |s| && FromPage(s[i]) && s[i].addr == a;
      assert !FromPage(s'[i]);
      LiveNotFresh(s, i);
      forall j | 0 <= j < |s| && Live(s'[j]) ensures s'[j].addr != a {
        assert Apart(s[i], s[j]);
      }
    } else {
      FailedHas(s, s', a);
      forall j | 0 <= j < |s| && Fresh(s[j]) ensures s[j].addr != a {
        assert Live(s[j]);
      }
    }
  }

  /** Failure: what this reconciliation wrote is freed, and nothing else. */
  lemma FailedKeeps(v: State, v': State)
    requires Valid(v) && AllFailed(v.track, v'.track)
    requires v' == v.(track := v'.track, alive := v.alive - Freed(v.track, Fresh))
    ensures Valid(v') && Quiet(v') && v'.alive == v.before
  {
    hide Freed, Has, HasLive, HasDiscarded, HasFresh;
    FailedApart(v.track, v'.track);
    forall a
      ensures (a in v'.alive <==> a in v.before) && HasDiscarded(v'.track, a) == HasDiscarded(v.track, a)
      ensures !HasFresh(v'.track, a)
    {
      FreshFreed(v.track, a);
      FailedHas(v.track, v'.track, a);
      FreshNew(v, a);
    }
    forall i | 0 <= i < |v.track| && Live(v'.track[i]) ensures v'.track[i].addr in v'.alive {
      LiveNotFresh(v.track, i);
    }
    forall a | a in v'.page && !Has(v'.track, a) ensures a in v'.alive && !HasLive(v'.track, a) {
      UntrackedAgain(v, v'.track, a);
    }
  }

  lemma FreshNew(v: State, a: nat)
    requires Valid(v)
    ensures HasFresh(v.track, a) ==> a !in v.before
  {
  }

  // ----- adding to the list -----

  ghost predicate MayTrack(v: State, t: Track) {
    && GoodTrack(t) && t.object_ && !t.discard
    && (Live(t) ==> !HasLive(v.track, t.addr) && (Fresh(t) != (t.addr in v.alive)))
    && (FromPage(t) ==> t.addr in v.page && !Has(v.track, t.addr))
    && (Live(t) && !FromPage(t) ==> t.addr !in v.page || Has(v.track, t.addr))
  }

  lemma PlaceApart(s: seq<Track>, k: nat, t: Track)
    requires AllGood(s) && AllApart(s) && k < |s| && !s[k].object_ && GoodTrack(t)
    requires (Live(t) ==> !HasLive(s, t.addr)) && (FromPage(t) ==> !Has(s, t.addr))
    ensures AllGood(s[k := t]) && AllApart(s[k := t])
  {
    var s' := s[k := t];
    forall i, j | 0 <= i < |s| && 0 <= j < |s| && i != j ensures Apart(s'[i], s'[j]) {
      assert Apart(s[i], s[j]);
    }
  }

  lemma PlaceHas(s: seq<Track>, k: nat, t: Track, a: nat)
    requires k < |s| && !s[k].object_ && !t.discard && !Fresh(s[k])
    ensures var s' := s[k := t];
      && Has(s', a) == (Has(s, a) || (FromPage(t) && t.addr == a))
      && HasLive(s', a) == (HasLive(s, a) || (Live(t) && t.addr == a))
      && HasDiscarded(s', a) == HasDiscarded(s, a)
      && HasFresh(s', a) == (HasFresh(s, a) || (Fresh(t) && t.addr == a))
  {
    var s' := s[k := t];
    assert s'[k] == t;
    assert forall i :: 0 <= i < |s| && s[i].object_ ==> s'[i] == s[i];
    if HasFresh(s, a) {
      var i :| 0 <= i < |s| && Fresh(s[i]) && s[i].addr == a;
      assert s'[i] == s[i];
    }
  }

  lemma PlaceKeeps(v: State, k: nat, t: Track, v': State)
    requires Valid(v) && MayTrack(v, t) && k < |v.track| && !v.track[k].object_
    requires v' == v.(track := v.track[k := t], alive := v.alive + if Fresh(t) then {t.addr} else {})
    ensures Valid(v')
  {
    hide Has, HasLive, HasDiscarded, HasFresh;
    PlaceApart(v.track, k, t);
    forall a ensures
        && Has(v'.track, a) == (Has(v.track, a) || (FromPage(t) && t.addr == a))
        && HasLive(v'.track, a) == (HasLive(v.track, a) || (Live(t) && t.addr == a))
        && HasDiscarded(v'.track, a) == HasDiscarded(v.track, a)
        && HasFresh(v'.track, a) == (HasFresh(v.track, a) || (Fresh(t) && t.addr == a)) {
      PlaceHas(v.track, k, t, a);
    }
  }

  lemma ExtendKeeps(v: State, n: nat, v': State)
    requires Valid(v) && v' == v.(track := v.track + seq(n, _ => EMPTY))
    ensures Valid(v')
  {
    hide Has, HasLive, HasDiscarded, HasFresh;
    var s, s' := v.track, v'.track;
    forall i, j | 0 <= i < |s'| && 0 <= j < |s'| && i != j ensures Apart(s'[i], s'[j]) {
      if i < |s| && j < |s| { assert Apart(s[i], s[j]); }
    }
    forall a ensures Has(s', a) == Has(s, a) && HasLive(s', a) == HasLive(s, a) &&
                     HasDiscarded(s', a) == HasDiscarded(s, a) && HasFresh(s', a) == HasFresh(s, a) {
      ExtendHas(s, n, a);
    }
  }

  lemma ExtendHas(s: seq<Track>, n: nat, a: nat)
    ensures var s' := s + seq(n, _ => EMPTY);
      && Has(s', a) == Has(s, a) && HasLive(s', a) == HasLive(s, a)
      && HasDiscarded(s', a) == HasDiscarded(s, a) && HasFresh(s', a) == HasFresh(s, a)
  {
    var s' := s + seq(n, _ => EMPTY);
    assert forall i :: 0 <= i < |s| ==> s'[i] == s[i];
    assert forall i :: |s| <= i < |s'| ==> s'[i] == EMPTY;
  }

  // ----- using an overflow record again -----

  predicate Reusable(t: Track, data: seq<int>) {
    t.object_ && !t.discard && !t.inUse && !t.ovflValue && t.data != [] && t.data == data
  }

  lemma ReuseKeeps(v: State, k: nat, data: seq<int>, v': State)
    requires Valid(v) && k < |v.track| && Reusable(v.track[k], data)
    requires v' == v.(track := v.track[k := v.track[k].(inUse := true)])
    ensures Valid(v')
  {
    hide Has, HasLive, HasDiscarded, HasFresh;
    var s, s' := v.track, v'.track;
    assert GoodTrack(s[k]);
    forall i, j | 0 <= i < |s| && 0 <= j < |s| && i != j ensures Apart(s'[i], s'[j]) {
      assert Apart(s[i], s[j]);
    }
    forall a ensures Has(s', a) == Has(s, a) && HasLive(s', a) == HasLive(s, a) &&
                     HasDiscarded(s', a) == HasDiscarded(s, a) && HasFresh(s', a) == HasFresh(s, a) {
      ReuseHas(s, k, a);
    }
  }

  lemma ReuseHas(s: seq<Track>, k: nat, a: nat)
    requires k < |s| && !s[k].justAdded
    ensures var s' := s[k := s[k].(inUse := true)];
      && Has(s', a) == Has(s, a) && HasLive(s', a) == HasLive(s, a)
      && HasDiscarded(s', a) == HasDiscarded(s, a) && HasFresh(s', a) == HasFresh(s, a)
  {
    var s' := s[k := s[k].(inUse := true)];
    assert forall i :: 0 <= i < |s| ==> s'[i] == s[i].(inUse := s'[i].inUse) && Fresh(s'[i]) == Fresh(s[i]);
  }

  // ----- the list of a page -----

  /** An empty slot, or one of twenty more, was given to `t`; the others are as they were. */
  ghost predicate Placed(s: seq<Track>, s': seq<Track>, t: Track) {
    exists k :: 0 <= k < |s'| && PlacedAt(s, s', t, k)
  }

  ghost predicate PlacedAt(s: seq<Track>, s': seq<Track>, t: Track, k: int)
    requires 0 <= k < |s'|
  {
    && |s'| in {|s|, |s| + 20} && s'[k] == t && (k < |s| ==> !s[k].object_)
    && forall j :: 0 <= j < |s'| && j != k ==> s'[j] == if j < |s| then s[j] else EMPTY
  }

  /** The slot of a record with the data is in use again, the others stay. */
  ghost predicate Reused(s: seq<Track>, s': seq<Track>, i: int, addr: nat, data: seq<int>)
    requires 0 <= i < |s|
  {
    && !s[i].inUse && Live(s[i]) && s[i].data == data && s[i].addr == addr
    && s' == s[i := s[i].(inUse := true)]
  }

  /** An overflow record with this data, in use, is at the address. */
  ghost predicate InUseAt(s: seq<Track>, addr: nat, data: seq<int>) {
    exists k :: 0 <= k < |s| && s[k].inUse && s[k].addr == addr && s[k].data == data
  }

  class PageTrack {
    var track: seq<Track>
    ghost var alive: set<nat>
    ghost var before: set<nat>
    ghost var page: set<nat>
    ghost var freed: multiset<nat>

    ghost function View(): (v: State)
      reads this
    {
      State(track, alive, before, page, freed)
    }

    /** Put an object in an empty slot, making more of them if there is none. */
    method Add(t: Track)
      requires Valid(View()) && MayTrack(View(), t)
      modifies this`track, this`alive
      ensures Valid(View()) && alive == old(alive) + (if Fresh(t) then {t.addr} else {}) && Placed(old(track), track, t)
      ensures forall a :: Has(track, a) == (old(Has(track, a)) || (FromPage(t) && t.addr == a))
    {
      hide Valid, Has, HasLive;
      ghost var v := View();
      var i := 0;
      while i < |track| && track[i].object_
        invariant i <= |track|
      {
        i := i + 1;
      }
      if i == |track| {
        ExtendKeeps(v, 20, v.(track := v.track + seq(20, _ => EMPTY)));
        forall a
          ensures Has(track + seq(20, _ => EMPTY), a) == Has(track, a)
          ensures HasLive(track + seq(20, _ => EMPTY), a) == HasLive(track, a)
        {
          ExtendHas(track, 20, a);
        }
        track := track + seq(20, _ => EMPTY);
        i := |track| - 1;
      }
      ghost var v1 := View();
      track := track[i := t];
      assert PlacedAt(v.track, track, t, i);
      alive := alive + if Fresh(t) then {t.addr} else {};
      PlaceKeeps(v1, i, t, View());
      forall a ensures Has(track, a) == (Has(v1.track, a) || (FromPage(t) && t.addr == a)) {
        NotFresh(v1, i);
        PlaceHas(v1.track, i, t, a);
      }
    }

    /** The copy kept of a deleted overflow value. */
    method OvflSrch(addr: nat) returns (found: bool, data: seq<int>)
      ensures found <==> exists i :: 0 <= i < |track| && track[i].ovflValue && track[i].addr == addr
      ensures found ==>
        exists i :: 0 <= i < |track| && track[i].ovflValue && track[i].addr == addr && track[i].data == data
    {
      var i := 0;
      while i < |track|
        invariant i <= |track| && forall j :: 0 <= j < i ==> !(track[j].ovflValue && track[j].addr == addr)
      {
        if track[i].ovflValue && track[i].addr == addr {
          return true, track[i].data;
        }
        i := i + 1;
      }
      found, data := false, [];
    }

    /** Look for a block of the page on disk. */
    method OnPageSrch(addr: nat) returns (found: bool)
      ensures found == Has(track, addr)
    {
      var i := 0;
      while i < |track|
        invariant i <= |track| && forall j :: 0 <= j < i ==> !(FromPage(track[j]) && track[j].addr == addr)
      {
        if track[i].onPage && !track[i].ovflValue && track[i].object_ && track[i].addr == addr {
          return true;
        }
        i := i + 1;
      }
      found := false;
    }

    /** Have a block of the page on disk freed when the reconciliation is done, unless it was freed before. */
    method OnPageAddr(addr: nat)
      requires Valid(View()) && addr in page
      modifies this`track, this`alive
      ensures Valid(View()) && alive == old(alive)
      ensures if old(Has(track, addr)) then track == old(track)
              else Placed(old(track), track, Track(true, false, false, true, true, false, addr, []))
    {
      var found := OnPageSrch(addr);
      if !found {
        Add(Track(true, false, false, true, true, false, addr, []));
      }
    }

    /** Have a block written by an earlier reconciliation freed. */
    method TrackBlock(addr: nat)
      requires Valid(View()) && addr in alive && !HasLive(track, addr) && (addr !in page || Has(track, addr))
      modifies this`track, this`alive
      ensures Valid(View()) && alive == old(alive)
      ensures Placed(old(track), track, Track(true, false, false, true, false, false, addr, []))
    {
      Add(Track(true, false, false, true, false, false, addr, []));
    }

    /** Keep a copy of a deleted overflow value. */
    method CacheValue(addr: nat, data: seq<int>)
      requires Valid(View())
      modifies this`track, this`alive
      ensures Valid(View()) && alive == old(alive)
      ensures Placed(old(track), track, Track(true, false, false, false, true, true, addr, data))
    {
      Add(Track(true, false, false, false, true, true, addr, data));
    }

    /** The address of an overflow record: of one written before with the same data, if there is one free to be used. */
    method Overflow(data: seq<int>, unused: nat) returns (addr: nat)
      requires Valid(View()) && unused !in alive && data != []
      modifies this`track, this`alive
      ensures Valid(View()) && addr in alive && InUseAt(track, addr, data)
      ensures if exists t :: t in old(track) && Reusable(t, data)
              then alive == old(alive) && exists i :: 0 <= i < |old(track)| && Reused(old(track), track, i, addr, data)
              else addr == unused && alive == old(alive) + {unused}
      ensures alive != old(alive) ==>
                Placed(old(track), track, Track(true, false, true, true, false, false, unused, data))
    {
      hide Valid;
      var i := 0;
      while i < |track|
        invariant i <= |track| && forall j :: 0 <= j < i ==> !Reusable(track[j], data)
      {
        if Reusable(track[i], data) {
          ghost var v := View();
          track := track[i := track[i].(inUse := true)];
          ReuseKeeps(v, i, data, View());
          ReuseAlive(v, i);
          assert track[i].inUse && track[i].data == data && v.track[i] in v.track;
          assert Reused(v.track, track, i, track[i].addr, data);
          return track[i].addr;
        }
        i := i + 1;
      }
      FreshMayTrack(View(), unused, data);
      Add(Track(true, false, true, true, false, false, unused, data));
      addr := unused;
    }

    /** What becomes of one slot; a block that is freed was in use until now. */
    method Resolve(t: Track) returns (w: Track)
      requires Frees(t) ==> t.addr in alive
      modifies this`alive, this`freed
      ensures w == Wrapped(t) && alive == old(alive) - (if Frees(t) then {t.addr} else {})
      ensures freed == old(freed) + (if FreesPage(t) then multiset{t.addr} else multiset{})
    {
      w := t;
      if !t.object_ || t.ovflValue || t.discard {
        return;
      }
      w := w.(justAdded := false);
      if t.inUse {
        w := w.(inUse := false);
        return;
      }
      alive := alive - {t.addr};
      if t.onPage {
        freed := freed + multiset{t.addr};
        w := w.(discard := true);
        return;
      }
      w := EMPTY;
    }

    /**
     The reconciliation succeeded: free what is no longer in use.  Each block freed is in use until
     then, so none is freed twice.
     */
    method Wrapup()
      requires Valid(View())
      modifies this
      ensures Valid(View()) && Quiet(View()) && before == alive && page == old(page)
      ensures AllWrapped(old(track), track) && alive == old(alive) - Freed(old(track), Frees)
      ensures forall t :: t in old(track) && Live(t) ==> (t.addr in alive <==> t.inUse)
      ensures forall t :: t in old(track) && t.object_ ==> KeptOnSuccess(t, track)
    {
      hide Valid, AllWrapped, Quiet, Freed, PageFreed, Wrapped, WrappedTo;
      ghost var v := View();
      var i := 0;
      WrappedNone(v);
      while i < |track|
        invariant i <= |track| == |v.track| && page == v.page && WrappedTo(v, i, track, alive, freed)
      {
        WrappedNext(v, i, track, alive, freed);
        var t := Resolve(track[i]);
        track := track[i := t];
        i := i + 1;
      }
      before := alive;
      WrappedAll(v, i, track, alive, freed);
      WrappedFrees(v, track, alive);
      WrappedKeeps(v, View());
    }

    /**
     The reconciliation failed: free what it wrote.  The blocks in use are those that were when it
     began.
     */
    method WrapupErr()
      requires Valid(View())
      modifies this
      ensures Valid(View()) && Quiet(View()) && alive == old(before) == before
      ensures page == old(page) && freed == old(freed)
      ensures AllFailed(old(track), track)
      ensures forall t :: t in old(track) && !t.justAdded ==> t.(inUse := false) in track
    {
      hide Valid, AllFailed, Quiet, Freed, FailedTo;
      ghost var v := View();
      var i := 0;
      FailedNone(v);
      while i < |track|
        invariant i <= |track| == |v.track| && page == v.page && before == v.before && freed == v.freed
        invariant FailedTo(v, i, track, alive)
      {
        var t := track[i];
        FailedNext(v, i, track, alive);
        if t.justAdded {
          if t.inUse {
            assert t.addr in alive;
            alive := alive - {t.addr};
          }
          t := EMPTY;
        } else {
          t := t.(inUse := false);
        }
        track := track[i := t];
        i := i + 1;
      }
      FailedAll(v, i, track, alive);
      FailedStay(v.track, track);
      FailedKeeps(v, View());
    }
  }

  lemma NotFresh(v: State, i: nat)
    requires Valid(v) && i < |v.track| && !v.track[i].object_
    ensures !Fresh(v.track[i])
  {
    assert GoodTrack(v.track[i]);
  }

  lemma ReuseAlive(v: State, i: nat)
    requires Valid(v) && i < |v.track| && Live(v.track[i])
    ensures v.track[i].addr in v.alive
  {
  }

  lemma FreshMayTrack(v: State, a: nat, data: seq<int>)
    requires Valid(v) && a !in v.alive && data != []
    ensures MayTrack(v, Track(true, false, true, true, false, false, a, data))
  {
  }

  /** What stays on the list: copies, what was discarded, what is in use, and what the page on disk names. */
  ghost predicate KeptOnSuccess(t: Track, s: seq<Track>) {
    if t.ovflValue || t.discard then t in s
    else if t.inUse then t.(justAdded := false, inUse := false) in s
    else t.onPage ==> t.(justAdded := false, discard := true) in s
  }

  lemma WrappedFrees(v: State, s: seq<Track>, alive: set<nat>)
    requires Valid(v) && AllWrapped(v.track, s) && alive == v.alive - Freed(v.track, Frees)
    ensures forall t :: t in v.track && Live(t) ==> (t.addr in alive <==> t.inUse)
    ensures forall t :: t in v.track && t.object_ ==> KeptOnSuccess(t, s)
  {
    forall t | t in v.track && t.object_
      ensures Live(t) ==> (t.addr in alive <==> t.inUse)
      ensures KeptOnSuccess(t, s)
    {
      var i :| 0 <= i < |v.track| && v.track[i] == t;
      assert s[i] == Wrapped(t) && s[i] in s;
      if Live(t) && t.inUse {
        forall j | 0 <= j < |v.track| && Frees(v.track[j]) ensures v.track[j].addr != t.addr {
          assert Apart(v.track[i], v.track[j]);
        }
      }
    }
  }

  lemma FailedStay(s: seq<Track>, s': seq<Track>)
    requires AllFailed(s, s')
    ensures forall t :: t in s && !t.justAdded ==> t.(inUse := false) in s'
  {
    forall t | t in s && !t.justAdded ensures t.(inUse := false) in s' {
      var i :| 0 <= i < |s| && s[i] == t;
      assert s'[i] in s';
    }
  }

  // ----- the walks over the list -----

  /** The first `i` slots are done: so are the list, the blocks in use and those freed then. */
  ghost predicate WrappedTo(v: State, i: nat, track: seq<Track>, alive: set<nat>, freed: multiset<nat>)
    requires i <= |v.track|
  {
    && |track| == |v.track|
    && (forall j :: 0 <= j < |track| ==> track[j] == if j < i then Wrapped(v.track[j]) else v.track[j])
    && alive == v.alive - Freed(v.track[..i], Frees) && freed == v.freed + PageFreed(v.track[..i])
  }

  lemma WrappedNone(v: State)
    ensures WrappedTo(v, 0, v.track, v.alive, v.freed)
  {
    assert v.track[..0] == [];
  }

  lemma WrappedNext(v: State, i: nat, track: seq<Track>, alive: set<nat>, freed: multiset<nat>)
    requires Valid(v) && i < |v.track| && WrappedTo(v, i, track, alive, freed)
    ensures Frees(track[i]) ==> track[i].addr in alive
    ensures WrappedTo(v, i + 1, track[i := Wrapped(track[i])],
                      alive - (if Frees(track[i]) then {track[i].addr} else {}),
                      freed + (if FreesPage(track[i]) then multiset{track[i].addr} else multiset{}))
  {
    hide Valid, Wrapped, Freed, PageFreed, Frees, FreesPage;
    FreedNext(v.track, i);
    if Frees(v.track[i]) { StillAlive(v, i); }
  }

  lemma WrappedAll(v: State, i: nat, track: seq<Track>, alive: set<nat>, freed: multiset<nat>)
    requires i == |v.track| && WrappedTo(v, i, track, alive, freed)
    ensures AllWrapped(v.track, track)
    ensures alive == v.alive - Freed(v.track, Frees) && freed == v.freed + PageFreed(v.track)
  {
    assert v.track[..i] == v.track;
  }

  ghost predicate FailedTo(v: State, i: nat, track: seq<Track>, alive: set<nat>)
    requires i <= |v.track|
  {
    && |track| == |v.track|
    && (forall j :: 0 <= j < |track| ==> track[j] == if j < i then Failed(v.track[j]) else v.track[j])
    && alive == v.alive - Freed(v.track[..i], Fresh)
  }

  lemma FailedNone(v: State)
    ensures FailedTo(v, 0, v.track, v.alive)
  {
    assert v.track[..0] == [];
  }

  lemma FailedNext(v: State, i: nat, track: seq<Track>, alive: set<nat>)
    requires Valid(v) && i < |v.track| && FailedTo(v, i, track, alive)
    ensures Fresh(track[i]) ==> track[i].addr in alive
    ensures FailedTo(v, i + 1, track[i := Failed(track[i])], if Fresh(track[i]) then alive - {track[i].addr} else alive)
  {
    hide Valid, Failed, Freed, PageFreed, Fresh;
    FreedNext(v.track, i);
    if Fresh(v.track[i]) { StillFresh(v, i); }
  }

  lemma FailedAll(v: State, i: nat, track: seq<Track>, alive: set<nat>)
    requires i == |v.track| && FailedTo(v, i, track, alive)
    ensures AllFailed(v.track, track) && alive == v.alive - Freed(v.track, Fresh)
  {
    assert v.track[..i] == v.track;
  }

  lemma FreedNext(s: seq<Track>, i: nat)
    requires i < |s|
    ensures Freed(s[..i + 1], Frees) == Freed(s[..i], Frees) + if Frees(s[i]) then {s[i].addr} else {}
    ensures Freed(s[..i + 1], Fresh) == Freed(s[..i], Fresh) + if Fresh(s[i]) then {s[i].addr} else {}
    ensures PageFreed(s[..i + 1]) == PageFreed(s[..i]) + if FreesPage(s[i]) then multiset{s[i].addr} else multiset{}
  {
    assert s[..i + 1][..i] == s[..i];
  }

  /** A block about to be freed was not freed earlier in the same walk. */
  lemma StillAlive(v: State, i: nat)
    requires Valid(v) && i < |v.track| && Frees(v.track[i])
    ensures v.track[i].addr in v.alive - Freed(v.track[..i], Frees)
  {
    forall j | 0 <= j < i && Frees(v.track[j]) ensures v.track[j].addr != v.track[i].addr {
      assert Apart(v.track[j], v.track[i]);
    }
  }

  lemma StillFresh(v: State, i: nat)
    requires Valid(v) && i < |v.track| && Fresh(v.track[i])
    ensures v.track[i].addr in v.alive - Freed(v.track[..i], Fresh)
  {
    assert GoodTrack(v.track[i]);
    forall j | 0 <= j < i && Fresh(v.track[j]) ensures v.track[j].addr != v.track[i].addr {
      assert GoodTrack(v.track[j]) && Apart(v.track[j], v.track[i]);
    }
  }
}
