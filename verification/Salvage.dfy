/**
 Column-store salvage: the leaf pages found in a damaged file cover ranges of record numbers that
 may overlap in any way; of overlapping pages the one written last is to own the records.
 */
module Salvage {

  type Recno = x: int | 0 <= x < 0x1_0000_0000_0000_0000

  /**
   A tracked range of a page.  `id` is the identity of the structure in memory; `missing` the first of
   the deleted records to be put before the range, 0 if there are none.
   */
  datatype Track = Track(id: nat, page: nat, gen: nat, start: Recno, stop: Recno, missing: Recno, merge: bool)

  datatype Slot = Null | Page(t: Track)

  ghost predicate Has(t: Track, r: int) {
    t.start <= r <= t.stop
  }

  // ----- the order of the page array -----

  /** By first record, of equal ones the newest first; empty slots last. */
  predicate Le(a: Slot, b: Slot) {
    match (a, b)
    case (_, Null) => true
    case (Null, Page(_)) => false
    case (Page(x), Page(y)) => x.start < y.start || (x.start == y.start && x.gen >= y.gen)
  }

  ghost predicate AllLe(s: seq<Slot>) {
    forall i, j {:trigger Le(s[i], s[j])} :: 0 <= i < j < |s| ==> Le(s[i], s[j])
  }

  /** In order, whatever empty slots lie between. */
  ghost predicate InOrder(a: Slot, b: Slot) {
    a.Page? && b.Page? ==> Le(a, b)
  }

  ghost predicate Sorted(s: seq<Slot>) {
    forall i, j {:trigger InOrder(s[i], s[j])} :: 0 <= i < j < |s| ==> InOrder(s[i], s[j])
  }

  ghost predicate OtherIds(a: Slot, b: Slot) {
    a.Page? && b.Page? ==> a.t.id != b.t.id
  }

  ghost predicate Distinct(s: seq<Slot>) {
    forall i, j {:trigger OtherIds(s[i], s[j])} :: 0 <= i < j < |s| ==> OtherIds(s[i], s[j])
  }

  ghost predicate Good(s: seq<Slot>) {
    forall k :: 0 <= k < |s| && s[k].Page? ==> 1 <= s[k].t.start <= s[k].t.stop && s[k].t.missing == 0
  }

  /** The records of all slots, counted once per page. */
  ghost function Total(s: seq<Slot>): (n: int) {
    if s == [] then 0 else
      Total(s[..|s| - 1]) + Weight(s[|s| - 1])
  }

  ghost function Weight(x: Slot): (n: int) {
    if x.Page? then x.t.stop - x.t.start + 1 else 0
  }

  lemma {:induction false} TotalConcat(a: seq<Slot>, b: seq<Slot>)
    ensures Total(a + b) == Total(a) + Total(b)
  {
    if b == [] {
      assert a + b == a;
    } else {
      TotalConcat(a, b[..|b| - 1]);
      assert (a + b)[..|a + b| - 1] == a + b[..|b| - 1];
    }
  }

  lemma TotalUpdate(s: seq<Slot>, k: nat, x: Slot)
    requires k < |s|
    ensures Total(s[k := x]) == Total(s) - Weight(s[k]) + Weight(x)
  {
    assert s == s[..k] + [s[k]] + s[k + 1..];
    assert s[k := x] == s[..k] + [x] + s[k + 1..];
    TotalSplit(s[..k], s[k], s[k + 1..]);
    TotalSplit(s[..k], x, s[k + 1..]);
  }

  lemma TotalSplit(a: seq<Slot>, x: Slot, b: seq<Slot>)
    ensures Total(a + [x] + b) == Total(a) + Weight(x) + Total(b)
  {
    TotalConcat(a + [x], b);
    TotalConcat(a, [x]);
    assert [x][..0] == [];
  }

  lemma {:induction false} TotalNonNegative(s: seq<Slot>)
    requires Good(s)
    ensures Total(s) >= 0
  {
    if s != [] {
      TotalNonNegative(s[..|s| - 1]);
    }
  }

  // ----- sorting -----

  /** The same slots in another order. */
  ghost predicate Reordered(s: seq<Slot>, t: seq<Slot>) {
    && multiset(s) == multiset(t) && Total(s) == Total(t)
    && (forall x :: x in s <==> x in t)
  }

  lemma {:induction false} DistinctReordered(s: seq<Slot>, t: seq<Slot>)
    requires multiset(s) == multiset(t) && Distinct(s)
    ensures Distinct(t)
  {
    forall i, j | 0 <= i < j < |t| && t[i].Page? && t[j].Page? ensures OtherIds(t[i], t[j]) {
      TwoPlaces(s, t, i, j);
    }
    assert forall i, j :: 0 <= i < j < |t| ==> OtherIds(t[i], t[j]);
  }

  /** Two places of one order are two places of the other. */
  lemma TwoPlaces(s: seq<Slot>, t: seq<Slot>, i: nat, j: nat)
    requires multiset(s) == multiset(t) && Distinct(s) && i < j < |t| && t[i].Page? && t[j].Page?
    ensures OtherIds(t[i], t[j])
  {
    assert t[i] in multiset(t) && t[j] in multiset(t);
    assert t[i] in multiset(s) && t[j] in multiset(s);
    var a :| 0 <= a < |s| && s[a] == t[i];
    var b :| 0 <= b < |s| && s[b] == t[j];
    if t[i] == t[j] {
      CountsTwice(t, i, j);
      CountsOnce(s, a);
    } else {
      assert OtherIds(s[if a < b then a else b], s[if a < b then b else a]);
    }
  }

  lemma CountsTwice(t: seq<Slot>, i: nat, j: nat)
    requires i < j < |t| && t[i] == t[j]
    ensures multiset(t)[t[i]] >= 2
  {
    assert t == t[..j] + t[j..];
    assert t[i] in multiset(t[..j]) && t[j] in multiset(t[j..]);
  }

  lemma CountsOnce(s: seq<Slot>, a: nat)
    requires Distinct(s) && a < |s| && s[a].Page?
    ensures multiset(s)[s[a]] == 1
  {
    assert s == s[..a] + [s[a]] + s[a + 1..];
    forall k | 0 <= k < |s| && k != a ensures s[k] != s[a] {
      assert OtherIds(s[if k < a then k else a], s[if k < a then a else k]);
    }
    assert s[a] !in s[..a] && s[a] !in s[a + 1..];
  }

  /** Sort slots; the library's sort, of which only the contract matters. */
  method Sort(s: seq<Slot>) returns (t: seq<Slot>)
    ensures |t| == |s| && AllLe(t) && Reordered(s, t)
  {
    t := [];
    var n := 0;
    while n < |s|
      invariant n <= |s| == |s| && |t| == n && AllLe(t) && Reordered(s[..n], t)
    {
      var k := 0;
      while k < n && Le(t[k], s[n])
        invariant k <= n && forall i :: 0 <= i < k ==> Le(t[i], s[n])
      {
        k := k + 1;
      }
      InsertSorted(t, k, s[n]);
      InsertReordered(s[..n], t, k, s[n]);
      assert s[..n + 1] == s[..n] + [s[n]];
      t := t[..k] + [s[n]] + t[k..];
      n := n + 1;
    }
    assert s[..n] == s;
  }

  lemma InsertSorted(t: seq<Slot>, k: nat, x: Slot)
    requires AllLe(t) && k <= |t| && (forall i :: 0 <= i < k ==> Le(t[i], x)) && (k < |t| ==> !Le(t[k], x))
    ensures AllLe(t[..k] + [x] + t[k..])
  {
    var r := t[..k] + [x] + t[k..];
    forall i, j | 0 <= i < j < |r| ensures Le(r[i], r[j]) {
      var i0, j0 := if i < k then i else i - 1, if j < k then j else j - 1;
      assert i != k ==> r[i] == t[i0];
      assert j != k ==> r[j] == t[j0];
      if i != k && j != k {
        assert Le(t[i0], t[j0]);
      } else if i == k {
        assert k < j0 ==> Le(t[k], t[j0]);
      }
    }
  }

  lemma InsertReordered(s: seq<Slot>, t: seq<Slot>, k: nat, x: Slot)
    requires Reordered(s, t) && k <= |t|
    ensures Reordered(s + [x], t[..k] + [x] + t[k..])
  {
    assert t == t[..k] + t[k..];
    TotalConcat(t[..k], t[k..]);
    TotalSplit(t[..k], x, t[k..]);
    TotalSplit(s, x, []);
    assert s + [x] + [] == s + [x];
  }

  /** Sorted, but for the slot at `k`, which may belong further back. */
  ghost predicate SortedBut(s: seq<Slot>, k: nat) {
    forall i, j {:trigger InOrder(s[i], s[j])} :: 0 <= i < j < |s| && i != k ==> InOrder(s[i], s[j])
  }

  /** Sorting from `k` up to a slot that starts past the page at `k` puts the array in order. */
  lemma ResortSorted(p: seq<Slot>, k: nat, e: nat, t: seq<Slot>)
    requires k < e <= |p| && p[k].Page? && p[k].t.start <= p[k].t.stop && SortedBut(p, k)
    requires e < |p| ==> p[e].Page? && p[e].t.start > p[k].t.stop
    requires |t| == e - k && AllLe(t) && forall x :: x in p[k..e] <==> x in t
    ensures Sorted(p[..k] + t + p[e..])
  {
    var q := p[..k] + t + p[e..];
    forall i, j | 0 <= i < j < |q| ensures InOrder(q[i], q[j]) {
      var i0, j0 := i, j;
      if k <= i < e { i0 := PlaceOf(p, k, e, t, i - k); }
      if k <= j < e { j0 := PlaceOf(p, k, e, t, j - k); }
      assert q[i] == p[i0] && q[j] == p[j0];
      if k <= i < e && k <= j < e {
        assert Le(t[i - k], t[j - k]);
      } else if i0 != k {
        assert InOrder(p[i0], p[j0]);
      } else if j > e {
        assert InOrder(p[e], p[j]);
      }
    }
  }

  lemma PlaceOf(p: seq<Slot>, k: nat, e: nat, t: seq<Slot>, i: nat) returns (n: nat)
    requires k <= e <= |p| && i < |t| && forall x :: x in p[k..e] <==> x in t
    ensures k <= n < e && p[n] == t[i]
  {
    assert t[i] in p[k..e];
    var m :| 0 <= m < e - k && p[k..e][m] == t[i];
    n := k + m;
  }

  lemma ResortReordered(p: seq<Slot>, k: nat, e: nat, t: seq<Slot>)
    requires k <= e <= |p| && Reordered(p[k..e], t)
    ensures Reordered(p, p[..k] + t + p[e..])
  {
    assert p == p[..k] + p[k..e] + p[e..];
    TotalConcat(p[..k] + p[k..e], p[e..]);
    TotalConcat(p[..k], p[k..e]);
    TotalConcat(p[..k] + t, p[e..]);
    TotalConcat(p[..k], t);
  }

  lemma GoodReordered(p: seq<Slot>, q: seq<Slot>)
    requires Good(p) && Reordered(p, q)
    ensures Good(q)
  {
    forall k | 0 <= k < |q| && q[k].Page? ensures 1 <= q[k].t.start <= q[k].t.stop && q[k].t.missing == 0 {
      assert q[k] in p;
    }
  }

  // ----- ownership -----

  /** A slot of `s` holds the record for the page and generation. */
  ghost predicate Claims(s: seq<Slot>, page: nat, gen: nat, r: int) {
    exists k :: 0 <= k < |s| && s[k].Page? && s[k].t.page == page && s[k].t.gen == gen && Has(s[k].t, r)
  }

  /** No page gains a record in going from `s` to `s'`. */
  ghost predicate NoGain(s: seq<Slot>, s': seq<Slot>) {
    forall page, gen, r :: Claims(s', page, gen, r) ==> Claims(s, page, gen, r)
  }

  ghost predicate ClaimsAtLeast(s: seq<Slot>, gen: nat, r: int) {
    exists page, gen' :: gen' >= gen && Claims(s, page, gen', r)
  }

  /** A page that loses a record loses it to one at least as new. */
  ghost predicate OnlyToNewer(s: seq<Slot>, s': seq<Slot>) {
    forall page, gen, r :: Claims(s, page, gen, r) ==> ClaimsAtLeast(s', gen, r)
  }

  lemma ClaimsReordered(p: seq<Slot>, q: seq<Slot>)
    requires Reordered(p, q)
    ensures NoGain(p, q) && OnlyToNewer(p, q)
  {
    forall page, gen, r ensures Claims(q, page, gen, r) <==> Claims(p, page, gen, r) {
      if Claims(q, page, gen, r) {
        var k :| 0 <= k < |q| && q[k].Page? && q[k].t.page == page && q[k].t.gen == gen && Has(q[k].t, r);
        assert q[k] in p;
      }
      if Claims(p, page, gen, r) {
        var k :| 0 <= k < |p| && p[k].Page? && p[k].t.page == page && p[k].t.gen == gen && Has(p[k].t, r);
        assert p[k] in q;
      }
    }
  }

  lemma NoGainTrans(a: seq<Slot>, b: seq<Slot>, c: seq<Slot>)
    requires NoGain(a, b) && NoGain(b, c)
    ensures NoGain(a, c)
  {
    hide Claims;
  }

  lemma OnlyToNewerTrans(a: seq<Slot>, b: seq<Slot>, c: seq<Slot>)
    requires OnlyToNewer(a, b) && OnlyToNewer(b, c)
    ensures OnlyToNewer(a, c)
  {
    hide Claims;
    forall page, gen, r | Claims(a, page, gen, r) ensures ClaimsAtLeast(c, gen, r) {
      var p1, g1 :| g1 >= gen && Claims(b, p1, g1, r);
      var p2, g2 :| g2 >= g1 && Claims(c, p2, g2, r);
    }
  }

  lemma ClaimsTrans(a: seq<Slot>, b: seq<Slot>, c: seq<Slot>)
    requires NoGain(a, b) && NoGain(b, c) && OnlyToNewer(a, b) && OnlyToNewer(b, c)
    ensures NoGain(a, c) && OnlyToNewer(a, c)
  {
    hide NoGain, OnlyToNewer;
    NoGainTrans(a, b, c);
    OnlyToNewerTrans(a, b, c);
  }

  /** What a slot keeps of a page: the same page, some of its records. */
  ghost predicate PartOf(x: Slot, t: Track) {
    x.Page? ==> x.t.page == t.page && x.t.gen == t.gen && t.start <= x.t.start && x.t.stop <= t.stop
  }

  /** Slot `k` gives up records that slot `w`, of a page at least as new, covers. */
  lemma LoseTo(s: seq<Slot>, k: nat, x: Slot, w: nat)
    requires k < |s| && w < |s| && k != w && s[k].Page? && s[w].Page? && PartOf(x, s[k].t)
    requires s[w].t.gen >= s[k].t.gen
    requires forall r :: Has(s[k].t, r) && !(x.Page? && Has(x.t, r)) ==> Has(s[w].t, r)
    ensures NoGain(s, s[k := x]) && OnlyToNewer(s, s[k := x])
  {
    var s' := s[k := x];
    forall page, gen, r | Claims(s', page, gen, r) ensures Claims(s, page, gen, r) {
      var i :| 0 <= i < |s'| && s'[i].Page? && s'[i].t.page == page && s'[i].t.gen == gen && Has(s'[i].t, r);
      assert s[i].Page? && s[i].t.page == page && s[i].t.gen == gen && Has(s[i].t, r);
    }
    forall page, gen, r | Claims(s, page, gen, r) ensures ClaimsAtLeast(s', gen, r) {
      var i :| 0 <= i < |s| && s[i].Page? && s[i].t.page == page && s[i].t.gen == gen && Has(s[i].t, r);
      var i' := if i == k && !(x.Page? && Has(x.t, r)) then w else i;
      assert Claims(s', s'[i'].t.page, s'[i'].t.gen, r);
    }
  }

  /** Slot `i` splits around slot `j`, whose page is at least as new: `x` before it, `y` after it. */
  lemma SplitTo(s: seq<Slot>, i: nat, x: Slot, y: Slot, j: nat)
    requires i < j < |s| && s[i].Page? && s[j].Page? && x.Page? && y.Page? && PartOf(x, s[i].t) && PartOf(y, s[i].t)
    requires s[j].t.gen >= s[i].t.gen
    requires forall r :: Has(s[i].t, r) && !Has(x.t, r) && !Has(y.t, r) ==> Has(s[j].t, r)
    ensures var s' := s[..i] + [x, y] + s[i + 1..]; NoGain(s, s') && OnlyToNewer(s, s')
  {
    var s' := s[..i] + [x, y] + s[i + 1..];
    forall page, gen, r | Claims(s', page, gen, r) ensures Claims(s, page, gen, r) {
      var k :| 0 <= k < |s'| && s'[k].Page? && s'[k].t.page == page && s'[k].t.gen == gen && Has(s'[k].t, r);
      var k0 := if k <= i then k else k - 1;
      assert s[k0].Page? && s[k0].t.page == page && s[k0].t.gen == gen && Has(s[k0].t, r);
    }
    forall page, gen, r | Claims(s, page, gen, r) ensures ClaimsAtLeast(s', gen, r) {
      var k :| 0 <= k < |s| && s[k].Page? && s[k].t.page == page && s[k].t.gen == gen && Has(s[k].t, r);
      var k' :=
        if k < i then k else if k > i then k + 1
        else if Has(x.t, r) then i else if Has(y.t, r) then i + 1 else j + 1;
      assert s'[k'] == if k' == i then x else if k' == i + 1 then y else s[if k' < i then k' else k' - 1];
      assert Claims(s', s'[k'].t.page, s'[k'].t.gen, r);
    }
  }

  // ----- one overlap -----

  ghost predicate Past(a: Slot, b: Slot) {
    a.Page? && b.Page? ==> a.t.stop < b.t.start
  }

  /** The slots before `i` overlap nothing behind them. */
  ghost predicate Settled(p: seq<Slot>, i: nat) {
    forall k, l {:trigger Past(p[k], p[l])} :: 0 <= k < l < |p| && k < i ==> Past(p[k], p[l])
  }

  /** Slot `i` overlaps none of the slots behind it and before `j`. */
  ghost predicate Reviewed(p: seq<Slot>, i: nat, j: nat) {
    i < |p| && forall l :: i < l < j && l < |p| ==> Past(p[i], p[l])
  }

  ghost predicate Tracked(p: seq<Slot>) {
    Good(p) && Sorted(p) && Distinct(p)
  }

  /** Where the scan is: slots before `i` are settled, and `i` is reviewed up to `j`. */
  ghost predicate At(p: seq<Slot>, i: nat, j: nat) {
    Tracked(p) && Settled(p, i) && Reviewed(p, i, j) && i < j && p[i].Page?
  }

  /** Resolving an overlap of `i` and `j` gets the scan further, and no page gets what a newer one had. */
  ghost predicate Resolved(p: seq<Slot>, q: seq<Slot>, i: nat, j: nat)
    requires j < |p| && p[j].Page?
  {
    && At(q, i, j) && NoGain(p, q) && OnlyToNewer(p, q) && Total(q) < Total(p) && |p| <= |q|
    && (q[j].Page? && q[j].t.id == p[j].t.id ==> Past(q[i], q[j]))
  }

  /** What lies at or behind `i` came from there. */
  ghost predicate Behind(p: seq<Slot>, q: seq<Slot>, i: nat) {
    && i <= |p| && i <= |q| && q[..i] == p[..i]
    && forall l :: i <= l < |q| && q[l].Page? ==> exists m :: i <= m < |p| && p[m].Page? && p[m].t.start <= q[l].t.start
  }

  lemma SettledKept(p: seq<Slot>, q: seq<Slot>, i: nat)
    requires Settled(p, i) && Behind(p, q, i)
    ensures Settled(q, i)
  {
    forall k, l | 0 <= k < l < |q| && k < i ensures Past(q[k], q[l]) {
      assert q[k] == q[..i][k] == p[..i][k] == p[k];
      if l < i {
        assert q[l] == q[..i][l] == p[..i][l] == p[l];
        assert Past(p[k], p[l]);
      } else if q[l].Page? {
        var m :| i <= m < |p| && p[m].Page? && p[m].t.start <= q[l].t.start;
        assert Past(p[k], p[m]);
      }
    }
  }

  /** An overlap at the scan's place: the page at `j` starts within the one at `i`. */
  ghost predicate Overlap(p: seq<Slot>, i: nat, j: nat) {
    At(p, i, j) && j < |p| && p[j].Page? && p[i].t.start <= p[j].t.start <= p[i].t.stop
  }

  lemma SameStartNewer(p: seq<Slot>, i: nat, j: nat)
    requires Overlap(p, i, j) && p[i].t.start == p[j].t.start
    ensures p[i].t.gen >= p[j].t.gen
  {
    assert InOrder(p[i], p[j]);
  }

  lemma DeleteResolves(p: seq<Slot>, i: nat, j: nat)
    requires Overlap(p, i, j) && p[j].t.stop <= p[i].t.stop && p[i].t.gen >= p[j].t.gen
    ensures Resolved(p, p[j := Null], i, j)
  {
    var q := p[j := Null];
    LoseTo(p, j, Null, i);
    TotalUpdate(p, j, Null);
    NullKeeps(p, j);
  }

  lemma NullKeeps(p: seq<Slot>, j: nat)
    requires j < |p|
    ensures Tracked(p) ==> Tracked(p[j := Null])
    ensures forall i :: Settled(p, i) ==> Settled(p[j := Null], i)
  {
    var q := p[j := Null];
    assert forall k :: 0 <= k < |q| ==> q[k] == Null || q[k] == p[k];
    if Tracked(p) {
      forall k, l | 0 <= k < l < |q| ensures InOrder(q[k], q[l]) && OtherIds(q[k], q[l]) {
        assert InOrder(p[k], p[l]) && OtherIds(p[k], p[l]);
      }
    }
    forall i | Settled(p, i) ensures Settled(q, i) {
      forall k, l | 0 <= k < l < |q| && k < i ensures Past(q[k], q[l]) {
        assert Past(p[k], p[l]);
      }
    }
  }

  /** Shortening the page at `i` from behind moves nothing. */
  lemma ShortenKeeps(p: seq<Slot>, i: nat, t: Track)
    requires i < |p| && p[i].Page? && t.start == p[i].t.start && t.gen == p[i].t.gen && t.id == p[i].t.id
    requires t.missing == 0
    requires t.start <= t.stop <= p[i].t.stop && Tracked(p) && Settled(p, i)
    ensures Tracked(p[i := Page(t)]) && Settled(p[i := Page(t)], i)
    ensures forall j :: Reviewed(p, i, j) ==> Reviewed(p[i := Page(t)], i, j)
  {
    var q := p[i := Page(t)];
    forall k, l | 0 <= k < l < |q| ensures InOrder(q[k], q[l]) && OtherIds(q[k], q[l]) {
      assert InOrder(p[k], p[l]) && OtherIds(p[k], p[l]);
    }
    forall k, l | 0 <= k < l < |q| && k < i ensures Past(q[k], q[l]) {
      assert Past(p[k], p[l]);
    }
  }

  lemma ShortenResolves(p: seq<Slot>, i: nat, j: nat, t: Track)
    requires Overlap(p, i, j) && p[i].t.start < p[j].t.start && p[i].t.stop <= p[j].t.stop && p[j].t.gen >= p[i].t.gen
    requires t == p[i].t.(stop := p[j].t.start - 1, merge := true)
    ensures Resolved(p, p[i := Page(t)], i, j)
  {
    LoseTo(p, i, Page(t), j);
    TotalUpdate(p, i, Page(t));
    ShortenKeeps(p, i, t);
  }

  /** The array after moving the page at `k` to its place: the slots before `k` have not moved. */
  ghost predicate Resorted(p: seq<Slot>, q: seq<Slot>, k: nat) {
    && k < |p| == |q| && q[..k] == p[..k] && Sorted(q) && Reordered(p, q)
    && (forall x :: x in q[k..] <==> x in p[k..])
  }

  lemma Came(p: seq<Slot>, q: seq<Slot>, k: nat, l: nat) returns (m: nat)
    requires Resorted(p, q, k) && k <= l < |q|
    ensures k <= m < |p| && p[m] == q[l]
  {
    assert q[l] == q[k..][l - k] && q[l] in q[k..];
    var n :| 0 <= n < |p| - k && p[k..][n] == q[l];
    m := k + n;
  }

  lemma ResortedReordered(p: seq<Slot>, q: seq<Slot>, k: nat)
    requires Resorted(p, q, k)
    ensures Reordered(p, q) && forall x :: x in p <==> x in q
  {
  }

  lemma ResortedTracked(p: seq<Slot>, q: seq<Slot>, k: nat)
    requires Resorted(p, q, k) && Good(p) && Distinct(p)
    ensures Tracked(q) && Total(q) == Total(p) && NoGain(p, q) && OnlyToNewer(p, q)
  {
    GoodReordered(p, q);
    DistinctReordered(p, q);
    ClaimsReordered(p, q);
  }

  // The page at `j` loses its first records and moves back.

  ghost function Trimmed(p: seq<Slot>, i: nat, j: nat): (r: seq<Slot>)
    requires i < j < |p| && p[i].Page? && p[j].Page? && p[i].t.stop < p[j].t.stop
  {
    p[j := Page(p[j].t.(start := p[i].t.stop + 1, merge := true))]
  }

  lemma TrimReady(p: seq<Slot>, i: nat, j: nat)
    requires Overlap(p, i, j) && p[i].t.stop < p[j].t.stop
    ensures var r := Trimmed(p, i, j); Good(r) && Distinct(r) && SortedBut(r, j)
  {
    var r := Trimmed(p, i, j);
    forall k, l | 0 <= k < l < |r| ensures OtherIds(r[k], r[l]) {
      assert OtherIds(p[k], p[l]);
    }
    forall k, l | 0 <= k < l < |r| && k != j ensures InOrder(r[k], r[l]) {
      assert InOrder(p[k], p[l]);
    }
  }

  lemma TrimResolves(p: seq<Slot>, i: nat, j: nat, q: seq<Slot>)
    requires Overlap(p, i, j) && p[i].t.stop < p[j].t.stop && p[i].t.gen >= p[j].t.gen
    requires Resorted(Trimmed(p, i, j), q, j)
    ensures Resolved(p, q, i, j)
  {
    var r := Trimmed(p, i, j);
    TrimReady(p, i, j);
    ResortedTracked(r, q, j);
    TotalUpdate(p, j, r[j]);
    LoseTo(p, j, r[j], i);
    ClaimsTrans(p, r, q);
    assert forall l :: 0 <= l < j ==> q[l] == q[..j][l] == r[..j][l] == p[l];
    assert Behind(p, q, i) by {
      assert q[..i] == q[..j][..i] == p[..i];
      forall l | i <= l < |q| && q[l].Page?
        ensures exists m :: i <= m < |p| && p[m].Page? && p[m].t.start <= q[l].t.start
      {
        if l >= j {
          var m := Came(r, q, j, l);
          assert p[m].Page? && p[m].t.start <= q[l].t.start;
        } else {
          assert p[l].Page?;
        }
      }
    }
    SettledKept(p, q, i);
    if q[j].Page? && q[j].t.id == p[j].t.id {
      var m := Came(r, q, j, j);
      assert m > j ==> OtherIds(r[j], r[m]);
    }
  }

  // The page at `i` splits around the one at `j`, which lies in its middle.

  ghost function Parted(p: seq<Slot>, i: nat, j: nat, id: nat): (r: seq<Slot>)
    requires i < j < |p| && p[i].Page? && p[j].Page? && p[i].t.start < p[j].t.start && p[j].t.stop < p[i].t.stop
  {
    var a, b := p[i].t, p[j].t;
    p[..i] + [Page(a.(stop := b.start - 1, merge := true)),
              Page(Track(id, a.page, a.gen, b.stop + 1, a.stop, 0, true))] + p[i + 1..]
  }

  ghost predicate IdsBelow(p: seq<Slot>, id: nat) {
    forall k :: 0 <= k < |p| && p[k].Page? ==> p[k].t.id < id
  }

  lemma PartReady(p: seq<Slot>, i: nat, j: nat, id: nat)
    requires Overlap(p, i, j) && p[i].t.start < p[j].t.start && p[j].t.stop < p[i].t.stop && IdsBelow(p, id)
    ensures var r := Parted(p, i, j, id); Good(r) && Distinct(r) && SortedBut(r, i + 1) && IdsBelow(r, id + 1)
  {
    var r := Parted(p, i, j, id);
    assert forall k :: 0 <= k < |r| && k != i && k != i + 1 ==> r[k] == p[if k < i then k else k - 1];
    forall k, l | 0 <= k < l < |r| ensures OtherIds(r[k], r[l]) && (k != i + 1 ==> InOrder(r[k], r[l])) {
      var k0, l0 := if k <= i then k else k - 1, if l <= i then l else l - 1;
      if k0 < l0 { assert OtherIds(p[k0], p[l0]) && InOrder(p[k0], p[l0]); }
    }
  }

  lemma PartBeyond(p: seq<Slot>, i: nat, j: nat, id: nat, m: nat)
    requires Overlap(p, i, j) && p[i].t.start < p[j].t.start && p[j].t.stop < p[i].t.stop
    requires i < m < |p| + 1
    ensures var r := Parted(p, i, j, id); Past(r[i], r[m]) && (r[m].Page? ==> p[i].t.start <= r[m].t.start)
  {
    var r := Parted(p, i, j, id);
    if m > i + 1 {
      assert r[m] == p[m - 1];
      if m - 1 < j {
        assert Past(p[i], p[m - 1]);
      } else if m - 1 > j {
        assert InOrder(p[j], p[m - 1]);
      }
      assert InOrder(p[i], p[m - 1]);
    }
  }

  lemma PartClaims(p: seq<Slot>, i: nat, j: nat, id: nat)
    requires Overlap(p, i, j) && p[i].t.start < p[j].t.start && p[j].t.stop < p[i].t.stop && p[j].t.gen >= p[i].t.gen
    ensures var r := Parted(p, i, j, id); NoGain(p, r) && OnlyToNewer(p, r) && Total(r) < Total(p)
  {
    var r := Parted(p, i, j, id);
    SplitTo(p, i, r[i], r[i + 1], j);
    assert r == p[..i] + [r[i], r[i + 1]] + p[i + 1..];
    assert r == (p[..i] + [r[i]]) + [r[i + 1]] + p[i + 1..] && p == p[..i] + [p[i]] + p[i + 1..];
    TotalSplit(p[..i] + [r[i]], r[i + 1], p[i + 1..]);
    TotalSplit(p[..i], r[i], []);
    assert p[..i] + [r[i]] + [] == p[..i] + [r[i]];
    TotalSplit(p[..i], p[i], p[i + 1..]);
  }

  lemma PartResolves(p: seq<Slot>, i: nat, j: nat, id: nat, q: seq<Slot>)
    requires Overlap(p, i, j) && p[i].t.start < p[j].t.start && p[j].t.stop < p[i].t.stop && p[j].t.gen >= p[i].t.gen
    requires IdsBelow(p, id) && Resorted(Parted(p, i, j, id), q, i + 1)
    ensures Resolved(p, q, i, j)
  {
    var r := Parted(p, i, j, id);
    PartReady(p, i, j, id);
    ResortedTracked(r, q, i + 1);
    PartClaims(p, i, j, id);
    ClaimsTrans(p, r, q);
    assert q[i] == q[..i + 1][i] == r[i];
    forall l | i < l < |q| ensures Past(q[i], q[l]) && (q[l].Page? ==> p[i].t.start <= q[l].t.start) {
      var m := Came(r, q, i + 1, l);
      PartBeyond(p, i, j, id, m);
    }
    assert q[..i] == q[..i + 1][..i] == p[..i];
    SettledKept(p, q, i);
  }

  lemma IdsReordered(p: seq<Slot>, q: seq<Slot>, id: nat)
    requires Reordered(p, q) && IdsBelow(p, id)
    ensures IdsBelow(q, id)
  {
    forall k | 0 <= k < |q| && q[k].Page? ensures q[k].t.id < id {
      assert q[k] in p;
    }
  }

  // ----- the result -----

  /** In order of record number, and no two pages overlap. */
  ghost predicate Disjoint(s: seq<Slot>) {
    forall i, j {:trigger Past(s[i], s[j])} :: 0 <= i < j < |s| ==> Past(s[i], s[j])
  }

  /** Of the pages that covered a record at first, one that no other is newer than has it now, alone. */
  ghost predicate NewestOwns(before: seq<Slot>, after: seq<Slot>) {
    && (forall k, r :: 0 <= k < |after| && after[k].Page? && Has(after[k].t, r) ==>
          Claims(before, after[k].t.page, after[k].t.gen, r) &&
          NoneNewer(before, r, after[k].t.gen))
    && (forall page, gen, r :: Claims(before, page, gen, r) ==> Owned(after, r))
    && (forall i, j, r ::
          0 <= i < |after| && 0 <= j < |after| && after[i].Page? && after[j].Page? &&
          Has(after[i].t, r) && Has(after[j].t, r) ==>
          i == j)
  }

  ghost predicate NoneNewer(s: seq<Slot>, r: int, gen: nat) {
    forall page: nat, gen': nat :: Claims(s, page, gen', r) ==> gen' <= gen
  }

  ghost predicate Owned(s: seq<Slot>, r: int) {
    exists k :: 0 <= k < |s| && s[k].Page? && Has(s[k].t, r)
  }

  lemma ClaimsOf(s: seq<Slot>, page: nat, gen: nat, r: int) returns (k: nat)
    requires Claims(s, page, gen, r)
    ensures k < |s| && s[k].Page? && s[k].t.page == page && s[k].t.gen == gen && Has(s[k].t, r)
  {
    k :| 0 <= k < |s| && s[k].Page? && s[k].t.page == page && s[k].t.gen == gen && Has(s[k].t, r);
  }

  lemma OneOwner(s: seq<Slot>, i: nat, j: nat, r: int)
    requires Disjoint(s) && i < |s| && j < |s| && s[i].Page? && s[j].Page? && Has(s[i].t, r) && Has(s[j].t, r)
    ensures i == j
  {
    assert i < j ==> Past(s[i], s[j]);
    assert j < i ==> Past(s[j], s[i]);
  }

  lemma NewestOwnsIs(before: seq<Slot>, after: seq<Slot>)
    requires Disjoint(after) && NoGain(before, after) && OnlyToNewer(before, after)
    ensures NewestOwns(before, after)
  {
    forall k, r | 0 <= k < |after| && after[k].Page? && Has(after[k].t, r)
      ensures Claims(before, after[k].t.page, after[k].t.gen, r)
      ensures NoneNewer(before, r, after[k].t.gen)
    {
      assert Claims(after, after[k].t.page, after[k].t.gen, r);
      forall page: nat, gen: nat | Claims(before, page, gen, r) ensures gen <= after[k].t.gen {
        NewestIs(before, after, page, gen, r, k);
      }
    }
    forall page: nat, gen: nat, r | Claims(before, page, gen, r) ensures Owned(after, r) {
      var page', gen' :| gen' >= gen && Claims(after, page', gen', r);
      var k := ClaimsOf(after, page', gen', r);
    }
    forall i, j, r | 0 <= i < |after| && 0 <= j < |after| && after[i].Page? && after[j].Page? &&
                     Has(after[i].t, r) && Has(after[j].t, r)
      ensures i == j
    {
      OneOwner(after, i, j, r);
    }
  }

  lemma NewestIs(before: seq<Slot>, after: seq<Slot>, page: nat, gen: nat, r: int, k: nat)
    requires Disjoint(after) && OnlyToNewer(before, after) && Claims(before, page, gen, r)
    requires k < |after| && after[k].Page? && Has(after[k].t, r)
    ensures gen <= after[k].t.gen
  {
    var page', gen' :| gen' >= gen && Claims(after, page', gen', r);
    var l := ClaimsOf(after, page', gen', r);
    OneOwner(after, k, l, r);
  }

  // ----- marks -----

  /** A part of a range, marked. */
  ghost predicate Narrowed(t: Track, t': Track) {
    && t' == t.(start := t'.start, stop := t'.stop, merge := true)
    && t.start <= t'.start && t'.stop <= t.stop && (t.start < t'.start || t'.stop < t.stop)
  }

  /** A slot as it was, or one marked: part of a page there was, or one made since. */
  ghost predicate Touched(p: seq<Slot>, id: nat, y: Slot) {
    y.Page? ==> y in p || (y.t.merge && (y.t.id >= id || exists x :: x in p && x.Page? && Narrowed(x.t, y.t)))
  }

  ghost predicate AllTouched(p: seq<Slot>, id: nat, q: seq<Slot>) {
    forall y :: y in q ==> Touched(p, id, y)
  }

  lemma TouchedReordered(p: seq<Slot>, id: nat, q: seq<Slot>, q': seq<Slot>)
    requires AllTouched(p, id, q) && Reordered(q, q')
    ensures AllTouched(p, id, q')
  {
  }

  lemma UpdateTouched(p: seq<Slot>, id: nat, k: nat, y: Slot)
    requires k < |p| && Touched(p, id, y)
    ensures AllTouched(p, id, p[k := y])
  {
    forall z | z in p[k := y] ensures Touched(p, id, z) {
      var l :| 0 <= l < |p| && p[k := y][l] == z;
    }
  }

  lemma NarrowTouched(p: seq<Slot>, id: nat, k: nat, t: Track)
    requires k < |p| && p[k].Page? && Narrowed(p[k].t, t)
    ensures Touched(p, id, Page(t)) && AllTouched(p, id, p[k := Page(t)])
  {
    assert p[k] in p;
    UpdateTouched(p, id, k, Page(t));
  }

  lemma PartTouched(p: seq<Slot>, i: nat, j: nat, id: nat)
    requires Overlap(p, i, j) && p[i].t.start < p[j].t.start && p[j].t.stop < p[i].t.stop
    ensures AllTouched(p, id, Parted(p, i, j, id))
  {
    var r := Parted(p, i, j, id);
    NarrowTouched(p, id, i, r[i].t);
    forall y | y in r ensures Touched(p, id, y) {
      var l :| 0 <= l < |r| && r[l] == y;
      assert l < i ==> y == p[l];
      assert l > i + 1 ==> y == p[l - 1];
    }
  }

  /** A page less than it was, or with deleted records before it. */
  ghost predicate Less(t: Track, t': Track) {
    && t' == t.(start := t'.start, stop := t'.stop, missing := t'.missing, merge := true)
    && t.start <= t'.start && t'.stop <= t.stop && (t.start < t'.start || t'.stop < t.stop || t'.missing != 0)
  }

  /** The mark is right: without it the page is as it was found, and with it, it is not. */
  ghost predicate Marked(p0: seq<Slot>, y: Slot) {
    y.Page? ==>
      && (!y.t.merge ==> y in p0)
      && (y.t.merge ==> forall x :: x in p0 && x.Page? && x.t.id == y.t.id ==> x.t.merge || Less(x.t, y.t))
  }

  ghost predicate AllMarked(p0: seq<Slot>, p: seq<Slot>) {
    forall y :: y in p ==> Marked(p0, y)
  }

  lemma SameId(p: seq<Slot>, x: Slot, y: Slot)
    requires Distinct(p) && x in p && y in p && x.Page? && y.Page? && x.t.id == y.t.id
    ensures x == y
  {
    var i :| 0 <= i < |p| && p[i] == x;
    var j :| 0 <= j < |p| && p[j] == y;
    assert i < j ==> OtherIds(p[i], p[j]);
    assert j < i ==> OtherIds(p[j], p[i]);
  }

  lemma FoundMarked(p0: seq<Slot>)
    requires Distinct(p0)
    ensures AllMarked(p0, p0)
  {
    forall y | y in p0 ensures Marked(p0, y) {
      forall x | x in p0 && x.Page? && y.Page? && x.t.id == y.t.id ensures x == y {
        SameId(p0, x, y);
      }
    }
  }

  lemma NarrowMarked(p0: seq<Slot>, x: Slot, y: Slot)
    requires Distinct(p0) && Good(p0) && x.Page? && y.Page? && Marked(p0, x) && x.t.missing == 0
    requires Less(x.t, y.t)
    ensures Marked(p0, y)
  {
    forall z | z in p0 && z.Page? && z.t.id == y.t.id ensures z.t.merge || Less(z.t, y.t) {
      if !x.t.merge {
        SameId(p0, x, z);
      }
    }
  }

  lemma IdsMore(p: seq<Slot>, id: nat, id': nat)
    requires IdsBelow(p, id) && id <= id'
    ensures IdsBelow(p, id')
  {
  }

  lemma MarkedStep(p0: seq<Slot>, p: seq<Slot>, id: nat, q: seq<Slot>)
    requires Distinct(p0) && Good(p0) && IdsBelow(p0, id) && Good(p) && AllMarked(p0, p) && AllTouched(p, id, q)
    ensures AllMarked(p0, q)
  {
    forall y | y in q ensures Marked(p0, y) {
      assert Touched(p, id, y);
      if y.Page? && y !in p && y.t.id < id {
        var x :| x in p && x.Page? && Narrowed(x.t, y.t);
        assert Marked(p0, x);
        NarrowMarked(p0, x, y);
      }
    }
  }

  lemma MarkedFrom(p0: seq<Slot>, p1: seq<Slot>, p: seq<Slot>)
    requires AllMarked(p1, p) && Reordered(p0, p1)
    ensures AllMarked(p0, p)
  {
    forall y | y in p ensures Marked(p0, y) {
      assert Marked(p1, y);
    }
  }

  lemma FilledMarked(p0: seq<Slot>, p: seq<Slot>, q: seq<Slot>)
    requires Distinct(p0) && Good(p0) && Good(p) && AllMarked(p0, p) && AllFilled(p, q)
    ensures AllMarked(p0, q)
  {
    forall y | y in q ensures Marked(p0, y) {
      var k :| 0 <= k < |q| && q[k] == y;
      assert p[k] in p && Marked(p0, p[k]);
      if y.Page? && y != p[k] {
        assert Filled(p[k].t, y.t);
        NarrowMarked(p0, p[k], y);
      }
    }
  }

  // ----- missing ranges -----

  /** The first record a page stands for, the deleted records put before it included. */
  function Left(t: Track): (r: int) {
    if t.missing != 0 then t.missing else t.start
  }

  /** The range is the same, with deleted records before it perhaps. */
  ghost predicate Filled(t: Track, t': Track) {
    t' == t.(missing := t'.missing, merge := t.merge || t'.missing != 0)
  }

  /** The first `n` slots stand for the records 1 to `r`, each following on the one before. */
  ghost predicate TilesTo(s: seq<Slot>, n: nat, r: int)
    requires n <= |s|
  {
    if n == 0 then r == 0
    else if s[n - 1] == Null then TilesTo(s, n - 1, r)
    else r == s[n - 1].t.stop && Left(s[n - 1].t) <= s[n - 1].t.start <= r && TilesTo(s, n - 1, Left(s[n - 1].t) - 1)
  }

  ghost predicate StandsFor(s: seq<Slot>, k: int, r: int) {
    0 <= k < |s| && s[k].Page? && Left(s[k].t) <= r <= s[k].t.stop
  }

  /** Every record up to the last is stood for by exactly one slot, and no other record is. */
  lemma {:induction false} TilesExactly(s: seq<Slot>, n: nat, r: int, x: int)
    requires n <= |s| && TilesTo(s, n, r)
    ensures r >= 0
    ensures 1 <= x <= r <==> exists k :: k < n && StandsFor(s, k, x)
    ensures forall i, j :: i < n && j < n && StandsFor(s, i, x) && StandsFor(s, j, x) ==> i == j
  {
    if n > 0 {
      if s[n - 1] == Null {
        TilesExactly(s, n - 1, r, x);
      } else {
        TilesExactly(s, n - 1, Left(s[n - 1].t) - 1, x);
        if Left(s[n - 1].t) <= x <= r {
          assert StandsFor(s, n - 1, x);
        } else if 1 <= x <= r {
          var k :| k < n - 1 && StandsFor(s, k, x);
          assert k < n;
        }
      }
    }
  }

  // ----- the salvage run -----

  ghost predicate AllFilled(p: seq<Slot>, q: seq<Slot>) {
    && |p| == |q|
    && forall k :: 0 <= k < |p| ==> p[k].Page? == q[k].Page? && (p[k].Page? ==> Filled(p[k].t, q[k].t))
  }

  lemma FilledClaims(p: seq<Slot>, q: seq<Slot>)
    requires AllFilled(p, q)
    ensures NoGain(p, q) && OnlyToNewer(p, q)
    ensures Disjoint(p) ==> Disjoint(q)
  {
    forall page: nat, gen: nat, r ensures Claims(q, page, gen, r) <==> Claims(p, page, gen, r) {
      if Claims(q, page, gen, r) {
        var k := ClaimsOf(q, page, gen, r);
        assert Filled(p[k].t, q[k].t);
      }
      if Claims(p, page, gen, r) {
        var k := ClaimsOf(p, page, gen, r);
        assert Filled(p[k].t, q[k].t);
      }
    }
    if Disjoint(p) {
      forall i, j | 0 <= i < j < |q| ensures Past(q[i], q[j]) {
        assert Past(p[i], p[j]);
      }
    }
  }

  class Stuff {
    var pages: seq<Slot>
    var nextId: nat

    /** A page's first records went elsewhere, so it may belong further back: sort it in. */
    method UpdateStart(slot: nat)
      requires slot < |pages| && pages[slot].Page? && SortedBut(pages, slot)
      requires pages[slot].t.start <= pages[slot].t.stop
      modifies this`pages
      ensures Resorted(old(pages), pages, slot)
    {
      var i := slot + 1;
      while i < |pages|
        invariant slot < i <= |pages|
      {
        if pages[i].Page? && pages[i].t.start > pages[slot].t.stop {
          break;
        }
        i := i + 1;
      }
      var t := Sort(pages[slot..i]);
      ResortSorted(pages, slot, i, t);
      ResortReordered(pages, slot, i, t);
      pages := pages[..slot] + t + pages[i..];
      assert pages[slot..] == t + old(pages)[i..] && old(pages)[slot..] == old(pages)[slot..i] + old(pages)[i..];
    }

    /** Two pages overlap: the newer keeps the common records. */
    method RangeOverlap(i: nat, j: nat)
      requires Overlap(pages, i, j) && IdsBelow(pages, nextId)
      modifies this
      ensures Resolved(old(pages), pages, i, j) && IdsBelow(pages, nextId)
      ensures AllTouched(old(pages), old(nextId), pages) && old(nextId) <= nextId
      ensures var a, b := old(pages)[i], old(pages)[j];
        if a.t.start == b.t.start || a.t.gen > b.t.gen then a in pages else b in pages
    {
      var a, b := pages[i].t, pages[j].t;
      if a.start == b.start {
        SameStartNewer(pages, i, j);
        if a.stop >= b.stop {
          Delete(i, j);
        } else {
          Trim(i, j);
        }
      } else if a.stop == b.stop {
        if a.gen > b.gen {
          Delete(i, j);
        } else {
          Shorten(i, j);
        }
      } else if a.stop < b.stop {
        if a.gen > b.gen {
          Trim(i, j);
        } else {
          Shorten(i, j);
        }
      } else if a.gen > b.gen {
        Delete(i, j);
      } else {
        Part(i, j);
      }
    }

    method Delete(i: nat, j: nat)
      requires Overlap(pages, i, j) && IdsBelow(pages, nextId)
      requires pages[j].t.stop <= pages[i].t.stop && pages[i].t.gen >= pages[j].t.gen
      modifies this
      ensures Resolved(old(pages), pages, i, j) && IdsBelow(pages, nextId)
      ensures AllTouched(old(pages), old(nextId), pages) && old(nextId) <= nextId
      ensures old(pages)[i] in pages
    {
      DeleteResolves(pages, i, j);
      UpdateTouched(pages, nextId, j, Null);
      pages := pages[j := Null];
      assert pages[i] == old(pages)[i];
    }

    method Shorten(i: nat, j: nat)
      requires Overlap(pages, i, j) && IdsBelow(pages, nextId)
      requires pages[i].t.start < pages[j].t.start && pages[i].t.stop <= pages[j].t.stop
      requires pages[j].t.gen >= pages[i].t.gen
      modifies this
      ensures Resolved(old(pages), pages, i, j) && IdsBelow(pages, nextId)
      ensures AllTouched(old(pages), old(nextId), pages) && old(nextId) <= nextId
      ensures old(pages)[j] in pages
    {
      var t := pages[i].t.(stop := pages[j].t.start - 1, merge := true);
      ShortenResolves(pages, i, j, t);
      NarrowTouched(pages, nextId, i, t);
      pages := pages[i := Page(t)];
      assert pages[j] == old(pages)[j];
    }

    method Trim(i: nat, j: nat)
      requires Overlap(pages, i, j) && IdsBelow(pages, nextId)
      requires pages[i].t.stop < pages[j].t.stop && pages[i].t.gen >= pages[j].t.gen
      modifies this
      ensures Resolved(old(pages), pages, i, j) && IdsBelow(pages, nextId)
      ensures AllTouched(old(pages), old(nextId), pages) && old(nextId) <= nextId
      ensures old(pages)[i] in pages
    {
      hide Good, Sorted, Distinct, SortedBut, Resorted, Resolved, Reordered;
      TrimReady(pages, i, j);
      NarrowTouched(pages, nextId, j, pages[j].t.(start := pages[i].t.stop + 1, merge := true));
      pages := pages[j := Page(pages[j].t.(start := pages[i].t.stop + 1, merge := true))];
      ghost var r := pages;
      assert r[i] == old(pages)[i] && r[i] in r;
      UpdateStart(j);
      TrimResolves(old(pages), i, j, pages);
      ResortedReordered(r, pages, j);
      IdsReordered(r, pages, nextId);
      TouchedReordered(old(pages), nextId, r, pages);
    }

    method Part(i: nat, j: nat)
      requires Overlap(pages, i, j) && IdsBelow(pages, nextId)
      requires pages[i].t.start < pages[j].t.start && pages[j].t.stop < pages[i].t.stop
      requires pages[j].t.gen >= pages[i].t.gen
      modifies this
      ensures Resolved(old(pages), pages, i, j) && IdsBelow(pages, nextId)
      ensures AllTouched(old(pages), old(nextId), pages) && old(nextId) <= nextId
      ensures old(pages)[j] in pages
    {
      hide Good, Sorted, Distinct, SortedBut, IdsBelow, Resorted, Resolved, Reordered;
      var a, b := pages[i].t, pages[j].t;
      var new_ := Track(nextId, a.page, a.gen, b.stop + 1, a.stop, 0, true);
      PartReady(pages, i, j, nextId);
      PartTouched(pages, i, j, nextId);
      pages := pages[..i] + [Page(a.(stop := b.start - 1, merge := true)), Page(new_)] + pages[i + 1..];
      nextId := nextId + 1;
      ghost var r := pages;
      assert r == Parted(old(pages), i, j, old(nextId)) && r[j + 1] == old(pages)[j] && r[j + 1] in r;
      UpdateStart(i + 1);
      PartResolves(old(pages), i, j, old(nextId), pages);
      ResortedReordered(r, pages, i + 1);
      IdsReordered(r, pages, nextId);
      TouchedReordered(old(pages), old(nextId), r, pages);
    }

    /**
     Resolve all overlaps.  From any sorted array of pages the result is disjoint, and each record
     belongs to the newest of the pages that had it.  A page is marked if and only if it lost records.
     */
    method ColRange()
      requires Tracked(pages) && IdsBelow(pages, nextId)
      modifies this
      ensures AllMarked(old(pages), pages)
      ensures Tracked(pages) && Disjoint(pages) && NewestOwns(old(pages), pages)
      ensures NoGain(old(pages), pages) && OnlyToNewer(old(pages), pages)
    {
      ghost var p0 := pages;
      var i := 0;
      NoChange(pages);
      FoundMarked(pages);
      while i < |pages|
        invariant i <= |pages| && Tracked(pages) && IdsBelow(pages, nextId) && Settled(pages, i)
        invariant AllMarked(p0, pages) && old(nextId) <= nextId
        invariant NoGain(p0, pages) && OnlyToNewer(p0, pages)
        decreases Total(pages), |pages| - i
      {
        TotalNonNegative(pages);
        if pages[i] == Null {
          SettleNull(pages, i);
          i := i + 1;
          continue;
        }
        ScanFrom(i, p0);
        i := i + 1;
      }
      assert Disjoint(pages);
      NewestOwnsIs(p0, pages);
    }

    /**
     Salvage of the pages found, in any order: each record of a page is kept, by the newest of the
     pages that had it and by no other, and the ranges kept with the deleted records put between them
     make up the records from 1 to the last without gap or overlap.  A page that is not marked is as it
     was found, and one that was found unmarked and is marked lost records or has deleted ones before it.
     */
    method Resolve() returns (last: Recno)
      requires Good(pages) && Distinct(pages) && IdsBelow(pages, nextId)
      modifies this
      ensures NewestOwns(old(pages), pages) && TilesTo(pages, |pages|, last)
      ensures AllMarked(old(pages), pages)
    {
      hide Good, Sorted, Distinct, AllLe, Reordered, NoGain, OnlyToNewer, NewestOwns, Disjoint, TilesTo;
      hide AllFilled, IdsBelow;
      ghost var p0 := pages;
      pages := Sort(pages);
      GoodReordered(p0, pages);
      DistinctReordered(p0, pages);
      IdsReordered(p0, pages, nextId);
      ClaimsReordered(p0, pages);
      AllLeSorted(pages);
      ghost var p1 := pages;
      ColRange();
      ghost var p2 := pages;
      last := RangeMissing();
      FilledClaims(p2, pages);
      FilledMarked(p1, p2, pages);
      MarkedFrom(p0, p1, pages);
      ClaimsTrans(p0, p1, p2);
      ClaimsTrans(p0, p2, pages);
      NewestOwnsIs(p0, pages);
    }

    /** Review the pages behind slot `i` until one starts after it ends. */
    method ScanFrom(i: nat, ghost p0: seq<Slot>)
      requires i < |pages| && pages[i].Page? && Tracked(pages) && IdsBelow(pages, nextId) && Settled(pages, i)
      requires NoGain(p0, pages) && OnlyToNewer(p0, pages)
      requires Good(p0) && Distinct(p0) && IdsBelow(p0, nextId) && AllMarked(p0, pages)
      modifies this
      ensures AllMarked(p0, pages) && old(nextId) <= nextId
      ensures i < |pages| && Tracked(pages) && IdsBelow(pages, nextId) && Settled(pages, i + 1)
      ensures NoGain(p0, pages) && OnlyToNewer(p0, pages)
      ensures Total(pages) < old(Total(pages)) || pages == old(pages)
    {
      hide Settled, NoGain, OnlyToNewer, IdsBelow, Total, Sorted, Distinct;
      var j: nat := i + 1;
      while j < |pages|
        invariant At(pages, i, j) && j <= |pages| && IdsBelow(pages, nextId)
        invariant NoGain(p0, pages) && OnlyToNewer(p0, pages)
        invariant AllMarked(p0, pages) && old(nextId) <= nextId
        invariant Total(pages) < old(Total(pages)) || pages == old(pages)
        decreases Total(pages), |pages| - j
      {
        TotalNonNegative(pages);
        if pages[j] == Null {
          j := j + 1;
          continue;
        }
        if pages[j].t.start > pages[i].t.stop {
          break;
        }
        ghost var p := pages;
        AtOverlap(pages, i, j);
        var id := pages[j].t.id;
        ghost var next := nextId;
        RangeOverlap(i, j);
        IdsMore(p0, old(nextId), next);
        MarkedStep(p0, p, next, pages);
        ClaimsTrans(p0, p, pages);
        // a slot that now holds another page is reviewed again
        if !(pages[j].Page? && pages[j].t.id != id) {
          j := j + 1;
        }
        TotalNonNegative(pages);
      }
      SettleNext(pages, i, j);
    }

    /** Mark the gaps between pages, to be filled with deleted records. */
    method RangeMissing() returns (r: Recno)
      requires Good(pages) && Disjoint(pages)
      modifies this`pages
      ensures TilesTo(pages, |pages|, r) && AllFilled(old(pages), pages)
    {
      var i := 0;
      r := 0;
      while i < |pages|
        invariant i <= |pages| == |old(pages)|
        invariant forall k :: i <= k < |pages| ==> pages[k] == old(pages)[k]
        invariant forall k :: i <= k < |pages| && pages[k].Page? ==> r < pages[k].t.start
        invariant AllFilled(old(pages), pages)
        invariant TilesTo(pages, i, r)
      {
        if pages[i].Page? {
          forall k | i < k < |pages| && pages[k].Page? ensures pages[i].t.stop < pages[k].t.start {
            assert Past(old(pages)[i], old(pages)[k]);
          }
          ghost var p := pages;
          if pages[i].t.start != r + 1 {
            pages := pages[i := Page(pages[i].t.(missing := r + 1, merge := true))];
          }
          TilesSame(p, pages, i, r);
          r := pages[i].t.stop;
        }
        i := i + 1;
      }
    }
  }

  lemma AllLeSorted(p: seq<Slot>)
    requires AllLe(p)
    ensures Sorted(p)
  {
    forall i, j | 0 <= i < j < |p| ensures InOrder(p[i], p[j]) {
      assert Le(p[i], p[j]);
    }
  }

  lemma NoChange(p: seq<Slot>)
    ensures NoGain(p, p) && OnlyToNewer(p, p)
  {
    forall page, gen, r | Claims(p, page, gen, r) ensures ClaimsAtLeast(p, gen, r) {
    }
  }

  lemma SettleNull(p: seq<Slot>, i: nat)
    requires i < |p| && p[i] == Null && Settled(p, i)
    ensures Settled(p, i + 1)
  {
  }

  lemma AtOverlap(p: seq<Slot>, i: nat, j: nat)
    requires At(p, i, j) && j < |p| && p[j].Page? && p[j].t.start <= p[i].t.stop
    ensures Overlap(p, i, j)
  {
    assert InOrder(p[i], p[j]);
  }

  lemma SettleNext(p: seq<Slot>, i: nat, j: nat)
    requires At(p, i, j) && j <= |p| && (j < |p| ==> p[j].Page? && p[j].t.start > p[i].t.stop)
    ensures Settled(p, i + 1)
  {
    forall k, l | 0 <= k < l < |p| && k < i + 1 ensures Past(p[k], p[l]) {
      if k == i && l > j { assert InOrder(p[j], p[l]); }
    }
  }

  lemma {:induction false} TilesSame(p: seq<Slot>, q: seq<Slot>, n: nat, r: int)
    requires n <= |p| == |q| && (forall k :: 0 <= k < n ==> p[k] == q[k]) && TilesTo(p, n, r)
    ensures TilesTo(q, n, r)
  {
    if n > 0 {
      if p[n - 1] == Null {
        TilesSame(p, q, n - 1, r);
      } else {
        TilesSame(p, q, n - 1, Left(p[n - 1].t) - 1);
      }
    }
  }
}
