/**
 Merging internal pages created by splits into their parent.  Keys are given by their place in the
 collation order.
 */
module Merges {
  import opened Basics

  /** What a reference of an internal page leads to: a page, none any more, or a page created by a split. */
  datatype Child = Page(id: nat) | Gone | Split(node: Node)

  datatype Node = Node(refs: seq<Entry>)

  datatype Entry = Entry(key: int, child: Child)

  /** A reference of the page written. */
  datatype Ref = Ref(key: int, id: nat)

  datatype Found = Lost | At(id: nat)

  // ----- searching -----

  /**
   The page a search gets to, down the tree, from the first `n` references of a page: by the last of
   them whose key is not greater, or by the first.
   */
  ghost function Route(node: Node, n: nat, k: int): (f: Found)
    requires n <= |node.refs|
    decreases node, n
  {
    if n == 0 then Lost
    else if n == 1 || node.refs[n - 1].key <= k then
      match node.refs[n - 1].child
      case Page(id) => At(id)
      case Gone => Lost
      case Split(sub) => Route(sub, |sub.refs|, k)
    else Route(node, n - 1, k)
  }

  /** The same on the one page written. */
  ghost function FlatRoute(out: seq<Ref>, k: int): (f: Found) {
    if out == [] then Lost
    else
      var n := |out| - 1;
      if n == 0 || out[n].key <= k then At(out[n].id) else FlatRoute(out[..n], k)
  }

  lemma RouteSnoc(out: seq<Ref>, r: Ref, k: int)
    ensures FlatRoute(out + [r], k) == if out == [] || r.key <= k then At(r.id) else FlatRoute(out, k)
  {
    assert (out + [r])[..|out|] == out;
  }

  ghost predicate Ascending(keys: seq<int>) {
    forall i, j {:trigger keys[i], keys[j]} :: 1 <= i < j < |keys| ==> keys[i] < keys[j]
  }

  /**
   The binary search of an internal page: the first key counts as less than any other.  The result of
   the last comparison on the page above is still there when it starts.
   */
  method SearchPage(keys: seq<int>, k: int, cmp0: int) returns (slot: nat, cmp: int)
    requires keys != [] && Ascending(keys)
    ensures Chosen(keys, k, slot)
  {
    var base: nat, limit: nat, ref: nat := 0, |keys|, 0;
    cmp := cmp0;
    while limit != 0
      invariant base + limit <= |keys| && ref < |keys|
      invariant base == 0 ==> limit > 0
      invariant base > 1 ==> keys[base - 1] < k
      invariant forall j :: base + limit <= j < |keys| && j > 0 ==> k < keys[j]
      invariant base == 1 && cmp == 0 ==> ref == 0 && |keys| == 1
      invariant base > 1 ==> cmp != 0
      invariant limit < |keys| && |keys| > 1 ==> cmp != 0
    {
      var indx := base + limit / 2;
      ref := indx;
      if indx != 0 {
        cmp := if k < keys[indx] then -1 else if k == keys[indx] then 0 else 1;
        if cmp == 0 {
          break;
        }
        if cmp < 0 {
          limit := limit / 2;
          continue;
        }
      }
      base := indx + 1;
      limit := limit - 1;
      limit := limit / 2;
    }
    slot := if cmp != 0 then base - 1 else ref;
  }

  // ----- the order of a tree -----

  /** The keys a reference stands for: those from its own, or from `lo` if it is the first, to the next. */
  ghost function Lo(node: Node, i: nat, lo: int): (x: int)
    requires i < |node.refs|
  {
    if i == 0 then lo else node.refs[i].key
  }

  ghost function Hi(node: Node, i: nat, hi: int): (x: int)
    requires i < |node.refs|
  {
    if i + 1 < |node.refs| then node.refs[i + 1].key else hi
  }

  /** Keys ascend, the first aside, and those of a page below are between the keys it stands for. */
  ghost predicate Ordered(node: Node, lo: int, hi: int)
    decreases node
  {
    && node.refs != [] && lo < hi
    && (forall i :: 0 <= i < |node.refs| ==> Lo(node, i, lo) < Hi(node, i, hi))
    && (forall i :: 0 <= i < |node.refs| && node.refs[i].child.Split? ==>
          Ordered(node.refs[i].child.node, Lo(node, i, lo), Hi(node, i, hi)))
  }

  // ----- merging -----

  /** What is written so far, and the key to be given to the next reference of a page merged. */
  datatype State = State(out: seq<Ref>, merge: Option<int>)

  /** The first `n` references of a page written, or of one merged into it. */
  ghost function Merged(node: Node, n: nat, top: bool, s: State): (s': State)
    requires n <= |node.refs|
    decreases node, n
  {
    if n == 0 then s
    else
      var t := Merged(node, n - 1, top, s);
      var e := node.refs[n - 1];
      match e.child
      case Gone => t
      case Page(id) =>
        if top then State(t.out + [Ref(e.key, id)], t.merge)
        else State(t.out + [Ref(if t.merge == None then e.key else t.merge.value, id)], None)
      case Split(sub) =>
        Merged(sub, |sub.refs|, false, State(t.out, if top || t.merge == None then Some(e.key) else t.merge))
  }

  /** The pages below the first `n` references of a page, from left to right. */
  ghost function Leaves(node: Node, n: nat): (ids: seq<nat>)
    requires n <= |node.refs|
    decreases node, n
  {
    if n == 0 then []
    else
      Leaves(node, n - 1) +
      match node.refs[n - 1].child
      case Gone => []
      case Page(id) => [id]
      case Split(sub) => Leaves(sub, |sub.refs|)
  }

  ghost function Ids(out: seq<Ref>): (ids: seq<nat>) {
    seq(|out|, i requires 0 <= i < |out| => out[i].id)
  }

  lemma IdsSnoc(out: seq<Ref>, r: Ref)
    ensures Ids(out + [r]) == Ids(out) + [r.id] && out <= out + [r]
  {
  }

  /** What is written are the references to these pages. */
  lemma {:induction false} MergedLeaves(node: Node, n: nat, top: bool, s: State)
    requires n <= |node.refs|
    ensures var t := Merged(node, n, top, s); s.out <= t.out && Ids(t.out) == Ids(s.out) + Leaves(node, n)
    decreases node, n
  {
    hide Ids;
    if n > 0 {
      MergedLeaves(node, n - 1, top, s);
      var t, e := Merged(node, n - 1, top, s), node.refs[n - 1];
      match e.child
      case Gone =>
      case Page(id) => IdsSnoc(t.out, Merged(node, n, top, s).out[|t.out|]);
      case Split(sub) =>
        MergedLeaves(sub, |sub.refs|, false, State(t.out, if top || t.merge == None then Some(e.key) else t.merge));
    }
  }

  /** The key to be given stays until a reference is written, which gets it. */
  lemma {:induction false} MergedFirst(node: Node, n: nat, s: State)
    requires n <= |node.refs| && s.merge.Some?
    ensures var t := Merged(node, n, false, s);
      s.out <= t.out && if t.out == s.out then t.merge == s.merge else t.out[|s.out|].key == s.merge.value
    decreases node, n
  {
    if n > 0 {
      MergedFirst(node, n - 1, s);
      var t, e := Merged(node, n - 1, false, s), node.refs[n - 1];
      if e.child.Split? {
        var sub := e.child.node;
        MergedFirst(sub, |sub.refs|, State(t.out, if t.merge == None then Some(e.key) else t.merge));
      }
    }
  }

  /** The first page below each reference of the page that is written has the key of that reference. */
  ghost predicate FirstKeys(node: Node, n: nat, before: nat, out: seq<Ref>)
    requires n <= |node.refs|
  {
    forall i :: 0 <= i < n ==> FirstKey(node, i, before, out)
  }

  ghost predicate FirstKey(node: Node, i: nat, before: nat, out: seq<Ref>)
    requires i < |node.refs|
  {
    var k := before + |Leaves(node, i)|;
    |Leaves(node, i + 1)| > |Leaves(node, i)| ==> k < |out| && out[k].key == node.refs[i].key
  }

  lemma {:induction false} MergedFirstKeys(node: Node, n: nat, s: State)
    requires n <= |node.refs|
    ensures FirstKeys(node, n, |s.out|, Merged(node, n, true, s).out)
  {
    if n > 0 {
      var t, u, e := Merged(node, n - 1, true, s), Merged(node, n, true, s), node.refs[n - 1];
      MergedFirstKeys(node, n - 1, s);
      MergedLeaves(node, n - 1, true, s);
      MergedLeaves(node, n, true, s);
      assert |t.out| == |Ids(t.out)| && |u.out| == |Ids(u.out)| && |s.out| == |Ids(s.out)|;
      if e.child.Split? {
        MergedFirst(e.child.node, |e.child.node.refs|, State(t.out, Some(e.key)));
      }
      assert FirstKey(node, n - 1, |s.out|, u.out);
      hide Merged, Leaves, Ids;
      forall i | 0 <= i < n ensures FirstKey(node, i, |s.out|, u.out) {
        if i < n - 1 {
          assert FirstKey(node, i, |s.out|, t.out) && t.out <= u.out;
        }
      }
    }
  }

  class Merge {
    var out: seq<Ref>
    var mergeRef: Option<int>

    ghost function View(): (s: State)
      reads this
    {
      State(out, mergeRef)
    }

    /**
     Write the references of an internal page, those of split-created pages below it in their place, and
     none for a page that is gone: on an empty page, with keys in order and every search led where it was.
     */
    method RowInt(node: Node)
      modifies this
      ensures View() == Merged(node, |node.refs|, true, old(View()))
      ensures old(out) <= out && Ids(out) == Ids(old(out)) + Leaves(node, |node.refs|)
      ensures FirstKeys(node, |node.refs|, |old(out)|, out)
      ensures old(out) == [] ==>
        forall lo, hi :: Ordered(node, lo, hi) ==> InOrder(out) && KeepsRoutes(node, lo, hi, out)
    {
      MergedLeaves(node, |node.refs|, true, View());
      MergedFirstKeys(node, |node.refs|, View());
      if out == [] {
        forall lo, hi | Ordered(node, lo, hi)
          ensures var page := Merged(node, |node.refs|, true, View()).out;
            InOrder(page) && KeepsRoutes(node, lo, hi, page)
        {
          MergeKeepsRoutes(node, lo, hi, mergeRef);
        }
      }
      var i := 0;
      while i < |node.refs|
        invariant i <= |node.refs| && View() == Merged(node, i, true, old(View()))
      {
        var e := node.refs[i];
        match e.child {
          case Gone =>
          case Page(id) => out := out + [Ref(e.key, id)];
          case Split(sub) =>
            mergeRef := Some(e.key);
            RowMerge(sub);
        }
        i := i + 1;
      }
    }

    /** The references of a page merged: the first one written gets the key saved above. */
    method RowMerge(node: Node)
      modifies this
      ensures View() == Merged(node, |node.refs|, false, old(View()))
      ensures old(out) <= out && Ids(out) == Ids(old(out)) + Leaves(node, |node.refs|)
      ensures old(mergeRef).Some? && out != old(out) ==> out[|old(out)|].key == old(mergeRef).value
      decreases node
    {
      MergedLeaves(node, |node.refs|, false, View());
      if mergeRef.Some? {
        MergedFirst(node, |node.refs|, View());
      }
      var i := 0;
      while i < |node.refs|
        invariant i <= |node.refs| && View() == Merged(node, i, false, old(View()))
      {
        var e := node.refs[i];
        match e.child {
          case Gone =>
          case Page(id) =>
            var key := if mergeRef == None then e.key else mergeRef.value;
            mergeRef := None;
            out := out + [Ref(key, id)];
          case Split(sub) =>
            if mergeRef == None {
              mergeRef := Some(e.key);
            }
            RowMerge(sub);
        }
        i := i + 1;
      }
    }
  }

  // ----- what merging does to searches -----

  ghost predicate Later(m: Option<int>, k: int) {
    m == None || m.value > k
  }

  /** The keys up to which the first `n` references of a page go. */
  ghost function Bound(node: Node, n: nat, lo: int, hi: int): (x: int)
    requires n <= |node.refs|
  {
    if n == 0 then lo else Hi(node, n - 1, hi)
  }

  /** All keys are less, that of the first reference aside. */
  ghost predicate Below(out: seq<Ref>, x: int) {
    forall i :: 1 <= i < |out| ==> out[i].key < x
  }

  ghost predicate InOrder(out: seq<Ref>) {
    forall i, j {:trigger out[i], out[j]} :: 1 <= i < j < |out| ==> out[i].key < out[j].key
  }

  /** A state in which a page for the keys from `lo` on may be merged. */
  ghost predicate Entering(s: State, lo: int) {
    && s.merge.Some? && (s.out == [] || s.merge.value <= lo)
    && InOrder(s.out) && Below(s.out, lo) && Below(s.out, s.merge.value)
  }

  ghost predicate Between(s: State, top: bool, b: int) {
    && InOrder(s.out) && Below(s.out, b)
    && (!top && s.merge.Some? ==> (s.out == [] || s.merge.value < b) && Below(s.out, s.merge.value))
  }

  ghost predicate Starting(s: State, top: bool, lo: int) {
    if top then s.out == [] else Entering(s, lo)
  }

  /** The state in which the page below the last of `n` references is merged. */
  ghost function Inner(node: Node, n: nat, top: bool, s: State): (t: State)
    requires 0 < n <= |node.refs|
  {
    var t := Merged(node, n - 1, top, s);
    State(t.out, if top || t.merge == None then Some(node.refs[n - 1].key) else t.merge)
  }

  lemma EnterNext(node: Node, n: nat, top: bool, s: State, lo: int, hi: int)
    requires 0 < n <= |node.refs| && Ordered(node, lo, hi) && Starting(s, top, lo)
    requires n > 1 ==> Between(Merged(node, n - 1, top, s), top, Bound(node, n - 1, lo, hi))
    ensures Entering(Inner(node, n, top, s), Lo(node, n - 1, lo))
  {
  }

  lemma AppendInOrder(out: seq<Ref>, r: Ref, b: int)
    requires InOrder(out) && Below(out, r.key) && (out == [] || r.key < b)
    ensures InOrder(out + [r]) && Below(out + [r], b)
  {
  }

  lemma BelowMore(out: seq<Ref>, a: int, b: int)
    requires Below(out, a) && a <= b
    ensures Below(out, b)
  {
  }

  /** The references written are in order. */
  lemma {:induction false} MergedInOrder(node: Node, n: nat, top: bool, s: State, lo: int, hi: int)
    requires 0 < n <= |node.refs| && Ordered(node, lo, hi) && Starting(s, top, lo)
    ensures Between(Merged(node, n, top, s), top, Bound(node, n, lo, hi))
    decreases node, n
  {
    var t := Merged(node, n - 1, top, s);
    if n > 1 {
      MergedInOrder(node, n - 1, top, s, lo, hi);
    }
    var e := node.refs[n - 1];
    assert Lo(node, n - 1, lo) < Hi(node, n - 1, hi);
    EnterNext(node, n, top, s, lo, hi);
    hide InOrder, Below;
    if e.child.Page? {
      AppendInOrder(t.out, Ref(Inner(node, n, top, s).merge.value, e.child.id), Bound(node, n, lo, hi));
    } else if e.child.Gone? {
      BelowMore(t.out, Lo(node, n - 1, lo), Hi(node, n - 1, hi));
    } else {
      var sub := e.child.node;
      MergedInOrder(sub, |sub.refs|, false, Inner(node, n, top, s), Lo(node, n - 1, lo), Hi(node, n - 1, hi));
    }
  }

  /** References behind those a search ends at do not matter to it. */
  lemma {:induction false} MergedBehind(node: Node, n: nat, s: State, lo: int, hi: int, k: int)
    requires n <= |node.refs| && Ordered(node, lo, hi) && k < lo && s.out != [] && s.merge.Some? && s.merge.value > k
    ensures var t := Merged(node, n, false, s);
      t.out != [] && FlatRoute(t.out, k) == FlatRoute(s.out, k) && Later(t.merge, k)
    decreases node, n
  {
    if n > 0 {
      MergedBehind(node, n - 1, s, lo, hi, k);
      var t := Merged(node, n - 1, false, s);
      var e := node.refs[n - 1];
      AllFrom(node, n - 1, lo, hi);
      match e.child {
        case Gone =>
        case Page(id) => RouteSnoc(t.out, Ref(if t.merge == None then e.key else t.merge.value, id), k);
        case Split(sub) =>
          MergedBehind(sub, |sub.refs|, Inner(node, n, false, s), Lo(node, n - 1, lo), Hi(node, n - 1, hi), k);
      }
    }
  }

  lemma {:induction false} AllFrom(node: Node, i: nat, lo: int, hi: int)
    requires Ordered(node, lo, hi) && i < |node.refs|
    ensures lo <= Lo(node, i, lo)
  {
    if i > 0 {
      AllFrom(node, i - 1, lo, hi);
      assert Lo(node, i - 1, lo) < Hi(node, i - 1, hi);
    }
  }

  /** A search that ends at a page of the tree ends at the same page when the tree is merged. */
  lemma {:induction false} MergedRoutes(node: Node, n: nat, top: bool, s: State, lo: int, hi: int, k: int)
    requires 0 < n <= |node.refs| && Ordered(node, lo, hi) && Starting(s, top, lo) && lo <= k < Bound(node, n, lo, hi)
    requires Route(node, n, k) != Lost
    ensures var t := Merged(node, n, top, s); FlatRoute(t.out, k) == Route(node, n, k) && (!top ==> Later(t.merge, k))
    decreases node, n
  {
    var t := Merged(node, n - 1, top, s);
    var e := node.refs[n - 1];
    if n > 1 {
      MergedInOrder(node, n - 1, top, s, lo, hi);
    }
    if n > 1 && k < e.key {
      MergedRoutes(node, n - 1, top, s, lo, hi, k);
      RouteBehind(node, n, top, s, lo, hi, k);
    } else {
      RouteHere(node, n, top, s, lo, hi, k);
      if e.child.Split? {
        var sub := e.child.node;
        MergedRoutes(sub, |sub.refs|, false, Inner(node, n, top, s), Lo(node, n - 1, lo), Hi(node, n - 1, hi), k);
      }
    }
  }

  lemma RouteBehind(node: Node, n: nat, top: bool, s: State, lo: int, hi: int, k: int)
    requires 1 < n <= |node.refs| && Ordered(node, lo, hi) && k < node.refs[n - 1].key
    requires var t := Merged(node, n - 1, top, s); t.out != [] && (!top ==> Later(t.merge, k))
    ensures var t := Merged(node, n, top, s);
      FlatRoute(t.out, k) == FlatRoute(Merged(node, n - 1, top, s).out, k) && (!top ==> Later(t.merge, k))
  {
    var t := Merged(node, n - 1, top, s);
    var e := node.refs[n - 1];
    match e.child {
      case Gone =>
      case Page(id) => RouteSnoc(t.out, Ref(if top || t.merge == None then e.key else t.merge.value, id), k);
      case Split(sub) =>
        MergedBehind(sub, |sub.refs|, Inner(node, n, top, s), Lo(node, n - 1, lo), Hi(node, n - 1, hi), k);
    }
  }

  lemma RouteHere(node: Node, n: nat, top: bool, s: State, lo: int, hi: int, k: int)
    requires 0 < n <= |node.refs| && Ordered(node, lo, hi) && Starting(s, top, lo) && Lo(node, n - 1, lo) <= k
    requires n > 1 ==> Between(Merged(node, n - 1, top, s), top, Bound(node, n - 1, lo, hi))
    ensures Entering(Inner(node, n, top, s), Lo(node, n - 1, lo))
    ensures node.refs[n - 1].child.Page? ==>
              FlatRoute(Merged(node, n, top, s).out, k) == At(node.refs[n - 1].child.id)
  {
    var t := Merged(node, n - 1, top, s);
    var e := node.refs[n - 1];
    EnterNext(node, n, top, s, lo, hi);
    if e.child.Page? {
      RouteSnoc(t.out, Ref(if top || t.merge == None then e.key else t.merge.value, e.child.id), k);
    }
  }

  /** A search for any key between `lo` and `hi` that found a page below the node finds it on the page written. */
  ghost predicate KeepsRoutes(node: Node, lo: int, hi: int, out: seq<Ref>) {
    forall k :: lo <= k < hi && Route(node, |node.refs|, k) != Lost ==> FlatRoute(out, k) == Route(node, |node.refs|, k)
  }

  /**
   The page written for an internal page has its keys in order, and takes every search that found a
   page in the tree below to that page.
   */
  lemma MergeKeepsRoutes(node: Node, lo: int, hi: int, merge: Option<int>)
    requires Ordered(node, lo, hi)
    ensures var out := Merged(node, |node.refs|, true, State([], merge)).out;
      InOrder(out) && KeepsRoutes(node, lo, hi, out)
  {
    MergedInOrder(node, |node.refs|, true, State([], merge), lo, hi);
    forall k | lo <= k < hi && Route(node, |node.refs|, k) != Lost
      ensures FlatRoute(Merged(node, |node.refs|, true, State([], merge)).out, k) == Route(node, |node.refs|, k)
    {
      MergedRoutes(node, |node.refs|, true, State([], merge), lo, hi, k);
    }
  }

  // ----- the search finds these routes -----

  ghost predicate Chosen(keys: seq<int>, k: int, slot: nat) {
    slot < |keys| && (slot > 0 ==> keys[slot] <= k) && forall j :: slot < j < |keys| ==> k < keys[j]
  }

  function KeysOf(node: Node): (keys: seq<int>) {
    seq(|node.refs|, i requires 0 <= i < |node.refs| => node.refs[i].key)
  }

  lemma {:induction false} ChosenRoute(node: Node, n: nat, k: int, slot: nat)
    requires slot < n <= |node.refs| && Chosen(KeysOf(node), k, slot)
    ensures Route(node, n, k) == Route(node, slot + 1, k)
    ensures Route(node, slot + 1, k) ==
            match node.refs[slot].child
            case Page(id) => At(id)
            case Gone => Lost
            case Split(sub) => Route(sub, |sub.refs|, k)
  {
    if n > slot + 1 {
      assert k < KeysOf(node)[n - 1];
      ChosenRoute(node, n - 1, k, slot);
    } else {
      assert slot > 0 ==> KeysOf(node)[slot] <= k;
    }
  }

  lemma {:induction false} KeysAscend(node: Node, lo: int, hi: int, i: nat, j: nat)
    requires Ordered(node, lo, hi) && 1 <= i < j < |node.refs|
    ensures node.refs[i].key < node.refs[j].key
  {
    assert Lo(node, j - 1, lo) < Hi(node, j - 1, hi);
    if i < j - 1 {
      KeysAscend(node, lo, hi, i, j - 1);
    }
  }

  /** The search from the root down ends where the routes say. */
  method Search(root: Node, k: int, ghost lo: int, ghost hi: int) returns (f: Found)
    requires Ordered(root, lo, hi)
    ensures f == Route(root, |root.refs|, k)
  {
    var node, cmp := root, -1;
    ghost var l, h := lo, hi;
    while true
      invariant Ordered(node, l, h) && Route(node, |node.refs|, k) == Route(root, |root.refs|, k)
      decreases node
    {
      forall i, j | 1 <= i < j < |node.refs| ensures node.refs[i].key < node.refs[j].key {
        KeysAscend(node, l, h, i, j);
      }
      var slot;
      slot, cmp := SearchPage(KeysOf(node), k, cmp);
      ChosenRoute(node, |node.refs|, k, slot);
      match node.refs[slot].child {
        case Page(id) => return At(id);
        case Gone => return Lost;
        case Split(sub) =>
          l, h := Lo(node, slot, l), Hi(node, slot, h);
          node := sub;
      }
    }
  }

  lemma {:induction false} ChosenFlatRoute(out: seq<Ref>, k: int, slot: nat)
    requires slot < |out| && (slot > 0 ==> out[slot].key <= k) && forall j :: slot < j < |out| ==> k < out[j].key
    ensures FlatRoute(out, k) == At(out[slot].id)
    decreases |out|
  {
    if |out| > slot + 1 {
      ChosenFlatRoute(out[..|out| - 1], k, slot);
    }
  }
}
