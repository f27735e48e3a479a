/**
 A skiplist as the block manager and the insert lists use it: nodes in key order, each carrying the
 depth that was drawn for it.  The link at level `i` out of a node leads to the next node deeper
 than `i`, so the node sequence with its depths determines every `next` array.
 */
module SkipLists {

  const MAXDEPTH: nat := 10

  ghost predicate Sorted(keys: seq<int>) {
    forall i, j :: 0 <= i < j < |keys| ==> keys[i] < keys[j]
  }

  ghost predicate ValidDepths(depths: seq<nat>) {
    forall i :: 0 <= i < |depths| ==> 1 <= depths[i] <= MAXDEPTH
  }

  /** The node reached from node `p` (-1 for the list head) at level `i`; |depths| stands for NULL. */
  function NextNode(depths: seq<nat>, p: int, i: nat): (q: int)
    requires -1 <= p < |depths|
    ensures p < q <= |depths|
    ensures q < |depths| ==> depths[q] > i
    ensures forall k :: p < k < q ==> depths[k] <= i
    decreases |depths| - p
  {
    if p + 1 == |depths| || depths[p + 1] > i then p + 1 else NextNode(depths, p + 1, i)
  }

  /** `p` is the last node of level `i` whose key is below `key`, or -1 when the level has none. */
  ghost predicate LastBelow(keys: seq<int>, depths: seq<nat>, key: int, i: nat, p: int)
    requires |keys| == |depths|
  {
    && -1 <= p < |keys|
    && (p >= 0 ==> depths[p] > i && keys[p] < key)
    && forall k :: p < k < |keys| && depths[k] > i ==> keys[k] >= key
  }

  /**
   Go as far as possible at each level, then step down.  The stack holds, per level, the node whose
   link an insertion or removal of `key` rewrites; level 0 gives the first node not below `key`.
   */
  method Search(keys: seq<int>, depths: seq<nat>, key: int) returns (k: nat, stack: seq<int>)
    requires |keys| == |depths|
    requires Sorted(keys) && ValidDepths(depths)
    ensures k <= |keys|
    ensures forall j :: 0 <= j < k ==> keys[j] < key
    ensures forall j :: k <= j < |keys| ==> keys[j] >= key
    ensures |stack| == MAXDEPTH
    ensures forall i :: 0 <= i < MAXDEPTH ==> LastBelow(keys, depths, key, i, stack[i])
  {
    stack := seq(MAXDEPTH, i => -1);
    var p, i := -1, MAXDEPTH - 1;
    while i >= 0
      invariant -1 <= i < MAXDEPTH && -1 <= p < |keys| && |stack| == MAXDEPTH
      invariant p >= 0 ==> keys[p] < key
      invariant p >= 0 && i >= 0 ==> depths[p] > i
      invariant forall l :: i < l < MAXDEPTH ==> LastBelow(keys, depths, key, l, stack[l])
      invariant i == -1 ==> stack[0] == p
      decreases i, |keys| - p
    {
      var q := NextNode(depths, p, i);
      if q < |keys| && keys[q] < key {
        p := q;
      } else {
        stack := stack[i := p];
        i := i - 1;
      }
    }
    k := p + 1;
    assert LastBelow(keys, depths, key, 0, stack[0]);
    forall j | 0 <= j < k ensures keys[j] < key {
      if j < p { assert keys[j] < keys[p]; }
    }
  }
}
