/**
 Walking backward through an insert list.  The list is a skiplist and has no links back; a search
 leaves a stack with a place on each level, and one step back mends that stack level by level.
 */
module Fingers {
  import opened SkipLists

  /** A place on a level: unset, at the head of the list, or in the link of a node. */
  datatype Place = Unset | Head | After(node: nat)

  /** The node before a place; -1 if there is none. */
  function PrevItem(p: Place): (n: int) {
    if p.After? then p.node else -1
  }

  /** The last node of level `i` up to position `c`; -1 if there is none. */
  function LastAt(depths: seq<nat>, c: int, i: nat): (p: int)
    requires -1 <= c < |depths|
    ensures -1 <= p <= c && (p >= 0 ==> depths[p] > i) && forall k :: p < k <= c ==> depths[k] <= i
    decreases c + 1
  {
    if c < 0 || depths[c] > i then c else LastAt(depths, c - 1, i)
  }

  /** The places on all levels are just after position `c`. */
  ghost predicate FingerAt(depths: seq<nat>, stack: seq<Place>, c: int) {
    && -1 <= c < |depths| && |stack| == MAXDEPTH
    && forall i :: 0 <= i < MAXDEPTH ==> PrevItem(stack[i]) == LastAt(depths, c, i)
  }

  lemma LastIs(depths: seq<nat>, c: int, i: nat, p: int)
    requires -1 <= c < |depths| && -1 <= p <= c && (p >= 0 ==> depths[p] > i)
    requires forall k :: p < k <= c ==> depths[k] <= i
    ensures LastAt(depths, c, i) == p
  {
  }

  /** Levels that a node is not on do not change when it is left. */
  lemma Unmoved(depths: seq<nat>, c: nat)
    requires c < |depths|
    ensures forall l :: l >= depths[c] ==> LastAt(depths, c - 1, l) == LastAt(depths, c, l)
  {
  }

  /** The last position whose key is not greater; -1 if there is none. */
  ghost function NotAbove(keys: seq<int>, key: int): (c: int)
    requires Sorted(keys)
    ensures -1 <= c < |keys| && (c >= 0 ==> keys[c] <= key) && (c + 1 < |keys| ==> key < keys[c + 1])
  {
    if keys == [] then -1
    else if keys[|keys| - 1] <= key then |keys| - 1
    else NotAbove(keys[..|keys| - 1], key)
  }

  class Cursor {
    const keys: seq<int>
    const depths: seq<nat>
    var ins: int
    var stack: seq<Place>

    ghost predicate Valid()
      reads this
    {
      |keys| == |depths| && Sorted(keys) && ValidDepths(depths) && |stack| == MAXDEPTH && -1 <= ins < |keys|
    }

    /**
     Search for any key, from the highest level down.  The finger is just after the last node whose key
     is not greater; the node returned is that one if it has the key or is the last, and else the next.
     */
    method SearchInsert(key: int) returns (compare: int, ghost c: int)
      requires Valid()
      modifies this
      ensures Valid() && -1 <= c < |keys| && (c >= 0 ==> keys[c] <= key) && (c + 1 < |keys| ==> key < keys[c + 1])
      ensures if keys == [] then ins == -1 else FingerAt(depths, stack, c)
      ensures c >= 0 && keys[c] == key ==> ins == c && compare == 0
      ensures c >= 0 && keys[c] < key && c == |keys| - 1 ==> ins == c && compare < 0
      ensures (c >= 0 ==> keys[c] < key) && c + 1 < |keys| ==> ins == c + 1 && compare > 0
    {
      var n := |keys| - 1;
      if n < 0 {
        ins, compare, c := -1, 0, -1;
        return;
      }
      if keys[n] <= key {
        Append();
        ins, compare, c := n, keys[n] - key, n;
        return;
      }
      c := NotAbove(keys, key);
      compare := SearchDown(key, c);
    }

    /** The places after the last node of each level. */
    method Append()
      requires Valid() && keys != []
      modifies `stack
      ensures Valid() && FingerAt(depths, stack, |keys| - 1)
    {
      var i := MAXDEPTH - 1;
      while i >= 0
        invariant Valid() && -1 <= i < MAXDEPTH
        invariant forall l :: i < l < MAXDEPTH ==> PrevItem(stack[l]) == LastAt(depths, |keys| - 1, l)
      {
        var tail := LastAt(depths, |keys| - 1, i);
        stack := stack[i := if tail < 0 then Head else After(tail)];
        i := i - 1;
      }
    }

    method SearchDown(key: int, ghost c: int) returns (compare: int)
      requires Valid() && keys != [] && -1 <= c < |keys| - 1 && (c >= 0 ==> keys[c] <= key) && key < keys[c + 1]
      modifies this
      ensures Valid() && FingerAt(depths, stack, c)
      ensures if c >= 0 && keys[c] == key then ins == c && compare == 0 else ins == c + 1 && compare > 0
    {
      var p, i, found := -1, MAXDEPTH - 1, -1;
      compare := 0;
      while i >= 0
        invariant Valid() && -1 <= i < MAXDEPTH && -1 <= p <= c && (p >= 0 ==> keys[p] < key || i < 0)
        invariant p >= 0 && i >= 0 ==> depths[p] > i
        invariant forall l :: i < l < MAXDEPTH ==> PrevItem(stack[l]) == LastAt(depths, c, l)
        invariant i < 0 ==>
          if c >= 0 && keys[c] == key then found == c && compare == 0 else found == c + 1 && compare > 0
        decreases i, c - p
      {
        var q := NextNode(depths, p, i);
        if q == |depths| {
          stack := stack[i := if p < 0 then Head else After(p)];
          LastIs(depths, c, i, p);
          i := i - 1;
          continue;
        }
        found, compare := q, keys[q] - key;
        if compare < 0 {
          p := q;
        } else if compare == 0 {
          while i >= 0
            invariant Valid() && -1 <= i < MAXDEPTH && found == c && depths[c] > i
            invariant forall l :: i < l < MAXDEPTH ==> PrevItem(stack[l]) == LastAt(depths, c, l)
          {
            stack := stack[i := After(found)];
            i := i - 1;
          }
        } else {
          stack := stack[i := if p < 0 then Head else After(p)];
          LastIs(depths, c, i, p);
          i := i - 1;
        }
      }
      ins := found;
    }

    /** The first node up the stack that does not move, and the level below it: the highest the current node is on. */
    method Unmoving(current: nat) returns (i: nat, node: int)
      requires Valid() && FingerAt(depths, stack, current)
      ensures i + 1 == depths[current] && (node == current || node == LastAt(depths, current, i + 1))
      ensures node == current ==> i + 1 == MAXDEPTH
    {
      i, node := 0, -1;
      while i < MAXDEPTH - 1
        invariant i < MAXDEPTH && depths[current] > i && node == (if i == 0 then -1 else current)
      {
        node := PrevItem(stack[i + 1]);
        if node != current {
          break;
        }
        i := i + 1;
      }
    }

    /** Levels above `i` are just after the node before `current`. */
    ghost predicate Mended(current: nat, i: int)
      requires current < |depths|
      reads this
    {
      && |stack| == MAXDEPTH
      && forall l :: 0 <= l && i < l < MAXDEPTH ==> PrevItem(stack[l]) == LastAt(depths, current - 1, l)
    }

    /** The beginning of the next list down that is not at the current node. */
    method FromHead(current: nat, top: nat) returns (i: int, node: int)
      requires Valid() && current < |depths| && top < depths[current] && Mended(current, top)
      modifies this`stack
      ensures Valid() && -1 <= i <= top && Mended(current, i) && (i >= 0 ==> 0 <= node < current && depths[node] > i)
    {
      i, node := top, -1;
      while i >= 0
        invariant -1 <= i <= top && Mended(current, i)
      {
        stack := stack[i := Unset];
        node := NextNode(depths, -1, i);
        if node < |depths| && node != current {
          break;
        }
        LastIs(depths, current - 1, i, -1);
        i := i - 1;
      }
    }

    /** On each remaining level, go on until just before the current node. */
    method Descend(current: nat, top: int, from: int)
      requires Valid() && current < |depths| && -1 <= top < depths[current] && Mended(current, top)
      requires top >= 0 ==> 0 <= from < current && depths[from] > top
      modifies this`stack
      ensures Valid() && Mended(current, -1)
    {
      var i, node := top, from;
      while i >= 0
        invariant -1 <= i <= top && Mended(current, i) && (i >= 0 ==> 0 <= node < current && depths[node] > i)
        decreases i, current - node
      {
        var next := NextNode(depths, node, i);
        if next != current {
          node := next;
        } else {
          stack := stack[i := After(node)];
          LastIs(depths, current - 1, i, node);
          i := i - 1;
        }
      }
    }

    /** If the stack is not at the current node, a search puts it there. */
    method Locate()
      requires Valid() && ins >= 0 && (PrevItem(stack[0]) == ins ==> FingerAt(depths, stack, ins))
      modifies this
      ensures Valid() && ins == old(ins) && FingerAt(depths, stack, ins)
    {
      if ins != PrevItem(stack[0]) {
        var _, _ := SearchInsert(keys[ins]);
      }
    }

    /** Move back one position. */
    method SkipPrev()
      requires Valid() && ins >= 0 && (PrevItem(stack[0]) == ins ==> FingerAt(depths, stack, ins))
      modifies this
      ensures Valid() && ins == old(ins) - 1 && FingerAt(depths, stack, ins)
    {
      var current := ins;
      Locate();
      var i: int, node;
      i, node := Unmoving(current);
      Unmoved(depths, current);
      if node < 0 || node == current {
        i, node := FromHead(current, i);
      }
      Descend(current, i, node);
      assert PrevItem(stack[0]) == LastAt(depths, current - 1, 0) == current - 1;
      ins := PrevItem(stack[0]);
    }
  }

  /** From any node, step by step, the list in reverse. */
  method Reverse(c: Cursor) returns (seen: seq<int>)
    requires c.Valid() && c.ins >= 0 && (PrevItem(c.stack[0]) == c.ins ==> FingerAt(c.depths, c.stack, c.ins))
    modifies c
    ensures |seen| == old(c.ins) + 1 && forall k :: 0 <= k < |seen| ==> seen[k] == c.keys[old(c.ins) - k]
  {
    ghost var n := c.ins;
    seen := [];
    while c.ins >= 0
      invariant c.Valid() && |seen| == n - c.ins && (forall k :: 0 <= k < |seen| ==> seen[k] == c.keys[n - k])
      invariant c.ins >= 0 && PrevItem(c.stack[0]) == c.ins ==> FingerAt(c.depths, c.stack, c.ins)
      decreases c.ins + 1
    {
      seen := seen + [c.keys[c.ins]];
      c.SkipPrev();
    }
  }
}
