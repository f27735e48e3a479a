/** What file verification accumulates as it loads one checkpoint after the other. */
module Verification {
  import opened Extents
  import opened ExtLists
  import opened Chains
  import opened Checkpoints
  import Blocks

  /** Take every extent of a list off another list, each of which has to be there. */
  method RemoveEach(d: ExtList, el: ExtList) returns (st: Status)
    requires d != el && d.Valid() && el.Valid() && d.Held() <= el.Held()
    modifies el
    ensures el.Valid() && st == Ok && el.Held() == old(el.Held()) - d.Held()
  {
    hide ExtList.Valid, Space, Range;
    var i := 0;
    MergeStart(d.off);
    while i < |d.off|
      invariant i <= |d.off| && d.Valid() && el.Valid()
      invariant el.Held() == old(el.Held()) - Space(d.off[..i])
    {
      MergeStep(d, i);
      var e := d.off[i];
      assert Range(e.off, e.size) <= el.Held();
      Blocks.OneOrNone(el, e.off, e.size);
      st := el.RemoveOverlap(e.off, e.size);
      if st != Ok { return; }
      i := i + 1;
    }
    assert d.off[..i] == d.off;
    return Ok;
  }

  /**
   Load a checkpoint for verification: add what it allocated to the accumulated pages, take off what
   it discarded, and its root, which no later checkpoint refers to.
   */
  method VerifyCkptLoad(ci: Ckpt, verifyAlloc: ExtList) returns (st: Status)
    requires ci.Valid() && verifyAlloc.Valid() && verifyAlloc != ci.alloc && verifyAlloc != ci.discard
    requires Next(verifyAlloc.Held(), verifyAlloc.Held(), ci.View())
    modifies verifyAlloc
    ensures verifyAlloc.Valid() && st == Ok
    ensures verifyAlloc.Held() == old(verifyAlloc.Held()) + ci.alloc.Held() - ci.discard.Held() - Bytes(ci.root)
  {
    hide ExtList.Valid, Space, Range;
    st := ExtlistMerge(ci.alloc, verifyAlloc);
    if st != Ok { return; }
    st := RemoveEach(ci.discard, verifyAlloc);
    if st != Ok { return; }
    if ci.root.off != INVALID_OFFSET {
      Blocks.OneOrNone(verifyAlloc, ci.root.off, ci.root.size);
      st := verifyAlloc.RemoveOverlap(ci.root.off, ci.root.size);
    }
  }

  /** Verifying a whole chain that is in order accumulates the pages of its last checkpoint. */
  method VerifyChain(cs: seq<Ckpt>, verifyAlloc: ExtList) returns (st: Status)
    requires (forall i :: 0 <= i < |cs| ==> cs[i].Valid()) && verifyAlloc.Valid() && Separate(cs, verifyAlloc)
    requires verifyAlloc.Held() == {} && WellFormed(Views(cs))
    modifies verifyAlloc
    ensures verifyAlloc.Valid() && st == Ok && verifyAlloc.Held() == Pages(Views(cs))
  {
    hide ExtList.Valid, Space, Range, WellFormed, Pages;
    ghost var c := Views(cs);
    var i := 0;
    NoPages(c);
    while i < |cs|
      invariant i <= |cs| && verifyAlloc.Valid()
      invariant forall k :: 0 <= k < |cs| ==> cs[k].Valid()
      invariant Views(cs) == c && verifyAlloc.Held() == Pages(c[..i])
    {
      PagesNext(c, i);
      assert cs[i].View() == c[i];
      st := VerifyCkptLoad(cs[i], verifyAlloc);
      if st != Ok { return; }
      i := i + 1;
    }
    assert c[..i] == c;
    return Ok;
  }

  lemma NoPages(c: seq<Link>)
    ensures Pages(c[..0]) == {}
  {
  }

  lemma PagesNext(c: seq<Link>, i: nat)
    requires WellFormed(c) && i < |c|
    ensures Next(Pages(c[..i]), Pages(c[..i]), c[i])
    ensures Pages(c[..i + 1]) == Pages(c[..i]) + c[i].alloc - c[i].discard - c[i].root
  {
    PrefixWellFormed(c, i);
    PagesAllocated(c[..i]);
    assert c[..i + 1] == c[..i] + [c[i]];
    Snoc(c[..i], c[i]);
  }
}
