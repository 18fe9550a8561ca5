/** Properties of the `VText` reconciliation: its state machine (unmounted to
    mounted, mounted to mounted, mounted to unmounted), the write-count
    discipline, and the double insertion of the fresh path.
 */
module VirtualTextProperties {
  import opened Outcomes
  import opened Dom
  import opened VirtualText

  /** Creating and inserting a node keeps the DOM valid. */
  lemma CreateAndInsertKeepsValid(d: Dom, text: string, nextSibling: NodeRef)
    requires Valid(d)
    ensures CreateAndInsert(d, text, nextSibling).Done? ==>
      var c := CreateAndInsert(d, text, nextSibling).value;
      Valid(c.dom) && c.node !in d.values && c.node !in d.children && c.node in c.dom.children
  {
    var created := CreateTextNode(d, text);
    InsertNodeKeepsValid(created.dom, created.node, nextSibling.node);
    var r := CreateAndInsert(d, text, nextSibling);
    if r.Done? {
      assert r.value.node in multiset(r.value.dom.children);
    }
  }

  /** Two create+insert steps in a row, as the fresh path of `Apply` performs
      them: both succeed when the sibling is a child (or unset), allocate two
      consecutive ids showing the text, and make two writes. */
  lemma {:induction false} CreateAndInsertTwice(d: Dom, text: string, nextSibling: NodeRef)
    requires nextSibling.node.None? || nextSibling.node.value in d.children
    ensures var c1 := CreateAndInsert(d, text, nextSibling);
      && c1.Done?
      && var c2 := CreateAndInsert(c1.value.dom, text, nextSibling);
      && c2.Done?
      && c1.value.node == d.nextId && c2.value.node == d.nextId + 1
      && c2.value.dom.values == d.values[d.nextId := text][d.nextId + 1 := text]
      && |c2.value.dom.children| == |d.children| + 2
      && c2.value.dom.writes == d.writes + 2
      && (nextSibling.node.None? ==> c2.value.dom.children == d.children + [d.nextId, d.nextId + 1])
      && (nextSibling.node.Some? && nextSibling.node.value != d.nextId ==>
            var k := IndexOf(d.children, nextSibling.node.value);
            c2.value.dom.children == d.children[..k] + [d.nextId, d.nextId + 1] + d.children[k..])
  {
    var c1 := CreateAndInsert(d, text, nextSibling);
    assert |multiset(c1.value.dom.children)| == |multiset(d.children)| + 1;
    var c2 := CreateAndInsert(c1.value.dom, text, nextSibling);
    assert |multiset(c2.value.dom.children)| == |multiset(c1.value.dom.children)| + 1;
    if nextSibling.node.Some? && nextSibling.node.value != d.nextId {
      CreateAndInsertTwiceBeforeSibling(d, text, nextSibling);
    }
  }

  /** After the two create+insert steps both new nodes are children that were
      not children before. */
  lemma {:induction false} CreateAndInsertTwiceAddsBoth(d: Dom, text: string, nextSibling: NodeRef)
    requires Valid(d)
    requires nextSibling.node.None? || nextSibling.node.value in d.children
    ensures var c1 := CreateAndInsert(d, text, nextSibling);
      && c1.Done?
      && var c2 := CreateAndInsert(c1.value.dom, text, nextSibling);
      && c2.Done?
      && d.nextId !in d.children && d.nextId + 1 !in d.children
      && d.nextId in c2.value.dom.children && d.nextId + 1 in c2.value.dom.children
  {
    var c1 := CreateAndInsert(d, text, nextSibling);
    var c2 := CreateAndInsert(c1.value.dom, text, nextSibling);
    assert d.nextId in multiset(c1.value.dom.children);
    assert d.nextId in multiset(c2.value.dom.children);
    assert d.nextId + 1 in multiset(c2.value.dom.children);
  }

  /** The two create+insert steps keep the DOM valid. */
  lemma {:induction false} CreateAndInsertTwiceKeepsValid(d: Dom, text: string, nextSibling: NodeRef)
    requires Valid(d)
    requires nextSibling.node.None? || nextSibling.node.value in d.children
    ensures var c1 := CreateAndInsert(d, text, nextSibling);
      && c1.Done?
      && var c2 := CreateAndInsert(c1.value.dom, text, nextSibling);
      && c2.Done?
      && Valid(c2.value.dom)
  {
    var c1 := CreateAndInsert(d, text, nextSibling);
    CreateAndInsertKeepsValid(d, text, nextSibling);
    CreateAndInsertKeepsValid(c1.value.dom, text, nextSibling);
  }

  /** Before a set sibling, the two create+insert steps place both new nodes,
      first then second, right where the sibling was; the sibling and everything
      after it follow. */
  lemma {:induction false} CreateAndInsertTwiceBeforeSibling(d: Dom, text: string, nextSibling: NodeRef)
    requires nextSibling.node.Some? && nextSibling.node.value in d.children
    requires nextSibling.node.value != d.nextId
    ensures var k := IndexOf(d.children, nextSibling.node.value);
      var c1 := CreateAndInsert(d, text, nextSibling);
      && c1.Done?
      && var c2 := CreateAndInsert(c1.value.dom, text, nextSibling);
      && c2.Done?
      && c2.value.dom.children == d.children[..k] + [d.nextId, d.nextId + 1] + d.children[k..]
  {
    var sibling := nextSibling.node.value;
    var k := IndexOf(d.children, sibling);
    var c1 := CreateAndInsert(d, text, nextSibling);
    var cs := c1.value.dom.children;
    assert c1.Done? && cs == d.children[..k] + [d.nextId] + d.children[k..] && c1.value.dom.nextId == d.nextId + 1;
    InsertBeforeTwice(d.children, d.nextId, d.nextId + 1, k);
    assert IndexOf(cs, sibling) == k + 1;
    var c2 := CreateAndInsert(c1.value.dom, text, nextSibling);
    assert c2.Done? && c2.value.dom.children == cs[..k + 1] + [d.nextId + 1] + cs[k + 1..];
  }

  /** Inserting `x` and then `y` before the element at `k` (found again after
      the first insertion, one place further on) yields `x, y` at `k`. */
  lemma InsertBeforeTwice(s: seq<NodeId>, x: NodeId, y: NodeId, k: nat)
    requires k < |s| && s[k] != x && s[k] !in s[..k]
    ensures var c := s[..k] + [x] + s[k..];
      && IndexOf(c, s[k]) == k + 1
      && c[..k + 1] + [y] + c[k + 1..] == s[..k] + [x, y] + s[k..]
  {
    var c := s[..k] + [x] + s[k..];
    assert c[k + 1] == s[k];
    assert c[..k + 1] == s[..k] + [x];
    assert c[k + 1..] == s[k..];
    IndexOfUnique(c, k + 1);
  }

  /** A successful `Apply` with no ancestor inserts TWO fresh live text nodes, the
      second right after the first, and records only the second: the first stays
      in the parent, showing the text, with no virtual node referring to it. */
  lemma ApplyFreshInsertsTwice(self: VText, d: Dom, nextSibling: NodeRef, detachOther: DetachOther)
    requires Valid(d)
    requires nextSibling.node.None? || nextSibling.node.value in d.children
    ensures var r := Apply(self, d, nextSibling, None, detachOther);
      var first: NodeId := d.nextId;
      var second: NodeId := d.nextId + 1;
      && r.Done?
      && first !in d.children && second !in d.children
      && first in r.value.dom.children && second in r.value.dom.children
      && r.value.dom.values == d.values[first := self.text][second := self.text]
      && r.value.node.reference == Some(second) && r.value.nodeRef == NodeRef(Some(second))
      && |r.value.dom.children| == |d.children| + 2
      && r.value.dom.writes == d.writes + 2
      && (nextSibling.node.None? ==> r.value.dom.children == d.children + [first, second])
      && (nextSibling.node.Some? ==> var k := IndexOf(d.children, nextSibling.node.value);
            r.value.dom.children == d.children[..k] + [first, second] + d.children[k..])
      && Valid(r.value.dom)
  {
    if nextSibling.node.Some? {
      var k := IndexOf(d.children, nextSibling.node.value);
      assert d.children[k] < d.nextId;
    }
    CreateAndInsertTwice(d, self.text, nextSibling);
    CreateAndInsertTwiceAddsBoth(d, self.text, nextSibling);
    CreateAndInsertTwiceKeepsValid(d, self.text, nextSibling);
    var c1 := CreateAndInsert(d, self.text, nextSibling);
    var c2 := CreateAndInsert(c1.value.dom, self.text, nextSibling);
    var r := Apply(self, d, nextSibling, None, detachOther);
    assert r.value.dom == c2.value.dom;
  }

  /** The corrected fresh path inserts exactly one live text node, the one it records. */
  lemma {:induction false} ApplyCorrectedInsertsOnce(self: VText, d: Dom, nextSibling: NodeRef, detachOther: DetachOther)
    requires Valid(d)
    requires nextSibling.node.None? || nextSibling.node.value in d.children
    ensures var r := ApplyCorrected(self, d, nextSibling, None, detachOther);
      && r.Done?
      && r.value.node.reference == Some(d.nextId)
      && d.nextId !in d.children
      && multiset(r.value.dom.children) == multiset(d.children) + multiset{d.nextId}
      && r.value.dom.values == d.values[d.nextId := self.text]
      && r.value.dom.writes == d.writes + 1
      && (nextSibling.node.None? ==> r.value.dom.children == d.children + [d.nextId])
      && (nextSibling.node.Some? ==> var k := IndexOf(d.children, nextSibling.node.value);
            r.value.dom.children == d.children[..k] + [d.nextId] + d.children[k..])
      && Mounted(r.value.node, r.value.dom)
      && Valid(r.value.dom)
  {
    var c := CreateAndInsert(d, self.text, nextSibling);
    CreateAndInsertKeepsValid(d, self.text, nextSibling);
  }

  /** Unmounted to mounted: a new node applied without an ancestor is mounted,
      and its live node shows its text. */
  lemma {:induction false} NewThenApplyMounts(text: string, d: Dom, nextSibling: NodeRef, detachOther: DetachOther)
    requires Valid(d)
    requires nextSibling.node.None? || nextSibling.node.value in d.children
    ensures var r := Apply(New(text), d, nextSibling, None, detachOther);
      && r.Done?
      && Mounted(r.value.node, r.value.dom)
      && r.value.node.text == text
      && Valid(r.value.dom)
  {
    ApplyFreshInsertsTwice(New(text), d, nextSibling, detachOther);
  }

  /** Mounted to mounted: applying over a mounted text ancestor keeps its live
      node (same identity, reference moved over), leaves the parent's children
      alone, and writes the value exactly when the text changed. */
  lemma ApplyOverTextAncestor(self: VText, a: VText, d: Dom, nextSibling: NodeRef, detachOther: DetachOther)
    requires Mounted(a, d)
    ensures var r := Apply(self, d, nextSibling, Some(Text(a)), detachOther);
      && r.Done?
      && r.value.node.reference == a.reference
      && r.value.nodeRef == NodeRef(a.reference)
      && Mounted(r.value.node, r.value.dom)
      && r.value.dom.children == d.children
      && (r.value.dom == d <==> self.text == a.text)
      && (self.text != a.text ==> r.value.dom.writes == d.writes + 1)
      && r == AdoptAncestor(self, a, d)
  {
  }

  /** A text ancestor that was never rendered makes `Apply` panic, whatever the DOM. */
  lemma ApplyOverUnrenderedAncestorIsFatal(self: VText, text: string, d: Dom, nextSibling: NodeRef,
                                           detachOther: DetachOther)
    ensures Apply(self, d, nextSibling, Some(Text(New(text))), detachOther) == Fatal(NoRefMsg)
  {
  }

  /** An ancestor of another variant is detached first; a failing detach is
      passed on with nothing created, and otherwise the fresh nodes are allocated
      in the DOM that the detach left behind (never an in-place update). */
  lemma ApplyDetachesOtherAncestorFirst(self: VText, o: OtherNode, d: Dom, nextSibling: NodeRef,
                                        detachOther: DetachOther)
    ensures var r := Apply(self, d, nextSibling, Some(Other(o)), detachOther);
      var detached := detachOther(o, d);
      && (detached.Fatal? ==> r == Fatal(detached.msg))
      && (detached.Done? ==>
            (r.Fatal? <==> nextSibling.node.Some? && nextSibling.node.value !in detached.value.children))
      && (detached.Done? ==> r == CreateFreshAsWritten(self, detached.value, nextSibling))
      && (detached.Done? && r.Done? ==> r.value.node.reference == Some(detached.value.nextId + 1))
      && (detached.Done? && r.Done? && Valid(detached.value) ==>
            r.value.node.reference.value !in detached.value.values)
  {
  }

  /** Mounted to unmounted: detaching a mounted node removes exactly its live
      node from the parent and forgets the reference. */
  lemma {:induction false} DetachUnmounts(v: VText, d: Dom)
    requires Valid(d) && Mounted(v, d)
    ensures var r := Detach(v, d);
      && r.Done?
      && r.value.node.reference.None? && r.value.node.text == v.text
      && v.reference.value !in r.value.dom.children
      && |r.value.dom.children| == |d.children| - 1
      && (forall n :: n != v.reference.value ==> (n in r.value.dom.children <==> n in d.children))
      && (var k := IndexOf(d.children, v.reference.value);
          r.value.dom.children == d.children[..k] + d.children[k + 1..])
      && Valid(r.value.dom)
  {
    var id := v.reference.value;
    var r := Detach(v, d);
    RemoveChildKeepsValid(d, id);
    NoDuplicatesCount(d.children, id);
    assert r.value.dom == RemoveChild(d, id).value;
    var m := multiset(r.value.dom.children);
    assert m == multiset(d.children) - multiset{id};
    assert m[id] == 0;
    forall n | n != id
      ensures n in r.value.dom.children <==> n in d.children
    {
      assert n in m <==> n in multiset(d.children);
    }
  }

  /** Detaching a node whose live node is no longer a child only warns: the
      node is still unmounted and the DOM is left exactly as it was. */
  lemma DetachMissingChildIsHarmless(v: VText, d: Dom)
    requires v.reference.Some? && v.reference.value !in d.children
    ensures Detach(v, d) == Done(Detached(New(v.text), d))
  {
  }

  /** Detaching a node that was never rendered panics. */
  lemma DetachUnrenderedIsFatal(text: string, d: Dom)
    ensures Detach(New(text), d) == Fatal(NotRenderedMsg)
  {
  }

  /** A render of `a` followed by an update to `b != a`, appended to any
      parent: the corrected reconciliation writes once to create and once to
      update, and leaves one live node showing `b`. */
  lemma RenderThenUpdateCorrected(d: Dom, a: string, b: string, detachOther: DetachOther)
    requires Valid(d)
    requires a != b
    ensures var r1 := ApplyCorrected(New(a), d, NodeRef(None), None, detachOther);
      && r1.Done? && r1.value.dom.writes == d.writes + 1
      && var r2 := ApplyCorrected(New(b), r1.value.dom, NodeRef(None), Some(Text(r1.value.node)), detachOther);
      && r2.Done? && r2.value.dom.writes == d.writes + 2
      && r2.value.dom.children == d.children + [d.nextId]
      && r2.value.dom.values == d.values[d.nextId := b]
  {
    var r1 := ApplyCorrected(New(a), d, NodeRef(None), None, detachOther);
    assert r1.Done? && r1.value.node == VText(a, Some(d.nextId)) && Mounted(r1.value.node, r1.value.dom)
      && r1.value.dom.writes == d.writes + 1
      && r1.value.dom.children == d.children + [d.nextId]
      && r1.value.dom.values == d.values[d.nextId := a] by {
      ApplyCorrectedInsertsOnce(New(a), d, NodeRef(None), detachOther);
    }
    var r2 := ApplyCorrected(New(b), r1.value.dom, NodeRef(None), Some(Text(r1.value.node)), detachOther);
    assert r2.value.dom.values == d.values[d.nextId := a][d.nextId := b];
  }

  /** Updating a node that was rendered by the double insertion rewrites only
      the second live node: the first keeps showing the old text. */
  lemma UpdateAfterDoubleInsert(d: Dom, a: string, b: string, r1: Applied)
    requires a != b
    requires r1.node == VText(a, Some(d.nextId + 1))
    requires r1.dom.writes == d.writes + 2
    requires r1.dom.children == d.children + [d.nextId, d.nextId + 1]
    requires r1.dom.values == d.values[d.nextId := a][d.nextId + 1 := a]
    ensures var r2 := AdoptAncestor(New(b), r1.node, r1.dom);
      && r2.Done? && r2.value.dom.writes == d.writes + 3
      && r2.value.dom.children == d.children + [d.nextId, d.nextId + 1]
      && r2.value.dom.values == d.values[d.nextId := a][d.nextId + 1 := b]
  {
    assert d.values[d.nextId := a][d.nextId + 1 := a][d.nextId + 1 := b] == d.values[d.nextId := a][d.nextId + 1 := b];
  }

  /** The same two renders as written, the update going through the text-ancestor
      branch of `Apply` (`ApplyOverTextAncestor`): the first render makes two
      writes and leaves two live nodes showing `a`; the update then reaches only
      the second, so the parent ends up showing `a` then `b`. */
  lemma RenderThenUpdateAsWritten(d: Dom, a: string, b: string, detachOther: DetachOther)
    requires Valid(d)
    requires a != b
    ensures var r1 := Apply(New(a), d, NodeRef(None), None, detachOther);
      && r1.Done? && r1.value.dom.writes == d.writes + 2
      && var r2 := AdoptAncestor(New(b), r1.value.node, r1.value.dom);
      && r2.Done? && r2.value.dom.writes == d.writes + 3
      && r2.value.dom.children == d.children + [d.nextId, d.nextId + 1]
      && r2.value.dom.values == d.values[d.nextId := a][d.nextId + 1 := b]
  {
    ApplyFreshInsertsTwice(New(a), d, NodeRef(None), detachOther);
    var r1 := Apply(New(a), d, NodeRef(None), None, detachOther);
    UpdateAfterDoubleInsert(d, a, b, r1.value);
  }
}
