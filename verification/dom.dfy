/** An abstract live DOM, as seen by the text-node reconciliation.

    The state holds every text node the document has created (node id to its
    current value; a node removed from its parent still exists), the ordered
    child list of the one parent element being reconciled, the next id the
    document will hand out, and a count of the writes made to the tree or to
    node values (an insertion, a removal, a value update). Creating a node is
    not a write: it only becomes visible once inserted.
 */
module Dom {
  import opened Outcomes

  type NodeId = nat

  datatype Dom = Dom(values: map<NodeId, string>, children: seq<NodeId>, nextId: NodeId, writes: nat)

  predicate NoDuplicates(s: seq<NodeId>) {
    forall i, j :: 0 <= i < j < |s| ==> s[i] != s[j]
  }

  /** Every id in use was handed out by the allocator, and a node is a child at most once. */
  predicate Valid(d: Dom) {
    && (forall id :: id in d.values ==> id < d.nextId)
    && (forall i :: 0 <= i < |d.children| ==> d.children[i] < d.nextId)
    && NoDuplicates(d.children)
  }

  /** A document with an empty parent element and no text nodes yet. */
  const EmptyDom: Dom := Dom(map[], [], 0, 0)

  /** Position of the first occurrence of `x` in `s`. */
  function IndexOf(s: seq<NodeId>, x: NodeId): (i: nat)
    requires x in s
    ensures i < |s| && s[i] == x
    ensures x !in s[..i]
  {
    if s[0] == x then 0 else 1 + IndexOf(s[1..], x)
  }

  /** Under `NoDuplicates`, a node's position is the only one holding it. */
  lemma IndexOfUnique(s: seq<NodeId>, k: nat)
    requires k < |s|
    requires s[k] !in s[..k]
    ensures IndexOf(s, s[k]) == k
  {
  }

  datatype Created = Created(node: NodeId, dom: Dom)

  /** `Document::create_text_node`: a new, detached text node holding `text`. */
  function CreateTextNode(d: Dom, text: string): (r: Created)
    ensures Valid(d) ==> Valid(r.dom) && r.node !in d.values && r.node !in d.children
    ensures r.node < r.dom.nextId && d.nextId < r.dom.nextId
    ensures r.dom.values == d.values[r.node := text]
    ensures r.dom.children == d.children && r.dom.writes == d.writes
  {
    Created(d.nextId, d.(values := d.values[d.nextId := text], nextId := d.nextId + 1))
  }

  /** Message of the assumed `expect` on a failed `insertBefore`. */
  const InsertBeforeFailedMsg: string := "failed to insert tag before next sibling"

  /** `s` with `x` placed at position `k`: the prefix before `k` is kept, `x`
      follows, then the rest of `s`. */
  function InsertAt(s: seq<NodeId>, x: NodeId, k: nat): (r: seq<NodeId>)
    requires k <= |s|
    ensures |r| == |s| + 1 && r[k] == x
    ensures r[..k] == s[..k] && r[k + 1..] == s[k..]
    ensures multiset(r) == multiset(s) + multiset{x}
  {
    assert s == s[..k] + s[k..];
    s[..k] + [x] + s[k..]
  }

  /** Where `insert_node` puts a new child: before `nextSibling`, or at the end. */
  function InsertPosition(children: seq<NodeId>, nextSibling: Option<NodeId>): (k: nat)
    requires nextSibling.None? || nextSibling.value in children
    ensures k <= |children|
    ensures nextSibling.None? ==> k == |children|
    ensures nextSibling.Some? ==> k < |children| && children[k] == nextSibling.value
  {
    match nextSibling
    case None => |children|
    case Some(sibling) => IndexOf(children, sibling)
  }

  /** `insert_node(node, parent, next_sibling)`, which is not part of this model's
      sources; its assumed contract: insert `node` right before `nextSibling` when
      one is set, otherwise append it as the last child. A sibling that is not a
      child of the parent makes the host's `insertBefore` fail, which is fatal. */
  function InsertNode(d: Dom, node: NodeId, nextSibling: Option<NodeId>): (r: Outcome<Dom>)
    ensures r.Fatal? <==> nextSibling.Some? && nextSibling.value !in d.children
    ensures r.Fatal? ==> r.msg == InsertBeforeFailedMsg
    ensures r.Done? ==> && r.value.values == d.values && r.value.nextId == d.nextId
                        && r.value.writes == d.writes + 1
    ensures r.Done? ==> r.value.children == InsertAt(d.children, node, InsertPosition(d.children, nextSibling))
  {
    if nextSibling.Some? && nextSibling.value !in d.children then
      Fatal(InsertBeforeFailedMsg)
    else
      var k := InsertPosition(d.children, nextSibling);
      Done(d.(children := InsertAt(d.children, node, k), writes := d.writes + 1))
  }

  /** `Node::remove_child`: fails (an `Err`) when `child` is not a child of the parent. */
  function RemoveChild(d: Dom, child: NodeId): (r: Result<Dom, ()>)
    ensures r.Err? <==> child !in d.children
    ensures r.Ok? ==> && r.value.values == d.values && r.value.nextId == d.nextId
                      && r.value.writes == d.writes + 1
    ensures r.Ok? ==> multiset(r.value.children) == multiset(d.children) - multiset{child}
    ensures r.Ok? ==> |r.value.children| == |d.children| - 1
    // the other children keep their order: the prefix before `child` and the suffix after it
    ensures r.Ok? ==> var k := IndexOf(d.children, child);
      r.value.children == d.children[..k] + d.children[k + 1..]
  {
    if child in d.children then
      var k := IndexOf(d.children, child);
      assert d.children == d.children[..k] + [child] + d.children[k + 1..];
      Ok(d.(children := d.children[..k] + d.children[k + 1..], writes := d.writes + 1))
    else
      Err(())
  }

  /** `Node::set_node_value(Some(text))`. */
  function SetNodeValue(d: Dom, node: NodeId, text: string): (r: Dom)
    ensures node in r.values && r.values[node] == text
    ensures forall id :: id != node ==> (id in r.values <==> id in d.values)
    ensures forall id :: id != node && id in d.values ==> r.values[id] == d.values[id]
    ensures r.children == d.children && r.nextId == d.nextId && r.writes == d.writes + 1
  {
    d.(values := d.values[node := text], writes := d.writes + 1)
  }

  /** Inserting a node that was handed out by the allocator and is not yet a
      child keeps the state valid. */
  lemma InsertNodeKeepsValid(d: Dom, node: NodeId, nextSibling: Option<NodeId>)
    requires Valid(d) && node < d.nextId && node !in d.children
    ensures InsertNode(d, node, nextSibling).Done? ==> Valid(InsertNode(d, node, nextSibling).value)
  {
    var r := InsertNode(d, node, nextSibling);
    if r.Done? {
      var c := r.value.children;
      forall i, j | 0 <= i < j < |c|
        ensures c[i] != c[j]
      {
        assert c[i] in multiset(c) && c[j] in multiset(c);
        if c[i] == c[j] {
          NoDuplicatesCount(d.children, c[i]);
          CountTwice(c, i, j);
        }
      }
      forall i | 0 <= i < |c|
        ensures c[i] < r.value.nextId
      {
        assert c[i] in multiset(c);
        assert c[i] == node || c[i] in d.children;
      }
    }
  }

  /** Removing a child keeps the state valid. */
  lemma RemoveChildKeepsValid(d: Dom, child: NodeId)
    requires Valid(d)
    ensures RemoveChild(d, child).Ok? ==> Valid(RemoveChild(d, child).value)
  {
    if child in d.children {
      var k := IndexOf(d.children, child);
      var c := RemoveChild(d, child).value.children;
      assert c == d.children[..k] + d.children[k + 1..];
      forall i, j | 0 <= i < j < |c|
        ensures c[i] != c[j]
      {
        var i' := if i < k then i else i + 1;
        var j' := if j < k then j else j + 1;
        assert c[i] == d.children[i'] && c[j] == d.children[j'];
      }
    }
  }

  /** Without duplicates, every element occurs exactly once. */
  lemma NoDuplicatesCount(s: seq<NodeId>, x: NodeId)
    requires NoDuplicates(s)
    ensures multiset(s)[x] <= 1
  {
    if |s| > 0 {
      assert s == [s[0]] + s[1..];
      NoDuplicatesCount(s[1..], x);
      if s[0] == x {
        assert x !in s[1..];
      }
    }
  }

  /** An element at two positions occurs at least twice. */
  lemma CountTwice(s: seq<NodeId>, i: nat, j: nat)
    requires i < j < |s| && s[i] == s[j]
    ensures multiset(s)[s[i]] >= 2
  {
    assert s == s[..j] + s[j..];
    assert s[i] in s[..j];
    assert s[j] in s[j..];
    assert multiset(s) == multiset(s[..j]) + multiset(s[j..]);
  }

  /** Removing a freshly inserted node restores the parent's child list:
      `insert_node` and `remove_child` are inverse on the children. */
  lemma {:induction false} InsertThenRemoveRestores(d: Dom, node: NodeId, nextSibling: Option<NodeId>)
    requires node !in d.children
    requires InsertNode(d, node, nextSibling).Done?
    ensures RemoveChild(InsertNode(d, node, nextSibling).value, node)
            == Ok(d.(writes := d.writes + 2))
  {
    var inserted := InsertNode(d, node, nextSibling).value;
    var k := InsertPosition(d.children, nextSibling);
    var c := inserted.children;
    assert c == InsertAt(d.children, node, k);
    assert c[..k] == d.children[..k];
    assert node !in d.children[..k];
    IndexOfUnique(c, k);
    assert c[..k] + c[k + 1..] == d.children[..k] + d.children[k..];
    assert d.children[..k] + d.children[k..] == d.children;
    assert RemoveChild(inserted, node) == Ok(inserted.(children := c[..k] + c[k + 1..], writes := inserted.writes + 1));
  }
}
