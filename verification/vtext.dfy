/** The virtual text node `VText` and its reconciliation against the live DOM.

    A `VText` is unmounted (`reference == None`) until `Apply` gives it a live
    text node; `Apply` against a text ancestor keeps that node and writes its
    value only when the text changed; `Detach` removes the live node from the
    parent and forgets it.

    The fresh path of `Apply` is modelled as the source writes it: it creates
    and inserts a live text node twice and records only the second one.
    `ApplyCorrected` is the same reconciliation with a single create+insert.
 */
module VirtualText {
  import opened Outcomes
  import opened Dom

  /** A `NodeRef`: a non-owning handle that may point at a live node. */
  datatype NodeRef = NodeRef(node: Option<NodeId>)

  /** A virtual text node: its text and, once rendered, its live text node. */
  datatype VText = VText(text: string, reference: Option<NodeId>)

  /** A virtual node of any other variant (element, list, component), kept opaque. */
  datatype OtherNode = OtherNode(handle: nat)

  /** `VNode`, reduced to the text variant and one opaque case for the others. */
  datatype VNode = Text(vtext: VText) | Other(other: OtherNode)

  /** How a node of another variant detaches itself from the parent; its code is
      not part of this model, so callers supply it. */
  type DetachOther = (OtherNode, Dom) -> Outcome<Dom>

  const NotRenderedMsg: string := "tried to remove not rendered VText from DOM"
  const NoRefMsg: string := "Rendered VText nodes should have a ref"

  /** `VText::new`: an unmounted node holding `text`. */
  function New(text: string): (v: VText)
    ensures v.text == text
    ensures v.reference.None?
  {
    VText(text, None)
  }

  /** `PartialEq::eq`: two virtual text nodes are equal when they are equal as
      values once their live references are forgotten. */
  predicate Equal(a: VText, b: VText)
    ensures Equal(a, b) <==> a.(reference := None) == b.(reference := None)
  {
    a.text == b.text
  }

  /** The result of `Option::take` on a node's reference. */
  datatype Taken = Taken(reference: Option<NodeId>, rest: VText)

  /** `reference.take()`: hands out the reference and leaves `None` behind. */
  function TakeReference(v: VText): (r: Taken)
    ensures r.reference == v.reference
    ensures r.rest.reference.None? && r.rest.text == v.text
  {
    Taken(v.reference, v.(reference := None))
  }

  /** The node is rendered: its live node exists, shows its text and is a child of the parent. */
  predicate Mounted(v: VText, d: Dom) {
    && v.reference.Some?
    && v.reference.value in d.values
    && d.values[v.reference.value] == v.text
    && v.reference.value in d.children
  }

  datatype Detached = Detached(node: VText, dom: Dom)

  /** `VDiff::detach` of a `VText`. A node that is not a child of the parent is
      only warned about: the outcome is the same as a successful removal. */
  function Detach(v: VText, d: Dom): (r: Outcome<Detached>)
    ensures r.Fatal? <==> v.reference.None?
    ensures r.Fatal? ==> r.msg == NotRenderedMsg
    ensures r.Done? ==> r.value.node == New(v.text)
    ensures r.Done? ==> r.value.dom.values == d.values && r.value.dom.nextId == d.nextId
    ensures r.Done? && v.reference.value in d.children ==>
      && multiset(r.value.dom.children) == multiset(d.children) - multiset{v.reference.value}
      && r.value.dom.writes == d.writes + 1
    ensures r.Done? && v.reference.value in d.children ==>
      var k := IndexOf(d.children, v.reference.value);
      r.value.dom.children == d.children[..k] + d.children[k + 1..]
    ensures r.Done? && v.reference.value !in d.children ==> r.value.dom == d
  {
    var taken := TakeReference(v);
    match taken.reference
    case None => Fatal(NotRenderedMsg)
    case Some(node) =>
      match RemoveChild(d, node)
      case Ok(removed) => Done(Detached(taken.rest, removed))
      case Err(_) => Done(Detached(taken.rest, d))
  }

  /** `VNode::detach`, dispatching on the variant. */
  function DetachNode(n: VNode, d: Dom, detachOther: DetachOther): (r: Outcome<Dom>)
    ensures n.Text? ==> (r.Fatal? <==> n.vtext.reference.None?)
    ensures n.Text? && r.Done? ==> r.value == Detach(n.vtext, d).value.dom
    ensures n.Other? ==> r == detachOther(n.other, d)
  {
    match n
    case Text(v) =>
      (match Detach(v, d)
       case Fatal(msg) => Fatal(msg)
       case Done(detached) => Done(detached.dom))
    case Other(o) => detachOther(o, d)
  }

  /** What `apply` gives back: the updated node, the DOM, and a handle to the live node. */
  datatype Applied = Applied(node: VText, dom: Dom, nodeRef: NodeRef)

  /** The text-ancestor branch of `apply`: take over the ancestor's live node and
      write its value only when the text changed. */
  function AdoptAncestor(self: VText, ancestor: VText, d: Dom): (r: Outcome<Applied>)
    ensures r.Fatal? <==> ancestor.reference.None?
    ensures r.Fatal? ==> r.msg == NoRefMsg
    ensures r.Done? ==> && r.value.node == VText(self.text, ancestor.reference)
                        && r.value.nodeRef == NodeRef(ancestor.reference)
    ensures r.Done? ==> (r.value.dom == d <==> self.text == ancestor.text)
    ensures r.Done? && self.text != ancestor.text ==>
      && r.value.dom.values == d.values[ancestor.reference.value := self.text]
      && r.value.dom.children == d.children && r.value.dom.nextId == d.nextId
      && r.value.dom.writes == d.writes + 1
    ensures r.Done? && Mounted(ancestor, d) ==> Mounted(r.value.node, r.value.dom)
  {
    var taken := TakeReference(ancestor);
    var adopted := self.(reference := taken.reference);
    match adopted.reference
    case None => Fatal(NoRefMsg)
    case Some(textNode) =>
      var d' := if self.text != ancestor.text then SetNodeValue(d, textNode, self.text) else d;
      Done(Applied(adopted, d', NodeRef(Some(textNode))))
  }

  /** `create_text_node(&self.text)` followed by `insert_node(.., parent, next_sibling.get())`. */
  function CreateAndInsert(d: Dom, text: string, nextSibling: NodeRef): (r: Outcome<Created>)
    ensures r.Fatal? <==> nextSibling.node.Some? && nextSibling.node.value !in d.children
    ensures r.Fatal? ==> r.msg == InsertBeforeFailedMsg
    ensures r.Done? ==> && r.value.node == d.nextId
                        && r.value.dom.values == d.values[d.nextId := text]
                        && r.value.dom.nextId == d.nextId + 1
                        && r.value.dom.writes == d.writes + 1
    ensures r.Done? ==> multiset(r.value.dom.children) == multiset(d.children) + multiset{r.value.node}
    ensures r.Done? && nextSibling.node.None? ==> r.value.dom.children == d.children + [d.nextId]
    ensures r.Done? && nextSibling.node.Some? ==> nextSibling.node.value in r.value.dom.children
    // with a sibling set, the new node goes right before the sibling's position
    ensures r.Done? && nextSibling.node.Some? ==>
      var k := IndexOf(d.children, nextSibling.node.value);
      r.value.dom.children == d.children[..k] + [d.nextId] + d.children[k..]
  {
    var created := CreateTextNode(d, text);
    match InsertNode(created.dom, created.node, nextSibling.node)
    case Fatal(msg) => Fatal(msg)
    case Done(inserted) => Done(Created(created.node, inserted))
  }

  /** The fresh branch of `apply` as the source writes it: create and insert a
      text node, then create and insert a second one and record only that one. */
  function CreateFreshAsWritten(self: VText, d: Dom, nextSibling: NodeRef): (r: Outcome<Applied>)
    ensures r.Fatal? <==> nextSibling.node.Some? && nextSibling.node.value !in d.children
    ensures r.Done? ==> && r.value.node == VText(self.text, Some(d.nextId + 1))
                        && r.value.nodeRef == NodeRef(Some(d.nextId + 1))
  {
    match CreateAndInsert(d, self.text, nextSibling)
    case Fatal(msg) => Fatal(msg)
    case Done(first) =>
      match CreateAndInsert(first.dom, self.text, nextSibling)
      case Fatal(msg) => Fatal(msg)
      case Done(second) =>
        Done(Applied(self.(reference := Some(second.node)), second.dom, NodeRef(Some(second.node))))
  }

  /** The fresh branch with a single create+insert. */
  function CreateFreshOnce(self: VText, d: Dom, nextSibling: NodeRef): (r: Outcome<Applied>)
    ensures r.Fatal? <==> nextSibling.node.Some? && nextSibling.node.value !in d.children
    ensures r.Done? ==> && r.value.node == VText(self.text, Some(d.nextId))
                        && r.value.nodeRef == NodeRef(Some(d.nextId))
  {
    match CreateAndInsert(d, self.text, nextSibling)
    case Fatal(msg) => Fatal(msg)
    case Done(created) =>
      Done(Applied(self.(reference := Some(created.node)), created.dom, NodeRef(Some(created.node))))
  }

  /** `VDiff::apply` of a `VText`, as written: adopt a text ancestor, or detach an
      ancestor of another variant and create fresh, or create fresh. */
  function Apply(self: VText, d: Dom, nextSibling: NodeRef, ancestor: Option<VNode>,
                 detachOther: DetachOther): (r: Outcome<Applied>)
    ensures r.Done? ==> && r.value.node.text == self.text
                        && r.value.node.reference.Some?
                        && r.value.nodeRef == NodeRef(r.value.node.reference)
  {
    if ancestor.Some? && ancestor.value.Text? then
      AdoptAncestor(self, ancestor.value.vtext, d)
    else
      var detached := if ancestor.Some? then DetachNode(ancestor.value, d, detachOther) else Done(d);
      match detached
      case Fatal(msg) => Fatal(msg)
      case Done(d') => CreateFreshAsWritten(self, d', nextSibling)
  }

  /** `apply` with the fresh branch creating and inserting one node only. */
  function ApplyCorrected(self: VText, d: Dom, nextSibling: NodeRef, ancestor: Option<VNode>,
                          detachOther: DetachOther): (r: Outcome<Applied>)
    ensures r.Done? ==> && r.value.node.text == self.text
                        && r.value.node.reference.Some?
                        && r.value.nodeRef == NodeRef(r.value.node.reference)
  {
    if ancestor.Some? && ancestor.value.Text? then
      AdoptAncestor(self, ancestor.value.vtext, d)
    else
      var detached := if ancestor.Some? then DetachNode(ancestor.value, d, detachOther) else Done(d);
      match detached
      case Fatal(msg) => Fatal(msg)
      case Done(d') => CreateFreshOnce(self, d', nextSibling)
  }
}
