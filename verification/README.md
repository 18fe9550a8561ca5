# Yew virtual text nodes and event normalisation, in Dafny

This project models two small pieces of the Yew web framework's DOM layer:

- **Reconciling a virtual text node (`VText`)** against the live DOM.
  - `VText::new` builds an unmounted node.
  - `detach` takes the node's live text node and removes it from the parent. A node that is no longer a child is only warned about.
  - `apply` handles three cases:
    - a text ancestor: it adopts the ancestor's live node and writes the value only if the text changed;
    - an ancestor of another variant: it detaches that ancestor, then creates fresh;
    - no ancestor: it creates a live text node and inserts it before the next sibling.
  - Two `VText`s are equal when their texts are equal.
- **Normalising `oninput` / `onchange` events.**
  - The input value comes from a fixed fallback chain: the input's value, then the textarea's value, then the text content. If none is available, it panics.
  - The change payload is `Value`, `Select` or `Files`, chosen by the node name and, for an input, by the `type` attribute compared ignoring ASCII case. Any other node name panics.
  - The copies of this logic in the listener module and in the `web_sys` backend are modelled once, and each entry point is stated equal to the shared function.

A Rust panic (`panic!`, `expect`, `unwrap` on `None`, `todo!`) is modelled as the distinguished outcome `Fatal(msg)`, with the source's message (the one exception is the assumed `insert_node` failure, below). It is never a precondition. The DOM is modelled abstractly:

- a map from text-node id to its value, covering every text node the document has created;
- the ordered child list of the one parent being reconciled;
- an id allocator;
- a count of writes (insertions, removals and value updates).

Modules:

| file | module | models |
|---|---|---|
| outcomes.dfy | `Outcomes` | `Outcome` (`Done` / `Fatal`), `Option`, `Result`, standard panic messages |
| ascii_case.dfy | `AsciiCase` | `to_ascii_lowercase`, `eq_ignore_ascii_case` |
| dom.dfy | `Dom` | text-node creation, `insert_node`, `remove_child`, `set_node_value` |
| elements.dfy | `Elements` | the host element record, `InputData`, `ChangeData`, the typed casts |
| backend.dfy | `Backend` | `base_onchange_handler` |
| listener.dfy | `Listener` | `oninput_handler`, `onchange_handler` |
| web_sys.dfy | `WebSys` | `Renderer::oninput_handler`, `Renderer::onchange_handler`, the error mapping of `get_origin` / `get_host` |
| vtext.dfy | `VirtualText` | `VText`, `VNode`, `new`, `detach`, `apply`, `eq` |
| vtext_properties.dfy | `VirtualTextProperties` | the state machine and write-count properties of `VText` |

Where the code and its design description disagree, the model follows the code:

- **The fresh path of `apply` creates and inserts a text node twice** (vtext.rs:69-72). `Apply` models this as written. `ApplyCorrected` uses a single create+insert (see Findings).
- **Several backend functions are stubs.** `get_window` and `get_document` end in `todo!()` in this backend, so they would panic before the fresh path or a location read. The model takes the document state (`Dom`) and the window's `Location` as parameters. The success paths of `get_origin` and `get_host` also end in `todo!()`, and they are modelled as `Fatal("not yet implemented")`.

## Model

| member | source | states |
|---|---|---|
| VirtualText.New | packages/yew/src/virtual_dom/vtext.rs:24-29 | a new node holds the given text and has no live reference |
| VirtualText.Equal | packages/yew/src/virtual_dom/vtext.rs:78-82 | two nodes are equal iff they are equal as values once their live references are forgotten, whatever either reference is |
| VirtualText.TakeReference | packages/yew/src/virtual_dom/vtext.rs:35-37 | `take` hands out the node's reference and leaves `None` behind with the text unchanged |
| VirtualText.Detach | packages/yew/src/virtual_dom/vtext.rs:34-42 | fatal ("tried to remove not rendered VText from DOM") iff the reference is `None`; otherwise the node is left unmounted with its text; its live node is removed from the parent's children (one occurrence, one write), the other children keeping their order; if it was not a child, the DOM is unchanged and the outcome is still success |
| VirtualText.DetachNode | packages/yew/src/virtual_dom/vtext.rs:66 | `VNode::detach` of a text node is fatal iff it is unrendered, and otherwise returns the DOM that the text node's own detach leaves; a node of another variant is detached by its own (supplied) code |
| VirtualText.AdoptAncestor | packages/yew/src/virtual_dom/vtext.rs:53-63 | fatal ("Rendered VText nodes should have a ref") iff the ancestor has no reference; otherwise the node takes the ancestor's reference and returns a handle to it; the DOM is unchanged iff the texts are equal; otherwise exactly that node's value becomes the new text (one write, children unchanged); a mounted ancestor leaves a mounted node |
| VirtualText.CreateAndInsert | packages/yew/src/virtual_dom/vtext.rs:69-70 | creating and inserting a text node fails iff a next sibling is set but is not a child; otherwise the node gets the next free id, shows the text, and is added once to the children: appended when no sibling is set, placed right before the sibling otherwise, all other children keeping their order; one write |
| VirtualText.CreateFreshAsWritten | packages/yew/src/virtual_dom/vtext.rs:69-74 | the fresh path fails iff the sibling is set but not a child; otherwise the node records the SECOND of the two ids it allocates and returns a handle to it |
| VirtualText.CreateFreshOnce | packages/yew/src/virtual_dom/vtext.rs:69-74 | the corrected fresh path records the single id it allocates and returns a handle to it |
| VirtualText.Apply | packages/yew/src/virtual_dom/vtext.rs:45-75 | after any successful apply the node keeps its text, has a reference, and the returned handle points to that same node |
| VirtualText.ApplyCorrected | packages/yew/src/virtual_dom/vtext.rs:45-75 | same guarantee for the corrected reconciliation |
| Dom.CreateTextNode | packages/yew/src/virtual_dom/vtext.rs:69 | document creation allocates an id not in use (on a valid DOM), stores the text under it, leaves the children alone and makes no write |
| Dom.InsertNode | packages/yew/src/virtual_dom/vtext.rs:70-72 | assumed contract of `insert_node`: append when no sibling is set, otherwise insert right before the sibling (prefix and suffix kept); fatal iff the sibling is not a child; one write; children gain exactly the node |
| Dom.RemoveChild | packages/yew/src/virtual_dom/vtext.rs:39 | removal fails iff the node is not a child; otherwise exactly that occurrence leaves the children, the children before and after it keeping their order, with one write |
| Dom.SetNodeValue | packages/yew/src/virtual_dom/vtext.rs:60 | the node's value becomes the text, every other node keeps its value, children unchanged, one write |
| Dom.InsertNodeKeepsValid | packages/yew/src/virtual_dom/vtext.rs:70-72 | inserting an allocated node that is not yet a child keeps ids allocated and children duplicate-free |
| Dom.RemoveChildKeepsValid | packages/yew/src/virtual_dom/vtext.rs:39 | removing a child keeps the DOM valid |
| Dom.InsertThenRemoveRestores | packages/yew/src/virtual_dom/vtext.rs:39-41 | removing a node just inserted restores the parent's children exactly (two writes counted) |
| VirtualTextProperties.CreateAndInsertKeepsValid | packages/yew/src/virtual_dom/vtext.rs:69-70 | a create+insert keeps the DOM valid and adds a node that was in use nowhere before |
| VirtualTextProperties.CreateAndInsertTwice | packages/yew/src/virtual_dom/vtext.rs:69-72 | two create+inserts in a row both succeed when the sibling is a child (or unset) and add two distinct new children showing the text, with two writes; the two new nodes sit side by side, first then second, at the end or right before the sibling |
| VirtualTextProperties.CreateAndInsertTwiceBeforeSibling | packages/yew/src/virtual_dom/vtext.rs:69-72 | with a set sibling, the two create+inserts leave the prefix before the sibling, then the first and the second new node, then the sibling and the rest |
| VirtualTextProperties.CreateAndInsertTwiceAddsBoth | packages/yew/src/virtual_dom/vtext.rs:69-72 | on a valid DOM, both nodes of the two create+inserts were not children before and are children afterwards |
| VirtualTextProperties.CreateAndInsertTwiceKeepsValid | packages/yew/src/virtual_dom/vtext.rs:69-72 | the two create+inserts succeed and keep the DOM valid |
| VirtualTextProperties.ApplyFreshInsertsTwice | packages/yew/src/virtual_dom/vtext.rs:69-74 | as written, apply with no ancestor inserts two fresh live nodes, both showing the text, placed first then second at the end (no sibling) or right before the sibling, and records only the second |
| VirtualTextProperties.ApplyCorrectedInsertsOnce | packages/yew/src/virtual_dom/vtext.rs:69-74 | the corrected apply with no ancestor inserts exactly one fresh node, the one it records, at the end (no sibling) or right before the sibling, with one write, and leaves it mounted |
| VirtualTextProperties.NewThenApplyMounts | packages/yew/src/virtual_dom/vtext.rs:24-29 | unmounted to mounted: a new node applied with no ancestor becomes mounted, its live node showing its text, and the DOM stays valid |
| VirtualTextProperties.ApplyOverTextAncestor | packages/yew/src/virtual_dom/vtext.rs:53-63 | mounted to mounted: over a mounted text ancestor, apply keeps the same live node, leaves the children alone, leaves the DOM unchanged iff the texts are equal, and otherwise makes one write |
| VirtualTextProperties.ApplyOverUnrenderedAncestorIsFatal | packages/yew/src/virtual_dom/vtext.rs:54-58 | a text ancestor with no reference makes apply fatal with the "should have a ref" message |
| VirtualTextProperties.ApplyDetachesOtherAncestorFirst | packages/yew/src/virtual_dom/vtext.rs:52-69 | an ancestor of another variant is detached before any creation: a failing detach is returned with nothing created; otherwise the outcome is exactly the fresh path run on the DOM the detach left, which fails iff the sibling is not a child of that DOM and records a node freshly allocated after the detach |
| VirtualTextProperties.DetachUnmounts | packages/yew/src/virtual_dom/vtext.rs:34-41 | mounted to unmounted: detaching a mounted node removes exactly its live node from the children, every other child staying in its order, forgets the reference, and keeps the DOM valid |
| VirtualTextProperties.DetachMissingChildIsHarmless | packages/yew/src/virtual_dom/vtext.rs:39-41 | detaching a node whose live node is not a child succeeds, unmounts it and leaves the DOM unchanged |
| VirtualTextProperties.DetachUnrenderedIsFatal | packages/yew/src/virtual_dom/vtext.rs:35-38 | detaching a never-rendered node is fatal |
| VirtualTextProperties.RenderThenUpdateCorrected | packages/yew/src/virtual_dom/vtext.rs:52-74 | rendering a text and then updating it to a different one costs one write each and leaves a single live node showing the new text, appended to the parent |
| VirtualTextProperties.UpdateAfterDoubleInsert | packages/yew/src/virtual_dom/vtext.rs:52-74 | after the double insertion, an update to a different text rewrites only the second live node, so the first keeps showing the old text |
| VirtualTextProperties.RenderThenUpdateAsWritten | packages/yew/src/virtual_dom/vtext.rs:52-74 | as written, the first render costs two writes and the update one more, and the parent ends up with two live nodes showing the old text and then the new one |
| AsciiCase.ToAsciiLowercase | packages/yew/src/backend/mod.rs:81 | folding never yields an upper-case ASCII letter, changes exactly the upper-case ASCII letters, and shifts them by the ASCII case offset |
| AsciiCase.ToAsciiLower | packages/yew/src/backend/mod.rs:81 | string folding keeps the length and folds each character |
| AsciiCase.EqIgnoreAsciiCaseIffLowerEqual | packages/yew/src/backend/mod.rs:81 | the pairwise case-insensitive comparison holds iff the two folded strings are equal |
| AsciiCase.EqIgnoreAsciiCaseIsEquivalence | packages/yew/src/backend/mod.rs:81 | case-insensitive equality is reflexive, symmetric and transitive |
| AsciiCase.EqIgnoreCaseFileIff | packages/yew/src/backend/mod.rs:79-82 | a `type` value equals "file" ignoring ASCII case iff it has four letters spelling f, i, l, e in either case |
| Elements.InputValue | packages/yew/src/html/listener/mod.rs:79 | the input cast yields a value iff the element is an input element, and then it is the element's value |
| Elements.TextAreaValue | packages/yew/src/html/listener/mod.rs:80 | the textarea cast yields a value iff the element is a textarea, and then it is the element's value |
| Backend.IsFileType | packages/yew/src/backend/mod.rs:79-82 | the `type` attribute marks a file input iff it is present and folds to "file" in ASCII lower case |
| Backend.ExpectedKind | packages/yew/src/backend/mod.rs:73-112 | exactly the node names "INPUT", "TEXTAREA", "SELECT" are accepted |
| Backend.BaseOnChangeHandler | packages/yew/src/backend/mod.rs:72-114 | `Files` iff name "INPUT", an input element, `type` equal to "file" ignoring ASCII case, and a file list (returned as is); `Value(value)` iff a non-file input (missing `type` included) or a textarea; `Select(element)` iff a select; the handler's panic iff any other (exactly compared) name; the `unwrap` panic iff an accepted name on an element of another class, or a file input without a file list |
| Backend.ChangeIgnoresTypeCase | packages/yew/src/backend/mod.rs:79-82 | re-spelling the `type` attribute in another ASCII case never changes the outcome |
| Backend.ChangeDependsOnlyOnClassifyingFields | packages/yew/src/backend/mod.rs:72-114 | the classification reads only the node name, the element class, whether `type` is "file", the file list and the value |
| Backend.ChangeOutcomePartition | packages/yew/src/backend/mod.rs:73-113 | the Files, Value and Select cases exclude each other, and the handler panics iff none applies, with one of its two panic messages |
| Backend.ChangeExamples | packages/yew/src/backend/mod.rs:73-88 | `type="File"` gives `Files`; a missing or "text" `type` gives `Value`; node name "input" in lower case panics; a "TEXTAREA" name on an input element hits the `unwrap` |
| Listener.FirstAvailable | packages/yew/src/html/listener/mod.rs:85 | a chain of `Option::or` is empty iff every candidate is, and otherwise is the first candidate holding a value |
| Listener.OnInputHandler | packages/yew/src/html/listener/mod.rs:55-90 | an input element gives its value; otherwise a textarea gives its value; otherwise the text content; fatal with the handler's message iff the element is neither and has no text content; the event is carried unchanged |
| Listener.OnInputHandlerIsFirstAvailable | packages/yew/src/html/listener/mod.rs:79-87 | the handler's value is the first available of input value, textarea value, text content, in that order |
| Listener.OnChangeHandler | packages/yew/src/html/listener/mod.rs:92-140 | the listener's change handler equals the backend's `base_onchange_handler` on every element |
| WebSys.OnInputHandler | packages/yew/src/backend/web_sys.rs:82-92 | the backend's input handler equals the listener's on every element and event |
| WebSys.OnChangeHandler | packages/yew/src/backend/web_sys.rs:94-96 | the backend's change handler returns exactly `base_onchange_handler(this)` |
| WebSys.LocationErrorMessage | packages/yew/src/backend/web_sys.rs:105-108 | the error message is the host's string when the error is one, else "error not recoverable" |
| WebSys.LocationPart | packages/yew/src/backend/web_sys.rs:104-110 | a failed location read returns an error carrying that message; a successful one reaches `todo!()` |
| WebSys.GetOrigin | packages/yew/src/backend/web_sys.rs:103-111 | `get_origin` returns the mapped error of a failed `origin()` and panics on success |
| WebSys.GetHost | packages/yew/src/backend/web_sys.rs:113-121 | `get_host` returns the mapped error of a failed `host()` and panics on success |
| WebSys.FallbackIffNoHostMessage | packages/yew/src/backend/web_sys.rs:115-118 | the fallback message appears iff the host's error is not a string (or is that very string) |

## Left out

- `get_window`, `get_document`: they end in `todo!()` in this backend. The document's state is a `Dom` parameter and the window's location is a `Location` parameter.
- `element_as_node`, `element_last_child`, `element_remove_child`, `cast_node_ref`: `todo!()` stubs with no behaviour.
- The `DomBackend` trait as an interface: only one backend is modelled, so its associated types are the datatypes of `Elements` and `Dom`, and its operations are functions of `WebSys`, `Backend` and `Dom`.
- `insert_node` is not part of this model. Its behaviour is the assumed contract of `Dom.InsertNode`: insert before the sibling, or append. A sibling that is not a child is fatal, as the host's `insertBefore` would fail. Its message, `Dom.InsertBeforeFailedMsg`, is not taken from any source in this model: it stands for whatever the assumed `insert_node` reports.
- Other `VNode` variants (element, list, component): their `detach` is a function parameter supplied by the caller.
- Several parents: the DOM has the single parent being reconciled, so `parent` is implicit. `apply` over a text ancestor does not check that the adopted node is a child of that parent, and neither does the source.
- After `take`, the ancestor's state is not part of `Apply`'s result, because the source consumes and drops the ancestor. `TakeReference` states what `take` leaves behind.
- `NodeRef` is a shared mutable cell in the source. Here it is a value, since nothing changes it between the two `get()` calls of the fresh path.
- The `EventListener` `Drop` (resource cleanup), `log::warn!` output, the `Cow` representation of the text, and `AnyScope` (unused by `apply`).
- `cfg_if!` / `cfg_match!` feature selection, the `static_render` `unimplemented!()` arms, and the difference between the std_web and web_sys bindings (`raw_value` vs `value`). One abstract `value` stands for both.
- The contents of `FileList`, `SelectElement` and `InputEvent`: opaque tokens.
- packages/yew/src/utils.rs: entirely commented out.
- examples/npm_and_rest/src/ccxt.rs: a JavaScript foreign call.
- Strings are sequences of characters. Rust's `eq_ignore_ascii_case` works on UTF-8 bytes. Folding only touches ASCII bytes, so the byte-wise and character-wise relations coincide.

## Findings

| source | as written | input that shows it | evidently intended | confidence | as-written member | corrected member |
|---|---|---|---|---|---|---|
| packages/yew/src/virtual_dom/vtext.rs:69-72 | the fresh path creates and inserts a text node, then creates and inserts a second one and records only the second | `Apply(New("a"), d, NodeRef(None), None, f)` on a parent with no children leaves two children, both showing "a". A later update to "b" reaches only the second, so the parent shows "a" then "b" (`RenderThenUpdateAsWritten`) | one create and one insert per fresh apply | high; not executed | VirtualTextProperties.ApplyFreshInsertsTwice | VirtualTextProperties.ApplyCorrectedInsertsOnce |
