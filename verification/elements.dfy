/** The host element as the event handlers see it, and the payloads they build.

    Host handles (`FileList`, `InputEvent`, the element itself) are opaque
    tokens. An element's runtime class decides which casts succeed
    (`dyn_ref::<InputElement>()` and friends); its `nodeName` is a separate
    string that, in a real document, agrees with the class but need not here.
 */
module Elements {
  import opened Outcomes

  /** The runtime class of an element: which of the typed casts succeed. */
  datatype ElementKind = InputKind | TextAreaKind | SelectKind | OtherKind

  /** An opaque `FileList` handle. */
  datatype FileList = FileList(handle: nat)

  /** An opaque `InputEvent` handle. */
  datatype InputEvent = InputEvent(handle: nat)

  /** A host element.
      - `value`: what `value()` returns once cast to an input or a textarea;
      - `typeAttr`: `get_attribute("type")`;
      - `files`: `files()` of an input element;
      - `textContent`: `text_content()`. */
  datatype Element = Element(
    handle: nat,
    nodeName: string,
    kind: ElementKind,
    value: string,
    typeAttr: Option<string>,
    files: Option<FileList>,
    textContent: Option<string>)

  /** Data of an `oninput` event: the current value and the event received. */
  datatype InputData = InputData(value: string, event: InputEvent)

  /** Data of an `onchange` event. */
  datatype ChangeData =
    | Value(value: string)       // an <input> or a <textarea>
    | Select(element: Element)   // a <select>
    | Files(files: FileList)     // an <input type="file">

  /** `this.dyn_ref::<InputElement>().map(|input| input.value())`. */
  function InputValue(e: Element): (r: Option<string>)
    ensures r.Some? <==> e.kind == InputKind
    ensures r.Some? ==> r.value == e.value
  {
    if e.kind == InputKind then Some(e.value) else None
  }

  /** `this.dyn_ref::<TextAreaElement>().map(|input| input.value())`. */
  function TextAreaValue(e: Element): (r: Option<string>)
    ensures r.Some? <==> e.kind == TextAreaKind
    ensures r.Some? ==> r.value == e.value
  {
    if e.kind == TextAreaKind then Some(e.value) else None
  }
}
