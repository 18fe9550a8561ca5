/** The event handlers of the listener module: `oninput_handler` and
    `onchange_handler` (a second copy of the backend's change classification).
 */
module Listener {
  import opened Outcomes
  import opened Elements
  import Backend

  /** Panic message for an element that cannot produce an input payload. */
  const OnInputMsg: string :=
    "only an InputElement or TextAreaElement or an element with contenteditable=true can have an oninput event listener"

  /** The first candidate that holds a value: the meaning of a chain of `Option::or`. */
  function FirstAvailable(candidates: seq<Option<string>>): (r: Option<string>)
    ensures r.None? <==> forall i :: 0 <= i < |candidates| ==> candidates[i].None?
    ensures r.Some? ==>
      exists i :: 0 <= i < |candidates| && candidates[i] == r &&
        forall j :: 0 <= j < i ==> candidates[j].None?
  {
    if |candidates| == 0 then None
    else if candidates[0].Some? then candidates[0]
    else
      var rest := FirstAvailable(candidates[1..]);
      assert forall i :: 1 <= i < |candidates| ==> candidates[i] == candidates[1..][i - 1];
      rest
  }

  /** `oninput_handler`: the input's value, else the textarea's value, else the
      element's text content, else a panic. */
  function OnInputHandler(el: Element, event: InputEvent): (r: Outcome<InputData>)
    ensures r.Done? ==> r.value.event == event
    ensures el.kind == InputKind ==> r == Done(InputData(el.value, event))
    ensures el.kind == TextAreaKind ==> r == Done(InputData(el.value, event))
    ensures el.kind !in {InputKind, TextAreaKind} && el.textContent.Some? ==>
      r == Done(InputData(el.textContent.value, event))
    ensures r.Fatal? <==> el.kind !in {InputKind, TextAreaKind} && el.textContent.None?
    ensures r.Fatal? ==> r.msg == OnInputMsg
  {
    var v1 := InputValue(el);
    var v2 := TextAreaValue(el);
    var v3 := el.textContent;
    match v1.Or(v2).Or(v3)
    case Some(value) => Done(InputData(value, event))
    case None => Fatal(OnInputMsg)
  }

  /** The `Option::or` chain of `oninput_handler` takes the first available of
      the three interpretations, in precedence order. */
  lemma OnInputHandlerIsFirstAvailable(el: Element, event: InputEvent)
    ensures OnInputHandler(el, event) ==
      match FirstAvailable([InputValue(el), TextAreaValue(el), el.textContent])
      case None => Fatal(OnInputMsg)
      case Some(value) => Done(InputData(value, event))
  {
    var c := [InputValue(el), TextAreaValue(el), el.textContent];
    assert c[1..] == [TextAreaValue(el), el.textContent];
    assert c[1..][1..] == [el.textContent];
    assert c[1..][1..][1..] == [];
    assert FirstAvailable(c[1..][1..]) == el.textContent;
    assert FirstAvailable(c[1..]) == TextAreaValue(el).Or(el.textContent);
    assert FirstAvailable(c) == InputValue(el).Or(TextAreaValue(el)).Or(el.textContent);
  }

  /** `onchange_handler`: the same code as the backend's `base_onchange_handler`. */
  function OnChangeHandler(el: Element): (r: Outcome<ChangeData>)
    ensures r == Backend.BaseOnChangeHandler(el)
  {
    Backend.BaseOnChangeHandler(el)
  }
}
