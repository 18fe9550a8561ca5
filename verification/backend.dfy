/** The backend-independent `onchange` classification (`base_onchange_handler`).

    The element's node name picks the branch; the typed cast that follows is
    unwrapped, so a node name whose runtime class does not match is fatal.
    For an input, a `type` attribute equal to "file" in any ASCII case selects
    the file list, which is unwrapped too.
 */
module Backend {
  import opened Outcomes
  import opened AsciiCase
  import opened Elements

  /** Panic message for an element kind that cannot produce a change payload. */
  const OnChangeMsg: string :=
    "only an InputElement, TextAreaElement or SelectElement can have an onchange event listener"

  /** `get_attribute("type").map(|v| v.eq_ignore_ascii_case("file")).unwrap_or(false)`. */
  predicate IsFileType(typeAttr: Option<string>)
    ensures IsFileType(typeAttr) <==> typeAttr.Some? && ToAsciiLower(typeAttr.value) == "file"
  {
    match typeAttr
    case None => false
    case Some(t) =>
      EqIgnoreAsciiCaseIffLowerEqual(t, "file");
      assert ToAsciiLower("file") == "file";
      EqIgnoreAsciiCase(t, "file")
  }

  /** The runtime class each accepted node name is cast to; `None` for the
      names the handler rejects. */
  function ExpectedKind(nodeName: string): (k: Option<ElementKind>)
    ensures k.Some? <==> nodeName in {"INPUT", "TEXTAREA", "SELECT"}
  {
    if nodeName == "INPUT" then Some(InputKind)
    else if nodeName == "TEXTAREA" then Some(TextAreaKind)
    else if nodeName == "SELECT" then Some(SelectKind)
    else None
  }

  /** `base_onchange_handler`. */
  function BaseOnChangeHandler(el: Element): (r: Outcome<ChangeData>)
    // a file input with a file list, and nothing else, gives `Files`
    ensures (r.Done? && r.value.Files?) <==>
      el.nodeName == "INPUT" && el.kind == InputKind && IsFileType(el.typeAttr) && el.files.Some?
    ensures r.Done? && r.value.Files? ==> el.files == Some(r.value.files)
    // a non-file input, or a textarea, gives its current value
    ensures (r.Done? && r.value.Value?) <==>
      || (el.nodeName == "INPUT" && el.kind == InputKind && !IsFileType(el.typeAttr))
      || (el.nodeName == "TEXTAREA" && el.kind == TextAreaKind)
    ensures r.Done? && r.value.Value? ==> r.value.value == el.value
    // a select gives the element itself
    ensures (r.Done? && r.value.Select?) <==> el.nodeName == "SELECT" && el.kind == SelectKind
    ensures r.Done? && r.value.Select? ==> r.value.element == el
    // any other node name (compared exactly) panics with the handler's message
    ensures r == Fatal(OnChangeMsg) <==> ExpectedKind(el.nodeName).None?
    // an accepted name whose cast or file list is missing panics in `unwrap`
    ensures r == Fatal(UnwrapNoneMsg) <==>
      && ExpectedKind(el.nodeName).Some?
      && (|| el.kind != ExpectedKind(el.nodeName).value
          || (el.kind == InputKind && IsFileType(el.typeAttr) && el.files.None?))
  {
    match el.nodeName
    case "INPUT" =>
      if el.kind != InputKind then Fatal(UnwrapNoneMsg)
      else if IsFileType(el.typeAttr) then
        match el.files
        case None => Fatal(UnwrapNoneMsg)
        case Some(files) => Done(Files(files))
      else Done(Value(el.value))
    case "TEXTAREA" =>
      if el.kind != TextAreaKind then Fatal(UnwrapNoneMsg) else Done(Value(el.value))
    case "SELECT" =>
      if el.kind != SelectKind then Fatal(UnwrapNoneMsg) else Done(Select(el))
    case _ => Fatal(OnChangeMsg)
  }

  /** Only the `type` attribute's ASCII-case-insensitive class matters: re-spelling
      it in another case does not change the outcome (a select's payload is the
      element itself, so there only the variant is compared). */
  lemma ChangeIgnoresTypeCase(el: Element, t: string)
    requires el.typeAttr.Some? && EqIgnoreAsciiCase(t, el.typeAttr.value)
    ensures IsFileType(Some(t)) == IsFileType(el.typeAttr)
    ensures el.nodeName != "SELECT" ==>
      BaseOnChangeHandler(el.(typeAttr := Some(t))) == BaseOnChangeHandler(el)
    ensures BaseOnChangeHandler(el.(typeAttr := Some(t))).Done? <==> BaseOnChangeHandler(el).Done?
  {
    EqIgnoreAsciiCaseIsEquivalence(t, el.typeAttr.value, "file");
    EqIgnoreAsciiCaseIsEquivalence(el.typeAttr.value, t, "file");
  }

  /** The classification reads only the node name, the runtime class, the
      `type` attribute (for an input) and the file list; the payload is the
      element's value or the element itself. Text content never matters. */
  lemma ChangeDependsOnlyOnClassifyingFields(a: Element, b: Element)
    requires a.nodeName == b.nodeName && a.kind == b.kind && a.files == b.files
    requires IsFileType(a.typeAttr) == IsFileType(b.typeAttr)
    requires a.value == b.value
    ensures BaseOnChangeHandler(a).Fatal? <==> BaseOnChangeHandler(b).Fatal?
    ensures a.nodeName != "SELECT" ==> BaseOnChangeHandler(a) == BaseOnChangeHandler(b)
  {
  }

  /** Every element falls in exactly one of the four cases: a file list, a
      value, a select, or a panic (of one of the two kinds). */
  lemma ChangeOutcomePartition(el: Element)
    ensures var r := BaseOnChangeHandler(el);
      var files := el.nodeName == "INPUT" && el.kind == InputKind && IsFileType(el.typeAttr) && el.files.Some?;
      var value := || (el.nodeName == "INPUT" && el.kind == InputKind && !IsFileType(el.typeAttr))
                   || (el.nodeName == "TEXTAREA" && el.kind == TextAreaKind);
      var select := el.nodeName == "SELECT" && el.kind == SelectKind;
      && (files ==> !value && !select)
      && (value ==> !select)
      && (r.Fatal? <==> !files && !value && !select)
      && (r.Fatal? ==> r.msg in {OnChangeMsg, UnwrapNoneMsg})
  {
  }

  /** The node name is compared exactly, the `type` attribute ignoring ASCII case. */
  lemma ChangeExamples(handle: nat, value: string, files: FileList)
    ensures BaseOnChangeHandler(Element(handle, "INPUT", InputKind, value, Some("File"), Some(files), None))
            == Done(Files(files))
    ensures BaseOnChangeHandler(Element(handle, "INPUT", InputKind, value, None, Some(files), None))
            == Done(Value(value))
    ensures BaseOnChangeHandler(Element(handle, "INPUT", InputKind, value, Some("text"), None, None))
            == Done(Value(value))
    ensures BaseOnChangeHandler(Element(handle, "input", InputKind, value, None, None, None))
            == Fatal(OnChangeMsg)
    ensures BaseOnChangeHandler(Element(handle, "TEXTAREA", InputKind, value, None, None, None))
            == Fatal(UnwrapNoneMsg)
  {
    EqIgnoreCaseFileIff("File");
    EqIgnoreCaseFileIff("text");
  }
}
