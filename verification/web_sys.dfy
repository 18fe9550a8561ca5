/** The `web_sys` backend's `Renderer`: its event handlers and the error
    mapping of `get_origin` / `get_host`.

    In this backend `get_window` ends in `todo!()`, so the window's location
    is taken as a parameter here; the success paths of `get_origin` and
    `get_host` end in `todo!()` too and are fatal.
 */
module WebSys {
  import opened Outcomes
  import opened Elements
  import Backend
  import Listener

  /** `Renderer::oninput_handler`: the listener's fallback chain, written out again in the source. */
  function OnInputHandler(el: Element, event: InputEvent): (r: Outcome<InputData>)
    ensures r == Listener.OnInputHandler(el, event)
  {
    Listener.OnInputHandler(el, event)
  }

  /** `Renderer::onchange_handler`: delegates to `base_onchange_handler`. */
  function OnChangeHandler(el: Element): (r: Outcome<ChangeData>)
    ensures r == Backend.BaseOnChangeHandler(el)
  {
    Backend.BaseOnChangeHandler(el)
  }

  /** A JavaScript error value; `as_string` is `Some` only when it is a string. */
  datatype JsValue = JsValue(asString: Option<string>)

  /** `window.location()`: the results of its `origin()` and `host()` getters. */
  datatype Location = Location(origin: Result<string, JsValue>, host: Result<string, JsValue>)

  const ErrorNotRecoverableMsg: string := "error not recoverable"

  /** The `map_err` closure shared by `get_origin` and `get_host`. */
  function LocationErrorMessage(e: JsValue): (msg: string)
    ensures e.asString.Some? ==> msg == e.asString.value
    ensures e.asString.None? ==> msg == ErrorNotRecoverableMsg
  {
    match e.asString
    case Some(s) => s
    case None => ErrorNotRecoverableMsg
  }

  /** A getter result mapped through the error closure and `?`; the code after
      a successful read is `todo!()`. */
  function LocationPart(part: Result<string, JsValue>): (r: Outcome<Result<string, string>>)
    ensures part.Err? ==> r.Done? && r.value.Err?
    ensures part.Err? && part.error.asString.Some? ==> r == Done(Err(part.error.asString.value))
    ensures part.Err? && part.error.asString.None? ==> r == Done(Err(ErrorNotRecoverableMsg))
    ensures part.Ok? ==> r == Fatal(TodoMsg)
  {
    match part
    case Err(e) => Done(Err(LocationErrorMessage(e)))
    case Ok(_) => Fatal(TodoMsg)
  }

  /** `Renderer::get_origin`. */
  function GetOrigin(location: Location): (r: Outcome<Result<string, string>>)
    ensures location.origin.Err? ==> r == Done(Err(LocationErrorMessage(location.origin.error)))
    ensures location.origin.Ok? ==> r == Fatal(TodoMsg)
  {
    LocationPart(location.origin)
  }

  /** `Renderer::get_host`. */
  function GetHost(location: Location): (r: Outcome<Result<string, string>>)
    ensures location.host.Err? ==> r == Done(Err(LocationErrorMessage(location.host.error)))
    ensures location.host.Ok? ==> r == Fatal(TodoMsg)
  {
    LocationPart(location.host)
  }

  /** The fallback message is reported exactly when the host's error is not a
      string, or is that very string. */
  lemma FallbackIffNoHostMessage(e: JsValue)
    ensures LocationErrorMessage(e) == ErrorNotRecoverableMsg <==>
      e.asString.None? || e.asString.value == ErrorNotRecoverableMsg
  {
  }
}
