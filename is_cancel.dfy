/** `isCancel(value)`: `!!(value && value.__CANCEL__)`, over the JavaScript
    values a rejection can carry. */
module IsCancelCheck {
  import opened Wrappers
  import opened CancelRecord

  /** A JavaScript value as far as the test can tell them apart: primitives,
      a `Cancel` instance, and any other object with or without an own
      `__CANCEL__` property. */
  datatype JsValue =
    | Undefined
    | Null
    | Bool(b: bool)
    | Number(n: int)
    | Str(s: string)
    | CancelInstance(c: Cancel)
    | Object(marker: Option<JsValue>)

  predicate Truthy(v: JsValue) {
    match v
    case Undefined => false
    case Null => false
    case Bool(b) => b
    case Number(n) => n != 0
    case Str(s) => s != ""
    case CancelInstance(_) => true
    case Object(_) => true
  }

  /** `value.__CANCEL__`: the prototype's `true` for a `Cancel`, an own
      property of another object, nothing on a primitive. */
  function MarkerOf(v: JsValue): Option<JsValue> {
    match v
    case CancelInstance(_) => Some(Bool(CancelMarker))
    case Object(m) => m
    case _ => None
  }

  function IsCancel(v: JsValue): (r: bool)
    ensures v.CancelInstance? ==> r
    ensures !Truthy(v) ==> !r
    ensures v.Object? ==> (r <==> v.marker.Some? && Truthy(v.marker.value))
    ensures !v.CancelInstance? && !v.Object? ==> !r
  {
    Truthy(v) && MarkerOf(v).Some? && Truthy(MarkerOf(v).value)
  }

  /** The test is a marker check, not a type check: an object that is not a
      `Cancel` passes when it carries a truthy marker of its own. */
  lemma MarkerNotType()
    ensures IsCancel(Object(Some(Str("yes"))))
    ensures !IsCancel(Object(Some(Number(0))))
    ensures !IsCancel(Object(None))
  {
  }
}
