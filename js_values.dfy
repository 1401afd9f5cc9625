/** Values and outcomes of the JavaScript helpers, and the builtins they call. */
module JsValues {

  /** A JavaScript value, as far as the helpers inspect their arguments. */
  datatype JsAny =
    | Num(n: real)
    | Str(s: string)
    | Bool(b: bool)
    | Arr(items: seq<JsAny>)
    | JsNull
    | JsUndefined

  /** How a helper hands control back: a value, one of the two failure
      sentinels the module uses (`false`, `null`), or an exception that
      escapes it. */
  datatype Completion<+T> =
    | Returned(value: T)
    | ReturnedFalse
    | ReturnedNull
    | Threw

  datatype Option<+T> = None | Some(value: T)

  /** `Math.abs` on numbers. */
  function Abs(x: real): real { if x < 0.0 then -x else x }

  /** `Number.prototype.toFixed`, split into its sign, the digits before the
      point and the digits after it. */
  datatype FixedDecimal = FixedDecimal(negative: bool, whole: string, fraction: string)
  {
    /** The string `toFixed` returns. */
    function Text(): string
    {
      (if negative then "-" else "") + whole + (if fraction == "" then "" else "." + fraction)
    }
  }

  /** The language builtins and the unseen utility the helpers call, taken as
      parameters: `toFixed`, `parseFloat` (None where it yields NaN),
      `encodeURIComponent` and `MiscUtil.objectToUrlParams`, which receives the
      query parameters in order as key/value pairs. */
  datatype Builtins = Builtins(
    toFixed: (real, nat) -> FixedDecimal,
    parseFloat: JsAny -> Option<real>,
    encodeURIComponent: string -> string,
    objectToUrlParams: seq<(string, string)> -> string)
}
