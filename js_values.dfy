/**
 * JavaScript values as the extension sees them: the decoded JSON bodies of
 * query responses, and the (possibly absent) arguments that the host passes
 * to tool and slash-command callbacks.  Only the parts of JavaScript's value
 * semantics that the extension relies on are modelled: truthiness, `typeof`,
 * and the `??` and `||` operators.
 */
module JsValues {

  /** A decoded JSON value.  Arrays and objects are both JavaScript objects. */
  datatype Json =
    | Null
    | Bool(b: bool)
    | Num(n: real)
    | Str(s: string)
    | Arr(elems: seq<Json>)
    | Obj(fields: map<string, Json>)

  /** Any JavaScript value the extension reads: `undefined`, or a JSON value. */
  datatype JsValue = Undefined | Defined(json: Json)

  /**
   * JavaScript truthiness of a JSON value.  JSON cannot hold NaN, so the
   * falsy values are exactly null, false, 0 (and -0) and the empty string.
   */
  predicate Truthy(j: Json)
  {
    match j
    case Null => false
    case Bool(b) => b
    case Num(n) => n != 0.0
    case Str(s) => s != ""
    case Arr(_) => true
    case Obj(_) => true
  }

  /** Truthiness of any value; `undefined` is falsy. */
  predicate TruthyValue(v: JsValue)
  {
    v.Defined? && Truthy(v.json)
  }

  /** The string that the `typeof` operator yields; note that `typeof null` is "object". */
  function TypeOf(v: JsValue): (r: string)
    ensures r == "object" <==> v.Defined? && (v.json.Null? || v.json.Arr? || v.json.Obj?)
    ensures r == "undefined" <==> v.Undefined?
  {
    match v
    case Undefined => "undefined"
    case Defined(Null) => "object"
    case Defined(Bool(_)) => "boolean"
    case Defined(Num(_)) => "number"
    case Defined(Str(_)) => "string"
    case Defined(Arr(_)) => "object"
    case Defined(Obj(_)) => "object"
  }

  /** `null` or `undefined`, the two values that `??` replaces. */
  predicate Nullish(v: JsValue)
  {
    v == Undefined || v == Defined(Null)
  }

  /** `v ?? fallback`: the fallback replaces only `null` and `undefined`. */
  function Coalesce(v: JsValue, fallback: Json): (r: Json)
    ensures Nullish(v) ==> r == fallback
    ensures !Nullish(v) ==> Defined(r) == v
  {
    if v.Undefined? || v.json.Null? then fallback else v.json
  }

  /** `v || fallback`: the fallback replaces every falsy value. */
  function Or(v: JsValue, fallback: Json): (r: Json)
    ensures !TruthyValue(v) ==> r == fallback
    ensures TruthyValue(v) ==> Defined(r) == v
  {
    match v
    case Undefined => fallback
    case Defined(j) => if Truthy(j) then j else fallback
  }

  /**
   * The two defaulting operators disagree exactly on the values that are
   * falsy but not nullish (false, 0, ""), and then only when the value
   * differs from the fallback.
   */
  lemma CoalesceDiffersFromOr(v: JsValue, fallback: Json)
    ensures Coalesce(v, fallback) != Or(v, fallback)
        <==> !Nullish(v) && !TruthyValue(v) && v != Defined(fallback)
  {
  }
}
