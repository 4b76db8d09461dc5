/**
 * Argument defaulting in the tool and slash-command callbacks: the lineage
 * depth falls back to the string '1' through `??`.  The `params` list
 * falls back to `[]` through `||`, but the callbacks never pass it on, so
 * it does not affect the query that runs.
 */
module Arguments {
  import opened JsValues

  /** The fallback depth, the string '1'. */
  const DefaultDepth: Json := Str("1")

  /** `args.recursive_depth ?? '1'`. */
  function RecursiveDepth(arg: JsValue): (r: Json)
    ensures r == DefaultDepth <==> Nullish(arg) || arg == Defined(DefaultDepth)
    ensures !Nullish(arg) ==> Defined(r) == arg
  {
    Coalesce(arg, DefaultDepth)
  }

  /** `args.args || []`, computed as `params` and then left unused. */
  function QueryParams(arg: JsValue): (r: Json)
    ensures r == Arr([]) <==> !TruthyValue(arg) || arg == Defined(Arr([]))
    ensures TruthyValue(arg) ==> Defined(r) == arg
  {
    Or(arg, Arr([]))
  }

  /**
   * An explicit depth of 0, as a number or as a string, is passed through.
   * A `||` default would have turned each of these falsy values into '1'
   * (`JsValues.CoalesceDiffersFromOr`).
   */
  lemma ExplicitZeroDepthKept()
    ensures RecursiveDepth(Defined(Num(0.0))) == Num(0.0)
    ensures RecursiveDepth(Defined(Str("0"))) == Str("0")
    ensures RecursiveDepth(Defined(Str(""))) == Str("")
  {
  }
}
