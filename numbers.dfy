/**
 * The JavaScript numbers the pipeline produces. `parseFloat` itself is not
 * modelled: the aggregators take it as a parameter of type
 * `string -> Number`, so every property below holds whatever it returns.
 */
module JsNumber {

  /** What `parseFloat` can return: NaN, or a finite number. */
  datatype Number = NaN | Finite(value: real)

  /**
   * `n || 0`: NaN and zero are the falsy numbers, so both become 0 and any
   * other number is kept. The result is never NaN, so an `isNaN` test on it
   * always fails.
   */
  function OrZero(n: Number): (r: Number)
    ensures r.Finite?
    ensures r.value == 0.0 <==> n.NaN? || n.value == 0.0
    ensures n.Finite? ==> r.value == n.value
  {
    if n.NaN? || n.value == 0.0 then Finite(0.0) else n
  }
}
