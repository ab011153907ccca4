/**
 * The slice of JavaScript semantics the engine relies on: integer-valued numbers with NaN,
 * reads past the end of an array (`undefined`), `x || 0`, and the `| 0` coercion.
 */
module Js {
  import opened Wrappers

  /**
   * A JavaScript number. Every value the engine computes from the trace files is an integer
   * or NaN (NaN arises from arithmetic on `undefined`).
   */
  datatype Num = Int(i: int) | NaN

  /** `v[j]`: the element, or `undefined` (None) outside `0 <= j < |v|`. */
  function Index(v: seq<Num>, j: int): (r: Option<Num>)
    ensures r.Some? <==> 0 <= j < |v|
    ensures r.Some? ==> r.value == v[j]
  {
    if 0 <= j < |v| then Some(v[j]) else None
  }

  /** `a + b` where `b` may be `undefined`: NaN absorbs, and so does `undefined`. */
  function Plus(a: Num, b: Option<Num>): (r: Num)
    ensures r.Int? <==> a.Int? && b.Some? && b.value.Int?
    ensures r.Int? ==> r.i == a.i + b.value.i
  {
    match (a, b)
    case (Int(x), Some(Int(y))) => Int(x + y)
    case _ => NaN
  }

  /** `a - b` where `a` may be `undefined` (the target of `ev[j] -= …` past the end of `ev`). */
  function Minus(a: Option<Num>, b: Num): (r: Num)
    ensures r.Int? <==> a.Some? && a.value.Int? && b.Int?
    ensures r.Int? ==> r.i == a.value.i - b.i
  {
    match (a, b)
    case (Some(Int(x)), Int(y)) => Int(x - y)
    case _ => NaN
  }

  /** `x || 0`: `undefined`, NaN and 0 are falsy and become 0; any other number is kept. */
  function OrZero(x: Option<Num>): (r: Num)
    ensures r.Int?
    ensures x.Some? && x.value.Int? ==> r == x.value
  {
    match x
    case Some(Int(n)) => Int(n)
    case _ => Int(0)
  }

  const TwoTo31: int := 0x8000_0000
  const TwoTo32: int := 0x1_0000_0000

  /** `x | 0`: ToInt32, the two's-complement wrap of an integer into 32 bits. */
  function ToInt32(x: int): (r: int)
    ensures -TwoTo31 <= r < TwoTo31
    ensures (x - r) % TwoTo32 == 0
    ensures -TwoTo31 <= x < TwoTo31 ==> r == x
  {
    var m := x % TwoTo32;
    if m >= TwoTo31 then m - TwoTo32 else m
  }

  /** A vector of `n` zeros (`new Array(n).fill(0)`). */
  function Zeros(n: nat): (r: seq<Num>)
    ensures |r| == n
    ensures forall j :: 0 <= j < n ==> r[j] == Int(0)
  {
    seq(n, _ => Int(0))
  }
}
