/**
 The small numeric helpers the dex app shares: an optional value, the
 `clamp(n, a, b)` helper (`Math.max(a, Math.min(b, n))`) on integers and on
 reals, and the absolute value used for chip distances.
 */
module Basics {

  /** A value that may be absent: a missing JSON field, a non-finite number,
      an empty "best so far". */
  datatype Option<+T> = None | Some(value: T) {

    /** JavaScript's `x || fallback` on a field that may be missing. */
    function OrDefault(fallback: T): (r: T)
      ensures Some? ==> r == value
      ensures None? ==> r == fallback
    {
      if Some? then value else fallback
    }
  }

  /** `clamp(n, a, b)` on integers: `Math.max(a, Math.min(b, n))`. When the
      bounds cross (a > b) the lower bound wins, as in the source. */
  function ClampInt(n: int, a: int, b: int): (r: int)
    ensures a <= b ==> a <= r <= b
    ensures a <= n <= b ==> r == n
    ensures n < a ==> r == a
    ensures a <= b && b < n ==> r == b
    ensures b < a ==> r == a
  {
    if a > (if b < n then b else n) then a else if b < n then b else n
  }

  /** `clamp(x, a, b)` on offsets. */
  function ClampReal(x: real, a: real, b: real): (r: real)
    ensures a <= b ==> a <= r <= b
    ensures a <= x <= b ==> r == x
    ensures x < a ==> r == a
    ensures a <= b && b < x ==> r == b
  {
    if a > (if b < x then b else x) then a else if b < x then b else x
  }

  /** `Math.abs` on offsets. */
  function Abs(x: real): (r: real)
    ensures r >= 0.0
    ensures r == x || r == -x
  {
    if x < 0.0 then -x else x
  }

  /** Clamping is idempotent: a clamped value is kept by a second clamp. */
  lemma ClampRealIdempotent(x: real, a: real, b: real)
    requires a <= b
    ensures ClampReal(ClampReal(x, a, b), a, b) == ClampReal(x, a, b)
  {
  }
}
