/** Element-wise tensor primitives the library is built from, on one element. */
module Numeric {

  /** `max(a, b)` */
  function Max(a: real, b: real): real {
    if a >= b then a else b
  }

  /** `min(a, b)` */
  function Min(a: real, b: real): real {
    if a <= b then a else b
  }

  /** `v.clamp(min=lo)` */
  function ClampBelow(v: real, lo: real): real {
    if v < lo then lo else v
  }

  /** `v.clamp(max=hi)` */
  function ClampAbove(v: real, hi: real): real {
    if v > hi then hi else v
  }

  /** `clamp(v, lo, hi)`: first the lower bound, then the upper one. */
  function Clamp(v: real, lo: real, hi: real): real {
    ClampAbove(ClampBelow(v, lo), hi)
  }
}
