/** Machine integers, saturating arithmetic and real-to-integer casts. */
module Numbers {
  const I64_MIN := -0x8000_0000_0000_0000
  const I64_MAX := 0x7FFF_FFFF_FFFF_FFFF

  type i64 = x: int | I64_MIN <= x <= I64_MAX
  type u64 = x: int | 0 <= x < 0x1_0000_0000_0000_0000
  type u32 = x: int | 0 <= x < 0x1_0000_0000
  type u8 = x: int | 0 <= x < 0x100

  function Min(a: int, b: int): int {
    if a <= b then a else b
  }

  function Max(a: int, b: int): int {
    if a >= b then a else b
  }

  function Abs(x: int): nat {
    if x < 0 then -x else x
  }

  function RAbs(x: real): real {
    if x < 0.0 then -x else x
  }

  /** The nearest 64-bit signed value. */
  function Sat(x: int): i64 {
    if x < I64_MIN then I64_MIN else if x > I64_MAX then I64_MAX else x
  }

  /** `saturating_add` on a `u32` counter with an increment of one. */
  function SatInc(x: u32): u32 {
    if x == 0xFFFF_FFFF then x else x + 1
  }

  /** A float-to-integer cast: truncation toward zero. */
  function Trunc(x: real): int {
    if x >= 0.0 then x.Floor else -((-x).Floor)
  }

  /** `round()` on a float: halves away from zero. */
  function Round(x: real): int {
    Trunc(if x >= 0.0 then x + 0.5 else x - 0.5)
  }

  function Clamp(x: real, lo: real, hi: real): real
    requires lo <= hi
  {
    if x < lo then lo else if x > hi then hi else x
  }

  lemma TruncMonotone(x: real, y: real)
    requires x <= y
    ensures Trunc(x) <= Trunc(y)
  {
  }

  /** An integer bound on a real survives truncation. */
  lemma TruncBounded(x: real, bound: int)
    requires 0 <= bound && RAbs(x) <= bound as real
    ensures Abs(Trunc(x)) <= bound
  {
  }

  lemma MulNonNegative(a: real, b: real)
    requires 0.0 <= a && 0.0 <= b
    ensures 0.0 <= a * b
  {
  }

  lemma MulMonotone(a: real, b: real, c: real)
    requires 0.0 <= a && b <= c
    ensures a * b <= a * c
  {
    MulNonNegative(a, c - b);
    assert a * (c - b) == a * c - a * b;
  }

  lemma ProductAtMost(a: real, b: real, c: real, d: real)
    requires 0.0 <= a <= c && b <= d && 0.0 <= d
    ensures a * b <= c * d
  {
    MulMonotone(a, b, d);
    MulMonotone(d, a, c);
  }
}
