/** Angles in degrees, reduced by a bit mask and by a loop, over the reals. */
module Angles {
  import opened CTypes

  const STEPS := 65536
  const STEP := 360.0 / 65536.0

  /** Conversion of a float to int truncates toward zero. */
  function Trunc(x: real): int {
    if x >= 0.0 then x.Floor else -((-x).Floor)
  }

  /** `_AngleNormalize360`: masking with 65535 is the remainder modulo 65536, also on negative
      numbers in two's complement. */
  function AngleNormalize360(angle: real): real {
    STEP * (Trunc(angle * (65536.0 / 360.0)) % STEPS) as real
  }

  function AngleNormalize180(angle: real): real {
    var a := AngleNormalize360(angle);
    if a > 180.0 then a - 360.0 else a
  }

  function AngleDelta(angle1: real, angle2: real): real {
    AngleNormalize180(angle1 - angle2)
  }

  /** `_AngleSubtract`. */
  method AngleSubtract(a1: real, a2: real) returns (a: real)
    ensures -180.0 <= a <= 180.0
    ensures SameDirection(a, a1 - a2)
    ensures -180.0 <= a1 - a2 <= 180.0 ==> a == a1 - a2
    ensures (a1 - a2 > 180.0 ==> a > -180.0) && (a1 - a2 < -180.0 ==> a < 180.0)
  {
    a := a1 - a2;
    ghost var k := 0;
    while a > 180.0
      invariant a == Turn(a1 - a2, k) && (a1 - a2 > 180.0 ==> a > -180.0) && (a1 - a2 <= 180.0 ==> k == 0)
      decreases a
    {
      a := a - 360.0;
      k := k - 1;
    }
    while a < -180.0
      invariant a == Turn(a1 - a2, k) && a <= 180.0 && (a1 - a2 > 180.0 ==> a > -180.0)
      invariant a1 - a2 < -180.0 ==> a < 180.0
      invariant -180.0 <= a1 - a2 <= 180.0 ==> k == 0
      decreases -a
    {
      a := a + 360.0;
      k := k + 1;
    }
    assert IsTurn(a, a1 - a2, k);
  }

  predicate IsTurn(a: real, b: real, k: int) {
    a == Turn(b, k)
  }

  ghost predicate SameDirection(a: real, b: real) {
    exists k: int :: IsTurn(a, b, k)
  }

  /** `a` turned by `k` full circles. */
  function Turn(a: real, k: int): real {
    a + 360.0 * k as real
  }

  lemma TruncIsClose(x: real)
    ensures -1.0 < Trunc(x) as real - x < 1.0
    ensures x >= 0.0 ==> Trunc(x) as real <= x
    ensures x <= 0.0 ==> x <= Trunc(x) as real
  {
  }

  /** The mask form lands in [0, 360) and is within one step of the angle, give or take whole
      circles: below it for positive angles, and above it for negative ones. */
  lemma {:induction false} MaskIsClose(angle: real) returns (k: int)
    ensures 0.0 <= AngleNormalize360(angle) < 360.0
    ensures -STEP < AngleNormalize360(angle) - Turn(angle, k) < STEP
    ensures angle >= 0.0 ==> AngleNormalize360(angle) <= Turn(angle, k)
    ensures angle <= 0.0 ==> AngleNormalize360(angle) >= Turn(angle, k)
  {
    var t := angle * (65536.0 / 360.0);
    var n := Trunc(t);
    TruncIsClose(t);
    k := -(n / STEPS);
    assert n == STEPS * (n / STEPS) + n % STEPS;
    var m := n % STEPS;
    assert m as real == n as real + 65536.0 * k as real;
    assert STEP * m as real == STEP * n as real + 360.0 * k as real;
    assert angle == STEP * t;
  }

  /** Reducing an angle that is already reduced changes nothing. */
  lemma {:induction false} MaskIsIdempotent(angle: real)
    ensures AngleNormalize360(AngleNormalize360(angle)) == AngleNormalize360(angle)
  {
    var m := Trunc(angle * (65536.0 / 360.0)) % STEPS;
    assert STEP * m as real * (65536.0 / 360.0) == m as real;
    assert Trunc(m as real) == m;
  }

  /** The two reductions agree. `_AngleDelta` lies in (-180, 180], `_AngleSubtract` in [-180, 180],
      and any value the loop can return differs from the mask form by whole circles and less
      than one step. */
  lemma {:induction false} FormsAgree(a1: real, a2: real, subtracted: real, k: int) returns (j: int)
    requires IsTurn(subtracted, a1 - a2, k)
    ensures -180.0 < AngleDelta(a1, a2) <= 180.0
    ensures -STEP < AngleDelta(a1, a2) - Turn(subtracted, j) < STEP
  {
    var i := MaskIsClose(a1 - a2);
    j := if AngleNormalize360(a1 - a2) > 180.0 then i - 1 - k else i - k;
    assert Turn(subtracted, j) == Turn(a1 - a2, k + j);
  }
}
