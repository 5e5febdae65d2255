/**
 * The easing table of Runtime/Ease.cs: a pure map from normalised time to eased time.
 *
 * Time is `real`. Mathf.Pow with a small integer exponent is the exact power `Pow`;
 * the transcendental functions (sine, cosine, square root and powers of two) are not
 * interpreted: they come in as a `Mathf` value supplied by the host.
 */
module Ease {

  /** The curves, in the order of the C# enum. */
  datatype EaseType =
    | Linear
    | InSine | OutSine | InOutSine
    | InQuad | OutQuad | InOutQuad
    | InCubic | OutCubic | InOutCubic
    | InQuart | OutQuart | InOutQuart
    | InQuint | OutQuint | InOutQuint
    | InExpo | OutExpo | InOutExpo
    | InCirc | OutCirc | InOutCirc
    | InBack | OutBack | InOutBack
    | InElastic | OutElastic | InOutElastic
    | InBounce | OutBounce | InOutBounce
    | Custom

  /** The host's float math library: the constant PI and the transcendental functions. */
  datatype Mathf = Mathf(PI: real, Sin: real -> real, Cos: real -> real, Sqrt: real -> real, Exp2: real -> real)

  /** x to a natural power, exactly. */
  function Pow(x: real, n: nat): real
  {
    if n == 0 then 1.0 else x * Pow(x, n - 1)
  }

  const C1: real := 1.70158
  const C3: real := 2.70158

  /** Ease.Evaluate(t, easeType). */
  function Evaluate(t: real, easeType: EaseType, m: Mathf): real
  {
    match easeType
    case Linear => t
    case InSine => 1.0 - m.Cos((t * m.PI) / 2.0)
    case OutSine => m.Sin((t * m.PI) / 2.0)
    case InOutSine => -(m.Cos(m.PI * t) - 1.0) / 2.0
    case InQuad => t * t
    case OutQuad => 1.0 - (1.0 - t) * (1.0 - t)
    case InOutQuad => if t < 0.5 then 2.0 * t * t else 1.0 - Pow(-2.0 * t + 2.0, 2) / 2.0
    case InCubic => t * t * t
    case OutCubic => 1.0 - Pow(1.0 - t, 3)
    case InOutCubic => if t < 0.5 then 4.0 * t * t * t else 1.0 - Pow(-2.0 * t + 2.0, 3) / 2.0
    case InQuart => t * t * t * t
    case OutQuart => 1.0 - Pow(1.0 - t, 4)
    case InOutQuart => if t < 0.5 then 8.0 * t * t * t * t else 1.0 - Pow(-2.0 * t + 2.0, 4) / 2.0
    case InQuint => t * t * t * t * t
    case OutQuint => 1.0 - Pow(1.0 - t, 5)
    case InOutQuint => if t < 0.5 then 16.0 * t * t * t * t * t else 1.0 - Pow(-2.0 * t + 2.0, 5) / 2.0
    case InExpo => if t == 0.0 then 0.0 else m.Exp2(10.0 * t - 10.0)
    case OutExpo => if t == 1.0 then 1.0 else 1.0 - m.Exp2(-10.0 * t)
    case InOutExpo =>
      if t == 0.0 then 0.0
      else if t == 1.0 then 1.0
      else if t < 0.5 then m.Exp2(20.0 * t - 10.0) / 2.0
      else (2.0 - m.Exp2(-20.0 * t + 10.0)) / 2.0
    case InCirc => 1.0 - m.Sqrt(1.0 - Pow(t, 2))
    case OutCirc => m.Sqrt(1.0 - Pow(t - 1.0, 2))
    case InOutCirc =>
      if t < 0.5 then (1.0 - m.Sqrt(1.0 - Pow(2.0 * t, 2))) / 2.0
      else (m.Sqrt(1.0 - Pow(-2.0 * t + 2.0, 2)) + 1.0) / 2.0
    case InBack => C3 * t * t * t - C1 * t * t
    case OutBack => 1.0 + C3 * Pow(t - 1.0, 3) + C1 * Pow(t - 1.0, 2)
    case InOutBack =>
      var c2 := C1 * 1.525;
      if t < 0.5 then (Pow(2.0 * t, 2) * ((c2 + 1.0) * 2.0 * t - c2)) / 2.0
      else (Pow(2.0 * t - 2.0, 2) * ((c2 + 1.0) * (t * 2.0 - 2.0) + c2) + 2.0) / 2.0
    // Elastic, Bounce and Custom have no branch of their own
    case _ => t
  }

  /** The curves whose In, Out and InOut variants are polynomials. */
  predicate IsPolynomial(e: EaseType)
  {
    e in {InQuad, OutQuad, InOutQuad, InCubic, OutCubic, InOutCubic,
          InQuart, OutQuart, InOutQuart, InQuint, OutQuint, InOutQuint}
  }

  /** The curves that fall through to the default branch. */
  predicate IsUnimplemented(e: EaseType)
  {
    e in {InElastic, OutElastic, InOutElastic, InBounce, OutBounce, InOutBounce, Custom}
  }

  /** What the boundary values of the sine, circle and exponential curves need from the host. */
  predicate ExactAtBoundaries(m: Mathf)
  {
    && m.Sin(0.0) == 0.0 && m.Sin(m.PI / 2.0) == 1.0
    && m.Cos(0.0) == 1.0 && m.Cos(m.PI / 2.0) == 0.0 && m.Cos(m.PI) == -1.0
    && m.Sqrt(0.0) == 0.0 && m.Sqrt(1.0) == 1.0
    && m.Exp2(0.0) == 1.0
  }

  lemma Pow2(x: real) ensures Pow(x, 2) == x * x
  {
    assert Pow(x, 1) == x;
  }
  lemma Pow3(x: real) ensures Pow(x, 3) == x * x * x
  {
    Pow2(x);
  }
  lemma Pow4(x: real) ensures Pow(x, 4) == x * x * x * x
  {
    Pow3(x);
  }
  lemma Pow5(x: real) ensures Pow(x, 5) == x * x * x * x * x
  {
    Pow4(x);
  }

  lemma {:induction false} PowMul(a: real, b: real, n: nat)
    ensures Pow(a * b, n) == Pow(a, n) * Pow(b, n)
  {
    if n > 0 {
      PowMul(a, b, n - 1);
      var pa, pb := Pow(a, n - 1), Pow(b, n - 1);
      assert Pow(a * b, n) == (a * b) * (pa * pb);
      Rearrange(a, b, pa, pb);
    }
  }

  lemma Rearrange(a: real, b: real, x: real, y: real)
    ensures (a * b) * (x * y) == (a * x) * (b * y)
  {
  }

  /** The lower branch of InOut of degree n is Pow(2t, n) / 2. */
  lemma LowerBranch(t: real)
    ensures 2.0 * t * t == Pow(2.0 * t, 2) / 2.0
    ensures 4.0 * t * t * t == Pow(2.0 * t, 3) / 2.0
    ensures 8.0 * t * t * t * t == Pow(2.0 * t, 4) / 2.0
    ensures 16.0 * t * t * t * t * t == Pow(2.0 * t, 5) / 2.0
  {
    PowMul(2.0, t, 2); PowMul(2.0, t, 3); PowMul(2.0, t, 4); PowMul(2.0, t, 5);
    Pow2(2.0); Pow3(2.0); Pow4(2.0); Pow5(2.0);
    Pow2(t); Pow3(t); Pow4(t); Pow5(t);
  }

  /** Linear is the identity. */
  lemma LinearIsIdentity(t: real, m: Mathf)
    ensures Evaluate(t, Linear, m) == t
  {
  }

  /** InQuad(0.5) = 0.25 and OutQuad(0.5) = 0.75. */
  lemma QuadAtHalf(m: Mathf)
    ensures Evaluate(0.5, InQuad, m) == 0.25
    ensures Evaluate(0.5, OutQuad, m) == 0.75
  {
  }

  /** Every polynomial curve maps 0 to 0 and 1 to 1. */
  lemma PolynomialBoundaries(e: EaseType, m: Mathf)
    requires IsPolynomial(e)
    ensures Evaluate(0.0, e, m) == 0.0
    ensures Evaluate(1.0, e, m) == 1.0
  {
    Pow3(1.0); Pow4(1.0); Pow5(1.0);
    Pow3(0.0); Pow4(0.0); Pow5(0.0);
    Pow3(2.0); Pow4(2.0); Pow5(2.0);
  }

  /** Out*(t) = 1 - In*(1 - t) for Quad through Quint. */
  lemma OutReflectsIn(t: real, m: Mathf)
    ensures Evaluate(t, OutQuad, m) == 1.0 - Evaluate(1.0 - t, InQuad, m)
    ensures Evaluate(t, OutCubic, m) == 1.0 - Evaluate(1.0 - t, InCubic, m)
    ensures Evaluate(t, OutQuart, m) == 1.0 - Evaluate(1.0 - t, InQuart, m)
    ensures Evaluate(t, OutQuint, m) == 1.0 - Evaluate(1.0 - t, InQuint, m)
  {
    Pow3(1.0 - t); Pow4(1.0 - t); Pow5(1.0 - t);
  }

  /** Each InOut polynomial returns 0.5 at 0.5, where it switches branch. */
  lemma InOutMidpoint(m: Mathf)
    ensures Evaluate(0.5, InOutQuad, m) == 0.5
    ensures Evaluate(0.5, InOutCubic, m) == 0.5
    ensures Evaluate(0.5, InOutQuart, m) == 0.5
    ensures Evaluate(0.5, InOutQuint, m) == 0.5
  {
    Pow3(1.0); Pow4(1.0); Pow5(1.0);
  }

  /** On the lower half each InOut polynomial is Pow(2t, n) / 2, on the upper half 1 - Pow(2 - 2t, n) / 2. */
  lemma InOutHalves(t: real, m: Mathf)
    ensures t < 0.5 ==> Evaluate(t, InOutQuad, m) == Pow(2.0 * t, 2) / 2.0
    ensures t < 0.5 ==> Evaluate(t, InOutCubic, m) == Pow(2.0 * t, 3) / 2.0
    ensures t < 0.5 ==> Evaluate(t, InOutQuart, m) == Pow(2.0 * t, 4) / 2.0
    ensures t < 0.5 ==> Evaluate(t, InOutQuint, m) == Pow(2.0 * t, 5) / 2.0
    ensures t >= 0.5 ==> Evaluate(t, InOutQuad, m) == 1.0 - Pow(2.0 - 2.0 * t, 2) / 2.0
    ensures t >= 0.5 ==> Evaluate(t, InOutCubic, m) == 1.0 - Pow(2.0 - 2.0 * t, 3) / 2.0
    ensures t >= 0.5 ==> Evaluate(t, InOutQuart, m) == 1.0 - Pow(2.0 - 2.0 * t, 4) / 2.0
    ensures t >= 0.5 ==> Evaluate(t, InOutQuint, m) == 1.0 - Pow(2.0 - 2.0 * t, 5) / 2.0
  {
    LowerBranch(t);
    assert -2.0 * t + 2.0 == 2.0 - 2.0 * t;
  }

  /** Each InOut polynomial is point-symmetric about (0.5, 0.5). */
  lemma InOutSymmetric(t: real, m: Mathf)
    ensures Evaluate(1.0 - t, InOutQuad, m) == 1.0 - Evaluate(t, InOutQuad, m)
    ensures Evaluate(1.0 - t, InOutCubic, m) == 1.0 - Evaluate(t, InOutCubic, m)
    ensures Evaluate(1.0 - t, InOutQuart, m) == 1.0 - Evaluate(t, InOutQuart, m)
    ensures Evaluate(1.0 - t, InOutQuint, m) == 1.0 - Evaluate(t, InOutQuint, m)
  {
    if t == 0.5 {
      InOutMidpoint(m);
    } else {
      var u := 1.0 - t;
      InOutHalves(t, m);
      InOutHalves(u, m);
      assert 2.0 - 2.0 * u == 2.0 * t;
      assert 2.0 - 2.0 * t == 2.0 * u;
    }
  }

  /** The exponential curves special-case their boundaries. */
  lemma ExpoBoundaries(m: Mathf)
    ensures Evaluate(0.0, InExpo, m) == 0.0
    ensures Evaluate(1.0, OutExpo, m) == 1.0
    ensures Evaluate(0.0, InOutExpo, m) == 0.0
    ensures Evaluate(1.0, InOutExpo, m) == 1.0
  {
  }

  /** InBack and OutBack map 0 to 0 and 1 to 1 with the constants 2.70158 and 1.70158. */
  lemma BackBoundaries(m: Mathf)
    ensures Evaluate(0.0, InBack, m) == 0.0 && Evaluate(1.0, InBack, m) == 1.0
    ensures Evaluate(0.0, OutBack, m) == 0.0 && Evaluate(1.0, OutBack, m) == 1.0
    ensures Evaluate(0.0, InOutBack, m) == 0.0 && Evaluate(1.0, InOutBack, m) == 1.0
  {
    Pow3(-1.0);
  }

  /** Elastic, Bounce and Custom return t unchanged. */
  lemma UnimplementedIsIdentity(t: real, e: EaseType, m: Mathf)
    requires IsUnimplemented(e)
    ensures Evaluate(t, e, m) == t
  {
  }

  /** With a math library exact at the boundary points, every curve maps 0 to 0 and 1 to 1. */
  lemma BoundaryStable(e: EaseType, m: Mathf)
    requires ExactAtBoundaries(m)
    ensures Evaluate(0.0, e, m) == 0.0
    ensures Evaluate(1.0, e, m) == 1.0
  {
    if IsPolynomial(e) {
      PolynomialBoundaries(e, m);
    } else if e in {InBack, OutBack, InOutBack} {
      BackBoundaries(m);
    } else {
      assert (0.0 * m.PI) / 2.0 == 0.0 && (1.0 * m.PI) / 2.0 == m.PI / 2.0;
      assert m.PI * 0.0 == 0.0 && m.PI * 1.0 == m.PI;
    }
  }
}
