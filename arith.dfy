/**
 * The arithmetic of radii (mpcr_mul_rnd, mpcr_add_rnd, mpcr_div,
 * mpcr_div_2ui, mpcr_sqrt_rnd and the combining step of mpcr_mpc_abs) as
 * functions from the old destination and the operands to the new
 * destination, with the bounds each operation guarantees.
 *
 * Exact results are stated without real multiplication: the exact product
 * of s and t is Scaled(s.mant * t.mant, s.exp + t.exp), and the exact
 * square of x is Scaled(x.mant * x.mant, 2 * x.exp).
 */
module RadiusArith {
  import opened Powers
  import opened Radius
  import opened IntSqrt

  datatype Option<T> = None | Some(value: T)

  /** The exact product of two finite radii, (s.mant * t.mant) * 2^(s.exp + t.exp). */
  ghost function Product(s: Rad, t: Rad): real
  {
    Scaled(s.mant * t.mant, s.exp + t.exp)
  }

  /** The exact square of a finite radius, (x.mant * x.mant) * 2^(2 * x.exp). */
  ghost function Square(x: Rad): real
  {
    Scaled(x.mant * x.mant, 2 * x.exp)
  }

  lemma MantProductBound(a: int, b: int)
    requires 0 <= a < MANT_MAX && 0 <= b < MANT_MAX
    ensures 0 <= a * b < 0x4000_0000_0000_0000
  {
    MulMonoLeft(a, MANT_MAX, b);
    if b > 0 {
      MulStrictLeft(b, MANT_MAX, MANT_MAX);
    }
  }

  /** A zero radius, normalised or not, stands for 0 and so does every product with it. */
  lemma ZeroValues(x: Rad, y: Rad)
    requires ZeroP(x)
    ensures Value(x) == 0.0 && Product(x, y) == 0.0 && Product(y, x) == 0.0
  {
    ScaledZero(x.exp);
    ScaledZero(x.exp + y.exp);
    ScaledZero(y.exp + x.exp);
  }

  // ---------------------------------------------------------------------
  // mpcr_mul_rnd (and mpcr_sqr_rnd, which is mpcr_mul_rnd (r, s, s, rnd)).

  function MulRnd(dst: Rad, s: Rad, t: Rad, rnd: Rnd): (r: Rad)
    requires IsNormalised(s) && IsNormalised(t)
    ensures IsNormalised(r)
    ensures InfP(r) <==> InfP(s) || InfP(t)
  {
    if InfP(s) || InfP(t) then SetInf(dst)
    else if ZeroP(s) || ZeroP(t) then Zero
    else
      MantProductBound(s.mant, t.mant);
      NormaliseRnd(Rad(s.mant * t.mant, s.exp + t.exp), rnd)
  }

  /**
   * The product is rounded in the requested direction: RNDU gives an
   * upper bound, RNDD a lower bound; a zero factor gives zero.
   */
  lemma MulRndSound(dst: Rad, s: Rad, t: Rad, rnd: Rnd)
    requires IsNormalised(s) && IsNormalised(t) && !InfP(s) && !InfP(t)
    ensures var r := MulRnd(dst, s, t, rnd);
      (rnd == RNDU ==> Product(s, t) <= Value(r)) &&
      (rnd == RNDD ==> Value(r) <= Product(s, t)) &&
      (ZeroP(s) || ZeroP(t) ==> r == Zero && Product(s, t) == 0.0)
  {
    if ZeroP(s) {
      ZeroValues(s, t);
      SettersNormalised(dst);
    } else if ZeroP(t) {
      ZeroValues(t, s);
      SettersNormalised(dst);
    } else {
      MulRndTight(dst, s, t, rnd);
    }
  }

  /** For positive factors the rounded product is within one unit in its last place of the exact one. */
  lemma MulRndTight(dst: Rad, s: Rad, t: Rad, rnd: Rnd)
    requires IsPos(s) && IsPos(t)
    ensures RoundsTo(Product(s, t), MulRnd(dst, s, t, rnd), rnd)
  {
    MantProductBound(s.mant, t.mant);
    MulStrictLeft(0, s.mant, t.mant);
    var x := Rad(s.mant * t.mant, s.exp + t.exp);
    NormaliseRndSound(x, rnd);
    assert MulRnd(dst, s, t, rnd) == NormaliseRnd(x, rnd);
  }

  // ---------------------------------------------------------------------
  // mpcr_add_rnd.

  /**
   * What mpcr_add_rnd accepts: an infinite radius, or a finite one whose
   * mantissa has its two top bits clear, so that the sum cannot overflow.
   */
  predicate AddOperand(x: Rad)
  {
    InfP(x) || 0 <= x.mant < 0x4000_0000_0000_0000
  }

  /**
   * The sum before rounding, at the exponent of the larger operand hi: the
   * mantissa of lo is shifted right by the exponent gap and truncated; a
   * gap of 64 or more bits keeps hi alone.
   */
  function Align(hi: Rad, lo: Rad): (a: Rad)
    requires hi.exp >= lo.exp
    requires 0 < hi.mant < 0x4000_0000_0000_0000 && 0 < lo.mant < 0x4000_0000_0000_0000
    ensures a.exp == hi.exp && hi.mant <= a.mant < 0x7FFF_FFFF_FFFF_FFFF
  {
    var d := hi.exp - lo.exp;
    if d >= 64 then Rad(hi.mant, hi.exp)
    else
      DivBracket(lo.mant, Pow2(d));
      Rad(hi.mant + lo.mant / Pow2(d), hi.exp)
  }

  function AddRnd(dst: Rad, s: Rad, t: Rad, rnd: Rnd): (r: Rad)
    requires AddOperand(s) && AddOperand(t)
    ensures InfP(r) <==> InfP(s) || InfP(t)
    ensures IsNormalised(s) && IsNormalised(t) ==> IsNormalised(r)
    ensures 0 < s.mant && 0 < t.mant ==> IsPos(r)
  {
    if InfP(s) || InfP(t) then SetInf(dst)
    else if ZeroP(s) then t
    else if ZeroP(t) then s
    else
      var a := if s.exp - t.exp >= 0 then Align(s, t) else Align(t, s);
      var b := if rnd == RNDU then a.(mant := a.mant + 1) else a;
      NormaliseRnd(b, rnd)
  }

  /** With a gap of 64 bits or more the shifted mantissa would be 0 anyway. */
  lemma AddFarGap(m: int, d: nat)
    requires 0 <= m < 0x4000_0000_0000_0000 && d >= 64
    ensures m / Pow2(d) == 0
  {
    Pow2Values();
    Pow2Mono(62, d);
    DivSmall(m, Pow2(d));
  }

  lemma DivSmall(m: nat, p: nat)
    requires m < p
    ensures m / p == 0
  {
  }

  /** The aligned sum underestimates the exact sum by less than one unit at the larger exponent. */
  lemma AlignSound(hi: Rad, lo: Rad)
    requires hi.exp >= lo.exp
    requires 0 < hi.mant < 0x4000_0000_0000_0000 && 0 < lo.mant < 0x4000_0000_0000_0000
    ensures var a := Align(hi, lo);
      Value(a) <= Value(hi) + Value(lo) < Scaled(a.mant + 1, a.exp)
  {
    var d: nat := hi.exp - lo.exp;
    var q := lo.mant / Pow2(d);
    if d >= 64 {
      AddFarGap(lo.mant, d);
    }
    ScaledShr(lo.mant, lo.exp, hi.exp, d);
    ScaledAdd(hi.mant, q, hi.exp);
    ScaledAdd(hi.mant, q + 1, hi.exp);
  }

  /**
   * mpcr_add_rnd rounds the sum in the requested direction: RNDU gives an
   * upper bound, RNDD a lower bound; a zero operand returns the other.
   */
  lemma AddRndSound(dst: Rad, s: Rad, t: Rad, rnd: Rnd)
    requires AddOperand(s) && AddOperand(t) && !InfP(s) && !InfP(t)
    ensures var r := AddRnd(dst, s, t, rnd);
      (rnd == RNDU ==> Value(s) + Value(t) <= Value(r)) &&
      (rnd == RNDD ==> Value(r) <= Value(s) + Value(t)) &&
      (ZeroP(s) ==> r == t) && (!ZeroP(s) && ZeroP(t) ==> r == s)
  {
    if ZeroP(s) {
      ZeroValues(s, t);
    } else if ZeroP(t) {
      ZeroValues(t, s);
    } else if s.exp - t.exp >= 0 {
      AlignRoundSound(s, t, rnd);
    } else {
      AlignRoundSound(t, s, rnd);
    }
  }

  /** The aligned sum, plus one unit under RNDU, normalised in the direction rnd, bounds the exact sum. */
  lemma AlignRoundSound(hi: Rad, lo: Rad, rnd: Rnd)
    requires hi.exp >= lo.exp
    requires 0 < hi.mant < 0x4000_0000_0000_0000 && 0 < lo.mant < 0x4000_0000_0000_0000
    ensures var a := Align(hi, lo);
      var r := NormaliseRnd(if rnd == RNDU then a.(mant := a.mant + 1) else a, rnd);
      (rnd == RNDU ==> Value(hi) + Value(lo) <= Value(r)) &&
      (rnd == RNDD ==> Value(r) <= Value(hi) + Value(lo))
  {
    var a := Align(hi, lo);
    var b := if rnd == RNDU then a.(mant := a.mant + 1) else a;
    assert Value(a) <= Value(hi) + Value(lo) < Scaled(a.mant + 1, a.exp) by {
      AlignSound(hi, lo);
    }
    assert RoundsTo(Value(b), NormaliseRnd(b, rnd), rnd) by {
      NormaliseRndSound(b, rnd);
    }
  }

  // ---------------------------------------------------------------------
  // mpcr_div.

  /**
   * mpcr_div as written: the mantissa of s, shifted left by 32 bits, is
   * divided by that of t and rounded up by adding 1. None marks the case
   * where the code divides by a zero mantissa (s finite and non-zero, t
   * zero), which has no defined result.
   */
  function DivAsWritten(dst: Rad, s: Rad, t: Rad): (r: Option<Rad>)
    requires IsNormalised(s) && IsNormalised(t)
    ensures r.Some? ==> IsNormalised(r.value)
  {
    if InfP(s) || InfP(t) then Some(SetInf(dst))
    else if ZeroP(s) then (if ZeroP(t) then Some(SetInf(dst)) else Some(Zero))
    else if ZeroP(t) then None
    else Some(DivPos(s, t))
  }

  /** The quotient of two positive normalised radii, rounded up. */
  function DivPos(s: Rad, t: Rad): (r: Rad)
    requires IsPos(s) && IsPos(t)
    ensures IsPos(r)
  {
    DivQuotientBound(s.mant, t.mant);
    NormaliseRnd(Rad(s.mant * 0x1_0000_0000 / t.mant + 1, s.exp - 32 - t.exp), RNDU)
  }

  /** The shifted dividend fits in an int64 and the quotient in 34 bits. */
  lemma DivQuotientBound(a: int, b: int)
    requires IsPos(Rad(a, 0)) && IsPos(Rad(b, 0))
    ensures 0 < a * 0x1_0000_0000 < INT64_LIMIT
    ensures 0 <= a * 0x1_0000_0000 / b < 0x2_0000_0000
  {
    MulMonoLeft(MANT_MIN, b, 0x2_0000_0000);
    DivBounds(a * 0x1_0000_0000, b, 0);
    DivBounds(a * 0x1_0000_0000, b, 0x2_0000_0000);
  }

  /** mpcr_div with the division by zero resolved: a non-zero radius over zero is infinite. */
  function Div(dst: Rad, s: Rad, t: Rad): (r: Rad)
    requires IsNormalised(s) && IsNormalised(t)
    ensures IsNormalised(r)
    ensures InfP(r) <==> InfP(s) || InfP(t) || ZeroP(t)
  {
    if InfP(s) || InfP(t) || ZeroP(t) then SetInf(dst)
    else if ZeroP(s) then Zero
    else DivPos(s, t)
  }

  /** The two agree wherever the code as written has a defined result. */
  lemma DivAgrees(dst: Rad, s: Rad, t: Rad)
    requires IsNormalised(s) && IsNormalised(t)
    ensures DivAsWritten(dst, s, t).None? <==> IsPos(s) && ZeroP(t)
    ensures DivAsWritten(dst, s, t).Some? ==> DivAsWritten(dst, s, t).value == Div(dst, s, t)
  {
    Classify(s);
    Classify(t);
  }

  /** mpcr_div (1, 0) divides by zero. */
  lemma DivByZeroUndefined()
    ensures IsNormalised(One) && IsNormalised(Zero)
    ensures DivAsWritten(Zero, One, Zero) == None
  {
    OneValue();
  }

  /**
   * The quotient is an upper bound: r * t >= s. When s is zero so is the
   * quotient (unless t is zero too).
   */
  lemma DivSound(dst: Rad, s: Rad, t: Rad)
    requires IsNormalised(s) && IsNormalised(t) && !InfP(s) && !InfP(t) && !ZeroP(t)
    ensures var r := Div(dst, s, t);
      !InfP(r) && Value(s) <= Product(r, t) && (ZeroP(s) <==> ZeroP(r))
  {
    Classify(t);
    if ZeroP(s) {
      ZeroValues(s, t);
      ZeroValues(Zero, t);
    } else {
      Classify(s);
      DivPosSound(s, t);
    }
  }

  lemma DivPosSound(s: Rad, t: Rad)
    requires IsPos(s) && IsPos(t)
    ensures Value(s) <= Product(DivPos(s, t), t)
  {
    DivQuotientBound(s.mant, t.mant);
    var q := s.mant * 0x1_0000_0000 / t.mant + 1;
    var x := Rad(q, s.exp - 32 - t.exp);
    var r := NormaliseRnd(x, RNDU);
    assert r == DivPos(s, t);
    assert Value(s) < Scaled(q * t.mant, s.exp - 32) by {
      DivUnrounded(s.mant, t.mant, s.exp);
    }
    assert Value(x) <= Value(r) by {
      NormaliseRndSound(x, RNDU);
    }
    assert Scaled(q * t.mant, s.exp - 32) <= Product(r, t) by {
      ScaledTimes(q, x.exp, r.mant, r.exp, t.mant, t.exp, s.exp - 32, r.exp + t.exp);
    }
  }

  /** Before normalisation the quotient, rounded up by one, times t exceeds s. */
  lemma DivUnrounded(a: int, b: int, e: int)
    requires IsPos(Rad(a, 0)) && IsPos(Rad(b, 0))
    ensures Scaled(a, e) < Scaled((a * 0x1_0000_0000 / b + 1) * b, e - 32)
  {
    DivQuotientBound(a, b);
    var S := a * 0x1_0000_0000;
    assert Scaled(S, e - 32) == Scaled(a, e) by {
      Pow2Values();
      ScaledShlTo(a, S, e - 32, e, 32);
    }
    assert S < (S / b + 1) * b by {
      DivBracket(S, b);
    }
    ScaledMonoMant(S, (S / b + 1) * b, e - 32);
  }

  // ---------------------------------------------------------------------
  // mpcr_div_2ui.

  function Div2ui(dst: Rad, s: Rad, e: nat): (r: Rad)
    requires IsNormalised(s)
    ensures IsNormalised(r)
    ensures InfP(r) <==> InfP(s)
  {
    if InfP(s) then SetInf(dst)
    else if ZeroP(s) then Zero
    else Rad(s.mant, s.exp - e)
  }

  /** Division by 2^e only moves the exponent: r * 2^e == s exactly. */
  lemma Div2uiExact(dst: Rad, s: Rad, e: nat)
    requires IsNormalised(s) && !InfP(s)
    ensures var r := Div2ui(dst, s, e);
      Scaled(r.mant * Pow2(e), r.exp) == Value(s) && (ZeroP(r) <==> ZeroP(s))
  {
    var r := Div2ui(dst, s, e);
    if ZeroP(s) {
      ScaledZero(0);
      ScaledZero(s.exp);
    } else {
      ScaledShl(s.mant, r.exp, s.exp, e);
    }
  }

  // ---------------------------------------------------------------------
  // mpcr_sqrt_rnd.

  /**
   * The argument handed to sqrt_int64 and the exponent of the root: for an
   * even exponent the mantissa itself, for an odd one twice the mantissa.
   */
  function SqrtArg(s: Rad): (p: (int, int))
    requires IsPos(s)
    ensures 0x4000_0000 <= p.0 < 0x1_0000_0000
    ensures s.exp % 2 == 0 ==> p.0 == s.mant && 2 * p.1 + 30 == s.exp
    ensures s.exp % 2 != 0 ==> p.0 == 2 * s.mant && 2 * p.1 + 30 == s.exp - 1
  {
    if s.exp % 2 == 0 then (s.mant, s.exp / 2 - 15)
    else (2 * s.mant, (s.exp - 1) / 2 - 15)
  }

  /**
   * The mantissa of the root of n * 2^30 as mpcr_sqrt_rnd computes it: the
   * ceiling square root, one unit less under RNDD unless it is exactly 2^30.
   */
  function RootMant(n: int, rnd: Rnd): (m: int)
    requires 0x4000_0000 <= n < 0x1_0000_0000
    ensures MANT_MIN <= m <= MANT_MAX
  {
    var c := CeilSqrt(n * 0x4000_0000);
    CeilSqrtRange(n * 0x4000_0000);
    if rnd == RNDD && c != MANT_MIN then c - 1 else c
  }

  /** Squared, the root mantissa lies above n * 2^30 under RNDU and below it under RNDD. */
  lemma RootMantBounds(n: int, rnd: Rnd)
    requires 0x4000_0000 <= n < 0x1_0000_0000
    ensures rnd == RNDU ==> n * 0x4000_0000 <= RootMant(n, rnd) * RootMant(n, rnd)
    ensures rnd == RNDD ==> RootMant(n, rnd) * RootMant(n, rnd) <= n * 0x4000_0000
  {
    if rnd == RNDD {
      RootDown(n * 0x4000_0000, CeilSqrt(n * 0x4000_0000));
    }
  }

  /**
   * One less than the ceiling root squares to at most N, and so does the
   * ceiling root 2^30 itself, which is exact for N >= 2^60.
   */
  lemma RootDown(N: int, c: int)
    requires 0x1000_0000_0000_0000 <= N && IsCeilSqrt(N, c)
    ensures c != MANT_MIN ==> (c - 1) * (c - 1) <= N
    ensures c == MANT_MIN ==> c * c <= N
  {
  }

  /**
   * mpcr_sqrt_rnd as written: the root of the 62-bit integer n * 2^30,
   * rounded up, and under RNDD one unit less unless it is exactly 2^30.
   */
  function SqrtRndAsWritten(dst: Rad, s: Rad, rnd: Rnd): (r: Rad)
    requires IsNormalised(s)
    ensures InfP(r) <==> InfP(s)
    ensures IsPos(s) ==> MANT_MIN <= r.mant <= MANT_MAX
  {
    if InfP(s) then SetInf(dst)
    else if ZeroP(s) then Zero
    else
      var (n, e) := SqrtArg(s);
      Rad(RootMant(n, rnd), e)
  }

  /**
   * mpcr_sqrt_rnd corrected: a root of 2^31, which rounding up produces for
   * the mantissa 2^31 - 1 with an odd exponent, is renormalised to 2^30
   * with the exponent one higher.
   */
  function SqrtRnd(dst: Rad, s: Rad, rnd: Rnd): (r: Rad)
    requires IsNormalised(s)
    ensures IsNormalised(r)
    ensures InfP(r) <==> InfP(s)
    ensures ZeroP(r) <==> ZeroP(s)
  {
    var w := SqrtRndAsWritten(dst, s, rnd);
    if w.mant == MANT_MAX then Rad(MANT_MIN, w.exp + 1) else w
  }

  /** The square of the root brackets the radicand: above it under RNDU, below under RNDD. */
  lemma SqrtRndAsWrittenSound(dst: Rad, s: Rad, rnd: Rnd)
    requires IsPos(s)
    ensures var r := SqrtRndAsWritten(dst, s, rnd);
      (rnd == RNDU ==> Value(s) <= Square(r)) &&
      (rnd == RNDD ==> Square(r) <= Value(s))
  {
    var (n, e) := SqrtArg(s);
    var m := RootMant(n, rnd);
    SqrtRadicand(s);
    RootMantBounds(n, rnd);
    if rnd == RNDU {
      ScaledMonoMant(n * 0x4000_0000, m * m, 2 * e);
    } else {
      ScaledMonoMant(m * m, n * 0x4000_0000, 2 * e);
    }
  }

  /** The radicand is n * 2^30 at the exponent 2e, with (n, e) = SqrtArg(s). */
  lemma SqrtRadicand(s: Rad)
    requires IsPos(s)
    ensures Value(s) == Scaled(SqrtArg(s).0 * 0x4000_0000, 2 * SqrtArg(s).1)
  {
    var (n, e) := SqrtArg(s);
    Pow2Values();
    if s.exp % 2 == 0 {
      ScaledShl(n, 2 * e, s.exp, 30);
    } else {
      ScaledShl(n, 2 * e, s.exp - 1, 30);
      ScaledDouble(s.mant, s.exp);
    }
  }

  /** The renormalisation of the corrected version keeps the value and its square. */
  lemma SqrtRndSound(dst: Rad, s: Rad, rnd: Rnd)
    requires IsNormalised(s) && !InfP(s)
    ensures var r := SqrtRnd(dst, s, rnd);
      (rnd == RNDU ==> Value(s) <= Square(r)) &&
      (rnd == RNDD ==> Square(r) <= Value(s))
  {
    if ZeroP(s) {
      ZeroValues(s, s);
      ZeroValues(Zero, Zero);
    } else {
      Classify(s);
      var w := SqrtRndAsWritten(dst, s, rnd);
      assert Square(SqrtRnd(dst, s, rnd)) == Square(w) by {
        if w.mant == MANT_MAX {
          SquareRenormalised(w.exp);
        }
      }
      SqrtRndAsWrittenSound(dst, s, rnd);
    }
  }

  /** (2^30 * 2^(e+1))^2 and (2^31 * 2^e)^2 are the same number. */
  lemma SquareRenormalised(e: int)
    ensures Square(Rad(MANT_MIN, e + 1)) == Square(Rad(MANT_MAX, e))
  {
    Pow2Values();
    assert MANT_MAX * MANT_MAX == MANT_MIN * MANT_MIN * Pow2(2);
    ScaledShl(MANT_MIN * MANT_MIN, 2 * e, 2 * (e + 1), 2);
  }

  /** The corrected root agrees with the code as written whenever that one is normalised. */
  lemma SqrtRndAgrees(dst: Rad, s: Rad, rnd: Rnd)
    requires IsNormalised(s)
    ensures IsNormalised(SqrtRndAsWritten(dst, s, rnd)) ==> SqrtRnd(dst, s, rnd) == SqrtRndAsWritten(dst, s, rnd)
    ensures SqrtRnd(dst, s, rnd) != SqrtRndAsWritten(dst, s, rnd) ==> rnd == RNDU && IsPos(s)
  {
  }

  /**
   * mpcr_sqrt_rnd as written returns the unnormalised mantissa 2^31 for the
   * normalised radius (2^31 - 1) * 2^1 under RNDU.
   */
  lemma SqrtRndUnnormalised()
    ensures IsNormalised(Rad(0x7FFF_FFFF, 1))
    ensures SqrtRndAsWritten(Zero, Rad(0x7FFF_FFFF, 1), RNDU) == Rad(MANT_MAX, -15)
    ensures !IsNormalised(Rad(MANT_MAX, -15))
    ensures SqrtRnd(Zero, Rad(0x7FFF_FFFF, 1), RNDU) == Rad(MANT_MIN, -14)
  {
    var N := 0xFFFF_FFFE * 0x4000_0000;
    assert IsCeilSqrt(N, MANT_MAX);
    CeilSqrtUnique(N, MANT_MAX);
  }

  /** The root of 1 is exactly 1 in both directions. */
  lemma SqrtOne(dst: Rad, rnd: Rnd)
    ensures SqrtRnd(dst, One, rnd) == One
  {
    OneValue();
    assert IsCeilSqrt(0x4000_0000 * 0x4000_0000, MANT_MIN);
    CeilSqrtUnique(0x4000_0000 * 0x4000_0000, MANT_MIN);
  }

  // ---------------------------------------------------------------------
  // The combining step of mpcr_mpc_abs.

  /**
   * Given bounds re and im on the absolute values of the real and the
   * imaginary part (both finite), bound sqrt(re^2 + im^2): squares are
   * exact, then one rounded addition and one rounded square root, in the
   * same direction. A zero part returns the other one.
   */
  function MpcAbsCombine(dst: Rad, re: Rad, im: Rad, rnd: Rnd): (r: Rad)
    requires IsNormalised(re) && IsNormalised(im) && !InfP(re) && !InfP(im)
    ensures IsNormalised(r) && !InfP(r)
  {
    if ZeroP(re) then im
    else if ZeroP(im) then re
    else
      MantProductBound(re.mant, re.mant);
      MantProductBound(im.mant, im.mant);
      var u := Rad(re.mant * re.mant, 2 * re.exp);
      var v := Rad(im.mant * im.mant, 2 * im.exp);
      MulStrictLeft(0, re.mant, re.mant);
      MulStrictLeft(0, im.mant, im.mant);
      var w := AddRnd(v, v, u, rnd);
      SqrtRnd(w, w, rnd)
  }

  /**
   * The combined radius bounds the modulus in the requested direction:
   * r^2 >= re^2 + im^2 under RNDU, r^2 <= re^2 + im^2 under RNDD. A zero
   * part gives the other part unchanged.
   */
  lemma MpcAbsCombineSound(dst: Rad, re: Rad, im: Rad, rnd: Rnd)
    requires IsNormalised(re) && IsNormalised(im) && !InfP(re) && !InfP(im)
    ensures var r := MpcAbsCombine(dst, re, im, rnd);
      (rnd == RNDU ==> Square(re) + Square(im) <= Square(r)) &&
      (rnd == RNDD ==> Square(r) <= Square(re) + Square(im)) &&
      (ZeroP(re) ==> r == im) && (!ZeroP(re) && ZeroP(im) ==> r == re)
  {
    if ZeroP(re) {
      ZeroValues(re, re);
    } else if ZeroP(im) {
      ZeroValues(im, im);
    } else {
      Classify(re);
      Classify(im);
      CombinePosSound(re, im, rnd);
    }
  }

  lemma CombinePosSound(re: Rad, im: Rad, rnd: Rnd)
    requires IsPos(re) && IsPos(im)
    ensures 0 < re.mant * re.mant < 0x4000_0000_0000_0000
    ensures 0 < im.mant * im.mant < 0x4000_0000_0000_0000
    ensures var u := Rad(re.mant * re.mant, 2 * re.exp);
      var v := Rad(im.mant * im.mant, 2 * im.exp);
      var w := AddRnd(v, v, u, rnd);
      var r := SqrtRnd(w, w, rnd);
      (rnd == RNDU ==> Square(re) + Square(im) <= Square(r)) &&
      (rnd == RNDD ==> Square(r) <= Square(re) + Square(im))
  {
    MantProductBound(re.mant, re.mant);
    MantProductBound(im.mant, im.mant);
    MulStrictLeft(0, re.mant, re.mant);
    MulStrictLeft(0, im.mant, im.mant);
    var u := Rad(re.mant * re.mant, 2 * re.exp);
    var v := Rad(im.mant * im.mant, 2 * im.exp);
    var w := AddRnd(v, v, u, rnd);
    AddRndSound(v, v, u, rnd);
    SqrtRndSound(w, w, rnd);
  }

  // ---------------------------------------------------------------------
  // A worked example: bounds 3 and 4 on the parts of a complex number.

  const Three: Rad := Rad(0x6000_0000, -29)   // 3 = 3 * 2^29 * 2^-29
  const Four: Rad := Rad(0x4000_0000, -28)    // 4 = 2^30 * 2^-28
  const Five: Rad := Rad(0x5000_0000, -28)    // 5 = 5 * 2^28 * 2^-28

  lemma SmallValues()
    ensures IsPos(Three) && IsPos(Four) && IsPos(Five)
    ensures Value(Three) == 3.0 && Value(Four) == 4.0 && Value(Five) == 5.0
  {
    Pow2Values();
    Pow2Add(28, 1);
    ScaledShl(3, -29, 0, 29);
    ScaledShl(4, -28, 0, 28);
    ScaledShl(5, -28, 0, 28);
  }

  /**
   * Although 3^2 + 4^2 is the perfect square 25, the combined bound on
   * |3 + 4i| is not exactly 5: rounding the sum up adds one unit, and the
   * square root of 25 + 2^-26 rounds up to 5 + 2^-28. Rounding down gives
   * 5 - 2^-28, because the root of the exact square 25 * 2^56 is not 2^30
   * and so is decremented.
   */
  lemma PythagoreanBounds(dst: Rad)
    ensures MpcAbsCombine(dst, Three, Four, RNDU) == Five.(mant := Five.mant + 1)
    ensures MpcAbsCombine(dst, Three, Four, RNDD) == Five.(mant := Five.mant - 1)
    ensures Value(MpcAbsCombine(dst, Three, Four, RNDD)) < Value(Five) < Value(MpcAbsCombine(dst, Three, Four, RNDU))
  {
    SmallValues();
    var u := Rad(0x6000_0000 * 0x6000_0000, -58);
    var v := Rad(0x4000_0000 * 0x4000_0000, -56);
    PythagoreanSum(RNDU);
    PythagoreanSum(RNDD);
    PythagoreanRoot(v);
    ScaledMonoMant(Five.mant - 1, Five.mant, Five.exp);
    ScaledMonoMant(Five.mant, Five.mant + 1, Five.exp);
  }

  /** 9 * 2^58 * 2^-58 + 2^60 * 2^-56, rounded up and down. */
  lemma PythagoreanSum(rnd: Rnd)
    ensures var u := Rad(0x6000_0000 * 0x6000_0000, -58);
      var v := Rad(0x4000_0000 * 0x4000_0000, -56);
      AddRnd(v, v, u, rnd) == Rad(25 * 0x400_0000 + (if rnd == RNDU then 1 else 0), -26)
  {
    PythagoreanAlign();
    var m := 25 * 0x100_0000_0000_0000 + (if rnd == RNDU then 1 else 0);
    NormaliseSixtyBits(m, -56, rnd);
  }

  /** A mantissa with leading bit 60 loses its low 30 bits. */
  lemma NormaliseSixtyBits(m: int, e: int, rnd: Rnd)
    requires 0x1000_0000_0000_0000 <= m < 0x2000_0000_0000_0000
    ensures var y := Rad(m / 0x4000_0000, e + 30);
      NormaliseRnd(Rad(m, e), rnd) == if rnd == RNDU then AddOneUlp(y) else y
  {
    Pow2Values();
    Log2Unique(m, 60);
  }

  /** The exponent gap is 2, and 9 * 2^58 shifted right by 2 bits loses nothing. */
  lemma PythagoreanAlign()
    ensures Align(Rad(0x4000_0000 * 0x4000_0000, -56), Rad(0x6000_0000 * 0x6000_0000, -58))
      == Rad(25 * 0x100_0000_0000_0000, -56)
  {
    assert Pow2(2) == 4;
  }

  /** The roots of 25 + 2^-26 (rounded up) and of 25 (rounded down). */
  lemma PythagoreanRoot(dst: Rad)
    ensures SqrtRnd(dst, Rad(25 * 0x400_0000 + 1, -26), RNDU) == Rad(0x5000_0001, -28)
    ensures SqrtRnd(dst, Rad(25 * 0x400_0000, -26), RNDD) == Rad(0x4FFF_FFFF, -28)
  {
    assert IsCeilSqrt((25 * 0x400_0000 + 1) * 0x4000_0000, 0x5000_0001);
    CeilSqrtUnique((25 * 0x400_0000 + 1) * 0x4000_0000, 0x5000_0001);
    assert IsCeilSqrt(25 * 0x400_0000 * 0x4000_0000, 0x5000_0000);
    CeilSqrtUnique(25 * 0x400_0000 * 0x4000_0000, 0x5000_0000);
  }
}
