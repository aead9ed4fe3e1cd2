/**
 * The radius type of GNU MPC's ball arithmetic (src/radius.c): a
 * non-negative bound, or infinity, held as a pair of 64-bit integers.
 *
 *   infinite  mant == -1, exponent meaningless and left as it was;
 *   zero      mant == 0 (normalised: exp == 0 too);
 *   positive  value mant * 2^exp; normalised when 2^30 <= mant < 2^31.
 *
 * This module holds the value view of a radius, the accessors, and the one
 * place where precision is dropped: normalisation with directed rounding.
 */
module Radius {
  import opened Powers

  const MANT_MIN: int := 0x4000_0000           // 2^30, MPCR_MANT_MIN
  const MANT_MAX: int := 0x8000_0000           // 2^31, MPCR_MANT_MAX
  const INT64_LIMIT: int := 0x8000_0000_0000_0000  // 2^63, the first mantissa an int64 cannot hold

  /** The two MPFR rounding modes the radius code accepts. */
  datatype Rnd = RNDU | RNDD

  /** The struct { int64_t mant; int64_t exp; } of one radius. */
  datatype Rad = Rad(mant: int, exp: int)

  // ---------------------------------------------------------------------
  // Accessors and predicates (mpcr_inf_p, mpcr_zero_p, mpcr_lt_half_p,
  // mpcr_get_exp): expressions over the two fields.

  predicate InfP(x: Rad) { x.mant == -1 }

  predicate ZeroP(x: Rad) { x.mant == 0 }

  predicate LtHalfP(x: Rad) { x.exp < -31 }

  function GetExp(x: Rad): int { x.exp + 31 }

  /** The representation invariant every public operation re-establishes. */
  predicate IsNormalised(x: Rad)
  {
    InfP(x) || (x.mant == 0 && x.exp == 0) || MANT_MIN <= x.mant < MANT_MAX
  }

  /** A finite radius that is not zero: a normalised positive one. */
  predicate IsPos(x: Rad)
  {
    MANT_MIN <= x.mant < MANT_MAX
  }

  /**
   * The real number mant * 2^exp a finite radius stands for (meaningful
   * for mant >= 0, normalised or not).
   */
  ghost function Value(x: Rad): real
  {
    Scaled(x.mant, x.exp)
  }

  /**
   * One unit in the last place of a radius with exponent e: the step
   * between consecutive mantissas.
   */
  ghost function Ulp(e: int): real
  {
    Scaled(1, e)
  }

  // ---------------------------------------------------------------------
  // Setters (mpcr_set_inf, mpcr_set_zero, mpcr_set_one) as values.

  /** mpcr_set_inf writes the mantissa only. */
  function SetInf(dst: Rad): Rad { dst.(mant := -1) }

  const Zero: Rad := Rad(0, 0)

  const One: Rad := Rad(MANT_MIN, -30)

  // ---------------------------------------------------------------------
  // The meaning of the accessors on normalised radii.

  /**
   * The three states are told apart by the mantissa alone, and the value
   * of a normalised finite radius is zero exactly in the zero state.
   */
  lemma Classify(x: Rad)
    requires IsNormalised(x)
    ensures InfP(x) || ZeroP(x) || IsPos(x)
    ensures !(InfP(x) && ZeroP(x)) && !(InfP(x) && IsPos(x)) && !(ZeroP(x) && IsPos(x))
    ensures ZeroP(x) ==> x == Zero && Value(x) == 0.0
    ensures IsPos(x) ==> Value(x) > 0.0
  {
    if IsPos(x) {
      ScaledPos(x.mant, x.exp);
    } else if ZeroP(x) {
      ScaledZero(0);
    }
  }

  /**
   * mpcr_get_exp: a positive normalised radius lies in
   * [2^(GetExp - 1), 2^GetExp), so its value is f * 2^GetExp with 1/2 <= f < 1.
   */
  lemma GetExpBrackets(x: Rad)
    requires IsPos(x)
    ensures Ulp(GetExp(x) - 1) <= Value(x) < Ulp(GetExp(x))
  {
    Pow2Values();
    ScaledShl(1, x.exp, x.exp + 30, 30);
    ScaledShl(1, x.exp, x.exp + 31, 31);
    ScaledMonoMant(MANT_MIN, x.mant, x.exp);
    ScaledMonoMant(x.mant, MANT_MAX, x.exp);
  }

  /**
   * mpcr_lt_half_p answers "r < 1/2" exactly on positive normalised radii
   * (it is the test GetExp < 0); on zero, whose exponent is 0, it answers
   * false; on an infinite radius it reads whatever exponent mpcr_set_inf
   * left behind.
   */
  lemma LtHalfMeaning(x: Rad)
    requires IsNormalised(x)
    ensures IsPos(x) ==> (LtHalfP(x) <==> Value(x) < 0.5)
    ensures ZeroP(x) ==> !LtHalfP(x)
    ensures InfP(x) ==> (LtHalfP(x) <==> x.exp < -31)
    ensures LtHalfP(x) <==> GetExp(x) < 0
  {
    if IsPos(x) {
      GetExpBrackets(x);
      assert Ulp(-1) == 0.5;
      if LtHalfP(x) {
        ScaledMonoExp(1, GetExp(x), -1);
      } else {
        ScaledMonoExp(1, -1, GetExp(x) - 1);
      }
    }
  }

  /**
   * mpcr_lt_half_p as written answers true on an infinite radius whose
   * stale exponent is below -31, such as one set to infinity after holding
   * 2^30 * 2^-40.
   */
  lemma LtHalfOnInfinite()
    ensures var x := SetInf(Rad(MANT_MIN, -40));
      IsNormalised(x) && InfP(x) && LtHalfP(x)
  {
  }

  /**
   * mpcr_lt_half_p as written answers false on zero, although zero is below
   * 1/2.
   */
  lemma LtHalfOnZero()
    ensures IsNormalised(Zero) && Value(Zero) < 0.5 && !LtHalfP(Zero)
  {
    ScaledZero(0);
  }

  /**
   * mpcr_lt_half_p corrected: true on zero, never true on an infinite
   * radius, and the exponent test on a positive one.
   */
  predicate LtHalf(x: Rad)
  {
    ZeroP(x) || (!InfP(x) && x.exp < -31)
  }

  /** On normalised finite radii the corrected test is exactly r < 1/2. */
  lemma LtHalfSound(x: Rad)
    requires IsNormalised(x)
    ensures LtHalf(x) ==> !InfP(x) && Value(x) < 0.5
    ensures !InfP(x) ==> (LtHalf(x) <==> Value(x) < 0.5)
    ensures ZeroP(x) ==> LtHalf(x)
    ensures InfP(x) ==> !LtHalf(x)
  {
    LtHalfMeaning(x);
    Classify(x);
  }

  /** mpcr_set_one sets the normalised radius of value exactly 1. */
  lemma OneValue()
    ensures IsPos(One) && Value(One) == 1.0
    ensures !LtHalfP(One) && GetExp(One) == 1
  {
    Pow2Values();
    ScaledShl(1, -30, 0, 30);
  }

  /** mpcr_set_zero and mpcr_set_inf produce normalised radii of the right kind. */
  lemma SettersNormalised(dst: Rad)
    ensures IsNormalised(Zero) && ZeroP(Zero) && Value(Zero) == 0.0
    ensures IsNormalised(SetInf(dst)) && InfP(SetInf(dst)) && SetInf(dst).exp == dst.exp
  {
    ScaledZero(0);
  }

  // ---------------------------------------------------------------------
  // Normalisation (leading_bit, mpcr_add_one_ulp, mpcr_normalise_rnd).

  /** The position of the leading bit of a positive integer. */
  function Log2(n: int): (k: nat)
    requires n >= 1
    ensures Pow2(k) <= n < Pow2(k + 1)
  {
    if n < 2 then 0 else Log2(n / 2) + 1
  }

  /** The leading-bit position is the only k with 2^k <= n < 2^(k+1). */
  lemma Log2Unique(n: int, k: nat)
    requires Pow2(k) <= n < Pow2(k + 1)
    ensures Log2(n) == k
  {
    var l := Log2(n);
    if l < k {
      Pow2Mono(l + 1, k);
    } else if l > k {
      Pow2Mono(k + 1, l);
    }
  }

  /** Add one to the mantissa of a normalised positive radius, renormalising on carry. */
  function AddOneUlp(x: Rad): (r: Rad)
    requires IsPos(x)
    ensures IsPos(r)
  {
    var m := x.mant + 1;
    if m == MANT_MAX then Rad(m / 2, x.exp + 1) else Rad(m, x.exp)
  }

  /** mpcr_add_one_ulp adds exactly one unit in the last place. */
  lemma AddOneUlpValue(x: Rad)
    requires IsPos(x)
    ensures Value(AddOneUlp(x)) == Value(Rad(x.mant + 1, x.exp))
    ensures AddOneUlp(x).exp == x.exp || AddOneUlp(x).exp == x.exp + 1
  {
    if x.mant + 1 == MANT_MAX {
      ScaledDouble(MANT_MIN, x.exp + 1);
    }
  }

  /** Shifting a mantissa with leading bit k by 30 - k bits lands it in [2^30, 2^31). */
  lemma ShiftIntoRange(m: int, k: nat)
    requires Pow2(k) <= m < Pow2(k + 1)
    ensures k <= 30 ==> MANT_MIN <= m * Pow2(30 - k) < MANT_MAX
    ensures k > 30 ==> MANT_MIN <= m / Pow2(k - 30) < MANT_MAX
  {
    Pow2Values();
    if k <= 30 {
      Pow2Add(k, 30 - k);
      Pow2Add(k + 1, 30 - k);
      MulMonoLeft(Pow2(k), m, Pow2(30 - k));
      MulStrictLeft(m, Pow2(k + 1), Pow2(30 - k));
    } else {
      Pow2Add(30, k - 30);
      Pow2Add(31, k - 30);
      DivBounds(m, Pow2(k - 30), Pow2(30));
      DivBounds(m, Pow2(k - 30), Pow2(31));
    }
  }

  /**
   * mpcr_normalise_rnd: bring a possibly unnormalised radius (mantissa
   * below 2^63) into normal form; zero gets exponent 0, infinity is left
   * alone, and a positive mantissa is shifted into [2^30, 2^31), the bits
   * shifted out on the right being dropped and, under RNDU, compensated by
   * one unit in the last place.
   */
  function NormaliseRnd(x: Rad, rnd: Rnd): (r: Rad)
    requires -1 <= x.mant < INT64_LIMIT
    ensures IsNormalised(r)
    ensures InfP(x) ==> r == x
    ensures ZeroP(x) ==> r == Zero
    ensures x.mant > 0 ==> IsPos(r)
  {
    if ZeroP(x) then Zero
    else if InfP(x) then x
    else
      var k := Log2(x.mant);
      ShiftIntoRange(x.mant, k);
      if k <= 30 then
        Rad(x.mant * Pow2(30 - k), x.exp - (30 - k))
      else
        var y := Rad(x.mant / Pow2(k - 30), x.exp + (k - 30));
        if rnd == RNDU then AddOneUlp(y) else y
  }

  /** Normalising a mantissa that already fits in 31 bits only shifts left: it is exact. */
  lemma NormaliseRndExact(x: Rad, rnd: Rnd)
    requires 0 < x.mant < MANT_MAX
    ensures Value(NormaliseRnd(x, rnd)) == Value(x)
  {
    var k := Log2(x.mant);
    Pow2Values();
    if k > 30 {
      Pow2Mono(31, k);
    }
    ScaledShl(x.mant, x.exp - (30 - k), x.exp, 30 - k);
  }

  /**
   * r is the real v rounded in the direction rnd: below or at v under
   * RNDD, at or above it under RNDU, and in either case within one unit
   * in the last place of r.
   */
  ghost predicate RoundsTo(v: real, r: Rad, rnd: Rnd)
  {
    IsPos(r) &&
    Scaled(r.mant - 1, r.exp) <= v < Scaled(r.mant + 1, r.exp) &&
    (rnd == RNDD ==> Value(r) <= v) &&
    (rnd == RNDU ==> v <= Value(r))
  }

  /**
   * The rounding of mpcr_normalise_rnd is directed and costs at most one
   * unit in the last place of the result.
   */
  lemma NormaliseRndSound(x: Rad, rnd: Rnd)
    requires 0 < x.mant < INT64_LIMIT
    ensures RoundsTo(Value(x), NormaliseRnd(x, rnd), rnd)
  {
    var k := Log2(x.mant);
    ShiftIntoRange(x.mant, k);
    if k <= 30 {
      ShiftLeftSound(x, k, rnd);
    } else {
      ShiftRightSound(x, k, rnd);
    }
  }

  /** A left shift into range is exact, so it rounds correctly in both directions. */
  lemma ShiftLeftSound(x: Rad, k: nat, rnd: Rnd)
    requires 0 < x.mant && k <= 30
    requires MANT_MIN <= x.mant * Pow2(30 - k) < MANT_MAX
    ensures RoundsTo(Value(x), Rad(x.mant * Pow2(30 - k), x.exp - (30 - k)), rnd)
  {
    var r := Rad(x.mant * Pow2(30 - k), x.exp - (30 - k));
    ScaledShl(x.mant, r.exp, x.exp, 30 - k);
    ScaledMonoMant(r.mant - 1, r.mant, r.exp);
    ScaledMonoMant(r.mant, r.mant + 1, r.exp);
  }

  /**
   * A right shift into range truncates, which rounds down; under RNDU one
   * unit is added back.
   */
  lemma ShiftRightSound(x: Rad, k: nat, rnd: Rnd)
    requires 0 < x.mant && k > 30
    requires MANT_MIN <= x.mant / Pow2(k - 30) < MANT_MAX
    ensures var y := Rad(x.mant / Pow2(k - 30), x.exp + (k - 30));
      RoundsTo(Value(x), if rnd == RNDU then AddOneUlp(y) else y, rnd)
  {
    var j: nat := k - 30;
    var y := Rad(x.mant / Pow2(j), x.exp + j);
    assert Value(y) <= Value(x) < Scaled(y.mant + 1, y.exp) by {
      ScaledShr(x.mant, x.exp, y.exp, j);
    }
    if rnd == RNDU {
      var r := AddOneUlp(y);
      RoundUpOneUlp(y);
      ScaledMonoMant(r.mant, r.mant + 1, r.exp);
    } else {
      ScaledMonoMant(y.mant - 1, y.mant, y.exp);
    }
  }

  /**
   * Rounding a truncated mantissa up by one unit (mpcr_add_one_ulp) gives
   * a radius one ulp above it, whose own ulp below is still at most the
   * truncated value, carry or not.
   */
  lemma RoundUpOneUlp(y: Rad)
    requires IsPos(y)
    ensures var r := AddOneUlp(y);
      Value(r) == Scaled(y.mant + 1, y.exp) && Scaled(r.mant - 1, r.exp) <= Value(y)
  {
    var r := AddOneUlp(y);
    AddOneUlpValue(y);
    if r.exp != y.exp {
      ScaledDouble(r.mant - 1, y.exp + 1);
      ScaledMonoMant(2 * (r.mant - 1), y.mant, y.exp);
    }
  }
}
