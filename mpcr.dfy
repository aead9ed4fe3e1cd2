/**
 * The radius operations as the C code performs them: a radius is an
 * object of two 64-bit fields that each operation overwrites in place,
 * field by field, in the order of the source. Output and input radii may
 * be the same object; every method is specified against the old values
 * of its operands, which is what makes such aliased calls safe.
 */
module MpcrOps {
  import opened Powers
  import opened Radius
  import opened IntSqrt
  import RadiusArith

  /** struct __mpcr_struct { int64_t mant; int64_t exp; } */
  class Mpcr {
    var mant: int
    var exp: int

    constructor (m: int, e: int)
      ensures mant == m && exp == e
    {
      mant := m;
      exp := e;
    }

    function Get(): Rad
      reads this
    {
      Rad(mant, exp)
    }
  }

  /** leading_bit: the position of the leading bit of n >= 1, by repeated halving. */
  method LeadingBit(n: int) returns (k: nat)
    requires n >= 1
    ensures k == Log2(n)
    ensures Pow2(k) <= n < Pow2(k + 1)
  {
    var m := n;
    k := 0;
    while m >= 2
      invariant m >= 1
      invariant k + Log2(m) == Log2(n)
      decreases m
    {
      m := m / 2;
      k := k + 1;
    }
  }

  method AddOneUlp(r: Mpcr)
    requires IsPos(r.Get())
    modifies r
    ensures r.Get() == Radius.AddOneUlp(old(r.Get()))
  {
    r.mant := r.mant + 1;
    if r.mant == MANT_MAX {
      r.mant := r.mant / 2;
      r.exp := r.exp + 1;
    }
  }

  method NormaliseRnd(r: Mpcr, rnd: Rnd)
    requires -1 <= r.mant < INT64_LIMIT
    modifies r
    ensures r.Get() == Radius.NormaliseRnd(old(r.Get()), rnd)
  {
    ghost var x := r.Get();
    if ZeroP(r.Get()) {
      r.exp := 0;
    } else if !InfP(r.Get()) {
      var k := LeadingBit(r.mant);
      ShiftIntoRange(r.mant, k);
      if k <= 30 {
        r.mant := r.mant * Pow2(30 - k);
        r.exp := r.exp - (30 - k);
      } else {
        r.mant := r.mant / Pow2(k - 30);
        r.exp := r.exp + (k - 30);
        ghost var y := r.Get();
        assert y == Rad(x.mant / Pow2(k - 30), x.exp + (k - 30));
        if rnd == RNDU {
          AddOneUlp(r);
          assert r.Get() == Radius.AddOneUlp(y);
        }
      }
    }
  }

  method Normalise(r: Mpcr)
    requires -1 <= r.mant < INT64_LIMIT
    modifies r
    ensures r.Get() == Radius.NormaliseRnd(old(r.Get()), RNDU)
  {
    NormaliseRnd(r, RNDU);
  }

  method SetInf(r: Mpcr)
    modifies r
    ensures r.Get() == Radius.SetInf(old(r.Get()))
  {
    r.mant := -1;
  }

  method SetZero(r: Mpcr)
    modifies r
    ensures r.Get() == Zero
  {
    r.mant := 0;
    r.exp := 0;
  }

  method SetOne(r: Mpcr)
    modifies r
    ensures r.Get() == One
  {
    r.mant := MANT_MIN;
    r.exp := -30;
  }

  method Set(r: Mpcr, s: Rad)
    modifies r
    ensures r.Get() == s
  {
    r.mant := s.mant;
    r.exp := s.exp;
  }

  method MulRnd(r: Mpcr, s: Mpcr, t: Mpcr, rnd: Rnd)
    requires IsNormalised(s.Get()) && IsNormalised(t.Get())
    modifies r
    ensures r.Get() == RadiusArith.MulRnd(old(r.Get()), old(s.Get()), old(t.Get()), rnd)
  {
    if InfP(s.Get()) || InfP(t.Get()) {
      SetInf(r);
    } else if ZeroP(s.Get()) || ZeroP(t.Get()) {
      SetZero(r);
    } else {
      RadiusArith.MantProductBound(s.mant, t.mant);
      r.mant := s.mant * t.mant;
      r.exp := s.exp + t.exp;
      NormaliseRnd(r, rnd);
    }
  }

  method Mul(r: Mpcr, s: Mpcr, t: Mpcr)
    requires IsNormalised(s.Get()) && IsNormalised(t.Get())
    modifies r
    ensures r.Get() == RadiusArith.MulRnd(old(r.Get()), old(s.Get()), old(t.Get()), RNDU)
  {
    MulRnd(r, s, t, RNDU);
  }

  method SqrRnd(r: Mpcr, s: Mpcr, rnd: Rnd)
    requires IsNormalised(s.Get())
    modifies r
    ensures r.Get() == RadiusArith.MulRnd(old(r.Get()), old(s.Get()), old(s.Get()), rnd)
  {
    MulRnd(r, s, s, rnd);
  }

  method Sqr(r: Mpcr, s: Mpcr)
    requires IsNormalised(s.Get())
    modifies r
    ensures r.Get() == RadiusArith.MulRnd(old(r.Get()), old(s.Get()), old(s.Get()), RNDU)
  {
    MulRnd(r, s, s, RNDU);
  }

  method AddRnd(r: Mpcr, s: Mpcr, t: Mpcr, rnd: Rnd)
    requires RadiusArith.AddOperand(s.Get()) && RadiusArith.AddOperand(t.Get())
    modifies r
    ensures r.Get() == RadiusArith.AddRnd(old(r.Get()), old(s.Get()), old(t.Get()), rnd)
  {
    if InfP(s.Get()) || InfP(t.Get()) {
      SetInf(r);
    } else if ZeroP(s.Get()) {
      Set(r, t.Get());
    } else if ZeroP(t.Get()) {
      Set(r, s.Get());
    } else {
      ghost var a := if s.exp - t.exp >= 0 then RadiusArith.Align(s.Get(), t.Get())
                     else RadiusArith.Align(t.Get(), s.Get());
      var d := s.exp - t.exp;
      if d >= 0 {
        if d >= 64 {
          r.mant := s.mant;
        } else {
          r.mant := s.mant + t.mant / Pow2(d);
        }
        r.exp := s.exp;
      } else {
        if d <= -64 {
          r.mant := t.mant;
        } else {
          r.mant := t.mant + s.mant / Pow2(-d);
        }
        r.exp := t.exp;
      }
      assert r.Get() == a;
      if rnd == RNDU {
        r.mant := r.mant + 1;
      }
      NormaliseRnd(r, rnd);
    }
  }

  method Add(r: Mpcr, s: Mpcr, t: Mpcr)
    requires RadiusArith.AddOperand(s.Get()) && RadiusArith.AddOperand(t.Get())
    modifies r
    ensures r.Get() == RadiusArith.AddRnd(old(r.Get()), old(s.Get()), old(t.Get()), RNDU)
  {
    AddRnd(r, s, t, RNDU);
  }

  /**
   * mpcr_div, with a non-zero radius over zero giving infinity where the
   * C code divides by a zero mantissa.
   */
  method Div(r: Mpcr, s: Mpcr, t: Mpcr)
    requires IsNormalised(s.Get()) && IsNormalised(t.Get())
    modifies r
    ensures r.Get() == RadiusArith.Div(old(r.Get()), old(s.Get()), old(t.Get()))
  {
    if InfP(s.Get()) || InfP(t.Get()) {
      SetInf(r);
    } else if ZeroP(s.Get()) {
      if ZeroP(t.Get()) {
        SetInf(r);
      } else {
        SetZero(r);
      }
    } else if ZeroP(t.Get()) {
      SetInf(r);
    } else {
      RadiusArith.DivQuotientBound(s.mant, t.mant);
      ghost var x := Rad(s.mant * 0x1_0000_0000 / t.mant + 1, s.exp - 32 - t.exp);
      assert RadiusArith.Div(r.Get(), s.Get(), t.Get()) == Radius.NormaliseRnd(x, RNDU);
      r.mant := s.mant * 0x1_0000_0000 / t.mant + 1;
      r.exp := s.exp - 32 - t.exp;
      assert r.Get() == x;
      Normalise(r);
    }
  }

  method Div2ui(r: Mpcr, s: Mpcr, e: nat)
    requires IsNormalised(s.Get())
    modifies r
    ensures r.Get() == RadiusArith.Div2ui(old(r.Get()), old(s.Get()), e)
  {
    if InfP(s.Get()) {
      SetInf(r);
    } else if ZeroP(s.Get()) {
      SetZero(r);
    } else {
      r.mant := s.mant;
      r.exp := s.exp - e;
    }
  }

  /**
   * mpcr_sqrt_rnd, with a root of 2^31 renormalised to 2^30 and the
   * exponent one higher.
   */
  method SqrtRnd(r: Mpcr, s: Mpcr, rnd: Rnd)
    requires IsNormalised(s.Get())
    modifies r
    ensures r.Get() == RadiusArith.SqrtRnd(old(r.Get()), old(s.Get()), rnd)
  {
    if InfP(s.Get()) {
      SetInf(r);
    } else if ZeroP(s.Get()) {
      SetZero(r);
    } else {
      ghost var p := RadiusArith.SqrtArg(s.Get());
      if s.exp % 2 == 0 {
        var m := SqrtInt64(s.mant);
        r.mant := m;
        r.exp := s.exp / 2 - 15;
      } else {
        var m := SqrtInt64(2 * s.mant);
        r.mant := m;
        r.exp := (s.exp - 1) / 2 - 15;
      }
      assert r.Get() == Rad(CeilSqrt(p.0 * 0x4000_0000), p.1);
      if rnd == RNDD && r.mant != MANT_MIN {
        r.mant := r.mant - 1;
      }
      if r.mant == MANT_MAX {
        r.mant := MANT_MIN;
        r.exp := r.exp + 1;
      }
    }
  }

  method Sqrt(r: Mpcr, s: Mpcr)
    requires IsNormalised(s.Get())
    modifies r
    ensures r.Get() == RadiusArith.SqrtRnd(old(r.Get()), old(s.Get()), RNDU)
  {
    SqrtRnd(r, s, RNDU);
  }

  /**
   * The combining step of mpcr_mpc_abs: re and im are the bounds already
   * computed for the absolute values of the two parts.
   */
  method MpcAbsCombine(r: Mpcr, re: Rad, im: Rad, rnd: Rnd)
    requires IsNormalised(re) && IsNormalised(im) && !InfP(re) && !InfP(im)
    modifies r
    ensures r.Get() == RadiusArith.MpcAbsCombine(old(r.Get()), re, im, rnd)
  {
    if ZeroP(re) {
      Set(r, im);
    } else if ZeroP(im) {
      Set(r, re);
    } else {
      RadiusArith.MantProductBound(re.mant, re.mant);
      RadiusArith.MantProductBound(im.mant, im.mant);
      MulStrictLeft(0, re.mant, re.mant);
      MulStrictLeft(0, im.mant, im.mant);
      var u := new Mpcr(re.mant * re.mant, 2 * re.exp);
      r.mant := im.mant * im.mant;
      r.exp := 2 * im.exp;
      AddRnd(r, r, u, rnd);
      SqrtRnd(r, r, rnd);
    }
  }
}
