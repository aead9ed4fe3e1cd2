/**
 * Powers of two, as integers and as reals, and the arithmetic facts about
 * them that the radius model needs: shifts are multiplications and
 * divisions by `Pow2`, and the real value of a mantissa/exponent pair is
 * `Scaled(mant, exp)`, that is mant * 2^exp.
 */
module Powers {

  /** 2^n; `x << n` is `x * Pow2(n)` and, for x >= 0, `x >> n` is `x / Pow2(n)`. */
  function Pow2(n: nat): (p: nat)
    ensures p >= 1
  {
    if n == 0 then 1 else 2 * Pow2(n - 1)
  }

  lemma {:induction false} Pow2Add(a: nat, b: nat)
    ensures Pow2(a + b) == Pow2(a) * Pow2(b)
  {
    if a > 0 {
      Pow2Add(a - 1, b);
      assert Pow2(a + b) == 2 * Pow2(a - 1 + b);
    }
  }

  lemma Pow2Mono(a: nat, b: nat)
    requires a <= b
    ensures Pow2(a) <= Pow2(b)
  {
    Pow2Add(a, b - a);
    MulMonoLeft(1, Pow2(b - a), Pow2(a));
  }

  /** The constants the radius code is written with. */
  lemma Pow2Values()
    ensures Pow2(30) == 0x4000_0000
    ensures Pow2(31) == 0x8000_0000
    ensures Pow2(32) == 0x1_0000_0000
    ensures Pow2(60) == 0x1000_0000_0000_0000 && Pow2(61) == 0x2000_0000_0000_0000
    ensures Pow2(62) == 0x4000_0000_0000_0000
    ensures Pow2(63) == 0x8000_0000_0000_0000
    ensures Pow2(64) == 0x1_0000_0000_0000_0000
  {
    Pow2Add(30, 1);
    Pow2Add(31, 1);
    Pow2Add(30, 30);
    Pow2Add(30, 31);
    Pow2Add(31, 31);
    Pow2Add(31, 32);
    Pow2Add(32, 32);
    assert Pow2(10) == 1024;
    Pow2Add(10, 10);
    Pow2Add(20, 10);
  }

  lemma MulMonoLeft(a: int, b: int, c: nat)
    requires a <= b
    ensures a * c <= b * c
  {
  }

  lemma MulStrictLeft(a: int, b: int, c: nat)
    requires a < b && c > 0
    ensures a * c < b * c
  {
  }

  /**
   * Truncating division by a positive divisor (C's `/` and `>>` on
   * non-negative operands) brackets its operand.
   */
  lemma DivBracket(m: nat, p: nat)
    requires p > 0
    ensures 0 <= m / p
    ensures (m / p) * p <= m < (m / p + 1) * p
  {
  }

  /** A lower bound a*p <= m survives division by p; an upper bound m < a*p becomes m/p < a. */
  lemma DivBounds(m: nat, p: nat, a: int)
    requires p > 0
    ensures a * p <= m ==> a <= m / p
    ensures m < a * p ==> m / p < a
  {
    DivBracket(m, p);
    if a * p <= m && m / p < a {
      MulMonoLeft(m / p + 1, a, p);
    }
    if m < a * p && a <= m / p {
      MulMonoLeft(a, m / p, p);
    }
  }

  /**
   * m * 2^e as a real, for any integer e. Defined by halving and doubling
   * so that unfolding it yields only linear facts.
   */
  ghost function Scaled(m: int, e: int): real
    decreases if e >= 0 then e else -e
  {
    if e == 0 then m as real
    else if e > 0 then 2.0 * Scaled(m, e - 1)
    else Scaled(m, e + 1) / 2.0
  }

  lemma {:induction false} ScaledAdd(a: int, b: int, e: int)
    ensures Scaled(a + b, e) == Scaled(a, e) + Scaled(b, e)
    decreases if e >= 0 then e else -e
  {
    if e > 0 {
      ScaledAdd(a, b, e - 1);
    } else if e < 0 {
      ScaledAdd(a, b, e + 1);
    }
  }

  lemma {:induction false} ScaledPos(m: int, e: int)
    requires m > 0
    ensures Scaled(m, e) > 0.0
    decreases if e >= 0 then e else -e
  {
    if e > 0 {
      ScaledPos(m, e - 1);
    } else if e < 0 {
      ScaledPos(m, e + 1);
    }
  }

  lemma ScaledZero(e: int)
    ensures Scaled(0, e) == 0.0
  {
    ScaledAdd(0, 0, e);
  }

  /** Scaled is increasing in the mantissa, strictly so when the mantissas differ. */
  lemma ScaledMonoMant(a: int, b: int, e: int)
    requires a <= b
    ensures Scaled(a, e) <= Scaled(b, e)
    ensures a < b ==> Scaled(a, e) < Scaled(b, e)
  {
    ScaledAdd(a, b - a, e);
    if a < b {
      ScaledPos(b - a, e);
    } else {
      ScaledZero(e);
    }
  }

  lemma ScaledDouble(m: int, e: int)
    ensures Scaled(2 * m, e - 1) == Scaled(m, e)
  {
    ScaledAdd(m, m, e - 1);
  }

  /** A left shift by j bits paid for by the exponent is exact. */
  lemma {:induction false} ScaledShl(m: int, lo: int, hi: int, j: nat)
    requires hi == lo + j
    ensures Scaled(m * Pow2(j), lo) == Scaled(m, hi)
    decreases j
  {
    if j > 0 {
      ScaledShl(2 * m, lo, hi - 1, j - 1);
      assert m * Pow2(j) == 2 * m * Pow2(j - 1);
      ScaledDouble(m, hi);
    }
  }

  /** ScaledShl with the shifted mantissa given by the caller, in whatever form it has there. */
  lemma ScaledShlTo(m: int, shifted: int, lo: int, hi: int, j: nat)
    requires hi == lo + j && shifted == m * Pow2(j)
    ensures Scaled(shifted, lo) == Scaled(m, hi)
  {
    ScaledShl(m, lo, hi, j);
  }

  /**
   * A right shift by j bits (which truncates) with the exponent raised by j
   * loses less than one unit in the new last place.
   */
  lemma ScaledShr(m: nat, lo: int, hi: int, j: nat)
    requires hi == lo + j
    ensures Scaled(m / Pow2(j), hi) <= Scaled(m, lo) < Scaled(m / Pow2(j) + 1, hi)
  {
    ScaledShrLower(m, lo, hi, j);
    ScaledShrUpper(m, lo, hi, j);
  }

  lemma ScaledShrLower(m: nat, lo: int, hi: int, j: nat)
    requires hi == lo + j
    ensures Scaled(m / Pow2(j), hi) <= Scaled(m, lo)
  {
    DivBracket(m, Pow2(j));
    ScaledBelow(m / Pow2(j), m, lo, hi, j);
  }

  /** q * 2^hi is at most m * 2^lo when q * 2^(hi - lo) is at most m. */
  lemma ScaledBelow(q: int, m: int, lo: int, hi: int, j: nat)
    requires hi == lo + j && q * Pow2(j) <= m
    ensures Scaled(q, hi) <= Scaled(m, lo)
  {
    ScaledShl(q, lo, hi, j);
    ScaledMonoMant(q * Pow2(j), m, lo);
  }

  lemma ScaledShrUpper(m: nat, lo: int, hi: int, j: nat)
    requires hi == lo + j
    ensures Scaled(m, lo) < Scaled(m / Pow2(j) + 1, hi)
  {
    var q := m / Pow2(j);
    DivBracket(m, Pow2(j));
    ScaledShl(q + 1, lo, hi, j);
    ScaledMonoMant(m, (q + 1) * Pow2(j), lo);
  }

  /** For a positive mantissa Scaled is increasing in the exponent. */
  lemma {:induction false} ScaledMonoExp(m: int, a: int, b: int)
    requires m > 0 && a <= b
    ensures Scaled(m, a) <= Scaled(m, b)
    decreases b - a
  {
    if a < b {
      ScaledMonoExp(m, a, b - 1);
      ScaledPos(m, b - 1);
    }
  }

  /** At a common exponent, Scaled orders exactly as the mantissas do. */
  lemma ScaledCmp(a: int, b: int, e: int)
    ensures Scaled(a, e) <= Scaled(b, e) <==> a <= b
    ensures Scaled(a, e) < Scaled(b, e) <==> a < b
  {
    if a <= b {
      ScaledMonoMant(a, b, e);
    } else {
      ScaledMonoMant(b, a, e);
    }
  }

  /**
   * Multiplying both sides of an inequality between two scaled values by
   * the same non-negative scaled value c * 2^ec keeps it.
   */
  lemma ScaledTimes(a: int, ea: int, b: int, eb: int, c: nat, ec: int, fa: int, fb: int)
    requires fa == ea + ec && fb == eb + ec
    requires Scaled(a, ea) <= Scaled(b, eb)
    ensures Scaled(a * c, fa) <= Scaled(b * c, fb)
  {
    if ea <= eb {
      ScaledTimesFrom(a, ea, b, eb, c, ec, fa, fb, ea);
    } else {
      ScaledTimesFrom(a, ea, b, eb, c, ec, fa, fb, eb);
    }
  }

  /** ScaledTimes, proved by comparing both sides at a common exponent lo. */
  lemma ScaledTimesFrom(a: int, ea: int, b: int, eb: int, c: nat, ec: int, fa: int, fb: int, lo: int)
    requires fa == ea + ec && fb == eb + ec && lo <= ea && lo <= eb
    requires Scaled(a, ea) <= Scaled(b, eb)
    ensures Scaled(a * c, fa) <= Scaled(b * c, fb)
  {
    var ja: nat, jb: nat := ea - lo, eb - lo;
    var pa, pb := Pow2(ja), Pow2(jb);
    assert a * pa <= b * pb by {
      ScaledShl(a, lo, ea, ja);
      ScaledShl(b, lo, eb, jb);
      ScaledCmp(a * pa, b * pb, lo);
    }
    assert (a * c) * pa <= (b * c) * pb by {
      MulMonoLeft(a * pa, b * pb, c);
      MulSwap(a, pa, c);
      MulSwap(b, pb, c);
    }
    ScaledShlTo(a * c, (a * c) * pa, lo + ec, fa, ja);
    ScaledShlTo(b * c, (b * c) * pb, lo + ec, fb, jb);
    ScaledMonoMant((a * c) * pa, (b * c) * pb, lo + ec);
  }

  lemma MulSwap(x: int, y: int, z: int)
    ensures (x * y) * z == (x * z) * y
  {
  }
}
