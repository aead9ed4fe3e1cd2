/**
 * Integer square roots for mpcr_sqrt: the ceiling of a square root as a
 * reference definition, and sqrt_int64, which computes it for the 62-bit
 * arguments the radius code passes by five rounded-up Babylonian steps and
 * a final correction.
 */
module IntSqrt {
  import opened Powers

  /** c is the ceiling of the square root of N >= 1. */
  predicate IsCeilSqrt(N: int, c: int)
  {
    c >= 1 && (c - 1) * (c - 1) < N <= c * c
  }

  lemma SquareMono(a: nat, b: nat)
    requires a <= b
    ensures a * a <= b * b
  {
    MulMonoLeft(a, b, a);
    MulMonoLeft(a, b, b);
  }

  /** The floor of the square root, by recursion on n / 4. */
  function FloorSqrt(n: nat): (r: nat)
    ensures r * r <= n < (r + 1) * (r + 1)
  {
    if n < 4 then
      (if n == 0 then 0 else 1)
    else
      var h := FloorSqrt(n / 4);
      FloorSqrtStep(n, h);
      if (2 * h + 1) * (2 * h + 1) <= n then 2 * h + 1 else 2 * h
  }

  /** Doubling the root of n / 4 lands within one of the root of n. */
  lemma FloorSqrtStep(n: nat, h: nat)
    requires h * h <= n / 4 < (h + 1) * (h + 1)
    ensures (2 * h) * (2 * h) <= n < (2 * h + 2) * (2 * h + 2)
  {
    var q := n / 4;
    assert (2 * h) * (2 * h) == 4 * (h * h);
    assert (2 * h + 2) * (2 * h + 2) == 4 * ((h + 1) * (h + 1));
  }

  function CeilSqrt(N: int): (c: nat)
    requires N >= 1
    ensures IsCeilSqrt(N, c)
  {
    FloorSqrt(N - 1) + 1
  }

  /** There is only one ceiling square root, so CeilSqrt is it. */
  lemma CeilSqrtUnique(N: int, c: int)
    requires N >= 1 && IsCeilSqrt(N, c)
    ensures c == CeilSqrt(N)
  {
    var d := CeilSqrt(N);
    if c < d {
      SquareMono(c, d - 1);
    } else if d < c {
      SquareMono(d, c - 1);
    }
  }

  /** For the arguments of sqrt_int64, the root has 31 bits (or is 2^31). */
  lemma CeilSqrtRange(N: int)
    requires 0x1000_0000_0000_0000 <= N < 0x4000_0000_0000_0000
    ensures 0x4000_0000 <= CeilSqrt(N) <= 0x8000_0000
  {
    var c := CeilSqrt(N);
    if c < 0x4000_0000 {
      SquareMono(c, 0x3FFF_FFFF);
    }
    if c > 0x8000_0000 {
      SquareMono(0x8000_0000, c - 1);
    }
  }

  /** One rounded-up Babylonian step: the ceiling of (s + N / s) / 2. */
  function Step(N: int, s: int): int
    requires s > 0
  {
    (s * s + N + 2 * s - 1) / (2 * s)
  }

  /**
   * From any upper bound s >= c = ceil(sqrt N), a step stays an upper
   * bound, does not increase, and squares the error (scaled by 2s).
   */
  lemma StepBounds(N: int, c: int, s: int)
    requires IsCeilSqrt(N, c) && c <= s
    ensures c <= Step(N, s) <= s
    ensures (Step(N, s) - c - 1) * (2 * s) < (s - c) * (s - c)
  {
    var m := s * s + N + 2 * s - 1;
    var p := 2 * s;
    var t := m / p;
    DivBracket(m, p);
    StepLower(N, c, s);
    DivBounds(m, p, c);
    StepUpper(N, c, s);
    DivBounds(m, p, s + 1);
    StepError(N, c, s, t);
  }

  lemma StepLower(N: int, c: int, s: int)
    requires IsCeilSqrt(N, c) && c <= s
    ensures c * (2 * s) <= s * s + N + 2 * s - 1
  {
    var d := s - (c - 1);
    assert s * s == (d + (c - 1)) * (d + (c - 1));
    assert (d + (c - 1)) * (d + (c - 1)) == d * d + 2 * d * (c - 1) + (c - 1) * (c - 1);
    assert c * (2 * s) == 2 * (d + (c - 1)) * (c - 1) + 2 * s;
  }

  lemma StepUpper(N: int, c: int, s: int)
    requires IsCeilSqrt(N, c) && c <= s
    ensures s * s + N + 2 * s - 1 < (s + 1) * (2 * s)
  {
    SquareMono(c, s);
  }

  lemma StepError(N: int, c: int, s: int, t: int)
    requires IsCeilSqrt(N, c) && c <= s
    requires t * (2 * s) <= s * s + N + 2 * s - 1
    ensures (t - c - 1) * (2 * s) < (s - c) * (s - c)
  {
    assert (t - c - 1) * (2 * s) == t * (2 * s) - 2 * s * c - 2 * s;
    assert (s - c) * (s - c) == s * s - 2 * s * c + c * c;
  }

  /** ceil(e^2 / 2^31): how an error e above the root shrinks in one step. */
  function Shrink(e: int): int
  {
    (e * e + 0x7FFF_FFFF) / 0x8000_0000
  }

  /** With s >= 2^30, the error after a step is at most Shrink of the error before. */
  lemma StepShrinks(N: int, c: int, s: int)
    requires IsCeilSqrt(N, c) && c <= s && s >= 0x4000_0000
    ensures Step(N, s) - c <= Shrink(s - c)
  {
    var t := Step(N, s);
    var e := s - c;
    StepBounds(N, c, s);
    if t - c >= 1 {
      MulMonoLeft(0x8000_0000, 2 * s, t - c - 1);
      DivBounds(e * e + 0x7FFF_FFFF, 0x8000_0000, t - c);
    }
  }

  lemma ShrinkMono(e: nat, f: nat)
    requires e <= f
    ensures Shrink(e) <= Shrink(f)
  {
    SquareMono(e, f);
    DivMono(e * e + 0x7FFF_FFFF, f * f + 0x7FFF_FFFF, 0x8000_0000);
  }

  lemma DivMono(a: nat, b: nat, p: nat)
    requires a <= b && p > 0
    ensures a / p <= b / p
  {
    DivBracket(a, p);
    DivBounds(b, p, a / p);
  }

  /** After i steps from 2^31 the error is at most ErrBound(i). */
  function ErrBound(i: nat): nat
  {
    if i == 0 then 0x4000_0000
    else if i == 1 then 0x2000_0000
    else if i == 2 then 0x800_0000
    else if i == 3 then 0x80_0000
    else if i == 4 then 0x8000
    else 1
  }

  lemma ErrBoundShrinks(i: nat, e: nat)
    requires i < 5 && e <= ErrBound(i)
    ensures Shrink(e) <= ErrBound(i + 1)
  {
    ShrinkMono(e, ErrBound(i));
  }

  /**
   * sqrt_int64: for 2^30 <= n < 2^32 returns ceil(sqrt(n * 2^30)). The
   * unsigned 64-bit arithmetic never wraps, which the assertions state.
   */
  method SqrtInt64(n: int) returns (r: int)
    requires 0x4000_0000 <= n < 0x1_0000_0000
    ensures r == CeilSqrt(n * 0x4000_0000)
    ensures 0x4000_0000 <= r <= 0x8000_0000
  {
    var N := n * 0x4000_0000;
    var s := 0x8000_0000;
    ghost var c := CeilSqrt(N);
    CeilSqrtRange(N);
    var i := 0;
    while i < 5
      invariant 0 <= i <= 5
      invariant c <= s <= 0x8000_0000
      invariant s - c <= ErrBound(i)
    {
      var t := s * 2;
      assert s * s <= 0x4000_0000_0000_0000 by {
        SquareMono(s, 0x8000_0000);
      }
      assert s * s + N + t - 1 < 0x1_0000_0000_0000_0000;
      StepBounds(N, c, s);
      StepShrinks(N, c, s);
      ErrBoundShrinks(i, s - c);
      s := (s * s + N + t - 1) / t;
      i := i + 1;
    }
    if (s - 1) * (s - 1) >= N {
      r := s - 1;
    } else {
      r := s;
    }
    CeilSqrtUnique(N, r);
  }
}
