/** `src/impl/math.c`: 64-bit division by shifting and subtracting. */
module LongDivision {
  import opened Bytes

  const WIDE: nat := 0x1_0000_0000_0000_0000

  function Pow2(n: nat): (r: nat)
    ensures r >= 1
  {
    if n == 0 then 1 else 2 * Pow2(n - 1)
  }

  /** Bit `i` of `x`. */
  function Bit(x: nat, i: nat): nat {
    x / Pow2(i) % 2
  }

  /** `x | (1ULL << i)`. */
  function SetBit(x: nat, i: nat): nat {
    if Bit(x, i) == 1 then x else x + Pow2(i)
  }

  /** `x << 1` in 64 bits. */
  function Shifted(x: u64): u64 {
    2 * x % WIDE
  }

  lemma {:induction false} Pow2Splits(m: nat, n: nat)
    ensures Pow2(m + n) == Pow2(m) * Pow2(n)
  {
    if m > 0 {
      Pow2Splits(m - 1, n);
      assert Pow2(m + n) == 2 * (Pow2(m - 1) * Pow2(n));
    }
  }

  lemma Pow64()
    ensures Pow2(64) == WIDE
  {
    assert Pow2(2) == 4;
    hide Pow2;
    assert Pow2(4) == 16 by { Pow2Splits(2, 2); }
    assert Pow2(8) == 0x100 by { Pow2Splits(4, 4); }
    assert Pow2(16) == 0x1_0000 by { Pow2Splits(8, 8); }
    assert Pow2(32) == 0x1_0000_0000 by { Pow2Splits(16, 16); }
    Pow2Splits(32, 32);
  }

  /** The upper bits of a number, one more at a time. */
  lemma NextBit(x: nat, i: nat)
    ensures x / Pow2(i) == 2 * (x / Pow2(i + 1)) + Bit(x, i)
  {
    var p, q := Pow2(i), x / Pow2(i);
    assert x / (2 * p) == q / 2 by {
      DivTwice(x, p);
    }
  }

  lemma DivTwice(x: nat, p: nat)
    requires p > 0
    ensures x / (2 * p) == x / p / 2
  {
    var q, r := x / p, x % p;
    assert x == q * p + r;
    assert x == (q / 2) * (2 * p) + ((q % 2) * p + r);
    assert (q % 2) * p + r < 2 * p;
    QuotientIs(x, 2 * p, q / 2, (q % 2) * p + r);
  }

  lemma MulMono(x: nat, y: nat, d: nat)
    requires x <= y
    ensures x * d <= y * d
  {
  }

  lemma QuotientIs(x: nat, d: nat, q: nat, r: nat)
    requires d > 0 && x == q * d + r && r < d
    ensures x / d == q && x % d == r
  {
    var q', r' := x / d, x % d;
    assert x == q' * d + r';
    if q' < q {
      MulMono(q' + 1, q, d);
    } else if q < q' {
      MulMono(q + 1, q', d);
    }
  }

  /** A multiple of `2 * Pow2(i)` has bit `i` clear. */
  lemma LowBitsClear(k: nat, i: nat)
    ensures Bit(k * Pow2(i + 1), i) == 0
  {
    var p := Pow2(i);
    assert k * Pow2(i + 1) == (2 * k) * p + 0;
    QuotientIs(k * Pow2(i + 1), p, 2 * k, 0);
  }

  /** What the loop has computed when `n` bits of the dividend are left: the quotient `qh` of the upper
      part, which began with the remainder `r0`. */
  ghost predicate Partial(dividend: nat, divisor: nat, r0: nat, n: nat, qh: nat, quotient: nat, remainder: nat) {
    && n <= 64
    && r0 * Pow2(64 - n) + dividend / Pow2(n) == qh * divisor + remainder
    && remainder < divisor && quotient == qh * Pow2(n)
  }

  lemma MulTwo(x: nat, y: nat)
    ensures x * (2 * y) == 2 * (x * y) && (2 * x) * y == 2 * (x * y) && (2 * x + 1) * y == 2 * (x * y) + y
  {
  }

  /** One round of the loop, on the quotient of the upper part. */
  lemma Round(dividend: u64, divisor: u32, r0: nat, n: nat, qh: nat, quotient: nat, remainder: nat)
    requires 0 < n && Partial(dividend, divisor, r0, n, qh, quotient, remainder)
    ensures Bit(quotient, n - 1) == 0
    ensures var r := 2 * remainder + Bit(dividend, n - 1);
            && r < 2 * divisor && Bit(dividend, n - 1) < 2
            && if r >= divisor then Partial(dividend, divisor, r0, n - 1, 2 * qh + 1, quotient + Pow2(n - 1),
                                            r - divisor)
               else Partial(dividend, divisor, r0, n - 1, 2 * qh, quotient, r)
  {
    Pow2Next(n - 1);
    Pow2Next(64 - n);
    NextBit(dividend, n - 1);
    LowBitsClear(qh, n - 1);
    BitBelowTwo(dividend, n - 1);
    hide Pow2, Bit;
    MulTwo(r0, Pow2(64 - n));
    MulTwo(qh, divisor);
    MulTwo(qh, Pow2(n - 1));
    assert 64 - (n - 1) == 64 - n + 1;
  }

  lemma BitBelowTwo(x: nat, i: nat)
    ensures Bit(x, i) < 2
  {
  }

  lemma Pow2Next(n: nat)
    ensures Pow2(n + 1) == 2 * Pow2(n)
  {
  }

  /** The loop that `divide_u64_u32`, `divide_u64_u32_no_mod` and `mod_u64_u32` share. `r0` is the value
      that the remainder has at its start. No bit is shifted out. */
  method DivideLoop(dividend: u64, divisor: u32, r0: u64) returns (quotient: u64, remainder: u64)
    requires r0 < divisor
    ensures r0 * WIDE + dividend == quotient * divisor + remainder && remainder < divisor
  {
    hide Partial, Pow2, Bit;
    LoopStart(dividend, divisor, r0);
    quotient, remainder := 0, r0;
    var i := 64;
    ghost var qh: nat := 0;
    while i > 0
      invariant 0 <= i <= 64 && remainder < divisor && Partial(dividend, divisor, r0, i, qh, quotient, remainder)
    {
      Round(dividend, divisor, r0, i, qh, quotient, remainder);
      ShiftsNothingOut(remainder, divisor);
      i := i - 1;
      remainder := Shifted(remainder);
      var bit := Bit(dividend, i);
      remainder := remainder + bit;
      if remainder >= divisor {
        remainder := remainder - divisor;
        qh := 2 * qh + 1;
        QuotientFits(dividend, divisor, r0, i, qh, quotient + Pow2(i), remainder);
        quotient := SetBit(quotient, i);
      } else {
        qh := 2 * qh;
      }
    }
    LoopEnd(dividend, divisor, r0, qh, quotient, remainder);
  }

  lemma ShiftsNothingOut(remainder: u64, divisor: u32)
    requires remainder < divisor
    ensures Shifted(remainder) == 2 * remainder
  {
  }

  lemma LoopStart(dividend: u64, divisor: u32, r0: u64)
    requires r0 < divisor
    ensures Partial(dividend, divisor, r0, 64, 0, 0, r0)
  {
    Pow64();
    assert Pow2(0) == 1;
    hide Pow2;
    assert dividend / WIDE == 0;
  }

  lemma LoopEnd(dividend: u64, divisor: u32, r0: u64, qh: nat, quotient: nat, remainder: nat)
    requires Partial(dividend, divisor, r0, 0, qh, quotient, remainder)
    ensures r0 * WIDE + dividend == quotient * divisor + remainder
  {
    Pow64();
    assert Pow2(0) == 1;
    hide Pow2;
  }

  /** The quotient stays within 64 bits. */
  lemma QuotientFits(dividend: u64, divisor: u32, r0: nat, n: nat, qh: nat, quotient: nat, remainder: nat)
    requires r0 < divisor && Partial(dividend, divisor, r0, n, qh, quotient, remainder)
    ensures quotient < WIDE
  {
    Pow64();
    Pow2Splits(n, 64 - n);
    hide Pow2;
    FitsArithmetic(dividend, Pow2(n), Pow2(64 - n), r0, qh, divisor, remainder);
  }

  lemma FitsArithmetic(dividend: nat, p: nat, m: nat, r0: nat, qh: nat, divisor: nat, remainder: nat)
    requires p > 0 && dividend < p * m && r0 < divisor && r0 * m + dividend / p == qh * divisor + remainder
    ensures qh * p < p * m
  {
    UpperBound(dividend, p, m);
    SmallQuotient(r0, m, dividend / p, qh, divisor, remainder);
    hide Pow2;
    MulMono(qh, m - 1, p);
    MulLess(m, p);
  }

  lemma MulLess(m: nat, p: nat)
    requires m > 0
    ensures (m - 1) * p == m * p - p
  {
  }

  lemma UpperBound(x: nat, p: nat, m: nat)
    requires p > 0 && x < p * m
    ensures x / p < m
  {
    if x / p >= m {
      MulMono(m, x / p, p);
    }
  }

  lemma SmallQuotient(r0: nat, m: nat, hi: nat, qh: nat, divisor: nat, remainder: nat)
    requires r0 < divisor && hi < m && r0 * m + hi == qh * divisor + remainder
    ensures qh < m
  {
    if qh >= m {
      MulMono(m, qh, divisor);
      MulMono(r0 + 1, divisor, m);
    }
  }

  /** `divide_u64_u32_no_mod`. */
  method DivideNoMod(dividend: u64, divisor: u32) returns (quotient: u64)
    ensures quotient == if divisor == 0 then 0 else dividend / divisor
  {
    if divisor == 0 {
      return 0;
    }
    var remainder;
    quotient, remainder := DivideLoop(dividend, divisor, 0);
    QuotientIs(dividend, divisor, quotient, remainder);
  }

  /** `mod_u64_u32`. */
  method Mod(dividend: u64, divisor: u32) returns (remainder: u64)
    ensures remainder == if divisor == 0 then 0 else dividend % divisor
  {
    if divisor == 0 {
      return 0;
    }
    var quotient;
    quotient, remainder := DivideLoop(dividend, divisor, 0);
    QuotientIs(dividend, divisor, quotient, remainder);
  }

  /** `divide_u64_u32`. It does not clear the remainder first: starting from one that is smaller than
      the divisor, it divides `dividend` iff that is 0, and a number 2^64 times as large otherwise. */
  method Divide(dividend: u64, divisor: u32, remainder0: u64) returns (quotient: u64, remainder: u64)
    requires divisor == 0 || remainder0 < divisor
    ensures divisor == 0 ==> quotient == 0 && remainder == remainder0
    ensures divisor > 0 ==> remainder < divisor && remainder0 * WIDE + dividend == quotient * divisor + remainder
    ensures divisor > 0 ==> ((quotient == dividend / divisor && remainder == dividend % divisor) <==> remainder0 == 0)
  {
    if divisor == 0 {
      return 0, remainder0;
    }
    quotient, remainder := DivideLoop(dividend, divisor, remainder0);
    if remainder0 == 0 {
      QuotientIs(dividend, divisor, quotient, remainder);
    } else {
      assert remainder0 * WIDE >= WIDE;
    }
  }
}
