// The 64-by-32-bit division of the 32-bit ports: one shift, compare and subtract per bit.
module Division {

  const TWO32: nat := 0x1_0000_0000
  const TWO63: nat := 0x8000_0000_0000_0000
  const TWO64: nat := 0x1_0000_0000_0000_0000

  function Power2(k: nat): nat
    decreases k
  {
    if k == 0 then 1 else 2 * Power2(k - 1)
  }

  lemma {:induction false} Power2Splits(k: nat, n: nat)
    requires k <= n
    ensures Power2(k) * Power2(n - k) == Power2(n) && Power2(k) > 0
    decreases k
  {
    if k > 0 {
      Power2Splits(k - 1, n);
      assert Power2(n - (k - 1)) == 2 * Power2(n - k);
      assert Power2(k) * Power2(n - k) == Power2(k - 1) * (2 * Power2(n - k));
    } else {
      assert Power2(0) * Power2(n) == Power2(n);
    }
  }

  lemma Power2Of64()
    ensures Power2(64) == TWO64
  {
    assert Power2(8) == 256;
    Power2Splits(8, 16);
    Power2Splits(16, 32);
    Power2Splits(32, 64);
  }

  // The register pair after some steps: `high` is the part of the dividend shifted out so far,
  // `low` (below `p`) the part still to come, and the quotient bits found so far fill the bottom.
  ghost predicate Halfway(all: nat, divisor: nat, dividend: nat, rem: nat, p: nat, q: nat,
                          high: nat, low: nat, quot: nat) {
    && p * q == TWO64 && p > 0 && q > 0
    && all == high * p + low && low < p
    && dividend == low * q + quot && quot < q
    && high == quot * divisor + rem && rem < divisor
  }

  lemma TimesKeepsOrder(a: nat, b: nat, c: nat)
    requires a <= b
    ensures a * c <= b * c
  {}

  lemma NextBitOfLow(low: nat, p: nat, q: nat)
    requires p * q == TWO63 && low < 2 * p
    ensures low * q + q <= TWO64
    ensures low >= p ==> low * q >= TWO63
    ensures low < p ==> low * q + q <= TWO63
  {
    assert (low + 1) * q == low * q + q;
    assert 2 * p * q == 2 * (p * q);
    TimesKeepsOrder(low + 1, 2 * p, q);
    if low >= p {
      TimesKeepsOrder(p, low, q);
    } else {
      TimesKeepsOrder(low + 1, p, q);
    }
  }

  // The top bit of the dividend is the next bit of `low`.
  lemma TopBit(dividend: nat, low: nat, p: nat, q: nat, quot: nat)
    requires p * q == TWO63 && quot < q && low < 2 * p && dividend == low * q + quot
    ensures dividend < TWO64
    ensures dividend / TWO63 == if low >= p then 1 else 0
  {
    NextBitOfLow(low, p, q);
  }

  // One step: the top bit of the dividend moves into the remainder, and the divisor is taken
  // off when it fits.
  lemma StepKeepsHalfway(all: nat, divisor: nat, dividend: nat, rem: nat, p: nat, q: nat, high: nat, low: nat, quot: nat)
    requires Halfway(all, divisor, dividend, rem, 2 * p, q, high, low, quot) && 1 <= divisor < 0x8000_0000
    ensures var bit := dividend / TWO63;
      var r := 2 * rem + bit;
      var x: nat := if r >= divisor then 1 else 0;
      && bit <= 1 && r < TWO32 && low >= bit * p
      && Halfway(all, divisor, 2 * dividend % TWO64 + x, r - x * divisor, p, 2 * q,
                 2 * high + bit, low - bit * p, 2 * quot + x)
  {
    Halve(p, q);
    TopBit(dividend, low, p, q, quot);
    var bit: nat := if low >= p then 1 else 0;
    var r := 2 * rem + bit;
    var x: nat := if r >= divisor then 1 else 0;
    ShiftedOut(dividend, bit);
    Regroup(high, p, bit, low);
    Shifted(low, p, q, quot, bit);
    Quotient(quot, divisor, x, high, rem, bit);
    assert bit * p == if low >= p then p else 0;
  }

  lemma Halve(p: nat, q: nat)
    requires 2 * p * q == TWO64
    ensures p * q == TWO63 && p * (2 * q) == TWO64
  {
    assert 2 * p * q == 2 * (p * q) && p * (2 * q) == 2 * (p * q);
  }

  lemma ShiftedOut(dividend: nat, bit: nat)
    requires dividend < TWO64 && bit == dividend / TWO63
    ensures 2 * dividend % TWO64 == 2 * dividend - bit * TWO64
  {}

  lemma Regroup(high: nat, p: nat, bit: nat, low: nat)
    ensures high * (2 * p) + low == (2 * high + bit) * p + (low - bit * p)
  {}

  lemma Shifted(low: nat, p: nat, q: nat, quot: nat, bit: nat)
    requires p * q == TWO63
    ensures 2 * (low * q + quot) - bit * TWO64 == (low - bit * p) * (2 * q) + 2 * quot
  {
    assert bit * p * (2 * q) == 2 * bit * (p * q);
    assert (low - bit * p) * (2 * q) == low * (2 * q) - bit * p * (2 * q);
  }

  lemma Quotient(quot: nat, divisor: nat, x: nat, high: nat, rem: nat, bit: nat)
    requires high == quot * divisor + rem
    ensures 2 * high + bit == (2 * quot + x) * divisor + (2 * rem + bit - x * divisor)
  {
    assert (2 * quot + x) * divisor == 2 * (quot * divisor) + x * divisor;
  }

  lemma StartsHalfway(all: nat, divisor: nat)
    requires all < TWO64 && divisor >= 1
    ensures Halfway(all, divisor, all, 0, Power2(64), 1, 0, all, 0)
  {
    Power2Of64();
  }

  lemma EndsHalfway(all: nat, divisor: nat, dividend: nat, rem: nat, q: nat, high: nat, low: nat, quot: nat)
    requires Halfway(all, divisor, dividend, rem, Power2(0), q, high, low, quot)
    ensures dividend * divisor + rem == all && rem < divisor
  {
    assert low == 0 && dividend == quot && high == all;
  }

  // After `bit` steps the register pair is half-way through some division of `all` by the divisor.
  ghost predicate Divided(all: nat, divisor: nat, dividend: nat, rem: nat, bit: nat) {
    bit <= 64 && var p := Power2(64 - bit);
    exists q: nat, high: nat, low: nat, quot: nat :: Halfway(all, divisor, dividend, rem, p, q, high, low, quot)
  }

  lemma DivisionStarts(all: nat, divisor: nat)
    requires all < TWO64 && divisor >= 1
    ensures Divided(all, divisor, all, 0, 0)
  {
    StartsHalfway(all, divisor);
    hide Halfway, Power2;
  }

  lemma DivisionGoesOn(all: nat, divisor: nat, dividend: nat, rem: nat, bit: nat)
    requires Divided(all, divisor, dividend, rem, bit) && bit < 64 && 1 <= divisor < 0x8000_0000
    ensures var r := 2 * rem + dividend / TWO63;
      && r < TWO32
      && Divided(all, divisor, 2 * dividend % TWO64 + (if r >= divisor then 1 else 0),
                 if r >= divisor then r - divisor else r, bit + 1)
  {
    hide Halfway, Power2;
    Power2Doubles(63 - bit);
    var q: nat, high: nat, low: nat, quot: nat :|
      Halfway(all, divisor, dividend, rem, Power2(64 - bit), q, high, low, quot);
    var p, top, r := Power2(63 - bit), dividend / TWO63, 2 * rem + dividend / TWO63;
    StepKeepsHalfway(all, divisor, dividend, rem, p, q, high, low, quot);
    if r >= divisor {
      assert r - 1 * divisor == r - divisor;
      assert Halfway(all, divisor, 2 * dividend % TWO64 + 1, r - divisor, Power2(64 - (bit + 1)), 2 * q,
                     2 * high + top, low - top * p, 2 * quot + 1);
    } else {
      assert r - 0 * divisor == r;
      assert Halfway(all, divisor, 2 * dividend % TWO64 + 0, r, Power2(64 - (bit + 1)), 2 * q,
                     2 * high + top, low - top * p, 2 * quot + 0);
    }
  }

  lemma DivisionEnds(all: nat, divisor: nat, dividend: nat, rem: nat)
    requires Divided(all, divisor, dividend, rem, 64)
    ensures dividend * divisor + rem == all && rem < divisor
  {
    hide Halfway, Power2;
    var q: nat, high: nat, low: nat, quot: nat :|
      Halfway(all, divisor, dividend, rem, Power2(0), q, high, low, quot);
    EndsHalfway(all, divisor, dividend, rem, q, high, low, quot);
  }

  // The 32-bit remainder register never overflows, so the answer is that of exact division.
  method DivU64x32(all: nat, divisor: nat) returns (quotient: nat, remainder: nat)
    requires all < TWO64 && 1 <= divisor < 0x8000_0000
    ensures quotient * divisor + remainder == all && remainder < divisor
  {
    hide Divided;
    var dividend: nat, rem: nat, bit: nat := all, 0, 0;
    DivisionStarts(all, divisor);
    while bit < 64
      invariant bit <= 64 && Divided(all, divisor, dividend, rem, bit)
    {
      DivisionGoesOn(all, divisor, dividend, rem, bit);
      // shl, rcl, rcl: the remainder and dividend together, one place to the left.
      var top := dividend / TWO63;
      dividend := 2 * dividend % TWO64;
      rem := (2 * rem + top) % TWO32;
      if rem >= divisor {
        dividend := dividend + 1;
        rem := rem - divisor;
      }
      bit := bit + 1;
    }
    DivisionEnds(all, divisor, dividend, rem);
    quotient, remainder := dividend, rem;
  }

  lemma Power2Doubles(k: nat)
    ensures Power2(k + 1) == 2 * Power2(k)
  {}

  lemma ExactDivisionIsUnique(n: nat, d: nat, q: nat, r: nat)
    requires q * d + r == n && r < d
    ensures q == n / d && r == n % d
  {
    var k: int := q as int - n / d;
    assert k * d == q * d - n / d * d;
    assert n / d * d == n - n % d;
    WithinOne(k, d, (n % d) as int - r as int);
  }

  lemma WithinOne(k: int, d: int, x: int)
    requires k * d == x && -d < x < d
    ensures k == 0
  {}
}
