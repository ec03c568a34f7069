// The binary logarithms of the codec, which read the exponent of a single-precision
// float.
module Types {
  import opened Words
  import opened Numbers

  const U32_SIZE: nat := 0x1_0000_0000
  const FRACTION: nat := 0x80_0000

  type U32 = n: nat | n < 0x1_0000_0000

  // The bitwise and of two numbers
  function BitAnd(a: nat, b: nat): nat {
    if a == 0 || b == 0 then 0 else (a % 2) * (b % 2) + 2 * BitAnd(a / 2, b / 2)
  }

  function IsPow2(number: U32): bool {
    BitAnd(number, (number + U32_SIZE - 1) % U32_SIZE) == 0
  }

  // The place of the highest one bit
  function Floor(n: nat): (k: nat)
    requires n > 0
    ensures Pow2(k) <= n < 2 * Pow2(k)
  {
    if n == 1 then 0 else 1 + Floor(n / 2)
  }

  // n / u to the nearest integer, a tie to the even one
  function Rounded(n: nat, u: nat): nat
    requires u > 0
  {
    var q, rem := n / u, n % u;
    if 2 * rem > u || (2 * rem == u && q % 2 == 1) then q + 1 else q
  }

  // The significand of the float nearest to n, 24 bits long, or 2^24 when rounding
  // carries out of it
  function Significand(n: nat): nat
    requires n > 0
  {
    var k := Floor(n);
    if k <= 23 then n * Pow2(23 - k) else Rounded(n, Pow2(k - 23))
  }

  // The bits of F32(n): the biased exponent above 23 bits of fraction, so that a
  // carry goes into the exponent
  function FloatBits(n: U32): nat {
    if n == 0 then 0 else (Floor(n) + 127) * FRACTION + Significand(n) - FRACTION
  }

  function GetBinLog2(value: U32): U32 {
    (FloatBits(value) / FRACTION + U32_SIZE - 127) % U32_SIZE
  }

  function GetNextBinLog2(number: U32): U32 {
    if IsPow2(number) then GetBinLog2(number) else (GetBinLog2(number) + 1) % U32_SIZE
  }

  // ---- Powers of two ----

  lemma {:induction false} AndSelf(n: nat)
    ensures BitAnd(n, n) == n
  {
    if n > 0 {
      AndSelf(n / 2);
    }
  }

  lemma {:induction false} AndPrevious(n: nat)
    requires n > 0
    ensures BitAnd(n, n - 1) == 0 <==> n == Pow2(Floor(n))
  {
    if n > 1 {
      if n % 2 == 0 {
        assert (n - 1) / 2 == n / 2 - 1 && (n - 1) % 2 == 1;
        AndPrevious(n / 2);
      } else {
        assert (n - 1) / 2 == n / 2;
        AndSelf(n / 2);
      }
    }
  }

  lemma IsPow2Iff(n: U32)
    ensures IsPow2(n) <==> n == 0 || n == Pow2(Floor(n))
  {
    if n > 0 {
      DivMod(n + U32_SIZE - 1, U32_SIZE, 1, n - 1);
      AndPrevious(n);
    } else {
      DivMod(U32_SIZE - 1, U32_SIZE, 0, U32_SIZE - 1);
    }
  }

  // ---- The exponent ----

  lemma {:induction false} Pow2Monotone(a: nat, b: nat)
    requires a <= b
    ensures Pow2(a) <= Pow2(b)
  {
    if a < b {
      Pow2Monotone(a, b - 1);
    }
  }

  lemma FractionIsPower()
    ensures FRACTION == Pow2(23)
  {
    Pow2Values();
    Pow2Add(16, 7);
    assert Pow2(7) == 128;
  }

  // n is so close below the next power of two that the float is that power.
  predicate RoundsToPower(n: nat)
    requires n > 0
  {
    var k := Floor(n);
    k >= 24 && n >= 2 * Pow2(k) - Pow2(k - 24)
  }

  lemma RoundsUp(n: nat, u: nat)
    requires u > 0 && u % 2 == 0 && FRACTION * u <= n < 2 * FRACTION * u
    ensures FRACTION <= Rounded(n, u) <= 2 * FRACTION
    ensures Rounded(n, u) == 2 * FRACTION <==> 2 * n >= 4 * FRACTION * u - u
  {
    QuotientRange(n / u, n % u, u);
    assert n == n / u * u + n % u;
  }

  lemma QuotientRange(q: nat, rem: nat, u: nat)
    requires rem < u && FRACTION * u <= q * u + rem < 2 * FRACTION * u
    ensures FRACTION <= q < 2 * FRACTION
    ensures q < 2 * FRACTION - 1 ==> 2 * (q * u + rem) < 4 * FRACTION * u - u
    ensures q == 2 * FRACTION - 1 ==> (2 * (q * u + rem) >= 4 * FRACTION * u - u <==> 2 * rem >= u)
  {
    if q < FRACTION {
      MulMonotone(u, q + 1, FRACTION);
    } else if q >= 2 * FRACTION {
      MulMonotone(u, 2 * FRACTION, q);
    } else if q < 2 * FRACTION - 1 {
      MulMonotone(u, q + 1, 2 * FRACTION - 1);
    }
  }

  lemma SmallSignificand(n: U32)
    requires n > 0 && Floor(n) <= 23
    ensures FRACTION <= Significand(n) < 2 * FRACTION
  {
    hide Floor, Pow2;
    var k := Floor(n);
    FractionIsPower();
    Pow2Add(k, 23 - k);
    Scaled(Pow2(k), Pow2(23 - k), n);
  }

  lemma Scaled(p: nat, m: nat, n: nat)
    requires p * m == FRACTION && m > 0 && p <= n < 2 * p
    ensures FRACTION <= n * m < 2 * FRACTION
  {
    MulMonotone(m, p, n);
    MulMonotone(m, n, 2 * p - 1);
  }

  lemma LargeSignificand(n: U32)
    requires n > 0 && Floor(n) >= 24
    ensures FRACTION <= Significand(n) <= 2 * FRACTION
    ensures Significand(n) == 2 * FRACTION <==> RoundsToPower(n)
  {
    hide Floor, Rounded;
    var k := Floor(n);
    var u := Pow2(k - 23);
    assert u == 2 * Pow2(k - 24);
    FractionIsPower();
    assert FRACTION * u == Pow2(k) by {
      Pow2Add(23, k - 23);
    }
    RoundsUp(n, u);
  }

  lemma SignificandRange(n: U32)
    requires n > 0
    ensures FRACTION <= Significand(n) <= 2 * FRACTION
    ensures Significand(n) == 2 * FRACTION <==> RoundsToPower(n)
  {
    hide Floor, Significand;
    if Floor(n) <= 23 {
      SmallSignificand(n);
    } else {
      LargeSignificand(n);
    }
  }

  // The logarithm of the float is that of the number, or one more where the float
  // is the next power of two.
  lemma BinLog2Exact(n: U32)
    requires n > 0
    ensures GetBinLog2(n) == Floor(n) + if RoundsToPower(n) then 1 else 0
  {
    SignificandRange(n);
    var k, s := Floor(n), Significand(n);
    FloorBound(n);
    if s == 2 * FRACTION {
      DivMod(FloatBits(n), FRACTION, k + 128, 0);
      DivMod(k + 1 + U32_SIZE, U32_SIZE, 1, k + 1);
    } else {
      DivMod(FloatBits(n), FRACTION, k + 127, s - FRACTION);
      DivMod(k + U32_SIZE, U32_SIZE, 1, k);
    }
  }

  lemma FloorBound(n: U32)
    requires n > 0
    ensures Floor(n) < 32
  {
    hide Floor, Pow2;
    Pow2Values();
    if Floor(n) >= 32 {
      Pow2Monotone(32, Floor(n));
    }
  }

  // The bits that hold the numbers below n
  ghost predicate IsCeilLog2(n: nat, k: nat) {
    n <= Pow2(k) && (k > 0 ==> Pow2(k - 1) < n)
  }

  // There is always room, and one bit too many exactly where the float is too large.
  lemma NextBinLog2Covers(n: U32)
    requires n > 0
    ensures n <= Pow2(GetNextBinLog2(n)) && GetNextBinLog2(n) <= 33
    ensures IsCeilLog2(n, GetNextBinLog2(n)) <==> !RoundsToPower(n)
    ensures RoundsToPower(n) ==> IsCeilLog2(n, GetNextBinLog2(n) - 1)
  {
    hide GetBinLog2, FloatBits, Floor, IsPow2;
    var k := Floor(n);
    assert Pow2(k + 1) == 2 * Pow2(k);
    BinLog2Exact(n);
    IsPow2Iff(n);
    FloorBound(n);
    DivMod(GetBinLog2(n) + 1, U32_SIZE, 0, GetBinLog2(n) + 1);
    if RoundsToPower(n) {
      PowerGap(k);
    }
  }

  lemma {:induction false} FloorIs(n: nat, k: nat)
    requires Pow2(k) <= n < 2 * Pow2(k)
    ensures Floor(n) == k
  {
    if k > 0 {
      FloorIs(n / 2, k - 1);
    }
  }

  lemma FirstPowers()
    ensures Pow2(0) == 1 && Pow2(1) == 2
  {
  }

  // 2^25 - 1 is the least number that rounds up: it fits in 25 bits and gets 26.
  lemma OneBitTooMany()
    ensures 0x1ff_ffff <= Pow2(25) && GetNextBinLog2(0x1ff_ffff) == 26
    ensures forall n: U32 :: 0 < n < 0x1ff_ffff ==> !RoundsToPower(n)
  {
    hide GetBinLog2, GetNextBinLog2, Floor, Pow2, IsPow2;
    Pow2Values();
    Pow2Add(16, 8);
    Pow2Add(24, 1);
    FirstPowers();
    FloorIs(0x1ff_ffff, 24);
    BinLog2Exact(0x1ff_ffff);
    IsPow2Iff(0x1ff_ffff);
    NextOf(0x1ff_ffff);
    forall n: U32 | 0 < n < 0x1ff_ffff
      ensures !RoundsToPower(n)
    {
      if Floor(n) > 24 {
        Pow2Monotone(25, Floor(n));
      }
    }
  }

  lemma NextOf(n: U32)
    ensures GetNextBinLog2(n) == if IsPow2(n) then GetBinLog2(n) else (GetBinLog2(n) + 1) % U32_SIZE
  {
  }

  lemma PowerGap(k: nat)
    requires k >= 24
    ensures Pow2(k) > Pow2(k - 24)
  {
    Pow2Monotone(k - 24, k - 1);
  }

  // A range of 2^32 numbers has size 0 and takes 129 bits.
  lemma WholeRange()
    ensures GetNextBinLog2(0) % 256 == 129
  {
    IsPow2Iff(0);
    DivMod(U32_SIZE - 127, U32_SIZE, 0, U32_SIZE - 127);
  }
}
