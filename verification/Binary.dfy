// Unsigned numbers and their bits, least significant first.
module Binary {
  import opened Words
  import opened Numbers

  // The unsigned value n in width bits, what does not fit lost
  function ToBits(n: nat, width: nat): (r: Bits)
    ensures |r| == width
  {
    seq(width, i requires 0 <= i < width => n / Pow2(i) % 2 == 1)
  }

  lemma ToBitsStep(n: nat, width: nat)
    ensures ToBits(n, width + 1) == [n % 2 == 1] + ToBits(n / 2, width)
  {
    forall i | 0 < i <= width
      ensures n / Pow2(i) == n / 2 / Pow2(i - 1)
    {
      HalfDiv(n, Pow2(i - 1));
    }
    assert n / Pow2(0) == n;
  }

  function FromBits(b: Bits): nat {
    if b == [] then 0 else (if b[0] then 1 else 0) + 2 * FromBits(b[1..])
  }

  lemma {:induction false} BitsValue(n: nat, width: nat)
    ensures FromBits(ToBits(n, width)) == n % Pow2(width)
  {
    if width > 0 {
      BitsValue(n / 2, width - 1);
      ToBitsStep(n, width - 1);
      HalfDiv(n, Pow2(width - 1));
    }
  }

  lemma HalfDiv(n: nat, m: nat)
    requires m > 0
    ensures n / (2 * m) == n / 2 / m && n % (2 * m) == n % 2 + 2 * (n / 2 % m)
  {
    DivMod(n, 2 * m, n / 2 / m, n % 2 + 2 * (n / 2 % m));
  }

  // The bits of a number depend on its value modulo 2^width only.
  lemma {:induction false} BitsMod(n: nat, width: nat)
    ensures ToBits(n % Pow2(width), width) == ToBits(n, width)
  {
    if width > 0 {
      var m := Pow2(width - 1);
      HalfDiv(n, m);
      BitsMod(n / 2, width - 1);
      ToBitsStep(n, width - 1);
      ToBitsStep(n % (2 * m), width - 1);
    }
  }

  lemma {:induction false} ValueBound(b: Bits)
    ensures FromBits(b) < Pow2(|b|)
  {
    if b != [] {
      ValueBound(b[1..]);
    }
  }

  // The low end comes first.
  lemma {:induction false} JoinedValue(low: Bits, high: Bits)
    ensures FromBits(low + high) == FromBits(low) + Pow2(|low|) * FromBits(high)
  {
    if low == [] {
      assert low + high == high;
    } else {
      var joined := low + high;
      assert joined[0] == low[0] && joined[1..] == low[1..] + high;
      JoinedValue(low[1..], high);
      hide FromBits, Pow2;
      BitValue(joined);
      BitValue(low);
      PowerUp(|low|, FromBits(high));
    }
  }

  lemma BitValue(b: Bits)
    requires b != []
    ensures FromBits(b) == (if b[0] then 1 else 0) + 2 * FromBits(b[1..])
  {
  }

  lemma PowerUp(n: nat, x: nat)
    requires n > 0
    ensures Pow2(n) * x == 2 * (Pow2(n - 1) * x)
  {
    var p := Pow2(n - 1);
    assert 2 * p * x == 2 * (p * x);
  }

  lemma ByteFirst(low: Byte, high: Bits)
    ensures FromBits(low + high) == FromBits(low) + 0x100 * FromBits(high)
  {
    hide FromBits;
    JoinedValue(low, high);
    Pow2Eight();
  }

  // The number that bytes stand for, the low-order byte first
  function LowFirst(b: seq<Byte>): nat {
    if b == [] then 0 else FromBits(b[0]) + 0x100 * LowFirst(b[1..])
  }

  lemma {:induction false} BitsOfValue(b: Bits)
    ensures ToBits(FromBits(b), |b|) == b
  {
    if b != [] {
      BitsOfValue(b[1..]);
      ToBitsStep(FromBits(b), |b| - 1);
    }
  }

  lemma {:induction false} ZerosValue(n: nat)
    ensures FromBits(Zeros(n)) == 0 && ToBits(0, n) == Zeros(n)
  {
    if n > 0 {
      assert Zeros(n)[1..] == Zeros(n - 1);
      ZerosValue(n - 1);
      ToBitsStep(0, n - 1);
      assert [false] + Zeros(n - 1) == Zeros(n);
    }
  }
}
