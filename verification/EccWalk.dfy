// What the sliding window computes from the bits of a scalar, for any point addition,
// and when that is the multiple.
module EccWalk {
  import opened Results
  import opened Words
  import opened Binary
  import opened Numbers
  import opened Mp

  const WINSIZE := 4

  // ---- The scalar: digits of digitBit bits, least significant digit first ----

  predicate IsScalar(k: seq<Bits>, digitBit: nat) {
    digitBit > 0 && forall i :: 0 <= i < |k| ==> digitBit <= |k[i]|
  }

  function ScalarValue(k: seq<Bits>, digitBit: nat): nat
    requires IsScalar(k, digitBit)
  {
    if |k| == 0 then 0
    else FromBits(k[0][..digitBit]) + ScalarValue(k[1..], digitBit) * Pow2(digitBit)
  }

  // The bits of a digit, most significant first
  function DigitBits(digit: Bits, digitBit: nat): (r: Bits)
    requires digitBit <= |digit|
    ensures |r| == digitBit
  {
    seq(digitBit, i requires 0 <= i < digitBit => digit[digitBit - 1 - i])
  }

  // The bits of the scalar, most significant first
  function ScalarBits(k: seq<Bits>, digitBit: nat): Bits
    requires IsScalar(k, digitBit)
  {
    if |k| == 0 then [] else ScalarBits(k[1..], digitBit) + DigitBits(k[0], digitBit)
  }

  // A number by its bits, most significant first
  function Number(b: Bits): nat {
    if b == [] then 0 else 2 * Number(b[..|b| - 1]) + if b[|b| - 1] then 1 else 0
  }

  lemma {:induction false} NumberConcat(a: Bits, b: Bits)
    ensures Number(a + b) == Number(a) * Pow2(|b|) + Number(b)
  {
    if b == [] {
      assert a + b == a;
    } else {
      var c := b[..|b| - 1];
      assert (a + b)[..|a + b| - 1] == a + c;
      NumberConcat(a, c);
      Distribute(Number(a), Pow2(|c|), Number(c));
    }
  }

  lemma Distribute(a: nat, p: nat, c: nat)
    ensures 2 * (a * p + c) == a * (2 * p) + 2 * c
  {
  }

  lemma {:induction false} DigitNumber(digit: Bits, n: nat)
    requires n <= |digit|
    ensures Number(DigitBits(digit, n)) == FromBits(digit[..n])
  {
    if n > 0 {
      DigitNumber(digit[1..], n - 1);
      assert digit[1..][..n - 1] == digit[..n][1..];
      assert DigitBits(digit, n)[..n - 1] == DigitBits(digit[1..], n - 1);
    }
  }

  lemma {:induction false} ScalarNumber(k: seq<Bits>, digitBit: nat)
    requires IsScalar(k, digitBit)
    ensures Number(ScalarBits(k, digitBit)) == ScalarValue(k, digitBit)
  {
    if |k| > 0 {
      ScalarNumber(k[1..], digitBit);
      DigitNumber(k[0], digitBit);
      NumberConcat(ScalarBits(k[1..], digitBit), DigitBits(k[0], digitBit));
    }
  }

  // The bits of a scalar, from its top digit down
  lemma {:induction false} TopDigit(k: seq<Bits>, digitBit: nat)
    requires IsScalar(k, digitBit) && |k| > 0
    ensures ScalarBits(k, digitBit)
         == DigitBits(k[|k| - 1], digitBit) + ScalarBits(k[..|k| - 1], digitBit)
  {
    hide DigitBits;
    if |k| > 1 {
      TopDigit(k[1..], digitBit);
      assert k[1..][..|k| - 2] == k[..|k| - 1][1..];
    }
  }

  // ---- What the loop computes, for any op ----

  function Twice<T>(op: (T, T) -> T, p: T): T {
    op(p, p)
  }

  // The table: 8g by doubling, and one more g from each entry to the next
  function Entry<T>(op: (T, T) -> T, g: T, w: nat): T
    requires w >= 8
  {
    if w == 8 then Twice(op, Twice(op, Twice(op, g))) else op(Entry(op, g, w - 1), g)
  }

  // Up to four bits at the top of a window
  function Nibble(b: Bits): nat
    requires |b| <= WINSIZE
  {
    (if |b| > 0 && b[0] then 8 else 0) + (if |b| > 1 && b[1] then 4 else 0)
    + (if |b| > 2 && b[2] then 2 else 0) + if |b| > 3 && b[3] then 1 else 0
  }

  // A full window: its entry, or four doublings and its entry
  function Flush<T>(op: (T, T) -> T, g: T, r: Option<T>, w: nat): T
    requires w >= 8
  {
    match r
    case None => Entry(op, g, w)
    case Some(p) => op(Twice(op, Twice(op, Twice(op, Twice(op, p)))), Entry(op, g, w))
  }

  // Bits that fill no window: double, and add for a one
  function Tail<T>(op: (T, T) -> T, g: T, r: Option<T>, b: Bits): Option<T>
    decreases |b|
  {
    if b == [] then r
    else
      var d := match r case None => None case Some(p) => Some(Twice(op, p));
      Tail(op, g, if !b[0] then d else match d case None => Some(g) case Some(p) => Some(op(p, g)), b[1..])
  }

  // The walk along the bits of the scalar from r, where None is the start
  function Walk<T>(op: (T, T) -> T, g: T, r: Option<T>, b: Bits): Option<T>
    decreases |b|
  {
    if b == [] then r
    else if !b[0] then Walk(op, g, match r case None => None case Some(p) => Some(Twice(op, p)), b[1..])
    else if |b| >= WINSIZE then
      NibbleFull(b[..WINSIZE]);
      Walk(op, g, Some(Flush(op, g, r, Nibble(b[..WINSIZE]))), b[WINSIZE..])
    else Tail(op, g, r, b)
  }

  lemma NibbleFull(b: Bits)
    requires 0 < |b| <= WINSIZE && b[0]
    ensures 8 <= Nibble(b) < 16
  {
  }

  // What ecc_mulmod leaves in its result, which held start
  function Result<T>(op: (T, T) -> T, g: T, start: T, b: Bits): T {
    match Walk(op, g, None, b)
    case None => start
    case Some(p) => p
  }


  // The bits of a number without leading zeros, most significant first
  function BitsOf(k: nat): Bits {
    if k == 0 then [] else BitsOf(k / 2) + [k % 2 == 1]
  }

  // What ecc_mulmod leaves for the scalar k
  function Multiple<T>(op: (T, T) -> T, g: T, start: T, k: nat): T {
    Result(op, g, start, BitsOf(k))
  }

  lemma {:induction false} NumberOfBits(k: nat)
    ensures Number(BitsOf(k)) == k
  {
    if k > 0 {
      NumberOfBits(k / 2);
      assert BitsOf(k)[..|BitsOf(k)| - 1] == BitsOf(k / 2);
    }
  }

  lemma {:induction false} BitsOfNumber(b: Bits)
    requires b == [] || b[0]
    ensures BitsOf(Number(b)) == b
    ensures b != [] ==> Number(b) > 0
  {
    if |b| == 1 {
      assert b[..0] == [] && BitsOf(1) == BitsOf(0) + [true];
    } else if b != [] {
      BitsOfNumber(b[..|b| - 1]);
    }
  }

  // Leading zeros make no difference, so the result depends on the value only.
  lemma {:induction false} WalkByValue<T>(op: (T, T) -> T, g: T, b: Bits)
    ensures Walk(op, g, None, b) == Walk(op, g, None, BitsOf(Number(b)))
    decreases |b|
  {
    hide Walk, Number, BitsOf;
    if b == [] || b[0] {
      BitsOfNumber(b);
    } else {
      WalkByValue(op, g, b[1..]);
      LeadingZero(op, g, b);
    }
  }

  lemma LeadingZero<T>(op: (T, T) -> T, g: T, b: Bits)
    requires b != [] && !b[0]
    ensures Walk(op, g, None, b) == Walk(op, g, None, b[1..]) && Number(b) == Number(b[1..])
  {
    hide Number;
    NumberConcat([false], b[1..]);
    NoNumber();
    assert b == [false] + b[1..];
  }

  lemma NoNumber()
    ensures Number([false]) == 0
  {
    assert [false][..0] == [];
  }

  // ---- When the walk gives the multiple ----

  // The number d continued by the bits b
  function Then(d: nat, b: Bits): nat
    decreases |b|
  {
    if b == [] then d else Then(2 * d + (if b[0] then 1 else 0), b[1..])
  }

  lemma {:induction false} ThenLast(d: nat, b: Bits, i: bool)
    ensures Then(d, b + [i]) == 2 * Then(d, b) + if i then 1 else 0
    decreases |b|
  {
    if b == [] {
      assert b + [i] == [i] && [i][1..] == [];
    } else {
      assert (b + [i])[1..] == b[1..] + [i];
      ThenLast(2 * d + (if b[0] then 1 else 0), b[1..], i);
    }
  }

  lemma {:induction false} ThenNumber(b: Bits)
    ensures Then(0, b) == Number(b)
  {
    if b != [] {
      var c := b[..|b| - 1];
      ThenNumber(c);
      ThenLast(0, c, b[|b| - 1]);
      assert b == c + [b[|b| - 1]];
    }
  }

  // Every number on the way from d along the bits is fine.
  ghost predicate AllFine(fine: nat -> bool, d: nat, b: Bits)
    decreases |b|
  {
    (d > 0 ==> fine(d)) && (b != [] ==> AllFine(fine, 2 * d + (if b[0] then 1 else 0), b[1..]))
  }

  // mul(i) stands for the i-th multiple: op adds where both and their sum are fine.
  ghost predicate Adds<T(!new)>(op: (T, T) -> T, mul: nat -> T, fine: nat -> bool) {
    forall i: nat, j: nat :: AddsAt(op, mul, fine, i, j)
  }

  ghost predicate AddsAt<T>(op: (T, T) -> T, mul: nat -> T, fine: nat -> bool, i: nat, j: nat) {
    i > 0 && j > 0 && fine(i) && fine(j) && fine(i + j) ==> op(mul(i), mul(j)) == mul(i + j)
  }

  // The table is fine, and so is the double of anything fine.
  ghost predicate Steady(fine: nat -> bool) {
    && (forall i :: 0 < i < 16 ==> fine(i))
    && (forall i: nat :: fine(i) ==> fine(2 * i))
  }

  function Indexed<T>(mul: nat -> T, d: nat): Option<T> {
    if d == 0 then None else Some(mul(d))
  }

  lemma {:induction false} EntryIs<T(!new)>(op: (T, T) -> T, mul: nat -> T, fine: nat -> bool, w: nat)
    requires Adds(op, mul, fine) && Steady(fine) && 8 <= w < 16
    ensures Entry(op, mul(1), w) == mul(w)
  {
    hide Adds;
    if w == 8 {
      TwiceIs(op, mul, fine, 1);
      TwiceIs(op, mul, fine, 2);
      TwiceIs(op, mul, fine, 4);
    } else {
      EntryIs(op, mul, fine, w - 1);
      SumIs(op, mul, fine, w - 1, 1);
    }
  }

  lemma SumIs<T(!new)>(op: (T, T) -> T, mul: nat -> T, fine: nat -> bool, i: nat, j: nat)
    requires Adds(op, mul, fine) && i > 0 && j > 0 && fine(i) && fine(j) && fine(i + j)
    ensures op(mul(i), mul(j)) == mul(i + j)
  {
    assert AddsAt(op, mul, fine, i, j);
  }

  lemma TwiceIs<T(!new)>(op: (T, T) -> T, mul: nat -> T, fine: nat -> bool, i: nat)
    requires Adds(op, mul, fine) && Steady(fine) && i > 0 && fine(i)
    ensures Twice(op, mul(i)) == mul(2 * i) && fine(2 * i)
  {
    hide Adds;
    assert fine(2 * i) && 2 * i == i + i;
    SumIs(op, mul, fine, i, i);
  }

  lemma FlushIs<T(!new)>(op: (T, T) -> T, mul: nat -> T, fine: nat -> bool, d: nat, w: nat)
    requires Adds(op, mul, fine) && Steady(fine) && 8 <= w < 16 && fine(16 * d + w) && (d > 0 ==> fine(d))
    ensures Flush(op, mul(1), Indexed(mul, d), w) == mul(16 * d + w)
  {
    hide Adds, Twice, Entry;
    EntryIs(op, mul, fine, w);
    if d > 0 {
      TwiceIs(op, mul, fine, d);
      TwiceIs(op, mul, fine, 2 * d);
      TwiceIs(op, mul, fine, 4 * d);
      TwiceIs(op, mul, fine, 8 * d);
      SumIs(op, mul, fine, 16 * d, w);
    }
  }

  lemma {:induction false} TailIs<T(!new)>(op: (T, T) -> T, mul: nat -> T, fine: nat -> bool, d: nat, b: Bits)
    requires Adds(op, mul, fine) && Steady(fine) && AllFine(fine, d, b)
    ensures Tail(op, mul(1), Indexed(mul, d), b) == Indexed(mul, Then(d, b))
    decreases |b|
  {
    hide Adds;
    if b != [] {
      var e := 2 * d + if b[0] then 1 else 0;
      FineNext(fine, d, b);
      if d > 0 {
        TwiceIs(op, mul, fine, d);
        if b[0] {
          SumIs(op, mul, fine, 2 * d, 1);
        }
      }
      TailIs(op, mul, fine, e, b[1..]);
    }
  }

  lemma FineNext(fine: nat -> bool, d: nat, b: Bits)
    requires AllFine(fine, d, b) && b != []
    ensures var e := 2 * d + (if b[0] then 1 else 0);
      AllFine(fine, e, b[1..]) && (e > 0 ==> fine(e)) && Then(d, b) == Then(e, b[1..])
  {
  }

  lemma FineWindow(fine: nat -> bool, d: nat, b: Bits)
    requires AllFine(fine, d, b) && |b| >= WINSIZE
    ensures var e := 16 * d + Nibble(b[..WINSIZE]);
      AllFine(fine, e, b[WINSIZE..]) && (e > 0 ==> fine(e)) && Then(d, b) == Then(e, b[WINSIZE..])
  {
    hide Then, AllFine;
    assert b[1..][1..] == b[2..] && b[2..][1..] == b[3..] && b[3..][1..] == b[4..];
    var d1 := 2 * d + if b[0] then 1 else 0;
    var d2 := 2 * d1 + if b[1] then 1 else 0;
    var d3 := 2 * d2 + if b[2] then 1 else 0;
    FineNext(fine, d, b);
    FineNext(fine, d1, b[1..]);
    FineNext(fine, d2, b[2..]);
    FineNext(fine, d3, b[3..]);
  }

  // From d * g the walk goes to the multiple that the bits lead to.
  lemma {:induction false} WalkIs<T(!new)>(op: (T, T) -> T, mul: nat -> T, fine: nat -> bool, d: nat, b: Bits)
    requires Adds(op, mul, fine) && Steady(fine) && AllFine(fine, d, b)
    ensures Walk(op, mul(1), Indexed(mul, d), b) == Indexed(mul, Then(d, b))
    decreases |b|
  {
    hide Adds;
    if b == [] {
    } else if !b[0] {
      FineNext(fine, d, b);
      if d > 0 {
        TwiceIs(op, mul, fine, d);
      }
      WalkIs(op, mul, fine, 2 * d, b[1..]);
    } else if |b| >= WINSIZE {
      var w := Nibble(b[..WINSIZE]);
      NibbleFull(b[..WINSIZE]);
      FineWindow(fine, d, b);
      FlushIs(op, mul, fine, d, w);
      WalkIs(op, mul, fine, 16 * d + w, b[WINSIZE..]);
    } else {
      TailIs(op, mul, fine, d, b);
    }
  }

  // ---- Over an associative addition ----

  ghost predicate Associative<T(!new)>(op: (T, T) -> T) {
    forall a, b, c :: Associates(op, a, b, c)
  }

  ghost predicate Associates<T>(op: (T, T) -> T, a: T, b: T, c: T) {
    op(op(a, b), c) == op(a, op(b, c))
  }

  // n * g
  function Times<T>(op: (T, T) -> T, n: nat, g: T): T
    requires n > 0
  {
    if n == 1 then g else op(Times(op, n - 1, g), g)
  }

  lemma {:induction false} TimesAdd<T(!new)>(op: (T, T) -> T, m: nat, n: nat, g: T)
    requires Associative(op) && m > 0 && n > 0
    ensures op(Times(op, m, g), Times(op, n, g)) == Times(op, m + n, g)
  {
    if n > 1 {
      TimesAdd(op, m, n - 1, g);
      assert Associates(op, Times(op, m, g), Times(op, n - 1, g), g);
    }
  }

  lemma {:induction false} AlwaysFine(d: nat, b: Bits)
    ensures AllFine((i: nat) => true, d, b)
    decreases |b|
  {
    if b != [] {
      AlwaysFine(2 * d + (if b[0] then 1 else 0), b[1..]);
    }
  }

  // Over any associative addition the walk gives k * g.
  lemma MultipleIsTimes<T(!new)>(op: (T, T) -> T, g: T, start: T, k: nat)
    requires Associative(op)
    ensures Multiple(op, g, start, k) == if k == 0 then start else Times(op, k, g)
  {
    hide Associative, Walk;
    var mul := (i: nat) => if i == 0 then g else Times(op, i, g);
    var fine := (i: nat) => true;
    forall i: nat, j: nat
      ensures AddsAt(op, mul, fine, i, j)
    {
      if i > 0 && j > 0 {
        TimesAdd(op, i, j, g);
      }
    }
    AlwaysFine(0, BitsOf(k));
    WalkIs(op, mul, fine, 0, BitsOf(k));
    ThenNumber(BitsOf(k));
    NumberOfBits(k);
    assert mul(1) == g;
  }
}
