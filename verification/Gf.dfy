// Polynomial-basis GF(2^w) arithmetic on arrays of 32 words, in place.
// An argument may alias a result wherever the contracts do not forbid it.
module Gf {
  import opened Words
  import opened Poly
  import opened PolyField

  const LSIZE := 32
  const CAPACITY := 1024

  // The polynomial held by a number: exponent k is bit k % 32 of word k / 32.
  function Value(s: seq<Word>): Poly {
    set k | 0 <= k < 32 * |s| && s[k / 32][k % 32]
  }

  ghost predicate IsGf(a: array<Word>) {
    a.Length == LSIZE
  }

  lemma ValueMember(s: seq<Word>, i: nat, j: nat)
    requires i < |s| && j < 32
    ensures 32 * i + j in Value(s) <==> s[i][j]
  {
    assert (32 * i + j) / 32 == i && (32 * i + j) % 32 == j;
  }

  lemma ValueSize(s: seq<Word>)
    ensures Size(Value(s)) <= 32 * |s|
  {
  }

  // c = a + b
  method GfAdd(a: array<Word>, b: array<Word>, c: array<Word>)
    requires IsGf(a) && IsGf(b) && IsGf(c)
    modifies c
    ensures Value(c[..]) == Add(old(Value(a[..])), old(Value(b[..])))
  {
    for i := 0 to LSIZE
      invariant forall j :: 0 <= j < i ==> c[j] == Xor(old(a[j]), old(b[j]))
      invariant forall j :: i <= j < LSIZE ==> a[j] == old(a[j]) && b[j] == old(b[j])
    {
      c[i] := Xor(a[i], b[i]);
    }
  }

  // b = a
  method GfCopy(a: array<Word>, b: array<Word>)
    requires IsGf(a) && IsGf(b)
    modifies b
    ensures b[..] == old(a[..])
  {
    for i := 0 to LSIZE
      invariant b[..i] == old(a[..i])
      invariant forall j :: i <= j < LSIZE ==> a[j] == old(a[j])
    {
      b[i] := a[i];
    }
  }

  // a = 0
  method GfZero(a: array<Word>)
    requires IsGf(a)
    modifies a
    ensures Value(a[..]) == {}
  {
    for i := 0 to LSIZE
      invariant forall j :: 0 <= j < i ==> a[j] == Zeros(32)
    {
      a[i] := Zeros(32);
    }
  }

  method GfIsZero(a: array<Word>) returns (z: bool)
    requires IsGf(a)
    ensures z <==> Value(a[..]) == {}
  {
    for i := 0 to LSIZE
      invariant forall j :: 0 <= j < i ==> !NonZero(a[j])
    {
      if NonZero(a[i]) {
        ghost var j :| 0 <= j < 32 && a[i][j];
        ValueMember(a[..], i, j);
        return false;
      }
    }
    return true;
  }

  // b = a << 1
  method GfShl(a: array<Word>, b: array<Word>)
    requires IsGf(a) && IsGf(b)
    modifies b
    ensures Value(b[..]) == Below(Shift(old(Value(a[..])), 1), CAPACITY)
  {
    ghost var s := a[..];
    var tmp := new Word[LSIZE];
    GfCopy(a, tmp);
    var i := LSIZE - 1;
    while i > 0
      invariant 0 <= i < LSIZE
      invariant tmp[..] == s
      invariant forall j :: i < j < LSIZE ==> b[j] == Or(Shl(s[j], 1), Shr(s[j - 1], 31))
    {
      b[i] := Or(Shl(tmp[i], 1), Shr(tmp[i - 1], 31));
      i := i - 1;
    }
    b[0] := Shl(tmp[0], 1);
    DoubledValue(s, b[..]);
  }

  // The word-wise (s << 1) with carries between the words.
  lemma DoubledValue(s: seq<Word>, t: seq<Word>)
    requires |s| == |t| == LSIZE
    requires t[0] == Shl(s[0], 1)
    requires forall j :: 0 < j < LSIZE ==> t[j] == Or(Shl(s[j], 1), Shr(s[j - 1], 31))
    ensures Value(t) == Below(Shift(Value(s), 1), CAPACITY)
  {
    forall k | 0 <= k < CAPACITY
      ensures k in Value(t) <==> k > 0 && k - 1 in Value(s)
    {
      var i, j := k / 32, k % 32;
      ValueMember(t, i, j);
      if j > 0 {
        ValueMember(s, i, j - 1);
        if i > 0 { assert !Shr(s[i - 1], 31)[j]; }
      } else if i > 0 {
        ValueMember(s, i - 1, 31);
        assert Shr(s[i - 1], 31)[0] == s[i - 1][31];
      }
    }
  }

  // -1 for zero, otherwise one more than the degree.
  method GfDeg(a: array<Word>) returns (d: int)
    requires IsGf(a)
    ensures d == if Value(a[..]) == {} then -1 else Size(Value(a[..]))
  {
    var ii := -1;
    var i := LSIZE - 1;
    while i >= 0
      invariant -1 <= i < LSIZE
      invariant ii == -1
      invariant forall j :: i < j < LSIZE ==> !NonZero(a[j])
    {
      if NonZero(a[i]) {
        var t := a[i];
        ii := 0;
        while NonZero(t)
          invariant 0 <= ii <= 32
          invariant t == Shr(a[i], ii)
          invariant ii > 0 ==> NonZero(Shr(a[i], ii - 1))
          decreases 32 - ii
        {
          t := Shr(t, 1);
          ii := ii + 1;
        }
        TopBit(a[..], i, ii);
        break;
      }
      i := i - 1;
    }
    if i == -1 { i := 0; }
    d := 32 * i + ii;
  }

  lemma TopBit(s: seq<Word>, i: nat, n: nat)
    requires i < |s| && 0 < n <= 32
    requires forall j :: i < j < |s| ==> !NonZero(s[j])
    requires NonZero(Shr(s[i], n - 1)) && !NonZero(Shr(s[i], n))
    ensures Size(Value(s)) == 32 * i + n
  {
    forall j | n <= j < 32 ensures !s[i][j] {
      assert Shr(s[i], n)[j - n] == s[i][j];
    }
    var j :| 0 <= j < 32 && Shr(s[i], n - 1)[j];
    assert s[i][j + n - 1];
    ValueMember(s, i, n - 1);
    SizeIs(Value(s), 32 * i + n);
  }

  // The test a[k>>5] & (1 << (k&31))
  lemma TestValue(s: seq<Word>, k: nat)
    requires k < 32 * |s|
    ensures NonZero(And(s[k / 32], Shl(One(32), k % 32))) <==> k in Value(s)
  {
    TestBit(s[k / 32], k % 32);
  }

  // The update a[k>>5] |= 1 << (k&31)
  lemma SetValue(s: seq<Word>, k: nat)
    requires k < 32 * |s|
    ensures Value(s[k / 32 := Or(s[k / 32], Shl(One(32), k % 32))]) == Value(s) + {k}
  {
    var t := s[k / 32 := Or(s[k / 32], Shl(One(32), k % 32))];
    forall j | 0 <= j < 32 * |s| ensures j in Value(t) <==> j in Value(s) || j == k {
      if j / 32 == k / 32 {
        assert Shl(One(32), k % 32)[j % 32] <==> j % 32 == k % 32;
      }
    }
  }

  // One step of the product, cut to the capacity.
  lemma MulStep(a: Poly, b: Poly, i: nat, c: Poly, row: Poly)
    requires c == Below(MulTerms(a, b, i), CAPACITY) && row == Below(Shift(b, i), CAPACITY)
    ensures Below(Shift(row, 1), CAPACITY) == Below(Shift(b, i + 1), CAPACITY)
    ensures Below(MulTerms(a, b, i + 1), CAPACITY) == if i in a then Add(c, row) else c
  {
  }

  // c = a * b, cut to the capacity. The loop looks one bit past the top of a,
  // so a must leave that bit inside the array.
  method GfMul(a: array<Word>, b: array<Word>, c: array<Word>)
    requires IsGf(a) && IsGf(b) && IsGf(c)
    requires Size(Value(a[..])) < CAPACITY
    modifies c
    ensures Value(c[..]) == Below(Mul(old(Value(a[..])), old(Value(b[..]))), CAPACITY)
  {
    hide Value, Below;
    ghost var A, B := Value(a[..]), Value(b[..]);
    var ta, tb := new Word[LSIZE], new Word[LSIZE];
    GfCopy(a, ta);
    GfCopy(b, tb);
    GfZero(c);
    var n := GfDeg(ta);
    n := n + 1;
    MulStart(A, old(b[..]));
    for i := 0 to n
      invariant Value(ta[..]) == A
      invariant Value(tb[..]) == Below(Shift(B, i), CAPACITY)
      invariant Value(c[..]) == Below(MulTerms(A, B, i), CAPACITY)
    {
      TestValue(ta[..], i);
      MulStep(A, B, i, Value(c[..]), Value(tb[..]));
      if NonZero(And(ta[i / 32], Shl(One(32), i % 32))) {
        GfAdd(c, tb, c);
      }
      GfShl(tb, tb);
    }
    MulTermsStable(A, B, n);
  }

  lemma MulStart(a: Poly, s: seq<Word>)
    requires |s| == LSIZE
    ensures Below(Shift(Value(s), 0), CAPACITY) == Value(s)
    ensures Below(MulTerms(a, Value(s), 0), CAPACITY) == {}
  {
  }

  lemma RowStep(b: Poly, i: nat)
    requires i > 0 && Size(b) + i <= CAPACITY
    ensures Below(Shift(Shift(b, i - 1), 1), CAPACITY) == Shift(b, i)
  {
  }

  // One step of the division: the leading term of t goes to the quotient.
  lemma DivStep(a: Poly, b: Poly, q: Poly, t: Poly, i: nat)
    requires a == Add(Mul(q, b), t) && i !in q
    requires b != {} && Size(t) == Size(b) + i
    ensures a == Add(Mul(q + {i}, b), Add(t, Shift(b, i)))
    ensures Size(Add(t, Shift(b, i))) < Size(t)
  {
    assert q + {i} == Add(q, {i});
    MulAddLeft(q, {i}, b);
    MulSingle(i, b);
    AddAssoc(Mul(q, b), Shift(b, i), Add(t, Shift(b, i)));
    assert Add(Shift(b, i), Add(t, Shift(b, i))) == t;
    SizeShift(b, i);
    SizeAdd(t, Shift(b, i));
  }

  ghost predicate IsRow(row: array<Word>, b: Poly, j: nat)
    reads row
  {
    IsGf(row) && Value(row[..]) == Shift(b, j)
  }

  method NextRow(previous: array<Word>, ghost b: Poly, ghost i: nat) returns (row: array<Word>)
    requires i > 0 && Size(b) + i <= CAPACITY && IsRow(previous, b, i - 1)
    ensures fresh(row) && IsRow(row, b, i)
  {
    hide Value, Below, Shift;
    row := new Word[LSIZE];
    GfShl(previous, row);
    RowStep(b, i);
  }

  // Shifted versions of b, by 0 to n places.
  method ShiftedRows(b: array<Word>, n: nat) returns (shifts: seq<array<Word>>)
    requires IsGf(b) && Size(Value(b[..])) + n <= CAPACITY
    ensures |shifts| == n + 1
    ensures forall j :: 0 <= j <= n ==> fresh(shifts[j]) && IsRow(shifts[j], Value(b[..]), j)
  {
    hide Value, Below, IsRow, IsGf;
    ghost var B := Value(b[..]);
    var row := FirstRow(b);
    shifts := [row];
    for i := 1 to n + 1
      invariant |shifts| == i
      invariant forall j :: 0 <= j < i ==> fresh(shifts[j]) && IsRow(shifts[j], B, j)
      modifies {}
    {
      row := NextRow(shifts[i - 1], B, i);
      shifts := shifts + [row];
    }
  }

  method FirstRow(b: array<Word>) returns (row: array<Word>)
    requires IsGf(b)
    ensures fresh(row) && IsRow(row, Value(b[..]), 0)
  {
    hide Value;
    row := new Word[LSIZE];
    GfCopy(b, row);
    ShiftByZero(Value(b[..]));
  }

  // The term of degree i goes to the quotient.
  method Reduce(ta: array<Word>, row: array<Word>, q: array<Word>, ghost A: Poly, ghost B: Poly, i: nat)
    requires IsGf(ta) && IsGf(q) && ta != q && row != ta && row != q && IsRow(row, B, i)
    requires A == Add(Mul(Value(q[..]), B), Value(ta[..])) && i !in Value(q[..])
    requires B != {} && Size(Value(ta[..])) == Size(B) + i <= CAPACITY
    modifies ta, q
    ensures A == Add(Mul(Value(q[..]), B), Value(ta[..]))
    ensures Value(q[..]) == old(Value(q[..])) + {i} && Size(Value(ta[..])) < old(Size(Value(ta[..])))
  {
    hide Value, Below, Shift, Mul, Size;
    SetValue(q[..], i);
    DivStep(A, B, Value(q[..]), Value(ta[..]), i);
    q[i / 32] := Or(q[i / 32], Shl(One(32), i % 32));
    GfAdd(ta, row, ta);
  }

  // q = a / b, r = a % b. A zero divisor leaves both results as they were.
  method GfDiv(a: array<Word>, b: array<Word>, q: array<Word>, r: array<Word>)
    requires IsGf(a) && IsGf(b) && IsGf(q) && IsGf(r) && q != r
    modifies q, r
    ensures old(Value(b[..])) == {} ==> q[..] == old(q[..]) && r[..] == old(r[..])
    ensures old(Value(b[..])) != {} ==>
      IsDivision(old(Value(a[..])), old(Value(b[..])), Value(q[..]), Value(r[..]))
  {
    hide Value, Below, Shift, Mul;
    ghost var A, B := Value(a[..]), Value(b[..]);
    ValueSize(a[..]);
    var mag := GfDeg(a);
    var magb := GfDeg(b);
    MulZero(B);
    if magb > mag {
      GfCopy(a, r);
      GfZero(q);
      return;
    }
    if magb == -1 {
      return;
    }
    var ta, tb := new Word[LSIZE], new Word[LSIZE];
    GfCopy(a, ta);
    GfCopy(b, tb);
    GfZero(q);
    var shifts := ShiftedRows(tb, mag - magb);
    while mag >= magb
      invariant -1 <= mag < |shifts| + magb
      invariant mag == if Value(ta[..]) == {} then -1 else Size(Value(ta[..]))
      invariant A == Add(Mul(Value(q[..]), B), Value(ta[..]))
      invariant forall k :: k in Value(q[..]) ==> k > mag - magb
      invariant forall j :: 0 <= j < |shifts| ==> IsRow(shifts[j], B, j)
    {
      Reduce(ta, shifts[mag - magb], q, A, B, mag - magb);
      mag := GfDeg(ta);
    }
    GfCopy(ta, r);
  }

  // b = a mod m
  method GfMod(a: array<Word>, m: array<Word>, b: array<Word>)
    requires IsGf(a) && IsGf(m) && IsGf(b)
    modifies b
    ensures old(Value(m[..])) == {} ==> b[..] == old(b[..])
    ensures old(Value(m[..])) != {} ==>
      exists q :: IsDivision(old(Value(a[..])), old(Value(m[..])), q, Value(b[..]))
  {
    var tmp := new Word[LSIZE];
    GfDiv(a, m, tmp, b);
  }

  // c = a * b mod m
  method GfMulmod(a: array<Word>, b: array<Word>, m: array<Word>, c: array<Word>)
    requires IsGf(a) && IsGf(b) && IsGf(m) && IsGf(c)
    requires Size(Value(a[..])) < CAPACITY
    modifies c
    ensures old(Value(m[..])) == {} ==> c[..] == old(c[..])
    ensures old(Value(m[..])) != {} ==>
      exists q :: IsDivision(Below(Mul(old(Value(a[..])), old(Value(b[..]))), CAPACITY),
                             old(Value(m[..])), q, Value(c[..]))
  {
    var tmp := new Word[LSIZE];
    GfMul(a, b, tmp);
    GfMod(tmp, m, c);
  }

  lemma BelowAll(a: Poly)
    requires Size(a) <= CAPACITY
    ensures Below(a, CAPACITY) == a
  {
  }

  // c = gcd(A, B), on every pair of inputs: when the first divisor is zero, the
  // division leaves r holding A + B, which is then the other operand.
  method GfGcd(A: array<Word>, B: array<Word>, c: array<Word>)
    requires IsGf(A) && IsGf(B) && IsGf(c)
    modifies c
    ensures IsGcd(old(Value(A[..])), old(Value(B[..])), Value(c[..]))
  {
    hide Value, Divides, Mul, IsDivision, SameDivisors, IsGcd, Size;
    ghost var VA, VB := Value(A[..]), Value(B[..]);
    var a, b, r := new Word[LSIZE], new Word[LSIZE], new Word[LSIZE];
    GfAdd(A, B, r);
    var n := GfDeg(r);
    var degA := GfDeg(A);
    if degA > n {
      GfCopy(A, a);
      GfCopy(B, b);
    } else {
      GfCopy(A, b);
      GfCopy(B, a);
    }
    GcdStart(VA, VB);
    var more := true;
    ValueSize(b[..]);
    ghost var bound := CAPACITY + 1;
    while more
      invariant SameDivisors(Value(a[..]), Value(b[..]), VA, VB)
      invariant Size(Value(b[..])) <= bound
      invariant more && Value(b[..]) == {} ==> Value(r[..]) == Value(a[..]) && bound > CAPACITY
      invariant !more ==> Value(b[..]) == {}
      decreases bound
    {
      ghost var a0, b0 := Value(a[..]), Value(b[..]);
      GcdRound(a, b, r);
      if b0 != {} {
        ghost var q :| IsDivision(a0, b0, q, Value(r[..]));
        SameDivisorsStep(a0, b0, q, Value(r[..]), VA, VB);
      } else {
        GcdFlip(a0, VA, VB);
      }
      ValueSize(r[..]);
      bound := if b0 == {} then CAPACITY else Size(Value(r[..]));
      var z := GfIsZero(r);
      more := !z;
    }
    GcdOfZero(Value(a[..]), VA, VB);
    GfCopy(a, c);
  }

  // r = a mod b, a = b, b = r
  method GcdRound(a: array<Word>, b: array<Word>, r: array<Word>)
    requires IsGf(a) && IsGf(b) && IsGf(r) && a != b && a != r && b != r
    modifies a, b, r
    ensures Value(a[..]) == old(Value(b[..])) && Value(b[..]) == Value(r[..])
    ensures old(Value(b[..])) == {} ==> Value(r[..]) == old(Value(r[..]))
    ensures old(Value(b[..])) != {} ==>
      exists q :: IsDivision(old(Value(a[..])), old(Value(b[..])), q, Value(r[..]))
  {
    hide Value, IsDivision;
    GfMod(a, b, r);
    GfCopy(b, a);
    GfCopy(r, b);
  }

  ghost predicate IsGcd(a: Poly, b: Poly, g: Poly) {
    forall d :: Divides(d, g) <==> Divides(d, a) && Divides(d, b)
  }

  ghost predicate SameDivisors(a: Poly, b: Poly, c: Poly, d: Poly) {
    forall e :: Divides(e, a) && Divides(e, b) <==> Divides(e, c) && Divides(e, d)
  }

  lemma GcdStart(a: Poly, b: Poly)
    ensures SameDivisors(a, b, a, b) && SameDivisors(b, a, a, b)
    ensures a == {} ==> Add(a, b) == b
    ensures b == {} ==> Add(a, b) == a
  {
  }

  lemma GcdFlip(a: Poly, c: Poly, d: Poly)
    requires SameDivisors(a, {}, c, d)
    ensures SameDivisors({}, a, c, d)
  {
  }

  lemma SameDivisorsStep(a: Poly, b: Poly, q: Poly, r: Poly, c: Poly, d: Poly)
    requires SameDivisors(a, b, c, d) && IsDivision(a, b, q, r)
    ensures SameDivisors(b, r, c, d)
    ensures Size(r) < Size(b)
  {
    forall e ensures Divides(e, b) && Divides(e, r) <==> Divides(e, c) && Divides(e, d) {
      DividesRemainder(e, a, b, q, r);
    }
  }

  lemma GcdOfZero(g: Poly, a: Poly, b: Poly)
    requires SameDivisors(g, {}, a, b)
    ensures IsGcd(a, b, g)
  {
    forall d ensures Divides(d, g) <==> Divides(d, a) && Divides(d, b) {
      DividesZero(d);
    }
  }

  lemma SizeOne(p: Poly)
    requires Size(p) == 1
    ensures p == {0}
  {
  }

  // The greatest common divisor is unique, divides both, and every common
  // divisor divides it.
  lemma GcdUnique(a: Poly, b: Poly, g: Poly, h: Poly)
    requires IsGcd(a, b, g) && IsGcd(a, b, h)
    ensures g == h
    ensures Divides(g, a) && Divides(g, b)
  {
    DividesSelf(g);
    DividesSelf(h);
    var p :| Mul(p, h) == g;
    var q :| Mul(q, g) == h;
    MulSize(p, h);
    MulSize(q, g);
    if g != {} {
      SizeOne(p);
      MulOne(h);
    }
  }

  // What the extended Euclid loop keeps: n and r are multiples of A modulo M, by
  // p0 and p1, with the common divisors of M and A; and the sizes stay small
  // enough for no product to be cut.
  ghost predicate EuclidState(A: Poly, M: Poly, n: Poly, r: Poly, p0: Poly, p1: Poly) {
    && Congruent(Mul(p0, A), n, M) && Congruent(Mul(p1, A), r, M)
    && SameDivisors(n, r, M, A)
    && Size(r) < Size(n) <= CAPACITY && (Size(n) < CAPACITY || r != {0})
    && (Size(M) > 1 ==> Size(p0) < Size(M))
    && if p1 == {} then p0 == {0} && n == A && r == M
       else Size(p1) + Size(n) == Size(M) + 1 && Size(p0) <= Size(p1)
  }

  lemma EuclidStart(A: Poly, M: Poly, q: Poly, r: Poly)
    requires A != {} && Size(A) <= CAPACITY && IsDivision(M, A, q, r) && (Size(A) < CAPACITY || r != {0})
    ensures EuclidState(A, M, A, r, {0}, q)
  {
    MulOne(A);
    CongruentSelf(A, M);
    assert Add(Mul(q, A), r) == M;
    DividesSelf(M);
    MulSize(q, A);
    SizeAdd(Mul(q, A), r);
    SizeIs({0}, 1);
    assert SameDivisors(M, A, M, A);
    SameDivisorsStep(M, A, q, r, M, A);
    if q == {} { MulZero(A); }
  }

  // The size of the product q * p1, which therefore is not cut.
  lemma EuclidProduct(A: Poly, M: Poly, n: Poly, r: Poly, p0: Poly, p1: Poly, q: Poly, r': Poly)
    requires EuclidState(A, M, n, r, p0, p1) && r != {} && IsDivision(n, r, q, r')
    ensures Size(q) == Size(n) - Size(r) + 1 < CAPACITY
    ensures Size(Mul(q, p1)) <= Size(M)
    ensures p1 != {} ==> Size(Mul(q, p1)) == Size(M) + 1 - Size(r) > Size(p1)
  {
    MulSize(q, r);
    SizeAdd(Mul(q, r), r');
    MulSize(q, p1);
    if Size(r) == 1 {
      SizeOne(r);
    }
  }

  lemma EuclidStep(A: Poly, M: Poly, n: Poly, r: Poly, p0: Poly, p1: Poly, q: Poly, r': Poly)
    requires EuclidState(A, M, n, r, p0, p1) && r != {} && IsDivision(n, r, q, r')
    ensures EuclidState(A, M, r, r', p1, Add(Mul(q, p1), p0))
    ensures Size(r') < Size(r)
  {
    var p2 := Add(Mul(q, p1), p0);
    SameDivisorsStep(n, r, q, r', M, A);
    EuclidProduct(A, M, n, r, p0, p1, q, r');
    SizeAdd(Mul(q, p1), p0);
    SizeIs({0}, 1);
    MulZero(q);
    assert Congruent(Mul(p2, A), r', M) by {
      MulAddLeft(Mul(q, p1), p0, A);
      MulAssoc(q, p1, A);
      CongruentSelf(q, M);
      CongruentMul(q, q, Mul(p1, A), r, M);
      CongruentAdd(Mul(q, Mul(p1, A)), Mul(q, r), Mul(p0, A), n, M);
      assert Add(Mul(q, r), n) == r';
    }
  }

  lemma EuclidEnd(A: Poly, M: Poly, n: Poly, p0: Poly, p1: Poly)
    requires EuclidState(A, M, n, {}, p0, p1)
    ensures IsInverse(A, M, p0)
  {
    GcdOfZero(n, M, A);
  }

  // An operand of the full 1024 bits divides by a remainder of 1 into a quotient of as
  // many, which the product would scan past its end; all others are handled.
  ghost predicate NoFullQuotient(A: Poly, M: Poly) {
    Size(A) < CAPACITY || !exists q :: IsDivision(M, A, q, {0})
  }

  // B = 1/A mod M: the result times A is the gcd of M and A, modulo M, and it is
  // reduced. A zero A would leave the local results of the division unset.
  method GfInvmod(A: array<Word>, M: array<Word>, B: array<Word>)
    requires IsGf(A) && IsGf(M) && IsGf(B)
    requires Value(A[..]) != {} && NoFullQuotient(Value(A[..]), Value(M[..]))
    modifies B
    ensures IsInverse(old(Value(A[..])), old(Value(M[..])), Value(B[..]))
  {
    hide Value, Below, Add, Mul, Size, IsSize, IsDivision, EuclidState, IsInverse;
    ghost var VA, VM := Value(A[..]), Value(M[..]);
    ValueSize(M[..]);
    var m, n, p0, p1, r := EuclidSetup(A, M);
    var p2, q, tmp := new Word[LSIZE], new Word[LSIZE], new Word[LSIZE];
    GfZero(p2);
    GfCopy(p1, q);
    var z := GfIsZero(r);
    while !z
      invariant z <==> Value(r[..]) == {}
      invariant EuclidState(VA, VM, Value(n[..]), Value(r[..]), Value(p0[..]), Value(p1[..]))
      decreases Size(Value(r[..]))
    {
      ghost var N, R, P0, P1 := Value(n[..]), Value(r[..]), Value(p0[..]), Value(p1[..]);
      EuclidDivide(m, n, q, r);
      EuclidProduct(VA, VM, N, R, P0, P1, Value(q[..]), Value(r[..]));
      EuclidStep(VA, VM, N, R, P0, P1, Value(q[..]), Value(r[..]));
      EuclidUpdate(q, p0, p1, p2, tmp);
      z := GfIsZero(r);
    }
    EuclidEnd(VA, VM, Value(n[..]), Value(p0[..]), Value(p1[..]));
    GfCopy(p0, B);
  }

  // p0 = 1, m = M, n = A, and M divided by A into p1 and r.
  method EuclidSetup(A: array<Word>, M: array<Word>)
    returns (m: array<Word>, n: array<Word>, p0: array<Word>, p1: array<Word>, r: array<Word>)
    requires IsGf(A) && IsGf(M)
    requires Value(A[..]) != {} && NoFullQuotient(Value(A[..]), Value(M[..]))
    ensures fresh({m, n, p0, p1, r}) && m != n && m != p0 && m != p1 && m != r
    ensures n != p0 && n != p1 && n != r && p0 != p1 && p0 != r && p1 != r
    ensures IsGf(m) && IsGf(n) && IsGf(p0) && IsGf(p1) && IsGf(r)
    ensures EuclidState(Value(A[..]), Value(M[..]), Value(n[..]), Value(r[..]), Value(p0[..]), Value(p1[..]))
  {
    hide Value, IsDivision, EuclidState;
    ghost var VA, VM := Value(A[..]), Value(M[..]);
    m, n, r := new Word[LSIZE], new Word[LSIZE], new Word[LSIZE];
    p0, p1 := new Word[LSIZE], new Word[LSIZE];
    GfZero(p0);
    GfCopy(M, m);
    GfCopy(A, n);
    SetOne(p0);
    GfDiv(m, n, p1, r);
    ValueSize(A[..]);
    EuclidStart(VA, VM, Value(p1[..]), Value(r[..]));
  }

  // The first half of the loop: m = n, n = r, then divide m by n.
  method EuclidDivide(m: array<Word>, n: array<Word>, q: array<Word>, r: array<Word>)
    requires IsGf(m) && IsGf(n) && IsGf(q) && IsGf(r)
    requires m != n && m != r && n != q && n != r && q != r
    requires Value(r[..]) != {}
    modifies m, n, q, r
    ensures Value(n[..]) == old(Value(r[..]))
    ensures IsDivision(old(Value(n[..])), old(Value(r[..])), Value(q[..]), Value(r[..]))
  {
    hide Value, IsDivision;
    GfCopy(n, m);
    GfCopy(r, n);
    GfDiv(m, n, q, r);
  }

  // The second half: p2 = q * p1 + p0, then p0 = p1 and p1 = p2.
  method EuclidUpdate(q: array<Word>, p0: array<Word>, p1: array<Word>, p2: array<Word>, tmp: array<Word>)
    requires IsGf(q) && IsGf(p0) && IsGf(p1) && IsGf(p2) && IsGf(tmp)
    requires p0 != p1 && p0 != p2 && p0 != tmp && p1 != p2 && p1 != tmp
    requires Size(Value(q[..])) < CAPACITY
    requires Size(Mul(Value(q[..]), Value(p1[..]))) <= CAPACITY
    modifies p0, p1, p2, tmp
    ensures Value(p0[..]) == old(Value(p1[..]))
    ensures Value(p1[..]) == Add(Mul(old(Value(q[..])), old(Value(p1[..]))), old(Value(p0[..])))
  {
    hide Value, Below, Add, Mul, Size;
    BelowAll(Mul(Value(q[..]), Value(p1[..])));
    GfMul(q, p1, tmp);
    GfAdd(tmp, p0, p2);
    GfCopy(p1, p0);
    GfCopy(p2, p1);
  }

  // a[0] = 1, in a zero number
  method SetOne(a: array<Word>)
    requires IsGf(a) && Value(a[..]) == {}
    modifies a
    ensures Value(a[..]) == {0}
  {
    ghost var s := a[..];
    forall k | 0 <= k < CAPACITY ensures !s[k / 32][k % 32] {
      assert k !in Value(s);
    }
    a[0] := One(32);
  }

  ghost predicate IsInverse(a: Poly, m: Poly, b: Poly) {
    && (Size(m) > 1 ==> Size(b) < Size(m))
    && exists g :: IsGcd(m, a, g) && Congruent(Mul(b, a), g, m)
  }

  // For coprime A and M the inverse is a true one.
  lemma InverseOfCoprime(a: Poly, m: Poly, b: Poly)
    requires IsInverse(a, m, b)
    requires forall d :: Divides(d, a) && Divides(d, m) ==> d == {0}
    ensures Congruent(Mul(b, a), {0}, m)
  {
    var g :| IsGcd(m, a, g) && Congruent(Mul(b, a), g, m);
    DividesSelf(g);
  }

  // b comes from a by j squarings modulo m, each of them cut to the capacity.
  ghost predicate CutSquares(a: Poly, m: Poly, b: Poly, j: nat)
    decreases j
  {
    if j == 0 then b == a
    else exists c, q :: CutSquares(a, m, c, j - 1) && IsDivision(Below(Mul(c, c), CAPACITY), m, q, b)
  }

  // b^2 = a modulo M by squaring a as often as M has degree less one. No square is cut
  // when a has at most half the capacity and M at most one bit more.
  method GfSqrt(a: array<Word>, M: array<Word>, b: array<Word>)
    requires IsGf(a) && IsGf(M) && IsGf(b) && b != M
    requires Size(Value(M[..])) == 2 || (Size(Value(M[..])) > 2 && Size(Value(a[..])) < CAPACITY)
    modifies b
    ensures CutSquares(old(Value(a[..])), old(Value(M[..])), Value(b[..]), old(Size(Value(M[..]))) - 2)
    ensures old(Size(Value(M[..])) <= CAPACITY / 2 + 1 && Size(Value(a[..])) <= CAPACITY / 2) ==>
      IsRootBySquaring(old(Value(a[..])), old(Value(M[..])), Value(b[..]))
  {
    hide Value, Congruent, Below;
    ghost var VA, VM := Value(a[..]), Value(M[..]);
    ValueSize(M[..]);
    var k := GfDeg(M);
    k := k - 2;
    GfCopy(a, b);
    ghost var j := 0;
    while k != 0
      invariant 0 <= k && j + k == Size(VM) - 2
      invariant Value(M[..]) == VM && (k > 0 ==> Size(Value(b[..])) < CAPACITY)
      invariant CutSquares(VA, VM, Value(b[..]), j)
    {
      k := k - 1;
      ghost var B := Value(b[..]);
      GfMulmod(b, b, M, b);
      assert exists q :: IsDivision(Below(Mul(B, B), CAPACITY), VM, q, Value(b[..]));
      j := j + 1;
    }
    if Size(VM) <= CAPACITY / 2 + 1 && Size(VA) <= CAPACITY / 2 {
      Uncut(VA, VM, Value(b[..]), j);
    }
  }

  lemma {:induction false} Uncut(a: Poly, m: Poly, b: Poly, j: nat)
    requires CutSquares(a, m, b, j) && Size(a) <= CAPACITY / 2 && Size(m) <= CAPACITY / 2 + 1
    ensures Congruent(b, Frobenius(a, j), m) && Size(b) <= CAPACITY / 2
    decreases j
  {
    hide Congruent, Below, IsDivision, Mul, CutSquares;
    if j == 0 {
      NoSquares(a, m, b);
      CongruentSelf(a, m);
    } else {
      var c := LastSquare(a, m, b, j);
      Uncut(a, m, c, j - 1);
      SqrtStep(a, m, c, b, j - 1);
    }
  }

  lemma NoSquares(a: Poly, m: Poly, b: Poly)
    ensures CutSquares(a, m, b, 0) <==> b == a
  {
  }

  lemma LastSquare(a: Poly, m: Poly, b: Poly, j: nat) returns (c: Poly)
    requires j > 0 && CutSquares(a, m, b, j)
    ensures CutSquares(a, m, c, j - 1) && exists q :: IsDivision(Below(Mul(c, c), CAPACITY), m, q, b)
  {
    hide IsDivision, Below, Mul;
    var p, q :| CutSquares(a, m, p, j - 1) && IsDivision(Below(Mul(p, p), CAPACITY), m, q, b);
    c := p;
  }

  lemma SqrtStep(a: Poly, m: Poly, b: Poly, b': Poly, j: nat)
    requires Congruent(b, Frobenius(a, j), m) && Size(b) <= CAPACITY / 2
    requires exists q :: IsDivision(Below(Mul(b, b), CAPACITY), m, q, b')
    ensures Congruent(b', Frobenius(a, j + 1), m) && Size(b') < Size(m)
  {
    MulSize(b, b);
    BelowAll(Mul(b, b));
    var q :| IsDivision(Mul(b, b), m, q, b');
    DivisionCongruent(Mul(b, b), m, q, b');
    CongruentMul(b, Frobenius(a, j), b, Frobenius(a, j), m);
    CongruentTrans(b', Mul(b, b), Frobenius(a, j + 1), m);
  }

  ghost predicate IsRootBySquaring(a: Poly, m: Poly, b: Poly)
    requires Size(m) >= 2
  {
    Congruent(b, Frobenius(a, Size(m) - 2), m)
  }

  // The method finds a square root of every a exactly when x^(2^d) is x modulo M,
  // d the degree of M.
  lemma SquareRootsIff(m: Poly)
    requires Size(m) >= 2
    ensures Congruent(Frobenius({1}, Size(m) - 1), {1}, m)
       <==> (forall a, b :: IsRootBySquaring(a, m, b) ==> Congruent(Mul(b, b), a, m))
  {
    var d := Size(m) - 1;
    forall a, b | IsRootBySquaring(a, m, b)
      ensures Congruent(Mul(b, b), Frobenius(a, d), m)
    {
      CongruentMul(b, Frobenius(a, d - 1), b, Frobenius(a, d - 1), m);
    }
    if Congruent(Frobenius({1}, d), {1}, m) {
      forall a, b | IsRootBySquaring(a, m, b)
        ensures Congruent(Mul(b, b), a, m)
      {
        FrobeniusFixes(a, m, d);
        CongruentTrans(Mul(b, b), Frobenius(a, d), a, m);
      }
    }
    if forall a, b :: IsRootBySquaring(a, m, b) ==> Congruent(Mul(b, b), a, m) {
      var b := Frobenius({1}, d - 1);
      CongruentSelf(b, m);
      assert IsRootBySquaring({1}, m, b);
      assert Congruent(Mul(b, b), {1}, m);
    }
  }

  // Every irreducible M is such a modulus, so the roots modulo a prime are right.
  lemma IrreducibleRoots(m: Poly, a: Poly, b: Poly)
    requires Irreducible(m) && IsRootBySquaring(a, m, b)
    ensures Congruent(Mul(b, b), a, m)
  {
    hide IsRootBySquaring, Congruent, Mul;
    assert Size(m) >= 2 by {
      var d := DegreeOf(m);
    }
    IrreducibleFixes({1}, m);
    SquareRootsIff(m);
  }

  // Modulo x^2 the method takes zero for a root of x, whose square is not x.
  lemma NoRoot()
    ensures Size({2}) == 3 && IsRootBySquaring({1}, {2}, {}) && !Congruent(Mul({}, {}), {1}, {2})
    ensures !Congruent(Frobenius({1}, 2), {1}, {2})
  {
    hide Mul;
    SizeIs({2}, 3);
    MulZero({});
    MulSingle(1, {1});
    assert Shift({1}, 1) == {2} && Frobenius({1}, 1) == {2};
    DividesSelf({2});
    assert Add({}, {2}) == {2};
    MulSingle(2, {2});
    assert Shift({2}, 2) == {4} && Frobenius({1}, 2) == {4};
    assert 1 in Add({}, {1}) && 1 in Add({4}, {1});
    NotBySquare(Add({}, {1}));
    NotBySquare(Add({4}, {1}));
  }

  lemma NotBySquare(a: Poly)
    requires 1 in a
    ensures !Divides({2}, a)
  {
    if Divides({2}, a) {
      var q :| Mul(q, {2}) == a;
      MulRightSingle(q, 2);
    }
  }
}
