// Polynomials over GF(2): a polynomial is the set of its exponents.
module Poly {

  type Poly = set<nat>

  function Add(a: Poly, b: Poly): Poly {
    (a - b) + (b - a)
  }

  // x^n * a
  function Shift(a: Poly, n: nat): (r: Poly)
    ensures forall k :: k in r <==> k >= n && k - n in a
  {
    var r := set i | i in a :: i + n;
    assert forall k :: k in r <==> k >= n && k - n in a by {
      forall k | k >= n && k - n in a ensures k in r {
        var i := k - n;
        assert i + n in r;
      }
    }
    r
  }

  // a mod x^n
  function Below(a: Poly, n: nat): Poly {
    set k | k in a && k < n
  }

  predicate IsSize(a: Poly, d: nat) {
    (forall i :: i in a ==> i < d) && (d > 0 ==> d - 1 in a)
  }

  lemma {:induction false} SizeExists(a: Poly) returns (d: nat)
    ensures IsSize(a, d)
  {
    if a == {} {
      d := 0;
    } else {
      var i :| i in a;
      d := SizeExists(a - {i});
      assert forall j :: j in a ==> j == i || j in a - {i};
      if d <= i { d := i + 1; }
    }
  }

  // One more than the degree, and 0 for the zero polynomial.
  ghost function Size(a: Poly): (d: nat)
    ensures IsSize(a, d)
  {
    assert exists d: nat :: IsSize(a, d) by { var d := SizeExists(a); }
    var d: nat :| IsSize(a, d);
    d
  }

  // The product, by the terms of a below x^n.
  function MulTerms(a: Poly, b: Poly, n: nat): Poly {
    if n == 0 then {}
    else if n - 1 in a then Add(MulTerms(a, b, n - 1), Shift(b, n - 1))
    else MulTerms(a, b, n - 1)
  }

  ghost function Mul(a: Poly, b: Poly): Poly {
    MulTerms(a, b, Size(a))
  }

  lemma SizeIs(a: Poly, d: nat)
    requires forall i :: i in a ==> i < d
    requires d > 0 ==> d - 1 in a
    ensures Size(a) == d
  {
  }

  lemma SizeAtMost(a: Poly, d: nat)
    requires forall i :: i in a ==> i < d
    ensures Size(a) <= d
  {
  }

  lemma SizeShift(a: Poly, n: nat)
    ensures Size(Shift(a, n)) == if a == {} then 0 else Size(a) + n
  {
    if a != {} {
      SizeIs(Shift(a, n), Size(a) + n);
    }
  }

  lemma SizeAdd(a: Poly, b: Poly)
    ensures Size(a) < Size(b) ==> Size(Add(a, b)) == Size(b)
    ensures Size(b) < Size(a) ==> Size(Add(a, b)) == Size(a)
    ensures Size(a) == Size(b) > 0 ==> Size(Add(a, b)) < Size(b)
  {
    var c := Add(a, b);
    if Size(a) < Size(b) {
      SizeIs(c, Size(b));
    } else if Size(b) < Size(a) {
      SizeIs(c, Size(a));
    } else if Size(a) > 0 {
      SizeAtMost(c, Size(a) - 1);
    }
  }

  lemma {:induction false} MulTermsStable(a: Poly, b: Poly, n: nat)
    requires n >= Size(a)
    ensures MulTerms(a, b, n) == Mul(a, b)
  {
    if n > Size(a) { MulTermsStable(a, b, n - 1); }
  }

  lemma AddAssoc(a: Poly, b: Poly, c: Poly)
    ensures Add(Add(a, b), c) == Add(a, Add(b, c))
    ensures Add(a, b) == Add(b, a)
  {
  }

  // (a + b) + (c + d) == (a + c) + (b + d)
  lemma AddSwap(a: Poly, b: Poly, c: Poly, d: Poly)
    ensures Add(Add(a, b), Add(c, d)) == Add(Add(a, c), Add(b, d))
  {
  }

  lemma ShiftAdd(a: Poly, b: Poly, n: nat)
    ensures Shift(Add(a, b), n) == Add(Shift(a, n), Shift(b, n))
  {
  }

  lemma ShiftByZero(a: Poly)
    ensures Shift(a, 0) == a
  {
  }

  lemma ShiftShift(a: Poly, m: nat, n: nat)
    ensures Shift(Shift(a, m), n) == Shift(a, m + n)
  {
  }

  // ---- The product distributes over the sum on both sides. ----

  lemma {:induction false} TermsAddRight(a: Poly, b: Poly, c: Poly, n: nat)
    ensures MulTerms(a, Add(b, c), n) == Add(MulTerms(a, b, n), MulTerms(a, c, n))
  {
    if n > 0 {
      TermsAddRight(a, b, c, n - 1);
      ShiftAdd(b, c, n - 1);
      AddSwap(MulTerms(a, b, n - 1), MulTerms(a, c, n - 1), Shift(b, n - 1), Shift(c, n - 1));
    }
  }

  lemma {:induction false} TermsAddLeft(a: Poly, b: Poly, c: Poly, n: nat)
    ensures MulTerms(Add(a, b), c, n) == Add(MulTerms(a, c, n), MulTerms(b, c, n))
  {
    if n > 0 {
      TermsAddLeft(a, b, c, n - 1);
    }
  }

  lemma {:induction false} TermsShiftRight(a: Poly, b: Poly, m: nat, n: nat)
    ensures MulTerms(a, Shift(b, m), n) == Shift(MulTerms(a, b, n), m)
  {
    if n > 0 {
      TermsShiftRight(a, b, m, n - 1);
      ShiftShift(b, m, n - 1);
      ShiftShift(b, n - 1, m);
      ShiftAdd(MulTerms(a, b, n - 1), Shift(b, n - 1), m);
    }
  }

  lemma MulAddRight(a: Poly, b: Poly, c: Poly)
    ensures Mul(a, Add(b, c)) == Add(Mul(a, b), Mul(a, c))
  {
    TermsAddRight(a, b, c, Size(a));
  }

  lemma MulAddLeft(a: Poly, b: Poly, c: Poly)
    ensures Mul(Add(a, b), c) == Add(Mul(a, c), Mul(b, c))
  {
    var n := Size(a) + Size(b) + Size(Add(a, b));
    TermsAddLeft(a, b, c, n);
    MulTermsStable(a, c, n);
    MulTermsStable(b, c, n);
    MulTermsStable(Add(a, b), c, n);
  }

  lemma MulShiftRight(a: Poly, b: Poly, m: nat)
    ensures Mul(a, Shift(b, m)) == Shift(Mul(a, b), m)
  {
    TermsShiftRight(a, b, m, Size(a));
  }

  lemma {:induction false} TermsSingle(i: nat, b: Poly, n: nat)
    ensures MulTerms({i}, b, n) == if i < n then Shift(b, i) else {}
  {
    if n > 0 { TermsSingle(i, b, n - 1); }
  }

  lemma MulSingle(i: nat, b: Poly)
    ensures Mul({i}, b) == Shift(b, i)
  {
    SizeIs({i}, i + 1);
    TermsSingle(i, b, i + 1);
  }

  lemma {:induction false} TermsRightSingle(a: Poly, i: nat, n: nat)
    ensures MulTerms(a, {i}, n) == Shift(Below(a, n), i)
  {
    if n > 0 {
      TermsRightSingle(a, i, n - 1);
    }
  }

  lemma MulRightSingle(a: Poly, i: nat)
    ensures Mul(a, {i}) == Shift(a, i)
  {
    TermsRightSingle(a, i, Size(a));
    assert Below(a, Size(a)) == a;
  }

  lemma Split(a: Poly)
    requires a != {}
    ensures var i := Size(a) - 1; a == Add({i}, a - {i}) && Size(a - {i}) < Size(a)
  {
    var i := Size(a) - 1;
    SizeAtMost(a - {i}, i);
    assert {i} - (a - {i}) == {i} && (a - {i}) - {i} == a - {i};
  }

  // ---- GF(2)[x] is a commutative ring with 1 == {0}. ----

  lemma MulZero(a: Poly)
    ensures Mul(a, {}) == {} && Mul({}, a) == {}
  {
    TermsZero(a, Size(a));
  }

  lemma {:induction false} TermsZero(a: Poly, n: nat)
    ensures MulTerms(a, {}, n) == {}
  {
    if n > 0 { TermsZero(a, n - 1); }
  }

  lemma MulOne(a: Poly)
    ensures Mul(a, {0}) == a && Mul({0}, a) == a
  {
    MulRightSingle(a, 0);
    MulSingle(0, a);
  }

  lemma {:induction false} MulCommutes(a: Poly, b: Poly)
    ensures Mul(a, b) == Mul(b, a)
    decreases Size(a)
  {
    if a == {} {
      MulZero(b);
    } else {
      Split(a);
      var i := Size(a) - 1;
      MulAddLeft({i}, a - {i}, b);
      MulAddRight(b, {i}, a - {i});
      MulSingle(i, b);
      MulRightSingle(b, i);
      MulCommutes(a - {i}, b);
    }
  }

  lemma MulShiftLeft(a: Poly, b: Poly, m: nat)
    ensures Mul(Shift(a, m), b) == Shift(Mul(a, b), m)
  {
    MulCommutes(Shift(a, m), b);
    MulShiftRight(b, a, m);
    MulCommutes(a, b);
  }

  lemma {:induction false} MulAssoc(a: Poly, b: Poly, c: Poly)
    ensures Mul(Mul(a, b), c) == Mul(a, Mul(b, c))
    decreases Size(a)
  {
    if a == {} {
      MulZero(b);
      MulZero(c);
      MulZero(Mul(b, c));
    } else {
      Split(a);
      var i, rest := Size(a) - 1, a - {Size(a) - 1};
      MulAddLeft({i}, rest, b);
      MulSingle(i, b);
      MulAddLeft(Shift(b, i), Mul(rest, b), c);
      MulShiftLeft(b, c, i);
      MulAddLeft({i}, rest, Mul(b, c));
      MulSingle(i, Mul(b, c));
      MulAssoc(rest, b, c);
    }
  }

  lemma {:induction false} TermsSize(a: Poly, b: Poly, n: nat)
    requires b != {}
    ensures Size(MulTerms(a, b, n)) < n + Size(b)
    ensures n > 0 && n - 1 in a ==> Size(MulTerms(a, b, n)) == n - 1 + Size(b)
  {
    if n > 0 {
      TermsSize(a, b, n - 1);
      SizeShift(b, n - 1);
      SizeAdd(MulTerms(a, b, n - 1), Shift(b, n - 1));
    }
  }

  // Degrees add, so there are no zero divisors.
  lemma MulSize(a: Poly, b: Poly)
    ensures Size(Mul(a, b)) == if a == {} || b == {} then 0 else Size(a) + Size(b) - 1
  {
    if a == {} || b == {} {
      MulZero(a);
      MulZero(b);
    } else {
      TermsSize(a, b, Size(a));
    }
  }

  // ---- The product is the convolution of the coefficients. ----

  function Pairs(a: Poly, b: Poly, k: nat, n: nat): set<nat> {
    set i | i in a && i < n && i <= k && k - i in b
  }

  lemma PairsNext(a: Poly, b: Poly, k: nat, n: nat)
    requires n > 0
    ensures |Pairs(a, b, k, n)|
         == |Pairs(a, b, k, n - 1)| + if n - 1 in a && n - 1 <= k && k - (n - 1) in b then 1 else 0
  {
    if n - 1 in a && n - 1 <= k && k - (n - 1) in b {
      assert Pairs(a, b, k, n) == Pairs(a, b, k, n - 1) + {n - 1};
    } else {
      assert Pairs(a, b, k, n) == Pairs(a, b, k, n - 1);
    }
  }

  lemma {:induction false} TermsCoefficient(a: Poly, b: Poly, k: nat, n: nat)
    ensures k in MulTerms(a, b, n) <==> |Pairs(a, b, k, n)| % 2 == 1
  {
    if n > 0 {
      hide Pairs;
      TermsCoefficient(a, b, k, n - 1);
      PairsNext(a, b, k, n);
    }
  }

  // The coefficient of x^k is the parity of the pairs of exponents adding to k.
  lemma MulCoefficient(a: Poly, b: Poly, k: nat)
    ensures k in Mul(a, b) <==> |set i | i in a && i <= k && k - i in b| % 2 == 1
  {
    TermsCoefficient(a, b, k, Size(a));
    assert Pairs(a, b, k, Size(a)) == set i | i in a && i <= k && k - i in b;
  }

  // ---- Division with remainder ----

  ghost predicate IsDivision(a: Poly, b: Poly, q: Poly, r: Poly) {
    a == Add(Mul(q, b), r) && Size(r) < Size(b)
  }

  lemma DivisionUnique(a: Poly, b: Poly, q: Poly, r: Poly, q': Poly, r': Poly)
    requires IsDivision(a, b, q, r) && IsDivision(a, b, q', r')
    ensures q == q' && r == r'
  {
    var d := Add(q, q');
    MulAddLeft(q, q', b);
    assert Mul(d, b) == Add(r, r') by { AddCancel(Mul(q, b), r, Mul(q', b), r'); }
    SizeAdd(r, r');
    MulSize(d, b);
    assert d == {};
    MulZero(b);
  }

  lemma AddCancel(a: Poly, b: Poly, c: Poly, d: Poly)
    requires Add(a, b) == Add(c, d)
    ensures Add(a, c) == Add(b, d)
  {
    assert Add(Add(a, b), Add(c, d)) == {};
    AddSwap(a, b, c, d);
    assert forall k :: k in Add(a, c) <==> k in Add(b, d);
  }

  // ---- Divisibility and congruence ----

  ghost predicate Divides(d: Poly, a: Poly) {
    exists q :: Mul(q, d) == a
  }

  lemma DividesIntro(d: Poly, q: Poly)
    ensures Divides(d, Mul(q, d)) && Divides(q, Mul(q, d))
  {
    MulCommutes(q, d);
  }

  lemma DividesAdd(d: Poly, a: Poly, b: Poly)
    requires Divides(d, a) && Divides(d, b)
    ensures Divides(d, Add(a, b))
  {
    var q :| Mul(q, d) == a;
    var p :| Mul(p, d) == b;
    MulAddLeft(q, p, d);
  }

  lemma DividesMul(d: Poly, a: Poly, c: Poly)
    requires Divides(d, a)
    ensures Divides(d, Mul(c, a))
  {
    var q :| Mul(q, d) == a;
    MulAssoc(c, q, d);
  }

  lemma DividesZero(d: Poly)
    ensures Divides(d, {})
  {
    MulZero(d);
  }

  lemma DividesSelf(d: Poly)
    ensures Divides(d, d)
  {
    MulOne(d);
  }

  // The same numbers divide a and b as divide b and r, where a = q * b + r.
  lemma DividesRemainder(d: Poly, a: Poly, b: Poly, q: Poly, r: Poly)
    requires a == Add(Mul(q, b), r)
    ensures Divides(d, a) && Divides(d, b) <==> Divides(d, b) && Divides(d, r)
  {
    if Divides(d, b) {
      DividesMul(d, b, q);
      assert r == Add(Mul(q, b), a);
      if Divides(d, r) { DividesAdd(d, Mul(q, b), r); }
      if Divides(d, a) { DividesAdd(d, Mul(q, b), a); }
    }
  }

  ghost predicate Congruent(a: Poly, b: Poly, m: Poly) {
    Divides(m, Add(a, b))
  }

  lemma CongruentSelf(a: Poly, m: Poly)
    ensures Congruent(a, a, m)
  {
    DividesZero(m);
    assert Add(a, a) == {};
  }

  lemma CongruentTrans(a: Poly, b: Poly, c: Poly, m: Poly)
    requires Congruent(a, b, m) && Congruent(b, c, m)
    ensures Congruent(a, c, m) && Congruent(b, a, m)
  {
    DividesAdd(m, Add(a, b), Add(b, c));
    assert Add(Add(a, b), Add(b, c)) == Add(a, c);
    assert Add(a, b) == Add(b, a);
  }

  lemma CongruentAdd(a: Poly, b: Poly, c: Poly, d: Poly, m: Poly)
    requires Congruent(a, b, m) && Congruent(c, d, m)
    ensures Congruent(Add(a, c), Add(b, d), m)
  {
    DividesAdd(m, Add(a, b), Add(c, d));
    AddSwap(a, b, c, d);
  }

  lemma CongruentMul(a: Poly, b: Poly, c: Poly, d: Poly, m: Poly)
    requires Congruent(a, b, m) && Congruent(c, d, m)
    ensures Congruent(Mul(a, c), Mul(b, d), m)
  {
    DividesMul(m, Add(a, b), c);
    MulCommutes(c, Add(a, b));
    MulAddLeft(a, b, c);
    DividesMul(m, Add(c, d), b);
    MulAddRight(b, c, d);
    CongruentTrans(Mul(a, c), Mul(b, c), Mul(b, d), m);
  }

  lemma DivisionCongruent(a: Poly, m: Poly, q: Poly, r: Poly)
    requires a == Add(Mul(q, m), r)
    ensures Congruent(r, a, m)
  {
    DividesIntro(m, q);
    assert Add(r, a) == Mul(q, m);
  }

  // ---- Repeated squaring: a^(2^j) ----

  ghost function Frobenius(a: Poly, j: nat): Poly {
    if j == 0 then a else Mul(Frobenius(a, j - 1), Frobenius(a, j - 1))
  }

  lemma SquareAdd(a: Poly, b: Poly)
    ensures Mul(Add(a, b), Add(a, b)) == Add(Mul(a, a), Mul(b, b))
  {
    MulAddLeft(a, b, Add(a, b));
    MulAddRight(a, a, b);
    MulAddRight(b, a, b);
    MulCommutes(a, b);
    AddMiddle(Mul(a, a), Mul(a, b), Mul(b, b));
  }

  lemma AddMiddle(a: Poly, b: Poly, c: Poly)
    ensures Add(Add(a, b), Add(b, c)) == Add(a, c)
  {
  }

  lemma SquareMul(a: Poly, b: Poly)
    ensures Mul(Mul(a, b), Mul(a, b)) == Mul(Mul(a, a), Mul(b, b))
  {
    MulAssoc(a, b, Mul(a, b));
    MulAssoc(b, a, b);
    MulCommutes(b, a);
    MulAssoc(a, b, b);
    MulAssoc(a, a, Mul(b, b));
  }

  lemma {:induction false} FrobeniusAdd(a: Poly, b: Poly, j: nat)
    ensures Frobenius(Add(a, b), j) == Add(Frobenius(a, j), Frobenius(b, j))
  {
    if j > 0 {
      FrobeniusAdd(a, b, j - 1);
      SquareAdd(Frobenius(a, j - 1), Frobenius(b, j - 1));
    }
  }

  lemma {:induction false} FrobeniusMul(a: Poly, b: Poly, j: nat)
    ensures Frobenius(Mul(a, b), j) == Mul(Frobenius(a, j), Frobenius(b, j))
  {
    if j > 0 {
      FrobeniusMul(a, b, j - 1);
      SquareMul(Frobenius(a, j - 1), Frobenius(b, j - 1));
    }
  }

  lemma {:induction false} FrobeniusConstant(j: nat)
    ensures Frobenius({0}, j) == {0} && Frobenius({}, j) == {}
  {
    if j > 0 {
      hide Mul;
      FrobeniusConstant(j - 1);
      MulOne({0});
      MulZero({});
    }
  }

  lemma {:induction false} FrobeniusCongruent(a: Poly, b: Poly, m: Poly, j: nat)
    requires Congruent(a, b, m)
    ensures Congruent(Frobenius(a, j), Frobenius(b, j), m)
  {
    if j > 0 {
      FrobeniusCongruent(a, b, m, j - 1);
      CongruentMul(Frobenius(a, j - 1), Frobenius(b, j - 1), Frobenius(a, j - 1), Frobenius(b, j - 1), m);
    }
  }

  lemma {:induction false} FrobeniusFixesPowers(i: nat, m: Poly, j: nat)
    requires Congruent(Frobenius({1}, j), {1}, m)
    ensures Congruent(Frobenius({i}, j), {i}, m)
  {
    if i == 0 {
      FrobeniusConstant(j);
      CongruentSelf({0}, m);
    } else {
      MulSingle(1, {i - 1});
      assert Shift({i - 1}, 1) == {i};
      FrobeniusFixesPowers(i - 1, m, j);
      FrobeniusMul({1}, {i - 1}, j);
      CongruentMul(Frobenius({1}, j), {1}, Frobenius({i - 1}, j), {i - 1}, m);
    }
  }

  // If x^(2^j) is x then a^(2^j) is a, for every a (all modulo m).
  lemma {:induction false} FrobeniusFixes(a: Poly, m: Poly, j: nat)
    requires Congruent(Frobenius({1}, j), {1}, m)
    ensures Congruent(Frobenius(a, j), a, m)
    decreases Size(a)
  {
    if a == {} {
      FrobeniusConstant(j);
      CongruentSelf({}, m);
    } else {
      Split(a);
      var i, rest := Size(a) - 1, a - {Size(a) - 1};
      FrobeniusAdd({i}, rest, j);
      FrobeniusFixesPowers(i, m, j);
      FrobeniusFixes(rest, m, j);
      CongruentAdd(Frobenius({i}, j), {i}, Frobenius(rest, j), rest, m);
    }
  }
}
