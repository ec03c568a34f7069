// The irreducibility test on polynomials in their words.
module GfPrime {
  import opened Words
  import opened Poly
  import opened PolyField
  import opened PolyRoots
  import opened Gf

  method GfIsOne(a: array<Word>) returns (z: bool)
    requires IsGf(a)
    ensures z <==> Value(a[..]) == {0}
  {
    for i := 1 to LSIZE
      invariant forall j :: 1 <= j < i ==> !NonZero(a[j])
    {
      if NonZero(a[i]) {
        ghost var j :| 0 <= j < 32 && a[i][j];
        ValueMember(a[..], i, j);
        return false;
      }
    }
    z := a[0] == One(32);
    OneValue(a[..]);
  }

  lemma OneValue(s: seq<Word>)
    requires |s| == LSIZE && forall j :: 1 <= j < LSIZE ==> !NonZero(s[j])
    ensures s[0] == One(32) <==> Value(s) == {0}
  {
    forall k | k in Value(s)
      ensures k < 32
    {
      assert NonZero(s[k / 32]);
    }
    if Value(s) == {0} {
      forall j | 0 <= j < 32
        ensures s[0][j] == One(32)[j]
      {
        ValueMember(s, 0, j);
      }
    }
    if s[0] == One(32) {
      ValueMember(s, 0, 0);
      assert forall k :: k in Value(s) ==> s[0][k] && k == 0;
    }
  }

  // a[0] ^= 2
  method ToggleX(a: array<Word>)
    requires IsGf(a)
    modifies a
    ensures Value(a[..]) == Add(old(Value(a[..])), {1})
  {
    ghost var s := a[..];
    a[0] := Xor(a[0], Shl(One(32), 1));
    forall k | 0 <= k < CAPACITY
      ensures a[..][k / 32][k % 32] == (s[k / 32][k % 32] != (k == 1))
    {
    }
  }

  // a and x^(2^i) - x have no common divisor but 1.
  ghost predicate Separate(a: Poly, i: nat) {
    forall d :: Divides(d, a) && Divides(d, Add(Frobenius({1}, i), {1})) ==> d == {0}
  }

  // The divisor that the method computes from a residue tells.
  lemma GcdSeparates(a: Poly, i: nat, u: Poly, g: Poly)
    requires Congruent(u, Frobenius({1}, i), a) && IsGcd(Add(u, {1}), a, g)
    ensures g == {0} <==> Separate(a, i)
  {
    hide Mul;
    var f := Frobenius({1}, i);
    forall d | Divides(d, a)
      ensures Divides(d, Add(u, {1})) <==> Divides(d, Add(f, {1}))
    {
      SharedDivisor(a, u, f, d);
    }
    DividesSelf(g);
    if g == {0} {
      forall d | Divides(d, a) && Divides(d, Add(f, {1}))
        ensures d == {0}
      {
        DividesOne(d);
      }
    }
  }

  lemma SharedDivisor(a: Poly, u: Poly, f: Poly, d: Poly)
    requires Congruent(u, f, a) && Divides(d, a)
    ensures Divides(d, Add(u, {1})) <==> Divides(d, Add(f, {1}))
  {
    hide Mul;
    var q :| Mul(q, a) == Add(u, f);
    DividesMul(d, a, q);
    assert Add(Add(u, f), Add(u, {1})) == Add(f, {1});
    assert Add(Add(u, f), Add(f, {1})) == Add(u, {1});
    if Divides(d, Add(u, {1})) {
      DividesAdd(d, Add(u, f), Add(u, {1}));
    }
    if Divides(d, Add(f, {1})) {
      DividesAdd(d, Add(u, f), Add(f, {1}));
    }
  }

  lemma DividesOne(d: Poly)
    requires Divides(d, {0})
    ensures d == {0}
  {
    var q :| Mul(q, d) == {0};
    SizeIs({0}, 1);
    MulSize(q, d);
    MulZero(d);
    MulZero(q);
    MulCommutes(q, d);
    SizeOne(d);
  }

  // An irreducible polynomial passes every round of the test.
  lemma IrreducibleSeparates(a: Poly, i: nat)
    requires Irreducible(a) && 0 < i < Size(a) - 1
    ensures Separate(a, i)
  {
    hide Mul, Size;
    MovesX(a, i);
    CongruentIs(Frobenius({1}, i), {1}, a);
  }

  // What is not zero and not constant has an irreducible factor.
  lemma {:induction false} FactorExists(a: Poly) returns (f: Poly)
    requires Size(a) >= 2
    ensures Irreducible(f) && Divides(f, a) && Size(f) <= Size(a)
    decreases Size(a)
  {
    if Irreducible(a) {
      f := a;
      DividesSelf(a);
    } else {
      var s, q := Split(a);
      f := FactorExists(s);
      Transitive(f, s, a);
    }
  }

  // A proper divisor, the smaller one of the two
  lemma Split(a: Poly) returns (s: Poly, q: Poly)
    requires Size(a) >= 2 && !Irreducible(a)
    ensures Mul(q, s) == a && Divides(s, a) && 2 <= Size(s) < Size(a) && 2 * Size(s) <= Size(a) + 1
  {
    hide Mul;
    var d :| Divides(d, a) && d != {0} && d != a;
    var e :| Mul(e, d) == a;
    MulZero(d);
    MulZero(e);
    MulCommutes(e, d);
    MulSize(e, d);
    if Size(d) == 1 {
      SizeOne(d);
    }
    if Size(e) == 1 {
      SizeOne(e);
      MulOne(d);
    }
    if Size(d) <= Size(e) {
      s, q := d, e;
    } else {
      s, q := e, d;
    }
    DividesIntro(s, q);
  }

  lemma Transitive(f: Poly, s: Poly, a: Poly)
    requires Divides(f, s) && Divides(s, a)
    ensures Divides(f, a)
  {
    hide Mul;
    var q :| Mul(q, s) == a;
    DividesMul(f, s, q);
  }

  // Any other one of degree two or more fails the round of the degree of a factor.
  lemma ReducibleMeets(a: Poly) returns (i: nat)
    requires Size(a) >= 3 && !Irreducible(a)
    ensures 1 <= i <= Size(a) / 2 && !Separate(a, i)
  {
    hide Mul, Irreducible;
    var s, q := Split(a);
    var f := FactorExists(s);
    Transitive(f, s, a);
    i := Meets(f, a);
  }

  lemma Meets(f: Poly, a: Poly) returns (i: nat)
    requires Irreducible(f) && Divides(f, a)
    ensures i == Size(f) - 1 >= 1 && !Separate(a, i)
  {
    hide Mul;
    i := DegreeOf(f);
    IrreducibleFixes({1}, f);
    CongruentIs(Frobenius({1}, i), {1}, f);
    SizeIs({0}, 1);
  }

  lemma LinearIrreducible(a: Poly)
    requires Size(a) == 2
    ensures Irreducible(a)
  {
    if !Irreducible(a) {
      var s, q := Split(a);
    }
  }

  // For degrees from 2 up to 512 the answer is right. Both polynomials of degree 1 are
  // refused, although they are irreducible, and the constants are accepted.
  method GfIsPrime(a: array<Word>) returns (res: int)
    requires IsGf(a)
    ensures res == 0 || res == 1
    ensures 3 <= Size(Value(a[..])) <= CAPACITY / 2 + 1 ==> (res == 1 <==> Irreducible(Value(a[..])))
    ensures Size(Value(a[..])) == 2 ==> res == 0 && Irreducible(Value(a[..]))
    ensures Size(Value(a[..])) <= 1 ==> res == 1
  {
    hide Value, Congruent, Below, Frobenius, Separate, Irreducible, IsGcd, Mul;
    ghost var A := Value(a[..]);
    ghost var small := Size(A) <= CAPACITY / 2 + 1;
    ValueSize(a[..]);
    var u, tmp := new Word[LSIZE], new Word[LSIZE];
    GfZero(u);
    SetX(u);
    SizeIs({1}, 2);
    NoSquaring(A);
    var m := GfDeg(a);
    if Size(A) == 2 {
      LinearIrreducible(A);
    }
    var n := 0;
    while n < m / 2
      invariant 0 <= n && (n == 0 || n <= m / 2) && Value(a[..]) == A
      invariant Size(Value(u[..])) < CAPACITY && (small ==> Size(Value(u[..])) <= CAPACITY / 2)
      invariant small ==> Congruent(Value(u[..]), Frobenius({1}, n), A)
      invariant small ==> forall i :: 1 <= i <= n ==> Separate(A, i)
    {
      ghost var U := Value(u[..]);
      GfMulmod(u, u, a, u);
      if small {
        SqrtStep({1}, A, U, Value(u[..]), n);
      }
      GfCopy(u, tmp);
      ToggleX(tmp);
      GfGcd(tmp, a, tmp);
      if small {
        GcdSeparates(A, n + 1, Value(u[..]), Value(tmp[..]));
      }
      var one := GfIsOne(tmp);
      if !one {
        if small && Size(A) >= 3 && Irreducible(A) {
          IrreducibleSeparates(A, n + 1);
        }
        return 0;
      }
      n := n + 1;
    }
    if Size(A) == 2 {
      ghost var i := Meets(A, A) by {
        DividesSelf(A);
      }
    }
    if small && Size(A) >= 3 && !Irreducible(A) {
      ghost var i := ReducibleMeets(A);
    }
    return 1;
  }

  lemma NoSquaring(a: Poly)
    ensures Congruent({1}, Frobenius({1}, 0), a)
  {
    CongruentSelf({1}, a);
  }

  // u[0] = 2, in a zero number
  method SetX(a: array<Word>)
    requires IsGf(a) && Value(a[..]) == {}
    modifies a
    ensures Value(a[..]) == {1}
  {
    ghost var s := a[..];
    forall k | 0 <= k < CAPACITY ensures !s[k / 32][k % 32] {
      assert k !in Value(s);
    }
    a[0] := Shl(One(32), 1);
  }
}
