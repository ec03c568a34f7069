// A polynomial over the residues modulo an irreducible one has no more roots than its
// degree, which tells when repeated squaring can fix x.
module PolyRoots {
  import opened Words
  import opened Poly
  import opened PolyField

  // Polynomials in y with coefficients in GF(2)[x], the constant first
  type Coefficients = seq<Poly>

  ghost function Eval(p: Coefficients, y: Poly): Poly {
    if p == [] then {} else Add(p[0], Mul(y, Eval(p[1..], y)))
  }

  ghost predicate Monic(p: Coefficients) {
    p != [] && p[|p| - 1] == {0}
  }

  // The quotient of p by y - r
  ghost function Quotient(p: Coefficients, r: Poly): Coefficients {
    if |p| <= 1 then [] else [Eval(p[1..], r)] + Quotient(p[1..], r)
  }

  lemma {:induction false} QuotientMonic(p: Coefficients, r: Poly)
    requires Monic(p) && |p| > 1
    ensures Monic(Quotient(p, r)) && |Quotient(p, r)| == |p| - 1
  {
    if |p| == 2 {
      MulZero(r);
      assert p[1..][1..] == [] && Quotient(p[1..], r) == [];
      MulCommutes(r, {});
      AddZero({0});
    } else {
      QuotientMonic(p[1..], r);
    }
  }

  // p(y) - p(r) = (y - r) * q(y)
  lemma {:induction false} QuotientTimes(p: Coefficients, r: Poly, y: Poly)
    ensures Add(Eval(p, y), Eval(p, r)) == Mul(Add(y, r), Eval(Quotient(p, r), y))
  {
    hide Mul;
    if p == [] {
      MulZero(Add(y, r));
      MulCommutes(Add(y, r), {});
    } else if |p| == 1 {
      assert p[1..] == [];
      MulZero(y);
      MulZero(r);
      MulZero(Add(y, r));
      MulCommutes(y, {});
      MulCommutes(r, {});
      MulCommutes(Add(y, r), {});
    } else {
      QuotientTimes(p[1..], r, y);
      var u, v, w := Eval(p[1..], y), Eval(p[1..], r), Eval(Quotient(p[1..], r), y);
      assert Quotient(p, r)[1..] == Quotient(p[1..], r);
      Expand(y, r, u, v, w);
      AddHead(p[0], Mul(y, u), Mul(r, v));
    }
  }

  lemma AddHead(c: Poly, u: Poly, v: Poly)
    ensures Add(Add(c, u), Add(c, v)) == Add(u, v)
  {
  }

  // y * u - r * v = (y - r) * (v + y * w), where u - v = (y - r) * w
  lemma Expand(y: Poly, r: Poly, u: Poly, v: Poly, w: Poly)
    requires Add(u, v) == Mul(Add(y, r), w)
    ensures Add(Mul(y, u), Mul(r, v)) == Mul(Add(y, r), Add(v, Mul(y, w)))
  {
    hide Mul;
    var d := Add(y, r);
    MulAddRight(d, v, Mul(y, w));
    MulSwap(d, y, w);
    MulAddLeft(y, r, v);
    MulAddRight(y, u, v);
    AddThree(Mul(y, u), Mul(y, v), Mul(r, v));
  }

  lemma AddThree(a: Poly, b: Poly, c: Poly)
    ensures Add(Add(b, c), Add(a, b)) == Add(a, c)
  {
  }

  ghost predicate Roots(p: Coefficients, t: set<Poly>, m: Poly) {
    forall y :: y in t ==> Divides(m, Eval(p, y))
  }

  ghost predicate Incongruent(t: set<Poly>, m: Poly) {
    forall y, z :: y in t && z in t && Congruent(y, z, m) ==> y == z
  }

  lemma {:induction false} FewRoots(p: Coefficients, t: set<Poly>, m: Poly)
    requires Irreducible(m) && Monic(p) && Roots(p, t, m) && Incongruent(t, m)
    ensures |t| < |p|
    decreases |p|
  {
    hide Irreducible, Mul;
    if |t| > 0 {
      var r :| r in t;
      var rest := t - {r};
      if |p| == 1 {
        OneIndivisible(p, r, m);
      } else {
        var q := Quotient(p, r);
        QuotientMonic(p, r);
        forall y | y in rest
          ensures Divides(m, Eval(q, y))
        {
          OtherRoot(p, r, y, m);
        }
        FewRoots(q, rest, m);
      }
    }
  }

  lemma OneIndivisible(p: Coefficients, r: Poly, m: Poly)
    requires Irreducible(m) && |p| == 1 && Monic(p)
    ensures !Divides(m, Eval(p, r))
  {
    assert p[1..] == [];
    MulZero(r);
    MulCommutes(r, {});
    AddZero({0});
    SizeIs({0}, 1);
    UnitIndivisible({0}, m);
  }

  lemma OtherRoot(p: Coefficients, r: Poly, y: Poly, m: Poly)
    requires Irreducible(m) && Divides(m, Eval(p, r)) && Divides(m, Eval(p, y)) && !Congruent(y, r, m)
    ensures Divides(m, Eval(Quotient(p, r), y))
  {
    hide Irreducible, Mul, Quotient, Eval, Divides;
    QuotientTimes(p, r, y);
    DividesAdd(m, Eval(p, y), Eval(p, r));
    EuclidLemma(Add(y, r), Eval(Quotient(p, r), y), m);
  }

  // ---- y^k - y ----

  ghost function Monomial(k: nat): Coefficients {
    seq(k + 1, i => if i == k then {0} else {})
  }

  ghost function PowerLess(k: nat): Coefficients {
    seq(k + 1, i => if i == k || i == 1 then {0} else {})
  }

  lemma {:induction false} EvalMonomial(k: nat, y: Poly)
    ensures Eval(Monomial(k), y) == Power(y, k)
  {
    hide Mul;
    if k == 0 {
      assert Monomial(0)[1..] == [];
      MulZero(y);
      MulCommutes(y, {});
      AddZero({0});
    } else {
      assert Monomial(k)[1..] == Monomial(k - 1);
      EvalMonomial(k - 1, y);
      assert Add({}, Mul(y, Power(y, k - 1))) == Mul(y, Power(y, k - 1));
    }
  }

  lemma EvalPowerLess(k: nat, y: Poly)
    requires k >= 2
    ensures Eval(PowerLess(k), y) == Add(Power(y, k), y)
  {
    hide Mul;
    var p := PowerLess(k);
    var rest := Monomial(k - 1)[1..];
    assert p[1..] == [{0}] + rest && ([{0}] + rest)[1..] == rest;
    assert Monomial(k - 1) == [{}] + rest;
    EvalMonomial(k - 1, y);
    var e := Mul(y, Eval(rest, y));
    assert Add({}, e) == e == Power(y, k - 1);
    MulAddRight(y, {0}, e);
    MulCommutes(y, {0});
    MulOne(y);
    assert Add({}, Add(y, Mul(y, e))) == Add(Mul(y, e), y);
  }

  // Fewer squarings than the degree of an irreducible polynomial do not fix x.
  lemma MovesX(m: Poly, i: nat)
    requires Irreducible(m) && 0 < i < Size(m) - 1
    ensures !Congruent(Frobenius({1}, i), {1}, m)
  {
    hide Irreducible, Mul, Congruent, Eval, Power;
    if Congruent(Frobenius({1}, i), {1}, m) {
      var d := DegreeOf(m);
      var t := Subsets(d);
      var p := PowerLess(Pow2(i));
      SubsetsCount(d);
      PowerAtLeast(i);
      PowerGrows(i, d);
      forall y | y in t
        ensures Divides(m, Eval(p, y))
      {
        FrobeniusFixes(y, m, i);
        FrobeniusPower(y, i);
        EvalPowerLess(Pow2(i), y);
        CongruentIs(Power(y, Pow2(i)), y, m);
      }
      SubsetsIncongruent(d, m);
      FewRoots(p, t, m);
    }
  }

  lemma CongruentIs(a: Poly, b: Poly, m: Poly)
    ensures Congruent(a, b, m) <==> Divides(m, Add(a, b))
  {
  }

  lemma PowerAtLeast(i: nat)
    requires i > 0
    ensures Pow2(i) >= 2
  {
  }

  lemma {:induction false} PowerGrows(i: nat, d: nat)
    requires i < d
    ensures Pow2(d) > Pow2(i)
  {
    if i + 1 < d {
      PowerGrows(i, d - 1);
    }
  }

  lemma SubsetsIncongruent(d: nat, m: Poly)
    requires d < Size(m)
    ensures Incongruent(Subsets(d), m)
  {
    SubsetsAre(d);
    forall y, z | y in Subsets(d) && z in Subsets(d) && Congruent(y, z, m)
      ensures y == z
    {
      assert Under(y, d) && Under(z, d);
      RemUnique(y, z, m);
    }
  }
}
