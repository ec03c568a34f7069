// Residues modulo an irreducible polynomial form a field, in which every element is
// fixed by as many squarings as the modulus has degree.
module PolyField {
  import opened Words
  import opened Poly

  ghost predicate Irreducible(m: Poly) {
    Size(m) >= 2 && forall d :: Divides(d, m) ==> d == {0} || d == m
  }

  // ---- Quotients, remainders and Bezout's identity ----

  lemma {:induction false} DivisionExists(a: Poly, b: Poly) returns (q: Poly, r: Poly)
    requires b != {}
    ensures IsDivision(a, b, q, r)
    decreases Size(a)
  {
    if Size(a) < Size(b) {
      q, r := {}, a;
      MulZero(b);
    } else {
      hide Mul;
      var i: nat := Size(a) - Size(b);
      var s := Shift(b, i);
      SizeShift(b, i);
      SizeAdd(a, s);
      var p;
      p, r := DivisionExists(Add(a, s), b);
      q := Add(p, {i});
      MulAddLeft(p, {i}, b);
      MulSingle(i, b);
      assert a == Add(Add(a, s), s);
      AddAround(Mul(p, b), r, s);
    }
  }

  lemma AddAround(u: Poly, r: Poly, s: Poly)
    ensures Add(Add(u, r), s) == Add(Add(u, s), r)
  {
  }

  ghost function Rem(a: Poly, m: Poly): (r: Poly)
    requires m != {}
    ensures Size(r) < Size(m) && Congruent(r, a, m)
  {
    assert exists q, r :: IsDivision(a, m, q, r) by {
      var q, r := DivisionExists(a, m);
    }
    var q, r :| IsDivision(a, m, q, r);
    DivisionCongruent(a, m, q, r);
    r
  }

  // x * a + y * b divides both.
  lemma {:induction false} Bezout(a: Poly, b: Poly) returns (x: Poly, y: Poly, g: Poly)
    ensures g == Add(Mul(x, a), Mul(y, b)) && Divides(g, a) && Divides(g, b)
    decreases Size(b)
  {
    if b == {} {
      x, y, g := {0}, {}, a;
      MulOne(a);
      MulZero(b);
      DividesSelf(a);
      DividesZero(a);
    } else {
      hide Mul, Divides;
      var q, r := DivisionExists(a, b);
      var u, v;
      u, v, g := Bezout(b, r);
      x, y := v, Add(u, Mul(v, q));
      DividesRemainder(g, a, b, q, r);
      MulAddLeft(u, Mul(v, q), b);
      MulAssoc(v, q, b);
      MulAddRight(v, Mul(q, b), r);
      assert r == Add(Mul(q, b), a);
      MulAddRight(v, Mul(q, b), a);
      AddOrder(Mul(u, b), Mul(v, Mul(q, b)), Mul(v, a));
    }
  }

  lemma AddOrder(u: Poly, v: Poly, w: Poly)
    ensures Add(u, Add(v, w)) == Add(w, Add(u, v))
  {
  }

  // What an irreducible polynomial does not divide has an inverse modulo it.
  lemma InverseExists(a: Poly, m: Poly) returns (x: Poly)
    requires Irreducible(m) && !Divides(m, a)
    ensures Congruent(Mul(x, a), {0}, m)
  {
    hide Mul, Size;
    var y, g;
    x, y, g := Bezout(a, m);
    assert g == {0};
    DividesIntro(m, y);
    assert Add(Mul(x, a), {0}) == Mul(y, m);
  }

  lemma CancelFactor(a: Poly, b: Poly, c: Poly, m: Poly)
    requires Irreducible(m) && !Divides(m, c) && Congruent(Mul(a, c), Mul(b, c), m)
    ensures Congruent(a, b, m)
  {
    hide Mul, Irreducible, Congruent;
    var x := InverseExists(c, m);
    TimesUnit(a, c, x, m);
    TimesUnit(b, c, x, m);
    CongruentSelf(x, m);
    CongruentMul(x, x, Mul(a, c), Mul(b, c), m);
    CongruentTrans(Mul(x, Mul(a, c)), a, a, m);
    CongruentTrans(a, Mul(x, Mul(a, c)), Mul(x, Mul(b, c)), m);
    CongruentTrans(a, Mul(x, Mul(b, c)), b, m);
  }

  lemma TimesUnit(a: Poly, c: Poly, x: Poly, m: Poly)
    requires Congruent(Mul(x, c), {0}, m)
    ensures Congruent(Mul(x, Mul(a, c)), a, m) && Congruent(a, a, m)
  {
    hide Mul, Congruent;
    MulCommutes(a, c);
    MulAssoc(x, c, a);
    CongruentSelf(a, m);
    CongruentMul(Mul(x, c), {0}, a, a, m);
    MulOne(a);
  }

  lemma EuclidLemma(a: Poly, b: Poly, m: Poly)
    requires Irreducible(m) && Divides(m, Mul(a, b))
    ensures Divides(m, a) || Divides(m, b)
  {
    hide Mul, Irreducible;
    if !Divides(m, b) {
      MulZero(b);
      AddZero(Mul(a, b));
      AddZero(a);
      CancelFactor(a, {}, b, m);
    }
  }

  lemma AddZero(a: Poly)
    ensures Add(a, {}) == a
  {
  }

  // ---- The nonzero residues ----

  function With(s: Poly, n: nat): Poly {
    s + {n}
  }

  function Extended(t: set<Poly>, n: nat): set<Poly> {
    set s | s in t :: With(s, n)
  }

  function Subsets(d: nat): set<Poly> {
    if d == 0 then {{}} else Subsets(d - 1) + Extended(Subsets(d - 1), d - 1)
  }

  predicate Under(a: Poly, d: nat) {
    forall i :: i in a ==> i < d
  }

  lemma {:induction false} SubsetsAre(d: nat)
    ensures forall a: Poly :: a in Subsets(d) <==> Under(a, d)
  {
    if d > 0 {
      SubsetsAre(d - 1);
      forall a: Poly
        ensures a in Subsets(d) <==> Under(a, d)
      {
        if d - 1 in a {
          assert With(a - {d - 1}, d - 1) == a;
          if Under(a, d) {
            assert Under(a - {d - 1}, d - 1);
          }
        } else if Under(a, d) {
          assert Under(a, d - 1);
        }
      }
    } else {
      forall a: Poly | a != {}
        ensures !Under(a, 0)
      {
        var i :| i in a;
      }
    }
  }

  lemma SubsetsWithout(d: nat)
    ensures forall s :: s in Subsets(d) ==> d !in s
  {
    SubsetsAre(d);
    forall s | s in Subsets(d)
      ensures d !in s
    {
      assert Under(s, d);
    }
  }

  lemma {:induction false} SubsetsCount(d: nat)
    ensures |Subsets(d)| == Pow2(d)
  {
    hide Extended, Subsets;
    SubsetsNext(d);
    if d > 0 {
      SubsetsCount(d - 1);
      SubsetsWithout(d - 1);
      SameCount(Subsets(d - 1), d - 1);
      DisjointCount(Subsets(d - 1), Extended(Subsets(d - 1), d - 1), d - 1);
    }
  }

  lemma SubsetsNext(d: nat)
    ensures d == 0 ==> |Subsets(d)| == 1
    ensures d > 0 ==> Subsets(d) == Subsets(d - 1) + Extended(Subsets(d - 1), d - 1)
  {
  }

  lemma DisjointCount(t: set<Poly>, u: set<Poly>, n: nat)
    requires (forall s :: s in t ==> n !in s) && u == Extended(t, n)
    ensures |t + u| == |t| + |u|
  {
    forall s | s in u
      ensures s !in t
    {
      var x :| x in t && With(x, n) == s;
      assert n in With(x, n);
    }
    assert t !! u;
  }

  // Adding a new exponent to every member keeps their number.
  lemma {:induction false} SameCount(t: set<Poly>, n: nat)
    requires forall s :: s in t ==> n !in s
    ensures |Extended(t, n)| == |t|
    decreases t
  {
    if t != {} {
      var x :| x in t;
      var rest := t - {x};
      SameCount(rest, n);
      assert Extended(t, n) == Extended(rest, n) + {With(x, n)};
      if With(x, n) in Extended(rest, n) {
        var s :| s in rest && With(s, n) == With(x, n);
        WithInjective(s, x, n);
      }
    }
  }

  lemma WithInjective(s: Poly, x: Poly, n: nat)
    requires n !in s && n !in x && With(s, n) == With(x, n)
    ensures s == x
  {
    assert s == With(s, n) - {n} && x == With(x, n) - {n};
  }

  // The nonzero polynomials of lower degree than m
  function Units(d: nat): set<Poly> {
    Subsets(d) - {{}}
  }

  lemma UnitsAre(d: nat)
    ensures forall a: Poly :: a in Units(d) <==> a != {} && Size(a) <= d
    ensures |Units(d)| == Pow2(d) - 1
  {
    SubsetsAre(d);
    SubsetsCount(d);
    forall a: Poly
      ensures a in Subsets(d) <==> Size(a) <= d
    {
      assert Under(a, d) <==> Size(a) <= d;
    }
    assert Under({}, d) && {} in Subsets(d);
  }

  lemma UnitIndivisible(a: Poly, m: Poly)
    requires a != {} && Size(a) < Size(m)
    ensures !Divides(m, a)
  {
    if Divides(m, a) {
      var q :| Mul(q, m) == a;
      MulSize(q, m);
      MulZero(m);
    }
  }

  lemma RemUnique(a: Poly, b: Poly, m: Poly)
    requires Size(a) < Size(m) && Size(b) < Size(m) && Congruent(a, b, m)
    ensures a == b
  {
    SizeAdd(a, b);
    if Add(a, b) != {} {
      UnitIndivisible(Add(a, b), m);
    }
    assert forall k :: k in a <==> k in b;
  }

  // ---- Multiplying by a permutes the units. ----

  ghost function Product(t: set<Poly>): Poly {
    if t == {} then {0} else
      var x :| x in t;
      Mul(x, Product(t - {x}))
  }

  lemma {:induction false} ProductRemove(t: set<Poly>, y: Poly)
    requires y in t
    ensures Product(t) == Mul(y, Product(t - {y}))
    decreases t
  {
    hide Mul;
    var x :| x in t && Product(t) == Mul(x, Product(t - {x}));
    if x != y {
      ProductRemove(t - {x}, y);
      ProductRemove(t - {y}, x);
      assert t - {x} - {y} == t - {y} - {x};
      MulSwap(x, y, Product(t - {x} - {y}));
    }
  }

  lemma MulSwap(a: Poly, b: Poly, c: Poly)
    ensures Mul(a, Mul(b, c)) == Mul(b, Mul(a, c))
  {
    hide Mul;
    MulAssoc(a, b, c);
    MulCommutes(a, b);
    MulAssoc(b, a, c);
  }

  ghost function Scaled(t: set<Poly>, a: Poly, m: Poly): set<Poly>
    requires m != {}
  {
    set s | s in t :: Rem(Mul(a, s), m)
  }

  ghost function Power(a: Poly, k: nat): Poly {
    if k == 0 then {0} else Mul(a, Power(a, k - 1))
  }

  lemma ScaledInjective(a: Poly, s: Poly, t: Poly, m: Poly)
    requires Irreducible(m) && !Divides(m, a) && Size(s) < Size(m) && Size(t) < Size(m)
    requires Rem(Mul(a, s), m) == Rem(Mul(a, t), m)
    ensures s == t
  {
    hide Mul, Congruent;
    var r := Rem(Mul(a, s), m);
    CongruentTrans(r, Mul(a, s), Mul(a, s), m) by {
      CongruentSelf(Mul(a, s), m);
    }
    CongruentTrans(Mul(a, s), r, Mul(a, t), m);
    MulCommutes(a, s);
    MulCommutes(a, t);
    CancelFactor(s, t, a, m);
    RemUnique(s, t, m);
  }

  lemma ScaledRemove(t: set<Poly>, x: Poly, a: Poly, m: Poly)
    requires Irreducible(m) && !Divides(m, a) && x in t && forall s :: s in t ==> Size(s) < Size(m)
    ensures Scaled(t, a, m) == Scaled(t - {x}, a, m) + {Rem(Mul(a, x), m)}
    ensures Rem(Mul(a, x), m) !in Scaled(t - {x}, a, m)
  {
    hide Mul, Irreducible;
    var rest, y := t - {x}, Rem(Mul(a, x), m);
    forall z ensures z in Scaled(t, a, m) <==> z in Scaled(rest, a, m) || z == y {
      if z in Scaled(t, a, m) {
        var s :| s in t && Rem(Mul(a, s), m) == z;
        assert s in rest || s == x;
      }
    }
    if y in Scaled(rest, a, m) {
      var s :| s in rest && Rem(Mul(a, s), m) == y;
      ScaledInjective(a, s, x, m);
    }
  }

  // The product of the scaled set is that of the set times a power of a.
  lemma {:induction false} ScaledProduct(t: set<Poly>, a: Poly, m: Poly)
    requires Irreducible(m) && !Divides(m, a) && forall s :: s in t ==> Size(s) < Size(m)
    ensures |Scaled(t, a, m)| == |t|
    ensures Congruent(Product(Scaled(t, a, m)), Mul(Power(a, |t|), Product(t)), m)
    decreases t
  {
    if t == {} {
      MulOne({0});
      CongruentSelf({0}, m);
    } else {
      hide Mul, Irreducible, Scaled, Product, Congruent, Power;
      var x :| x in t;
      var rest, y := t - {x}, Rem(Mul(a, x), m);
      var u := Scaled(rest, a, m);
      ScaledProduct(rest, a, m);
      ScaledRemove(t, x, a, m);
      ProductRemove(u + {y}, y);
      assert u + {y} - {y} == u;
      ProductRemove(t, x);
      PowerNext(a, |rest|);
      assert |t| == |rest| + 1;
      ScaleStep(a, x, y, Product(u), Power(a, |rest|), Product(rest), m);
    }
  }

  lemma ScaleStep(a: Poly, x: Poly, y: Poly, u: Poly, p: Poly, q: Poly, m: Poly)
    requires Congruent(y, Mul(a, x), m) && Congruent(u, Mul(p, q), m)
    ensures Congruent(Mul(y, u), Mul(Mul(a, p), Mul(x, q)), m)
  {
    hide Mul, Congruent;
    CongruentMul(y, Mul(a, x), u, Mul(p, q), m);
    Regroup(a, x, p, q);
  }

  lemma Regroup(a: Poly, x: Poly, p: Poly, q: Poly)
    ensures Mul(Mul(a, x), Mul(p, q)) == Mul(Mul(a, p), Mul(x, q))
  {
    hide Mul;
    MulAssoc(a, x, Mul(p, q));
    MulSwap(x, p, q);
    MulAssoc(a, p, Mul(x, q));
  }

  lemma {:induction false} ProductIndivisible(t: set<Poly>, m: Poly)
    requires Irreducible(m) && forall s :: s in t ==> s != {} && Size(s) < Size(m)
    ensures !Divides(m, Product(t))
    decreases t
  {
    if t == {} {
      SizeIs({0}, 1);
      UnitIndivisible({0}, m);
    } else {
      hide Mul, Irreducible;
      var x :| x in t && Product(t) == Mul(x, Product(t - {x}));
      ProductIndivisible(t - {x}, m);
      UnitIndivisible(x, m);
      if Divides(m, Product(t)) {
        EuclidLemma(x, Product(t - {x}), m);
      }
    }
  }

  lemma SameMembers(u: set<Poly>, t: set<Poly>)
    requires u <= t && |u| == |t|
    ensures u == t
  {
    assert t == u + (t - u);
    assert |t| == |u| + |t - u|;
  }

  // Fermat's theorem: a to the number of units is 1.
  lemma UnitPower(a: Poly, m: Poly)
    requires Irreducible(m) && !Divides(m, a)
    ensures Congruent(Power(a, Pow2(Size(m) - 1) - 1), {0}, m)
  {
    hide Mul, Irreducible, Product, Power, Congruent;
    var d := DegreeOf(m);
    var t := Units(d);
    UnitsAre(d);
    ScaledProduct(t, a, m);
    ScaledUnits(a, m, d);
    SameMembers(Scaled(t, a, m), t);
    ProductIndivisible(t, m);
    var p := Power(a, |t|);
    MulOne(Product(t));
    CongruentTrans(Product(t), Mul(p, Product(t)), Mul(p, Product(t)), m) by {
      CongruentSelf(Mul(p, Product(t)), m);
    }
    CancelFactor(p, {0}, Product(t), m);
  }

  ghost function DegreeOf(m: Poly): nat
    requires Irreducible(m)
    ensures m != {} && DegreeOf(m) == Size(m) - 1
  {
    Size(m) - 1
  }

  lemma ScaledUnits(a: Poly, m: Poly, d: nat)
    requires Irreducible(m) && !Divides(m, a) && d == Size(m) - 1 && m != {}
    ensures Scaled(Units(d), a, m) <= Units(d)
  {
    hide Mul, Irreducible;
    UnitsAre(d);
    forall z | z in Scaled(Units(d), a, m)
      ensures z in Units(d)
    {
      var s :| s in Units(d) && Rem(Mul(a, s), m) == z;
      if z == {} {
        UnitIndivisible(s, m);
        assert Add({}, Mul(a, s)) == Mul(a, s);
        EuclidLemma(a, s, m);
      }
    }
  }

  // ---- Squaring as often as the modulus has degree ----

  lemma {:induction false} PowerAdd(a: Poly, j: nat, k: nat)
    ensures Mul(Power(a, j), Power(a, k)) == Power(a, j + k)
  {
    hide Mul;
    if j == 0 {
      MulOne(Power(a, k));
    } else {
      PowerAdd(a, j - 1, k);
      MulAssoc(a, Power(a, j - 1), Power(a, k));
    }
  }

  lemma {:induction false} FrobeniusPower(a: Poly, j: nat)
    ensures Frobenius(a, j) == Power(a, Pow2(j))
  {
    hide Mul;
    if j == 0 {
      MulCommutes(a, {0});
      MulOne(a);
      assert Power(a, 1) == Mul(a, Power(a, 0));
    } else {
      FrobeniusPower(a, j - 1);
      PowerAdd(a, Pow2(j - 1), Pow2(j - 1));
    }
  }

  lemma IrreducibleFixes(a: Poly, m: Poly)
    requires Irreducible(m)
    ensures Congruent(Frobenius(a, Size(m) - 1), a, m)
  {
    hide Mul, Power, Irreducible;
    var d := DegreeOf(m);
    FrobeniusPower(a, d);
    var k: nat := Pow2(d) - 1;
    PowerNext(a, k);
    if Divides(m, a) {
      DividesMul(m, a, Power(a, k));
      MulCommutes(a, Power(a, k));
      DividesAdd(m, Mul(a, Power(a, k)), a);
    } else {
      UnitPower(a, m);
      CongruentSelf(a, m);
      CongruentMul(a, a, Power(a, k), {0}, m);
      MulCommutes(a, {0});
      MulOne(a);
    }
  }

  lemma PowerNext(a: Poly, k: nat)
    ensures Power(a, k + 1) == Mul(a, Power(a, k))
  {
  }
}
