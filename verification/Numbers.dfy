// Integers modulo m, primes, and Fermat's little theorem.
module Numbers {

  predicate Cong(a: int, b: int, m: int)
    requires m > 0
  {
    (a - b) % m == 0
  }

  lemma MultipleOf(k: int, m: int)
    requires m > 0
    ensures (k * m) % m == 0
  {
    var q, r := (k * m) / m, (k * m) % m;
    assert m * (k - q) == r;
    if k - q >= 1 {
      MulMonotone(m, 1, k - q);
    } else if k - q <= -1 {
      MulMonotone(m, k - q, -1);
    }
  }

  lemma MulMonotone(m: int, a: int, b: int)
    requires m >= 0 && a <= b
    ensures m * a <= m * b
  {
  }

  // Quotient and remainder are the only ones that fit.
  lemma DivMod(n: int, m: int, q: int, r: int)
    requires n == q * m + r && 0 <= r < m
    ensures n / m == q && n % m == r
  {
    var d := n / m - q;
    assert m * d == r - n % m;
    if d >= 1 {
      MulMonotone(m, 1, d);
    } else if d <= -1 {
      MulMonotone(m, d, -1);
    }
  }

  lemma ModPlus(a: int, b: int, m: int)
    requires m > 0
    ensures (a % m + b) % m == (a + b) % m
  {
    DivMod(a + b, m, a / m + (a % m + b) / m, (a % m + b) % m);
  }

  lemma CongIntro(a: int, b: int, k: int, m: int)
    requires m > 0 && a - b == k * m
    ensures Cong(a, b, m)
  {
    MultipleOf(k, m);
  }

  lemma CongElim(a: int, b: int, m: int) returns (k: int)
    requires m > 0 && Cong(a, b, m)
    ensures a - b == k * m
  {
    k := (a - b) / m;
  }

  lemma CongSelf(a: int, m: int)
    requires m > 0
    ensures Cong(a, a, m)
    ensures Cong(a % m, a, m)
  {
    CongIntro(a % m, a, -(a / m), m);
  }

  lemma CongSymm(a: int, b: int, m: int)
    requires m > 0 && Cong(a, b, m)
    ensures Cong(b, a, m)
  {
    var k := CongElim(a, b, m);
    CongIntro(b, a, -k, m);
  }

  lemma CongTrans(a: int, b: int, c: int, m: int)
    requires m > 0 && Cong(a, b, m) && Cong(b, c, m)
    ensures Cong(a, c, m)
  {
    var j := CongElim(a, b, m);
    var k := CongElim(b, c, m);
    CongIntro(a, c, j + k, m);
  }

  lemma CongAdd(a: int, b: int, c: int, d: int, m: int)
    requires m > 0 && Cong(a, b, m) && Cong(c, d, m)
    ensures Cong(a + c, b + d, m) && Cong(a - c, b - d, m)
  {
    var j := CongElim(a, b, m);
    var k := CongElim(c, d, m);
    CongIntro(a + c, b + d, j + k, m);
    CongIntro(a - c, b - d, j - k, m);
  }

  lemma CongMul(a: int, b: int, c: int, d: int, m: int)
    requires m > 0 && Cong(a, b, m) && Cong(c, d, m)
    ensures Cong(a * c, b * d, m)
  {
    var j := CongElim(a, b, m);
    var k := CongElim(c, d, m);
    assert a * c - b * d == (a - b) * c + b * (c - d);
    CongIntro(a * c, b * d, j * c + b * k, m);
  }

  lemma CongResidue(a: int, b: int, m: int)
    requires m > 0
    ensures Cong(a, b, m) <==> a % m == b % m
  {
    if Cong(a, b, m) {
      var k := CongElim(a, b, m);
      var d := a / m - b / m - k;
      assert m * d == b % m - a % m;
      if d >= 1 { MulMonotone(m, 1, d); } else if d <= -1 { MulMonotone(m, d, -1); }
    }
    if a % m == b % m {
      CongIntro(a, b, a / m - b / m, m);
    }
  }

  // ---- Powers ----

  function Pow(b: int, e: nat): int {
    if e == 0 then 1 else b * Pow(b, e - 1)
  }

  lemma PowNext(b: int, e: nat)
    ensures Pow(b, e + 1) == b * Pow(b, e)
  {
  }

  lemma {:induction false} PowAdd(b: int, d: nat, e: nat)
    ensures Pow(b, d + e) == Pow(b, d) * Pow(b, e)
  {
    if d > 0 {
      PowAdd(b, d - 1, e);
      MulAssoc(b, Pow(b, d - 1), Pow(b, e));
    }
  }

  lemma MulAssoc(a: int, b: int, c: int)
    ensures a * (b * c) == a * b * c
  {
  }

  lemma {:induction false} PowMul(b: int, d: nat, e: nat)
    ensures Pow(b, d * e) == Pow(Pow(b, d), e)
  {
    if e > 0 {
      PowMul(b, d, e - 1);
      assert d * e == d + d * (e - 1);
      PowAdd(b, d, d * (e - 1));
    }
  }

  lemma {:induction false} PowOfProduct(a: int, b: int, e: nat)
    ensures Pow(a * b, e) == Pow(a, e) * Pow(b, e)
  {
    if e > 0 {
      PowOfProduct(a, b, e - 1);
      Regroup(a, b, Pow(a, e - 1), Pow(b, e - 1));
    }
  }

  lemma Regroup(a: int, b: int, c: int, d: int)
    ensures a * b * (c * d) == a * c * (b * d)
  {
  }

  lemma {:induction false} PowCong(a: int, b: int, e: nat, m: int)
    requires m > 0 && Cong(a, b, m)
    ensures Cong(Pow(a, e), Pow(b, e), m)
  {
    if e == 0 {
      CongSelf(1, m);
    } else {
      PowCong(a, b, e - 1, m);
      CongMul(a, b, Pow(a, e - 1), Pow(b, e - 1), m);
    }
  }

  // If b^q is 1 modulo m then exponents of b count modulo q.
  lemma PowModOrder(b: int, d: nat, e: nat, q: nat, m: int)
    requires m > 0 && q > 0 && Cong(Pow(b, q), 1, m) && d % q == e % q
    ensures Cong(Pow(b, d), Pow(b, e), m)
  {
    PowReduce(b, d, q, m);
    PowReduce(b, e, q, m);
    CongSymm(Pow(b, e), Pow(b, e % q), m);
    CongTrans(Pow(b, d), Pow(b, d % q), Pow(b, e), m);
  }

  lemma PowReduce(b: int, d: nat, q: nat, m: int)
    requires m > 0 && q > 0 && Cong(Pow(b, q), 1, m)
    ensures Cong(Pow(b, d), Pow(b, d % q), m)
  {
    var k, r := d / q, d % q;
    assert d == q * k + r;
    PowAdd(b, q * k, r);
    PowMul(b, q, k);
    PowCong(Pow(b, q), 1, k, m);
    PowOne(k);
    CongSelf(Pow(b, r), m);
    CongMul(Pow(b, q * k), 1, Pow(b, r), Pow(b, r), m);
  }

  lemma {:induction false} PowOne(k: nat)
    ensures Pow(1, k) == 1
  {
    if k > 0 { PowOne(k - 1); }
  }

  // ---- Greatest common divisors and inverses ----

  lemma {:induction false} Bezout(a: nat, b: nat) returns (x: int, y: int, g: nat)
    requires a > 0
    ensures g > 0 && a * x + b * y == g && a % g == 0 && b % g == 0
    decreases b
  {
    if b == 0 {
      x, y, g := 1, 0, a;
      MultipleOf(1, a);
    } else {
      var q, r := a / b, a % b;
      var x', y';
      x', y', g := Bezout(b, r);
      x, y := y', x' - q * y';
      assert a == b * q + r;
      assert a * x + b * y == b * x' + r * y' by {
        assert (b * q + r) * y' + b * (x' - q * y') == b * x' + r * y';
      }
      var c, d := b / g, r / g;
      assert b == c * g && r == d * g;
      assert a == (c * q + d) * g by { assert c * g * q == c * q * g; }
      MultipleOf(c * q + d, g);
    }
  }

  predicate Prime(p: int) {
    p > 1 && forall d :: 1 < d < p ==> p % d != 0
  }

  // Everything but a multiple of a prime has an inverse.
  lemma InverseExists(a: int, p: int) returns (x: int)
    requires Prime(p) && a % p != 0
    ensures 0 < x < p && Cong(a * x, 1, p)
  {
    var r := a % p;
    var u, v, g := Bezout(p, r);
    DivisorBound(r, g);
    DivisorBound(p, g);
    assert g == 1;
    x := v % p;
    CongSelf(v, p);
    CongSelf(a, p);
    CongSymm(r, a, p);
    CongMul(a, r, x, v, p);
    CongIntro(r * v, 1, -u, p);
    CongTrans(a * x, r * v, 1, p);
    if x == 0 {
      CongResidue(0, 1, p);
      SmallResidue(1, p);
    }
  }

  lemma SmallResidue(a: int, m: int)
    requires 0 <= a < m
    ensures a % m == a
  {
    if a / m >= 1 { MulMonotone(m, 1, a / m); } else if a / m <= -1 { MulMonotone(m, a / m, -1); }
  }

  lemma DivisorBound(a: nat, d: nat)
    requires a > 0 && d > 0 && a % d == 0
    ensures d <= a
  {
    if a < d { SmallResidue(a, d); }
  }

  lemma CancelFactor(a: int, b: int, c: int, p: int)
    requires Prime(p) && c % p != 0 && Cong(a * c, b * c, p)
    ensures Cong(a, b, p)
  {
    hide Cong, Prime;
    var x := InverseExists(c, p);
    CongSelf(x, p);
    CongMul(a * c, b * c, x, x, p);
    TimesUnit(a, c, x, p);
    TimesUnit(b, c, x, p);
    CongSymm(a * c * x, a, p);
    CongTrans(a, a * c * x, b * c * x, p);
    CongTrans(a, b * c * x, b, p);
  }

  lemma TimesUnit(a: int, c: int, x: int, m: int)
    requires m > 0 && Cong(c * x, 1, m)
    ensures Cong(a * c * x, a, m)
  {
    hide Cong;
    CongSelf(a, m);
    CongMul(a, a, c * x, 1, m);
    MulAssoc(a, c, x);
  }

  lemma EuclidLemma(a: int, b: int, p: int)
    requires Prime(p) && (a * b) % p == 0
    ensures a % p == 0 || b % p == 0
  {
    if b % p != 0 {
      assert 0 * b == 0;
      CancelFactor(a, 0, b, p);
    }
  }

  // ---- Fermat's little theorem: multiplying by a permutes 1..p-1. ----

  ghost function Product(s: set<nat>): int {
    if s == {} then 1 else
      var x :| x in s;
      x * Product(s - {x})
  }

  lemma {:induction false} ProductRemove(s: set<nat>, y: nat)
    requires y in s
    ensures Product(s) == y * Product(s - {y})
    decreases s
  {
    var x :| x in s && Product(s) == x * Product(s - {x});
    if x != y {
      ProductRemove(s - {x}, y);
      ProductRemove(s - {y}, x);
      assert s - {x} - {y} == s - {y} - {x};
      MulSwap(x, y, Product(s - {x} - {y}));
    }
  }

  lemma MulSwap(a: int, b: int, c: int)
    ensures a * (b * c) == b * (a * c)
  {
  }

  function Nonzero(p: int): (s: set<nat>)
    ensures forall i :: i in s <==> 0 < i < p
    ensures p > 0 ==> |s| == p - 1
  {
    if p <= 1 then {} else Nonzero(p - 1) + {p - 1}
  }

  function ModTimes(a: int, i: int, p: int): nat
    requires p > 0
  {
    a * i % p
  }

  function Scaled(s: set<nat>, a: int, p: int): set<nat>
    requires p > 0
  {
    set i | i in s :: ModTimes(a, i, p)
  }

  lemma ScaledInjective(a: int, i: int, j: int, p: int)
    requires Prime(p) && a % p != 0 && i in Nonzero(p) && j in Nonzero(p)
    requires ModTimes(a, i, p) == ModTimes(a, j, p)
    ensures i == j
  {
    CongResidue(i * a, j * a, p);
    CancelFactor(i, j, a, p);
    CongResidue(i, j, p);
    SmallResidue(i, p);
    SmallResidue(j, p);
  }

  lemma ScaleStep(a: int, x: int, u: int, v: int, w: int, p: int, product: int, power: int, rest: int)
    requires p > 0 && Cong(u, v * w, p)
    requires product == ModTimes(a, x, p) * u && power == a * v && rest == x * w
    ensures Cong(product, power * rest, p)
  {
    hide Cong;
    CongSelf(a * x, p);
    CongMul(a * x % p, a * x, u, v * w, p);
    Regroup(a, x, v, w);
  }

  lemma {:induction false} ScaledProduct(s: set<nat>, a: int, p: int)
    requires Prime(p) && a % p != 0 && s <= Nonzero(p)
    ensures |Scaled(s, a, p)| == |s|
    ensures Cong(Product(Scaled(s, a, p)), Pow(a, |s|) * Product(s), p)
    decreases s
  {
    if s == {} {
      assert Product(Scaled(s, a, p)) == Pow(a, 0) * Product(s) == 1;
      CongSelf(1, p);
    } else {
      hide Cong, ModTimes, Prime, Scaled, Product, Pow;
      var x :| x in s;
      var rest, y := s - {x}, ModTimes(a, x, p);
      var t := Scaled(rest, a, p);
      ScaledProduct(rest, a, p);
      ScaledRemove(s, x, a, p);
      ProductRemove(t + {y}, y);
      assert t + {y} - {y} == t;
      ProductRemove(s, x);
      PowNext(a, |rest|);
      assert |s| == |rest| + 1;
      ScaleStep(a, x, Product(t), Pow(a, |rest|), Product(rest), p,
                Product(Scaled(s, a, p)), Pow(a, |s|), Product(s));
    }
  }

  lemma ScaledRemove(s: set<nat>, x: nat, a: int, p: int)
    requires Prime(p) && a % p != 0 && s <= Nonzero(p) && x in s
    ensures Scaled(s, a, p) == Scaled(s - {x}, a, p) + {ModTimes(a, x, p)}
    ensures ModTimes(a, x, p) !in Scaled(s - {x}, a, p)
  {
    var rest, y := s - {x}, ModTimes(a, x, p);
    forall z ensures z in Scaled(s, a, p) <==> z in Scaled(rest, a, p) || z == y {
      if z in Scaled(s, a, p) {
        var i :| i in s && ModTimes(a, i, p) == z;
        assert i in rest || i == x;
      }
    }
    if y in Scaled(rest, a, p) {
      var i :| i in rest && ModTimes(a, i, p) == y;
      ScaledInjective(a, i, x, p);
    }
  }

  lemma SameSize(a: set<nat>, b: set<nat>)
    requires a <= b && |a| == |b|
    ensures a == b
  {
    assert b == a + (b - a);
    assert |b| == |a| + |b - a|;
    assert b - a == {};
  }

  lemma {:induction false} ProductNonzero(s: set<nat>, p: int)
    requires Prime(p) && s <= Nonzero(p)
    ensures Product(s) % p != 0
    decreases s
  {
    if s == {} {
      SmallResidue(1, p);
    } else {
      var x :| x in s && Product(s) == x * Product(s - {x});
      ProductNonzero(s - {x}, p);
      SmallResidue(x, p);
      if Product(s) % p == 0 { EuclidLemma(x, Product(s - {x}), p); }
    }
  }

  lemma Fermat(a: int, p: int)
    requires Prime(p) && a % p != 0
    ensures Cong(Pow(a, p - 1), 1, p)
  {
    var s := Nonzero(p);
    ScaledProduct(s, a, p);
    forall y | y in Scaled(s, a, p) ensures y in s {
      var i :| i in s && ModTimes(a, i, p) == y;
      SmallResidue(i, p);
      if y == 0 { EuclidLemma(a, i, p); }
    }
    SameSize(Scaled(s, a, p), s);
    ProductNonzero(s, p);
    CongSymm(Product(s), Pow(a, p - 1) * Product(s), p);
    CancelFactor(Pow(a, p - 1), 1, Product(s), p);
  }

  // A square has only two roots.
  lemma TwoRoots(x: int, y: int, p: int)
    requires Prime(p) && Cong(x * x, y * y, p)
    ensures Cong(x, y, p) || Cong(x, -y, p)
  {
    assert (x - y) * (x + y) == x * x - y * y;
    EuclidLemma(x - y, x + y, p);
  }
}
