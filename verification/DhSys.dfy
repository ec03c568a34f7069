// ElGamal signatures in the subgroup of order (p - 1) / 2.
module DhSys {
  import opened Results
  import opened Numbers
  import opened Mp

  datatype Key = Key(g: int, p: int, x: nat, y: int)

  datatype SignResult = Signed(a: nat, b: nat) | Failed(status: Status)

  function Order(key: Key): int {
    (key.p - 1) / 2
  }

  predicate ValidKey(key: Key)
    requires key.p > 4
  {
    Cong(Pow(key.g, Order(key)), 1, key.p) && Cong(key.y, Pow(key.g, key.x), key.p)
  }

  // The nonce k comes from the random source.
  method DhSignHash(key: Key, m: nat, nonce: nat) returns (result: SignResult)
    requires key.p > 4
    ensures result == Sign(key, m, nonce)
    ensures result.Signed? <==> exists j :: 0 <= j < Order(key) && Cong(nonce * j, 1, Order(key))
    ensures result.Failed? ==> result == Failed(CryptInvalidArg)
    ensures result.Signed? ==> result.a == Pow(key.g, nonce) % key.p && result.b < Order(key)
    ensures result.Signed? ==> Cong(key.x * result.a + nonce * result.b, m, Order(key))
    ensures ValidKey(key) && result.Signed? ==> Verify(key, result.a, result.b, m)
  {
    if Sign(key, m, nonce).Signed? {
      Exponents(Sign(key, m, nonce).a, key.x, m, nonce, Invmod(nonce, Order(key)).value, Sign(key, m, nonce).b, Order(key));
    }
    if ValidKey(key) && Sign(key, m, nonce).Signed? {
      SignedVerifies(key, m, nonce);
    }
    var k := nonce;
    var p1 := key.p - 1;
    p1 := p1 / 2;
    var a := Pow(key.g, k) % key.p;
    var kinv := Invmod(k, p1);
    if kinv == None {
      return Failed(CryptInvalidArg);
    }
    k := kinv.value;
    var tmp := a * key.x % p1;
    tmp := (m - tmp) % p1;
    var b := k * tmp % p1;
    return Signed(a, b);
  }

  function Sign(key: Key, m: nat, k: nat): SignResult
    requires key.p > 4
  {
    var a, kinv := Pow(key.g, k) % key.p, Invmod(k, Order(key));
    if kinv == None then Failed(CryptInvalidArg)
    else Signed(a, kinv.value * ((m - a * key.x % Order(key)) % Order(key)) % Order(key))
  }

  predicate Verify(key: Key, a: nat, b: nat, m: nat)
    requires key.p > 4
  {
    (Pow(a, b) % key.p) * (Pow(key.y, a) % key.p) % key.p == Pow(key.g, m) % key.p
  }

  method DhVerifyHash(key: Key, a0: nat, b: nat, m0: nat) returns (stat: int)
    requires key.p > 4
    ensures stat == if Verify(key, a0, b, m0) then 1 else 0
    ensures stat == 0 || stat == 1
    ensures ValidKey(key) && HasOrder(key) ==>
      forall k: nat :: Cong(a0, Pow(key.g, k), key.p)
        ==> (stat == 1 <==> Cong(key.x * a0 + k * b, m0, Order(key)))
    ensures ValidKey(key) && (exists k :: Sign(key, m0, k) == Signed(a0, b)) ==> stat == 1
  {
    if ValidKey(key) && HasOrder(key) {
      forall k: nat | Cong(a0, Pow(key.g, k), key.p)
        ensures Verify(key, a0, b, m0) <==> Cong(key.x * a0 + k * b, m0, Order(key))
      {
        VerdictIs(key, a0, b, m0, k);
      }
    }
    if ValidKey(key) && exists k :: Sign(key, m0, k) == Signed(a0, b) {
      var k :| Sign(key, m0, k) == Signed(a0, b);
      SignedVerifies(key, m0, k);
    }
    stat := 0;
    var a: int, m: int := a0, m0;
    m := Pow(key.g, m0) % key.p;
    var tmp := Pow(key.y, a0) % key.p;
    a := Pow(a0, b) % key.p;
    a := a * tmp % key.p;
    if a == m {
      stat := 1;
    }
  }

  // M = x * a + k * b modulo the order
  lemma Exponents(a: int, x: int, m: int, k: int, kinv: int, b: int, q: int)
    requires q > 1 && Cong(k * kinv, 1, q)
    requires b == kinv * ((m - a * x % q) % q) % q
    ensures Cong(x * a + k * b, m, q)
  {
    var d := m - a * x;
    CongSelf(m, q);
    CongSelf(a * x, q);
    CongAdd(m, m, a * x % q, a * x, q);
    CongSelf(m - a * x % q, q);
    CongTrans((m - a * x % q) % q, m - a * x % q, d, q);
    CongSelf(kinv, q);
    CongMul(kinv, kinv, (m - a * x % q) % q, d, q);
    CongSelf(kinv * ((m - a * x % q) % q), q);
    CongTrans(b, kinv * ((m - a * x % q) % q), kinv * d, q);
    CongSelf(k, q);
    CongMul(k, k, b, kinv * d, q);
    CongSelf(d, q);
    CongMul(k * kinv, 1, d, d, q);
    MulAssoc(k, kinv, d);
    CongTrans(k * b, k * kinv * d, d, q);
    CongSelf(x * a, q);
    CongAdd(x * a, x * a, k * b, d, q);
  }

  // No smaller power of g than that of the order is 1.
  ghost predicate HasOrder(key: Key)
    requires key.p > 4
  {
    forall i :: 0 < i < Order(key) ==> !Cong(Pow(key.g, i), 1, key.p)
  }

  // The two sides of the verification, for a from g^k
  lemma SidesAre(key: Key, a: nat, b: nat, m: nat, k: nat)
    requires key.p > 4 && ValidKey(key) && Cong(a, Pow(key.g, k), key.p)
    ensures Verify(key, a, b, m) <==> Cong(Pow(key.g, key.x * a + k * b), Pow(key.g, m), key.p)
  {
    hide Cong, Pow;
    var g, p, x := key.g, key.p, key.x;
    PowCong(a, Pow(g, k), b, p);
    PowMul(g, k, b);
    PowCong(key.y, Pow(g, x), a, p);
    PowMul(g, x, a);
    CongSelf(Pow(a, b), p);
    CongSelf(Pow(key.y, a), p);
    CongTrans(Pow(a, b) % p, Pow(a, b), Pow(g, k * b), p);
    CongTrans(Pow(key.y, a) % p, Pow(key.y, a), Pow(g, x * a), p);
    CongMul(Pow(key.y, a) % p, Pow(g, x * a), Pow(a, b) % p, Pow(g, k * b), p);
    PowAdd(g, x * a, k * b);
    var l := (Pow(a, b) % p) * (Pow(key.y, a) % p);
    CongResidue(l, Pow(g, m), p);
    CongSymm(l, Pow(g, x * a + k * b), p);
    if Cong(l, Pow(g, m), p) {
      CongTrans(Pow(g, x * a + k * b), l, Pow(g, m), p);
    }
    if Cong(Pow(g, x * a + k * b), Pow(g, m), p) {
      CongTrans(l, Pow(g, x * a + k * b), Pow(g, m), p);
    }
  }

  // A signature is accepted exactly when it meets the signing equation modulo the
  // order of g.
  lemma VerdictIs(key: Key, a: nat, b: nat, m: nat, k: nat)
    requires key.p > 4 && ValidKey(key) && HasOrder(key) && Cong(a, Pow(key.g, k), key.p)
    ensures Verify(key, a, b, m) <==> Cong(key.x * a + k * b, m, Order(key))
  {
    hide Cong, Pow, Verify, HasOrder;
    var e: nat := key.x * a + k * b;
    SidesAre(key, a, b, m, k);
    CongResidue(e, m, Order(key));
    if Cong(e, m, Order(key)) {
      PowModOrder(key.g, e, m, Order(key), key.p);
    }
    if Cong(Pow(key.g, e), Pow(key.g, m), key.p) {
      if e >= m {
        SameExponent(key, e, m);
      } else {
        CongSymm(Pow(key.g, e), Pow(key.g, m), key.p);
        SameExponent(key, m, e);
      }
    }
  }

  lemma OrderDivides(key: Key, d: nat)
    requires key.p > 4 && ValidKey(key) && HasOrder(key) && Cong(Pow(key.g, d), 1, key.p)
    ensures d % Order(key) == 0
  {
    hide Cong, Pow;
    var q := Order(key);
    PowReduce(key.g, d, q, key.p);
    CongSymm(Pow(key.g, d), Pow(key.g, d % q), key.p);
    CongTrans(Pow(key.g, d % q), Pow(key.g, d), 1, key.p);
  }

  lemma SameExponent(key: Key, i: nat, j: nat)
    requires key.p > 4 && ValidKey(key) && HasOrder(key) && i >= j && Cong(Pow(key.g, i), Pow(key.g, j), key.p)
    ensures i % Order(key) == j % Order(key)
  {
    hide Cong, Pow, HasOrder;
    var q, d: nat := Order(key), i - j;
    Cancelled(key.g, key.p, q, d, j, q - j % q);
    OrderDivides(key, d);
    ModPlus(d, j, q);
  }

  // g^(d + j) = g^j, multiplied by g^c for a j + c that the order divides
  lemma Cancelled(g: int, p: int, q: nat, d: nat, j: nat, c: nat)
    requires p > 0 && q > 0 && Cong(Pow(g, q), 1, p) && c == q - j % q && Cong(Pow(g, d + j), Pow(g, j), p)
    ensures Cong(Pow(g, d), 1, p)
  {
    hide Cong, Pow;
    DivMod(j + c, q, j / q + 1, 0);
    PowToOne(g, j + c, q, p);
    CongSelf(Pow(g, c), p);
    CongMul(Pow(g, d + j), Pow(g, j), Pow(g, c), Pow(g, c), p);
    PowAdd(g, d + j, c);
    PowAdd(g, j, c);
    var u := Pow(g, d + j + c);
    CongTrans(u, Pow(g, j + c), 1, p);
    PowAdd(g, d, j + c);
    CongSelf(Pow(g, d), p);
    CongMul(Pow(g, d), Pow(g, d), Pow(g, j + c), 1, p);
    CongSymm(u, Pow(g, d), p);
    CongTrans(Pow(g, d), u, 1, p);
  }

  lemma PowToOne(g: int, e: nat, q: nat, p: int)
    requires p > 0 && q > 0 && Cong(Pow(g, q), 1, p) && e % q == 0
    ensures Cong(Pow(g, e), 1, p)
  {
    PowReduce(g, e, q, p);
  }

  // Whatever the nonce and the hash, a signature that signing returns verifies.
  lemma SignedVerifies(key: Key, m: nat, k: nat)
    requires key.p > 4 && ValidKey(key) && Sign(key, m, k).Signed?
    ensures var sig := Sign(key, m, k); Verify(key, sig.a, sig.b, m)
  {
    var g, p, q, x := key.g, key.p, Order(key), key.x;
    var kinv := Invmod(k, q).value;
    var a, b := Sign(key, m, k).a, Sign(key, m, k).b;
    Exponents(a, x, m, k, kinv, b, q);
    CongSelf(Pow(g, k), p);
    PowCong(a, Pow(g, k), b, p);
    PowMul(g, k, b);
    PowCong(key.y, Pow(g, x), a, p);
    PowMul(g, x, a);
    CongSelf(Pow(a, b), p);
    CongSelf(Pow(key.y, a), p);
    CongTrans(Pow(a, b) % p, Pow(a, b), Pow(g, k * b), p);
    CongTrans(Pow(key.y, a) % p, Pow(key.y, a), Pow(g, x * a), p);
    CongMul(Pow(a, b) % p, Pow(g, k * b), Pow(key.y, a) % p, Pow(g, x * a), p);
    PowAdd(g, k * b, x * a);
    CongResidue(x * a + k * b, m, q);
    PowModOrder(g, k * b + x * a, m, q, p);
    CongTrans((Pow(a, b) % p) * (Pow(key.y, a) % p), Pow(g, k * b + x * a), Pow(g, m), p);
    CongResidue((Pow(a, b) % p) * (Pow(key.y, a) % p), Pow(g, m), p);
  }
}
