// DSA signatures: the arithmetic of signing and verifying.
module Dsa {
  import opened Results
  import opened Numbers
  import opened Mp

  datatype Key = Key(g: int, q: int, p: int, x: int, y: int)

  datatype SignResult = Signed(r: int, s: int) | Failed(status: Status)

  // One attempt with the nonce k: retry when r or s comes out zero.
  datatype Attempt = Done(result: SignResult) | Retry

  predicate ValidKey(key: Key) {
    && Prime(key.q) && key.p > 1
    && Cong(Pow(key.g, key.q), 1, key.p)
    && key.x >= 0 && Cong(key.y, Pow(key.g, key.x), key.p)
  }

  function SignWith(key: Key, m: nat, k: nat): Attempt
    requires key.q > 1 && key.p > 1
  {
    var kinv := Invmod(k, key.q);
    if kinv == None then Done(Failed(CryptInvalidArg))
    else
      var r := Pow(key.g, k) % key.p % key.q;
      if r == 0 then Retry
      else
        var s := (key.x * r + m) * kinv.value % key.q;
        if s == 0 then Retry else Done(Signed(r, s))
  }

  // The nonces stand for the random source, which fails when they run out.
  function Sign(key: Key, m: nat, nonces: seq<nat>): SignResult
    requires key.q > 1 && key.p > 1
  {
    if |nonces| == 0 then Failed(CryptErrorReadPrng)
    else match SignWith(key, m, nonces[0])
      case Done(result) => result
      case Retry => Sign(key, m, nonces[1..])
  }

  method DsaSignHash(key: Key, m: nat, nonces: seq<nat>) returns (result: SignResult)
    requires key.q > 1 && key.p > 1
    ensures result == Sign(key, m, nonces)
    ensures result.Signed? ==> 0 < result.r < key.q && 0 < result.s < key.q
    ensures result.Signed? ==> exists k :: k in nonces && IsNonce(key, m, k, result.r, result.s)
    ensures ValidKey(key) && result.Signed? ==> Verify(key, result.r, result.s, m) == Some(true)
  {
    if Sign(key, m, nonces).Signed? {
      SignedBy(key, m, nonces);
    }
    if ValidKey(key) && Sign(key, m, nonces).Signed? {
      SignedVerifies(key, m, nonces);
    }
    var i := 0;
    while true
      invariant i <= |nonces| && Sign(key, m, nonces[i..]) == Sign(key, m, nonces)
      decreases |nonces| - i
    {
      if i == |nonces| {
        return Failed(CryptErrorReadPrng);
      }
      var k := nonces[i];
      assert nonces[i..][0] == k && nonces[i..][1..] == nonces[i + 1..];
      i := i + 1;

      var kinv := Invmod(k, key.q);
      if kinv == None {
        return Failed(CryptInvalidArg);
      }
      var r := Pow(key.g, k) % key.p;
      r := r % key.q;
      if r == 0 {
        continue;
      }
      var s := key.x * r;
      s := s + m;
      s := s * kinv.value % key.q;
      if s == 0 {
        continue;
      }
      return Signed(r, s);
    }
  }

  // None is the failure to invert s; otherwise the verdict.
  function Verify(key: Key, r: int, s: int, m: nat): Option<bool>
    requires key.q > 1 && key.p > 1 && r >= 0
  {
    var w := Invmod(s, key.q);
    if w == None then None
    else
      var u1, u2 := m * w.value % key.q, r * w.value % key.q;
      var v := (Pow(key.g, u1) % key.p) * (Pow(key.y, u2) % key.p) % key.p % key.q;
      Some(r == v)
  }

  method DsaVerifyHash(key: Key, r: int, s: int, m: nat) returns (status: Status, stat: int)
    requires key.q > 1 && key.p > 1 && r >= 0
    ensures status == if exists w :: 0 <= w < key.q && Cong(s * w, 1, key.q) then CryptOk else CryptInvalidArg
    ensures status != CryptOk ==> stat == 0
    ensures stat == 1 <==> Verify(key, r, s, m) == Some(true)
    ensures stat == 0 || stat == 1
    ensures ValidKey(key) && status == CryptOk ==>
      forall e: nat :: Cong(s * e, m + key.x * r, key.q) ==> (stat == 1 <==> r == Pow(key.g, e) % key.p % key.q)
  {
    if ValidKey(key) && Invmod(s, key.q).Some? {
      forall e: nat | Cong(s * e, m + key.x * r, key.q)
        ensures Verify(key, r, s, m) == Some(r == Pow(key.g, e) % key.p % key.q)
      {
        VerdictIs(key, r, s, m, e);
      }
    }
    stat := 0;
    var w := Invmod(s, key.q);
    if w == None {
      return CryptInvalidArg, stat;
    }
    var u1 := m * w.value % key.q;
    var u2 := r * w.value % key.q;
    u1 := Pow(key.g, u1) % key.p;
    u2 := Pow(key.y, u2) % key.p;
    var v := u1 * u2 % key.p;
    v := v % key.q;
    if r == v {
      stat := 1;
    }
    status := CryptOk;
  }

  // The signing equation: r is made from g^k, and s * k = m + x * r modulo q.
  predicate IsNonce(key: Key, m: nat, k: nat, r: int, s: int)
    requires key.q > 1 && key.p > 1
  {
    r == Pow(key.g, k) % key.p % key.q && Cong(s * k, m + key.x * r, key.q)
  }

  lemma {:induction false} SignedBy(key: Key, m: nat, nonces: seq<nat>)
    requires key.q > 1 && key.p > 1 && Sign(key, m, nonces).Signed?
    ensures var sig := Sign(key, m, nonces); 0 < sig.r < key.q && 0 < sig.s < key.q
    ensures exists k :: k in nonces && IsNonce(key, m, k, Sign(key, m, nonces).r, Sign(key, m, nonces).s)
  {
    var k := nonces[0];
    match SignWith(key, m, k)
    case Done(sig) =>
      EquationHolds(key, m, k);
      assert k in nonces && IsNonce(key, m, k, sig.r, sig.s);
    case Retry =>
      SignedBy(key, m, nonces[1..]);
      var j :| j in nonces[1..] && IsNonce(key, m, j, Sign(key, m, nonces).r, Sign(key, m, nonces).s);
      assert j in nonces;
  }

  lemma EquationHolds(key: Key, m: nat, k: nat)
    requires key.q > 1 && key.p > 1 && SignWith(key, m, k).Done? && SignWith(key, m, k).result.Signed?
    ensures var sig := SignWith(key, m, k).result; IsNonce(key, m, k, sig.r, sig.s)
  {
    hide Cong, Pow;
    var q, sig, kinv := key.q, SignWith(key, m, k).result, Invmod(k, key.q).value;
    var n := key.x * sig.r + m;
    CongSelf(n * kinv, q);
    CongSelf(k, q);
    CongMul(sig.s, n * kinv, k, k, q);
    MulCommutes(kinv, k);
    TimesUnit(n, kinv, k, q);
    CongTrans(sig.s * k, n * kinv * k, n, q);
  }

  lemma Rearranged(s: int, k: int, w: int)
    ensures s * k * w == k * s * w
  {
  }

  lemma Distributed(x: int, r: int, m: int, w: int)
    ensures (x * r + m) * w == m * w + x * (r * w)
  {
    MulAssoc(x, r, w);
  }

  lemma MulCommutes(a: int, b: int)
    ensures a * b == b * a
  {
  }

  // g^u1 * y^u2 = g^k modulo p when u1 + x * u2 = k modulo q.
  lemma PowersMeet(key: Key, u1: nat, u2: nat, k: nat)
    requires ValidKey(key) && Cong(u1 + key.x * u2, k, key.q)
    ensures (Pow(key.g, u1) % key.p) * (Pow(key.y, u2) % key.p) % key.p == Pow(key.g, k) % key.p
  {
    var g, p, a, c := key.g, key.p, Pow(key.g, u1), Pow(key.y, u2);
    CongSelf(a, p);
    CongSelf(c, p);
    PowCong(key.y, Pow(g, key.x), u2, p);
    PowMul(g, key.x, u2);
    CongTrans(c % p, c, Pow(g, key.x * u2), p);
    CongMul(a % p, a, c % p, Pow(g, key.x * u2), p);
    PowAdd(g, u1, key.x * u2);
    CongResidue(u1 + key.x * u2, k, key.q);
    PowModOrder(g, u1 + key.x * u2, k, key.q, p);
    CongTrans((a % p) * (c % p), Pow(g, u1 + key.x * u2), Pow(g, k), p);
    CongResidue((a % p) * (c % p), Pow(g, k), p);
  }

  // For an s with an inverse, the verdict is whether r comes from g^e, where e is the
  // exponent (m + x * r) / s, which only the private key tells.
  lemma VerdictIs(key: Key, r: int, s: int, m: nat, e: nat)
    requires ValidKey(key) && r >= 0 && Invmod(s, key.q).Some? && Cong(s * e, m + key.x * r, key.q)
    ensures Verify(key, r, s, m) == Some(r == Pow(key.g, e) % key.p % key.q)
  {
    hide Cong, Pow;
    var q, n, w := key.q, m + key.x * r, Invmod(s, key.q).value;
    var u1, u2 := m * w % q, r * w % q;
    CongSelf(w, q);
    CongMul(s * e, n, w, w, q);
    Rearranged(s, e, w);
    TimesUnit(e, s, w, q);
    CongSymm(s * e * w, n * w, q);
    CongTrans(n * w, s * e * w, e, q);
    Distributed(key.x, r, m, w);
    CongSelf(m * w, q);
    CongSelf(r * w, q);
    CongSelf(key.x, q);
    CongMul(key.x, key.x, u2, r * w, q);
    CongAdd(u1, m * w, key.x * u2, key.x * (r * w), q);
    CongTrans(u1 + key.x * u2, m * w + key.x * (r * w), e, q);
    PowersMeet(key, u1, u2, e);
  }

  // There is always such an exponent.
  lemma ExponentExists(key: Key, r: int, s: int, m: nat) returns (e: nat)
    requires key.q > 1 && Invmod(s, key.q).Some?
    ensures Cong(s * e, m + key.x * r, key.q)
  {
    hide Cong;
    var q, n, w := key.q, m + key.x * r, Invmod(s, key.q).value;
    e := n * w % q;
    CongSelf(n * w, q);
    CongSelf(s, q);
    CongMul(s, s, e, n * w, q);
    MulAssoc(s, n, w);
    Rearranged(n, s, w);
    MulCommutes(s, n);
    Rearranged(s, n, w);
    TimesUnit(n, s, w, q);
    CongTrans(s * e, s * (n * w), n, q);
  }

  const SMALL_KEY := Key(4, 11, 23, 3, 18)

  // A forged pair, and its refusal
  lemma ForgedRefused()
    ensures ValidKey(SMALL_KEY) && Verify(SMALL_KEY, 1, 1, 0) == Some(false)
  {
    hide Pow, Verify, Cong;
    SmallKey();
    SmallPowers();
    assert InvmodFrom(1, 11, 1) == Some(1) by {
      CongSelf(1, 11);
    }
    CongSelf(3, 11);
    VerdictIs(SMALL_KEY, 1, 1, 0, 3);
  }

  lemma SmallKey()
    ensures ValidKey(SMALL_KEY)
  {
    hide Pow, Cong;
    SmallPowers();
    Eleven();
    CongIntro(Pow(4, 11), 1, 182361, 23);
    CongIntro(18, Pow(4, 3), -2, 23);
  }

  lemma Eleven()
    ensures Prime(11)
  {
  }

  lemma SmallPowers()
    ensures Pow(4, 3) == 64 && Pow(4, 11) == 4194304
  {
    assert Pow(4, 2) == 16;
    assert Pow(4, 5) == 1024;
    PowAdd(4, 5, 5);
    assert Pow(4, 11) == 4 * Pow(4, 10);
  }

  // Whatever the nonces, a signature that signing returns verifies.
  lemma {:induction false} SignedVerifies(key: Key, m: nat, nonces: seq<nat>)
    requires ValidKey(key) && Sign(key, m, nonces).Signed?
    ensures var sig := Sign(key, m, nonces); sig.r > 0 && Verify(key, sig.r, sig.s, m) == Some(true)
  {
    if SignWith(key, m, nonces[0]).Done? {
      var k, sig := nonces[0], Sign(key, m, nonces);
      EquationHolds(key, m, k);
      SmallResidue(sig.s, key.q);
      InvmodPrime(sig.s, key.q);
      VerdictIs(key, sig.r, sig.s, m, k);
    } else {
      SignedVerifies(key, m, nonces[1..]);
    }
  }
}
