// Elliptic-curve signatures over the nonzero multiples of the base point, with the
// addition that the affine formulas compute.
module EccSys {
  import opened Results
  import opened Numbers
  import opened Mp
  import opened Words
  import opened EccWalk
  import opened EccAffine
  import opened EccMulmod

  // (m - x) / k, given 1 / k
  function Quotient(m: int, x: int, kinv: int, n: int): nat
    requires n > 1
  {
    (m - x) % n * kinv % n
  }

  // b is the number in the signature of m under the private key x and the fresh key k.
  predicate IsSignature(m: nat, x: nat, k: nat, n: int, b: nat) {
    n > 1 && Invmod(k, n).Some? && b == Quotient(m, x, Invmod(k, n).value, n)
  }

  // x is the private key, k the fresh one, m the hash: k * b = m - x mod n, for which
  // k must have an inverse.
  method EccSignHash(m: nat, x: nat, k: nat, n: int) returns (b: Option<nat>)
    requires n > 1
    ensures b == None <==> forall j :: 0 <= j < n ==> !Cong(k * j, 1, n)
    ensures b.Some? ==> IsSignature(m, x, k, n, b.value)
    ensures b.Some? ==> b.value < n && Cong(k * b.value, m - x, n)
  {
    var kinv := Invmod(k, n);
    if kinv == None {
      return None;
    }
    var r := (m - x) % n;
    r := r * kinv.value % n;
    NonceProduct(m, x, k, kinv.value, r, n);
    return Some(r);
  }

  // A is the embedded public key, Y the signer's, G the base point: bA + Y = mG? A
  // zero scalar leaves its point as it is.
  predicate Verifies<T(==)>(op: (T, T) -> T, G: T, A: T, Y: T, b: nat, m: nat) {
    op(Multiple(op, A, A, b), Y) == Multiple(op, G, G, m)
  }

  // The verdict, which pt, n, x and k tell for a signature made with the key x.
  method EccVerifyHash<T(!new,==)>(op: (T, T) -> T, digitBit: nat, G: T, A: Cell<T>, Y: T, b: seq<Bits>, m: seq<Bits>,
                                   ghost pt: nat -> T, ghost n: int, ghost x: nat, ghost k: nat)
    returns (stat: int)
    requires IsScalar(b, digitBit) && IsScalar(m, digitBit)
    modifies A
    ensures stat == if Verifies(op, G, old(A.v), Y, ScalarValue(b, digitBit), ScalarValue(m, digitBit)) then 1 else 0
    ensures IsKey(op, pt, n, x, k, G, old(A.v), Y)
            && IsSignature(ScalarValue(m, digitBit), x, k, n, ScalarValue(b, digitBit))
      ==> (stat == 1 <==> Multiple(op, G, G, ScalarValue(m, digitBit))
                          == pt(LeftIndex(ScalarValue(m, digitBit), x, k, n)))
  {
    hide ScalarValue, IsKey, Multiple, IsSignature, LeftIndex;
    ghost var v, e, a := ScalarValue(m, digitBit), ScalarValue(b, digitBit), A.v;
    stat := 0;
    EccMulmod.EccMulmod(op, b, digitBit, A, A);
    var key := new Cell(Y);
    Add(op, A, key, A);
    var mG := new Cell(G);
    EccMulmod.EccMulmod(op, m, digitBit, mG, mG);
    if mG.v == A.v {
      stat := 1;
    }
    if IsKey(op, pt, n, x, k, G, a, Y) && IsSignature(v, x, k, n, e) {
      SidesMeet(op, pt, n, v, x, k, e, G, a, Y);
    }
  }

  // k * b = m - x, and k is not zero, modulo n.
  lemma NonceProduct(m: int, x: int, k: int, kinv: int, b: int, n: int)
    requires n > 1 && Cong(k * kinv, 1, n) && b == Quotient(m, x, kinv, n)
    ensures Cong(k * b, m - x, n) && !Cong(k, 0, n)
  {
    var d := m - x;
    CongSelf(d, n);
    CongSelf(kinv, n);
    CongSelf(k, n);
    CongMul(d % n, d, kinv, kinv, n);
    CongSelf(d % n * kinv, n);
    CongTrans(b, d % n * kinv, d * kinv, n);
    CongMul(k, k, b, d * kinv, n);
    CongSelf(d, n);
    CongMul(k * kinv, 1, d, d, n);
    assert k * (d * kinv) == k * kinv * d by { MulAssoc(k, d, kinv); MulAssoc(k, kinv, d); }
    CongTrans(k * b, k * kinv * d, d, n);
    if Cong(k, 0, n) {
      CongMul(k, 0, kinv, kinv, n);
      CongSymm(k * kinv, 0, n);
      CongTrans(0, k * kinv, 1, n);
      NotOne(n);
    }
  }

  lemma NotOne(n: int)
    requires n > 1
    ensures !Cong(0, 1, n) && !Cong(1, 0, n)
  {
    SmallResidue(1, n);
    CongResidue(1, 0, n);
    CongResidue(0, 1, n);
    SmallResidue(0, n);
  }

  // Y is the public key of x and A the embedded one of k, as the multiplication makes
  // them from the base point.
  ghost predicate IsKey<T(!new)>(op: (T, T) -> T, pt: nat -> T, n: int, x: nat, k: nat, G: T, A: T, Y: T) {
    && AffineGroup(op, pt, n) && G == pt(1)
    && x > 0 && Regular(x, n) && Y == Multiple(op, G, G, x)
    && k > 0 && Regular(k, n) && A == Multiple(op, G, G, k)
  }

  // The multiple of G that bA + Y is. For m = x the scalar b is zero and leaves A; for
  // m = 0 modulo n the points bA and Y are opposite, and bA is doubled.
  function LeftIndex(m: nat, x: nat, k: nat, n: int): nat
    requires n > 0
  {
    if m % n == x % n then SumOf(k % n, x % n, n) else if m % n == 0 then -2 * x % n else m % n
  }

  lemma KeyIndex<T(!new)>(op: (T, T) -> T, pt: nat -> T, n: int, G: T, x: nat)
    requires AffineGroup(op, pt, n) && G == pt(1) && x > 0 && Regular(x, n)
    ensures 0 < x % n < n && Multiple(op, G, G, x) == pt(x % n)
  {
    hide AffineGroup, Multiple;
    AffinePrime(op, pt, n);
    RegularMultiple(op, pt, n, 1, G, x);
  }

  // b * A, for a nonzero b, is m - x times G.
  lemma QuotientIndex(m: nat, x: nat, k: nat, n: int, b: nat)
    requires Prime(n) && IsSignature(m, x, k, n, b)
    ensures b < n && (b == 0 <==> m % n == x % n)
    ensures Index(b, k % n, n) == (m - x) % n
  {
    hide Prime;
    var kinv := Invmod(k, n).value;
    NonceProduct(m, x, k, kinv, b, n);
    CongSelf(k, n);
    CongSelf(b, n);
    CongMul(b, b, k % n, k, n);
    CongTrans(b * (k % n), k * b, m - x, n);
    CongResidue(b * (k % n), m - x, n);
    CongResidue(m, x, n);
    SmallResidue(0, n);
    SmallResidue(b, n);
    CongResidue(k, 0, n);
    if m % n == x % n {
      CongResidue(k * b, m - x, n);
      EuclidLemma(k, b, n);
    }
  }

  // What adding Y makes of it
  lemma LeftSum(m: nat, x: nat, n: int)
    requires n > 0 && m % n != x % n && x % n != 0
    ensures 0 < (m - x) % n < n
    ensures SumOf((m - x) % n, x % n, n) == if m % n == 0 then -2 * x % n else m % n
  {
    var d, y := (m - x) % n, x % n;
    CongResidue(m, x, n);
    SumResidue(m, x, n);
    if m % n == 0 {
      SmallSum(d, y, n);
      Negated(x, n);
    } else if d + y == n {
      DivMod(n, n, 1, 0);
    }
  }

  lemma SumResidue(m: int, x: int, n: int)
    requires n > 0
    ensures ((m - x) % n + x % n) % n == m % n
  {
    ModPlus(m - x, x % n, n);
    ModPlus(x, m - x, n);
  }

  lemma Negated(x: nat, n: int)
    requires n > 0
    ensures 2 * (n - x % n) % n == -2 * x % n
  {
    CongIntro(2 * (n - x % n), -2 * x, 2 * (1 + x / n), n);
    CongResidue(2 * (n - x % n), -2 * x, n);
  }

  lemma SmallSum(d: nat, y: nat, n: int)
    requires d < n && y < n && (d + y) % n == 0 && d + y > 0
    ensures d + y == n
  {
    if d + y < n {
      SmallResidue(d + y, n);
    } else {
      DivMod(d + y, n, 1, d + y - n);
    }
  }

  lemma SidesMeet<T(!new)>(op: (T, T) -> T, pt: nat -> T, n: int, m: nat, x: nat, k: nat, b: nat, G: T, A: T, Y: T)
    requires IsKey(op, pt, n, x, k, G, A, Y) && IsSignature(m, x, k, n, b)
    ensures 0 < LeftIndex(m, x, k, n) < n
    ensures Verifies(op, G, A, Y, b, m) <==> Multiple(op, G, G, m) == pt(LeftIndex(m, x, k, n))
  {
    hide AffineGroup, Multiple, Regular, IsSignature, Prime, SumOf, Index;
    AffinePrime(op, pt, n);
    KeyIndex(op, pt, n, G, x);
    KeyIndex(op, pt, n, G, k);
    QuotientIndex(m, x, k, n, b);
    if b == 0 {
      MultipleOfNone(op, A, A);
      SumInRange(k % n, x % n, n);
      AffineAdds(op, pt, n, k % n, x % n);
    } else {
      LeftSum(m, x, n);
      SmallRegular(b, n);
      RegularMultiple(op, pt, n, k % n, A, b);
      SumInRange((m - x) % n, x % n, n);
      AffineAdds(op, pt, n, (m - x) % n, x % n);
    }
  }

  // Nonzero scalars of which no leading bits are a multiple of the order
  predicate AreRegular(m: nat, b: nat, n: int) {
    n > 0 && m > 0 && b > 0 && Regular(m, n) && Regular(b, n)
  }

  // The signing equation, but for opposite bA and Y, which are doubled
  predicate MeetsEquation(m: nat, x: nat, k: nat, n: int, b: nat)
    requires n > 0
  {
    if Cong(k * b + x, 0, n) then Cong(m, -2 * x, n) else Cong(k * b + x, m, n)
  }

  // Whoever made the pair, it is accepted exactly when it meets the signing equation.
  lemma VerdictIs<T(!new)>(op: (T, T) -> T, pt: nat -> T, n: int, m: nat, x: nat, k: nat, b: nat, G: T, A: T, Y: T)
    requires IsKey(op, pt, n, x, k, G, A, Y) && AreRegular(m, b, n)
    ensures Verifies(op, G, A, Y, b, m) <==> MeetsEquation(m, x, k, n, b)
  {
    hide AffineGroup, Multiple, Prime, SumOf, Index, Regular, Cong;
    AffinePrime(op, pt, n);
    KeyIndex(op, pt, n, G, x);
    KeyIndex(op, pt, n, G, k);
    KeyIndex(op, pt, n, G, m);
    RegularMultiple(op, pt, n, k % n, A, b);
    RegularResidue(b, n);
    IndexNonzero(b, k % n, n);
    IndexResidue(b, k, n);
    var i := Index(b, k % n, n);
    SumInRange(i, x % n, n);
    AffineAdds(op, pt, n, i, x % n);
    AffineEqual(op, pt, n, SumOf(i, x % n, n), m % n);
    SidesEqual(i, k * b, x, m, n);
  }

  lemma RegularResidue(b: nat, n: int)
    requires n > 0 && b > 0 && Regular(b, n)
    ensures b % n != 0
  {
  }

  lemma IndexResidue(b: nat, k: nat, n: int)
    requires n > 0
    ensures Index(b, k % n, n) == k * b % n
  {
    CongSelf(k, n);
    CongSelf(b, n);
    CongMul(b, b, k % n, k, n);
    CongResidue(b * (k % n), b * k, n);
  }

  lemma SidesEqual(i: nat, u: nat, x: nat, m: nat, n: int)
    requires n > 1 && i == u % n && 0 < i && 0 < x % n
    ensures SumOf(i, x % n, n) == m % n <==> if Cong(u + x, 0, n) then Cong(m, -2 * x, n) else Cong(u + x, m, n)
  {
    var y := x % n;
    ModPlus(u, y, n);
    ModPlus(x, u, n);
    SmallResidue(0, n);
    CongResidue(u + x, 0, n);
    CongResidue(u + x, m, n);
    CongResidue(m, -2 * x, n);
    if (i + y) % n == 0 {
      SmallSum(i, y, n);
      Negated(x, n);
    } else if i + y == n {
      DivMod(n, n, 1, 0);
    }
  }

  // Where no leading bits of the hash are a multiple of the order, which holds for all
  // hashes below it, an honest signature verifies exactly when the hash is not the
  // private key modulo the order. The zero hash leaves G in place of mG.
  lemma SignedVerifies<T(!new)>(op: (T, T) -> T, pt: nat -> T, n: int, m: nat, x: nat, k: nat, b: nat, G: T, A: T, Y: T)
    requires IsKey(op, pt, n, x, k, G, A, Y) && IsSignature(m, x, k, n, b) && Regular(m, n)
    ensures Verifies(op, G, A, Y, b, m) <==> if m == 0 then (2 * x + 1) % n == 0 else m % n != x % n
  {
    hide AffineGroup, Multiple, IsSignature, Prime, SumOf, LeftIndex, Verifies;
    AffinePrime(op, pt, n);
    KeyIndex(op, pt, n, G, x);
    KeyIndex(op, pt, n, G, k);
    SidesMeet(op, pt, n, m, x, k, b, G, A, Y);
    if m == 0 {
      MultipleOfNone(op, G, G);
      AffineEqual(op, pt, n, 1, LeftIndex(m, x, k, n));
      ZeroHash(x, k, n);
    } else {
      KeyIndex(op, pt, n, G, m);
      AffineEqual(op, pt, n, m % n, LeftIndex(m, x, k, n));
      RegularHash(m, x, k, n);
    }
  }

  lemma ZeroHash(x: nat, k: nat, n: int)
    requires n > 2 && x % n != 0
    ensures LeftIndex(0, x, k, n) == 1 <==> (2 * x + 1) % n == 0
  {
    SmallResidue(0, n);
    SmallResidue(1, n);
    CongResidue(-2 * x, 1, n);
    CongResidue(0, 2 * x + 1, n);
    Opposite(2 * x + 1, n);
  }

  lemma Opposite(d: int, n: int)
    requires n > 0
    ensures -d % n == 0 <==> d % n == 0
  {
    MultipleOf(-(d / n), n);
    MultipleOf(-(-d / n), n);
  }

  lemma RegularHash(m: nat, x: nat, k: nat, n: int)
    requires Prime(n) && n > 3 && m % n != 0 && x % n != 0 && k % n != 0
    ensures LeftIndex(m, x, k, n) == m % n <==> m % n != x % n
  {
    hide Prime;
    var i, j := k % n, x % n;
    if m % n == j {
      if i + j == n {
        if 2 * i % n == j {
          Thrice(i, n);
        }
      } else if i + j < n {
        SmallResidue(i + j, n);
      } else {
        DivMod(i + j, n, 1, i + j - n);
      }
    }
  }

  // 2k = -k only for k = 0.
  lemma Thrice(i: nat, n: int)
    requires Prime(n) && n > 3 && 0 < i < n
    ensures 2 * i % n != n - i
  {
    if 2 * i % n == n - i {
      DivMod(3 * i, n, 2 * i / n + 1, 0);
      SmallResidue(3, n);
      SmallResidue(i, n);
      EuclidLemma(3, i, n);
    }
  }

  // A hash that is a multiple of the order verifies for at most one private key: the
  // doubled -xG has to meet whatever the multiplication makes of mG.
  lemma OrderHash<T(!new)>(op: (T, T) -> T, pt: nat -> T, n: int, m: nat, x: nat, k: nat, b: nat, A: T, Y: T,
                           x': nat, k': nat, b': nat, A': T, Y': T, G: T)
    requires n > 1 && m > 0 && m % n == 0
    requires IsKey(op, pt, n, x, k, G, A, Y) && IsSignature(m, x, k, n, b) && Verifies(op, G, A, Y, b, m)
    requires IsKey(op, pt, n, x', k', G, A', Y') && IsSignature(m, x', k', n, b') && Verifies(op, G, A', Y', b', m)
    ensures x % n == x' % n
  {
    hide AffineGroup, Multiple, IsSignature, Prime, SumOf, LeftIndex, Verifies;
    AffinePrime(op, pt, n);
    KeyIndex(op, pt, n, G, x);
    KeyIndex(op, pt, n, G, x');
    SidesMeet(op, pt, n, m, x, k, b, G, A, Y);
    SidesMeet(op, pt, n, m, x', k', b', G, A', Y');
    AffineEqual(op, pt, n, LeftIndex(m, x, k, n), LeftIndex(m, x', k', n));
    HalfKey(m, x, k, x', k', n);
  }

  lemma HalfKey(m: nat, x: nat, k: nat, x': nat, k': nat, n: int)
    requires Prime(n) && n > 2 && m % n == 0 && x % n != 0 && x' % n != 0
    requires LeftIndex(m, x, k, n) == LeftIndex(m, x', k', n)
    ensures x % n == x' % n
  {
    hide Prime;
    CongResidue(-2 * x, -2 * x', n);
    CongSelf(0, n);
    CongAdd(0, 0, -2 * x, -2 * x', n);
    SmallResidue(2, n);
    CancelFactor(x, x', 2, n);
    CongResidue(x, x', n);
  }

  // ---- The inputs that fail, in the group of the numbers modulo 17 ----

  // The verdict on the hash m under the private key x, with the fresh key 1
  function Verdict(m: nat, x: nat): bool {
    var op := Sums(17);
    Verifies(op, 1, Multiple(op, 1, 1, 1), Multiple(op, 1, 1, x), Quotient(m, x, 1, 17), m)
  }

  // The private key itself as the hash is refused, and so is zero, but for the key
  // -1/2; the order is refused too, but for one key, and accepted for that one.
  lemma FailingHashes()
    ensures Prime(17) && AffineGroup(Sums(17), Same(), 17)
    ensures !Verdict(5, 5) && !Verdict(0, 5) && Verdict(0, 8)
    ensures !Verdict(17, 2) && Verdict(17, 1)
  {
    hide Prime, AffineGroup, Multiple, Verifies, IsKey, IsSignature, LeftIndex, Sums, Quotient;
    Seventeen();
    NumbersFormGroup(17);
    SmallKey(5);
    SmallKey(8);
    SmallKey(2);
    SmallKey(1);
    var op := Sums(17);
    var A := Multiple(op, 1, 1, 1);
    SmallRegular(5, 17);
    SmallSignature(5, 5);
    SignedVerifies(op, Same(), 17, 5, 5, 1, Quotient(5, 5, 1, 17), 1, A, Multiple(op, 1, 1, 5));
    SmallRegular(0, 17);
    SmallSignature(0, 5);
    SmallSignature(0, 8);
    SignedVerifies(op, Same(), 17, 0, 5, 1, Quotient(0, 5, 1, 17), 1, A, Multiple(op, 1, 1, 5));
    SignedVerifies(op, Same(), 17, 0, 8, 1, Quotient(0, 8, 1, 17), 1, A, Multiple(op, 1, 1, 8));
    SmallSignature(17, 2);
    SmallSignature(17, 1);
    SidesMeet(op, Same(), 17, 17, 2, 1, Quotient(17, 2, 1, 17), 1, A, Multiple(op, 1, 1, 2));
    SidesMeet(op, Same(), 17, 17, 1, 1, Quotient(17, 1, 1, 17), 1, A, A);
    SeventeenTimes();
    SeventeenLeft();
  }

  lemma Seventeen()
    ensures Prime(17)
  {
  }

  lemma SmallKey(x: nat)
    requires 0 < x < 17
    ensures IsKey(Sums(17), Same(), 17, x, 1, 1, Multiple(Sums(17), 1, 1, 1), Multiple(Sums(17), 1, 1, x))
  {
    hide AffineGroup, Multiple;
    Seventeen();
    NumbersFormGroup(17);
    SmallRegular(x, 17);
    SmallRegular(1, 17);
  }

  lemma SmallSignature(m: nat, x: nat)
    ensures IsSignature(m, x, 1, 17, Quotient(m, x, 1, 17))
  {
    hide Quotient;
    assert InvmodFrom(1, 17, 1) == Some(1);
  }

  lemma SeventeenTimes()
    ensures Multiple(Sums(17), 1, 1, 17) == 15
  {
    var op := Sums(17);
    assert BitsOf(1) == [true];
    assert BitsOf(2) == [true, false];
    assert BitsOf(4) == [true, false, false];
    assert BitsOf(8) == [true, false, false, false];
    var b := [true, false, false, false, true];
    assert BitsOf(17) == b;
    assert b[..WINSIZE] == [true, false, false, false] && b[WINSIZE..] == [true];
    assert Entry(op, 1, 8) == 8;
    assert Walk(op, 1, None, b) == Walk(op, 1, Some(8), [true]);
    assert [true][1..] == [];
    assert Tail(op, 1, Some(8), [true]) == Tail(op, 1, Some(15), []);
  }

  lemma SeventeenLeft()
    ensures LeftIndex(17, 2, 1, 17) == 13 && LeftIndex(17, 1, 1, 17) == 15
  {
  }
}
