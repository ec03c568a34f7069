// The nonzero multiples of a base point of prime order, under the addition that the
// affine formulas compute: it has no identity, and opposite points are doubled.
module EccAffine {
  import opened Results
  import opened Numbers
  import opened Mp
  import opened Words
  import opened EccWalk

  // Of i * G and j * G: their sum, but twice the first when they are opposite
  function SumOf(i: nat, j: nat, n: nat): nat
    requires n > 0
  {
    if i + j == n then 2 * i % n else (i + j) % n
  }

  // pt(i) is i * G for 0 < i < n. The table of the window goes up to 15 * G.
  ghost predicate AffineGroup<T(!new)>(op: (T, T) -> T, pt: nat -> T, n: int) {
    && Prime(n) && n > 16
    && (forall i: nat, j: nat :: 0 < i < n && 0 < j < n ==> op(pt(i), pt(j)) == pt(SumOf(i, j, n)))
    && (forall i: nat, j: nat :: 0 < i < n && 0 < j < n && pt(i) == pt(j) ==> i == j)
  }

  // The sum of two multiples is always a nonzero one.
  lemma SumInRange(i: nat, j: nat, n: int)
    requires Prime(n) && n > 2 && 0 < i < n && 0 < j < n
    ensures 0 < SumOf(i, j, n) < n
  {
    if i + j == n {
      SmallResidue(2, n);
      SmallResidue(i, n);
      if 2 * i % n == 0 {
        EuclidLemma(2, i, n);
      }
    } else if i + j < n {
      SmallResidue(i + j, n);
    } else {
      DivMod(i + j, n, 1, i + j - n);
    }
  }

  // Neither k nor a number that leading bits of it make is a nonzero multiple of n.
  predicate Regular(k: nat, n: int)
    requires n > 0
  {
    k == 0 || (k % n != 0 && Regular(k / 2, n))
  }

  lemma {:induction false} SmallRegular(k: nat, n: int)
    requires k < n
    ensures Regular(k, n)
  {
    if k > 0 {
      SmallResidue(k, n);
      SmallRegular(k / 2, n);
    }
  }

  lemma {:induction false} RegularBits(k: nat, n: int, fine: nat -> bool)
    requires n > 0 && Regular(k, n) && forall i: nat :: fine(i) <==> i % n != 0
    ensures AllFine(fine, 0, BitsOf(k))
  {
    if k > 0 {
      RegularBits(k / 2, n, fine);
      ThenNumber(BitsOf(k / 2));
      NumberOfBits(k / 2);
      FineLast(fine, 0, BitsOf(k / 2), k % 2 == 1);
    }
  }

  lemma {:induction false} FineLast(fine: nat -> bool, d: nat, b: Bits, i: bool)
    requires AllFine(fine, d, b)
    requires var e := 2 * Then(d, b) + (if i then 1 else 0); e > 0 ==> fine(e)
    ensures AllFine(fine, d, b + [i])
    decreases |b|
  {
    if b == [] {
      assert b + [i] == [i] && [i][1..] == [];
    } else {
      assert (b + [i])[1..] == b[1..] + [i];
      FineLast(fine, 2 * d + (if b[0] then 1 else 0), b[1..], i);
    }
  }

  // i times the multiple a, of order n
  function Index(i: nat, a: nat, n: int): nat
    requires n > 0
  {
    i * a % n
  }

  lemma IndexNonzero(i: nat, a: nat, n: int)
    requires Prime(n) && 0 < a < n
    ensures Index(i, a, n) == 0 <==> i % n == 0
  {
    SmallResidue(a, n);
    if i * a % n == 0 {
      EuclidLemma(i, a, n);
    }
    if i % n == 0 {
      SmallResidue(0, n);
      CongResidue(i, 0, n);
      CongSelf(a, n);
      CongMul(i, 0, a, a, n);
      CongResidue(i * a, 0, n);
    }
  }

  lemma IndexSum(i: nat, j: nat, a: nat, n: int)
    requires Prime(n) && 0 < a < n && i % n != 0 && j % n != 0 && (i + j) % n != 0
    ensures 0 < Index(i, a, n) < n && 0 < Index(j, a, n) < n
    ensures SumOf(Index(i, a, n), Index(j, a, n), n) == Index(i + j, a, n)
  {
    hide Prime;
    IndexNonzero(i, a, n);
    IndexNonzero(j, a, n);
    IndexNonzero(i + j, a, n);
    var u, v := i * a, j * a;
    assert (i + j) * a == u + v;
    ModPlus(u, v % n, n);
    ModPlus(v, u, n);
    if u % n + v % n == n {
      DivMod(n, n, 1, 0);
    }
  }

  // Where no number on the way is a multiple of the order, neither an opposite pair
  // nor its doubling comes up, and the walk is the multiple.
  lemma RegularMultiple<T(!new)>(op: (T, T) -> T, pt: nat -> T, n: int, a: nat, start: T, k: nat)
    requires AffineGroup(op, pt, n) && 0 < a < n && k > 0 && Regular(k, n)
    ensures Multiple(op, pt(a), start, k) == pt(Index(k, a, n))
  {
    hide Walk, Index, AffineGroup, Prime, SumOf;
    var mul := (i: nat) => pt(Index(i, a, n));
    var fine := (i: nat) => i % n != 0;
    AffinePrime(op, pt, n);
    forall i: nat, j: nat
      ensures AddsAt(op, mul, fine, i, j)
    {
      if i > 0 && j > 0 && fine(i) && fine(j) && fine(i + j) {
        IndexSum(i, j, a, n);
        AffineAdds(op, pt, n, Index(i, a, n), Index(j, a, n));
      }
    }
    assert Steady(fine) by {
      SmallFine(n);
    }
    RegularBits(k, n, fine);
    WalkIs(op, mul, fine, 0, BitsOf(k));
    ThenNumber(BitsOf(k));
    NumberOfBits(k);
    IndexOne(a, n);
    assert mul(1) == pt(a);
  }

  lemma AffinePrime<T(!new)>(op: (T, T) -> T, pt: nat -> T, n: int)
    requires AffineGroup(op, pt, n)
    ensures Prime(n) && n > 16
  {
  }

  lemma AffineAdds<T(!new)>(op: (T, T) -> T, pt: nat -> T, n: int, i: nat, j: nat)
    requires AffineGroup(op, pt, n) && 0 < i < n && 0 < j < n
    ensures op(pt(i), pt(j)) == pt(SumOf(i, j, n))
  {
  }

  lemma AffineEqual<T(!new)>(op: (T, T) -> T, pt: nat -> T, n: int, i: nat, j: nat)
    requires AffineGroup(op, pt, n) && 0 < i < n && 0 < j < n
    ensures pt(i) == pt(j) <==> i == j
  {
  }

  lemma SmallFine(n: int)
    requires Prime(n) && n > 16
    ensures forall i :: 0 < i < 16 ==> i % n != 0
    ensures forall i: nat :: i % n != 0 ==> 2 * i % n != 0
  {
    forall i | 0 < i < 16
      ensures i % n != 0
    {
      SmallResidue(i, n);
    }
    forall i: nat | i % n != 0
      ensures 2 * i % n != 0
    {
      SmallResidue(2, n);
      if 2 * i % n == 0 {
        EuclidLemma(2, i, n);
      }
    }
  }

  lemma IndexOne(a: nat, n: int)
    requires 0 < a < n
    ensures Index(1, a, n) == a
  {
    SmallResidue(a, n);
  }

  // ---- For every scalar the walk stays among the nonzero multiples. ----

  ghost predicate IsPoint<T(!new)>(pt: nat -> T, n: int, p: T) {
    exists i: nat :: 0 < i < n && pt(i) == p
  }

  ghost predicate IsStart<T(!new)>(pt: nat -> T, n: int, r: Option<T>) {
    r == None || IsPoint(pt, n, r.value)
  }

  lemma PointSum<T(!new)>(op: (T, T) -> T, pt: nat -> T, n: int, p: T, q: T)
    requires AffineGroup(op, pt, n) && IsPoint(pt, n, p) && IsPoint(pt, n, q)
    ensures IsPoint(pt, n, op(p, q))
  {
    hide Prime, SumOf;
    var i: nat :| 0 < i < n && pt(i) == p;
    var j: nat :| 0 < j < n && pt(j) == q;
    SumInRange(i, j, n);
    assert op(p, q) == pt(SumOf(i, j, n));
  }

  lemma {:induction false} EntryPoint<T(!new)>(op: (T, T) -> T, pt: nat -> T, n: int, g: T, w: nat)
    requires AffineGroup(op, pt, n) && IsPoint(pt, n, g) && w >= 8
    ensures IsPoint(pt, n, Entry(op, g, w))
  {
    hide AffineGroup, IsPoint;
    if w == 8 {
      PointSum(op, pt, n, g, g);
      PointSum(op, pt, n, op(g, g), op(g, g));
      PointSum(op, pt, n, Twice(op, Twice(op, g)), Twice(op, Twice(op, g)));
    } else {
      EntryPoint(op, pt, n, g, w - 1);
      PointSum(op, pt, n, Entry(op, g, w - 1), g);
    }
  }

  lemma FlushPoint<T(!new)>(op: (T, T) -> T, pt: nat -> T, n: int, g: T, r: Option<T>, w: nat)
    requires AffineGroup(op, pt, n) && IsPoint(pt, n, g) && IsStart(pt, n, r) && w >= 8
    ensures IsPoint(pt, n, Flush(op, g, r, w))
  {
    hide AffineGroup, IsPoint, Entry;
    EntryPoint(op, pt, n, g, w);
    if r.Some? {
      var p1 := Twice(op, r.value);
      var p2 := Twice(op, p1);
      var p3 := Twice(op, p2);
      PointSum(op, pt, n, r.value, r.value);
      PointSum(op, pt, n, p1, p1);
      PointSum(op, pt, n, p2, p2);
      PointSum(op, pt, n, p3, p3);
      PointSum(op, pt, n, Twice(op, p3), Entry(op, g, w));
    }
  }

  lemma {:induction false} TailPoint<T(!new)>(op: (T, T) -> T, pt: nat -> T, n: int, g: T, r: Option<T>, b: Bits)
    requires AffineGroup(op, pt, n) && IsPoint(pt, n, g) && IsStart(pt, n, r)
    ensures IsStart(pt, n, Tail(op, g, r, b))
    ensures r.Some? || (b != [] && b[0]) ==> Tail(op, g, r, b).Some?
    decreases |b|
  {
    hide AffineGroup, IsPoint;
    if b != [] {
      match r
      case None =>
        TailPoint(op, pt, n, g, if b[0] then Some(g) else None, b[1..]);
      case Some(p) =>
        PointSum(op, pt, n, p, p);
        PointSum(op, pt, n, Twice(op, p), g);
        TailPoint(op, pt, n, g, Some(if b[0] then op(Twice(op, p), g) else Twice(op, p)), b[1..]);
    }
  }

  lemma {:induction false} WalkPoint<T(!new)>(op: (T, T) -> T, pt: nat -> T, n: int, g: T, r: Option<T>, b: Bits)
    requires AffineGroup(op, pt, n) && IsPoint(pt, n, g) && IsStart(pt, n, r)
    ensures IsStart(pt, n, Walk(op, g, r, b))
    ensures r.Some? || (b != [] && b[0]) ==> Walk(op, g, r, b).Some?
    decreases |b|
  {
    hide AffineGroup, IsPoint, Flush, Tail;
    if b == [] {
    } else if !b[0] {
      match r
      case None =>
        WalkPoint(op, pt, n, g, None, b[1..]);
      case Some(p) =>
        PointSum(op, pt, n, p, p);
        WalkPoint(op, pt, n, g, Some(Twice(op, p)), b[1..]);
    } else if |b| >= WINSIZE {
      NibbleFull(b[..WINSIZE]);
      FlushPoint(op, pt, n, g, r, Nibble(b[..WINSIZE]));
      WalkPoint(op, pt, n, g, Some(Flush(op, g, r, Nibble(b[..WINSIZE]))), b[WINSIZE..]);
    } else {
      TailPoint(op, pt, n, g, r, b);
    }
  }

  lemma {:induction false} BitsFirst(k: nat)
    requires k > 0
    ensures BitsOf(k) != [] && BitsOf(k)[0]
  {
    if k > 1 {
      BitsFirst(k / 2);
    } else {
      assert BitsOf(1) == BitsOf(0) + [true];
    }
  }

  lemma MultiplePoint<T(!new)>(op: (T, T) -> T, pt: nat -> T, n: int, g: T, start: T, k: nat)
    requires AffineGroup(op, pt, n) && IsPoint(pt, n, g) && k > 0
    ensures IsPoint(pt, n, Multiple(op, g, start, k))
  {
    hide AffineGroup, IsPoint, Walk;
    BitsFirst(k);
    WalkPoint(op, pt, n, g, None, BitsOf(k));
  }

  lemma MultipleOfNone<T>(op: (T, T) -> T, g: T, start: T)
    ensures Multiple(op, g, start, 0) == start
  {
  }

  // ---- There is such a group for every prime above 16. ----

  function Sums(n: int): (nat, nat) -> nat
    requires n > 0
  {
    (i: nat, j: nat) => SumOf(i, j, n)
  }

  function Same(): nat -> nat {
    (i: nat) => i
  }

  lemma NumbersFormGroup(n: int)
    requires Prime(n) && n > 16
    ensures AffineGroup(Sums(n), Same(), n)
  {
    hide Prime, SumOf;
  }
}
