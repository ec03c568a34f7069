// Affine points of y^2 = x^3 - 3x + b over a prime field: doubling, addition
// and the one-bit compression of y.
module EccPoint {
  import opened Results
  import opened Numbers
  import opened Mp

  class Point {
    var x: int
    var y: int

    constructor (x: int, y: int)
      ensures this.x == x && this.y == y
    {
      this.x, this.y := x, y;
    }
  }

  function Cubic(x: int, b: int): int {
    x * x * x - 3 * x + b
  }

  predicate OnCurve(x: int, y: int, b: int, p: int)
    requires p > 0
  {
    Cong(y * y, Cubic(x, b), p)
  }

  predicate Reduced(x: int, p: int) {
    0 <= x < p
  }

  // (x3, y3) is the mirror image of the third point of the line of slope s
  // through (x1, y1), whose other point has abscissa x2.
  predicate ThirdPoint(x1: int, y1: int, x2: int, s: int, x3: int, y3: int, p: int)
    requires p > 0
  {
    Cong(x3, s * s - x1 - x2, p) && Cong(y3, s * (x1 - x3) - y1, p)
  }

  // The chord sum of two points with different abscissas.
  ghost predicate IsChordSum(x1: int, y1: int, x2: int, y2: int, x3: int, y3: int, p: int)
    requires p > 0
  {
    exists s :: Cong(s * (x1 - x2), y1 - y2, p) && ThirdPoint(x1, y1, x2, s, x3, y3, p)
  }

  // The tangent double of a point.
  ghost predicate IsDouble(x1: int, y1: int, x3: int, y3: int, p: int)
    requires p > 0
  {
    exists s :: Cong(s * (2 * y1), 3 * (x1 * x1) - 3, p) && ThirdPoint(x1, y1, x1, s, x3, y3, p)
  }

  // ---- The line through two curve points meets the curve a third time. ----

  // The line of slope s through (x1, y1) minus (X - x1)(X - x2)(X - t) leaves
  // r1 * X + r0.
  function R1(x1: int, y1: int, x2: int, s: int): int {
    -3 - 2 * s * (y1 - s * x1) - x1 * x2 - (s * s - x1 - x2) * (x1 + x2)
  }

  function R0(x1: int, y1: int, x2: int, s: int, b: int): int {
    b - (y1 - s * x1) * (y1 - s * x1) + x1 * x2 * (s * s - x1 - x2)
  }

  lemma RemainderAt1(x1: int, y1: int, x2: int, s: int, b: int)
    ensures Cubic(x1, b) - y1 * y1 == R1(x1, y1, x2, s) * x1 + R0(x1, y1, x2, s, b)
  {
  }

  lemma RemainderAt2(x1: int, y1: int, x2: int, s: int, b: int, y: int)
    requires y == y1 + s * (x2 - x1)
    ensures Cubic(x2, b) - y * y == R1(x1, y1, x2, s) * x2 + R0(x1, y1, x2, s, b)
  {
  }

  lemma RemainderAt3(x1: int, y1: int, x2: int, s: int, b: int, t: int, y: int)
    requires t == s * s - x1 - x2 && y == y1 + s * (t - x1)
    ensures Cubic(t, b) - y * y == R1(x1, y1, x2, s) * t + R0(x1, y1, x2, s, b)
  {
  }

  lemma CubicCong(x: int, t: int, b: int, p: int)
    requires p > 0 && Cong(x, t, p)
    ensures Cong(Cubic(x, b), Cubic(t, b), p)
  {
    CongMul(x, t, x, t, p);
    CongMul(x * x, t * t, x, t, p);
    CongSelf(3, p);
    CongSelf(b, p);
    CongMul(3, 3, x, t, p);
    CongAdd(x * x * x, t * t * t, 3 * x, 3 * t, p);
    CongAdd(x * x * x - 3 * x, t * t * t - 3 * t, b, b, p);
  }

  lemma ThirdPointOnCurve(x1: int, y1: int, x2: int, s: int, b: int, x3: int, y3: int, p: int)
    requires p > 0 && OnCurve(x1, y1, b, p) && Cong(R1(x1, y1, x2, s), 0, p)
    requires ThirdPoint(x1, y1, x2, s, x3, y3, p)
    ensures OnCurve(x3, y3, b, p)
  {
    var r1, r0, t := R1(x1, y1, x2, s), R0(x1, y1, x2, s, b), s * s - x1 - x2;
    var y := y1 + s * (t - x1);
    assert Cong(y * y, Cubic(t, b), p) by {
      RemainderAt1(x1, y1, x2, s, b);
      RemainderAt3(x1, y1, x2, s, b, t, y);
      OffsetZero(r1, x1, r0, t, Cubic(x1, b) - y1 * y1, Cubic(t, b) - y * y, y1 * y1, Cubic(x1, b), p);
      CongSelf(y * y, p);
      CongAdd(y * y, y * y, Cubic(t, b) - y * y, 0, p);
      CongSymm(Cubic(t, b), y * y, p);
    }
    CubicCong(x3, t, b, p);
    CongSymm(Cubic(x3, b), Cubic(t, b), p);
    assert Cong(y3 * y3, y * y, p) by {
      CongSelf(x1, p);
      CongSelf(s, p);
      CongSelf(y1, p);
      CongAdd(x1, x1, x3, t, p);
      CongMul(s, s, x1 - x3, x1 - t, p);
      CongAdd(s * (x1 - x3), s * (x1 - t), y1, y1, p);
      assert s * (x1 - t) - y1 == -y by { Negate(s, x1, t); }
      CongTrans(y3, s * (x1 - x3) - y1, -y, p);
      CongMul(y3, -y, y3, -y, p);
      assert -y * -y == y * y;
    }
    CongTrans(y3 * y3, y * y, Cubic(t, b), p);
    CongTrans(y3 * y3, Cubic(t, b), Cubic(x3, b), p);
  }

  lemma Negate(s: int, x: int, t: int)
    ensures s * (x - t) == -(s * (t - x))
  {
  }

  // r1 * t + r0 is zero modulo p when r1 and r1 * x + r0 are.
  lemma OffsetZero(r1: int, x: int, r0: int, t: int, u: int, v: int, yy: int, f: int, p: int)
    requires p > 0 && Cong(r1, 0, p) && Cong(yy, f, p)
    requires u == f - yy == r1 * x + r0 && v == r1 * t + r0
    ensures Cong(v, 0, p)
  {
    CongSymm(yy, f, p);
    CongSelf(yy, p);
    CongAdd(f, yy, yy, yy, p);
    CongSelf(t - x, p);
    CongMul(r1, 0, t - x, t - x, p);
    CongAdd(r1 * (t - x), 0, u, 0, p);
    assert r1 * (t - x) + u == v;
  }

  lemma ChordSumOnCurve(x1: int, y1: int, x2: int, y2: int, x3: int, y3: int, b: int, p: int)
    requires Prime(p) && (x1 - x2) % p != 0
    requires OnCurve(x1, y1, b, p) && OnCurve(x2, y2, b, p)
    requires IsChordSum(x1, y1, x2, y2, x3, y3, p)
    ensures OnCurve(x3, y3, b, p)
  {
    var s :| Cong(s * (x1 - x2), y1 - y2, p) && ThirdPoint(x1, y1, x2, s, x3, y3, p);
    var r1, r0, y := R1(x1, y1, x2, s), R0(x1, y1, x2, s, b), y1 + s * (x2 - x1);
    RemainderAt1(x1, y1, x2, s, b);
    RemainderAt2(x1, y1, x2, s, b, y);
    assert Cong(y * y, Cubic(x2, b), p) by {
      Negate(s, x2, x1);
      CongSelf(y1, p);
      CongAdd(y1, y1, s * (x1 - x2), y1 - y2, p);
      CongMul(y, y2, y, y2, p);
      CongTrans(y * y, y2 * y2, Cubic(x2, b), p);
    }
    assert Cong(r1 * (x1 - x2), 0, p) by {
      CongSymm(y * y, Cubic(x2, b), p);
      CongSymm(y1 * y1, Cubic(x1, b), p);
      CongSelf(y * y, p);
      CongSelf(y1 * y1, p);
      CongAdd(Cubic(x1, b), y1 * y1, y1 * y1, y1 * y1, p);
      CongAdd(Cubic(x2, b), y * y, y * y, y * y, p);
      CongAdd(Cubic(x1, b) - y1 * y1, 0, Cubic(x2, b) - y * y, 0, p);
      assert r1 * (x1 - x2) == (r1 * x1 + r0) - (r1 * x2 + r0);
    }
    EuclidLemma(r1, x1 - x2, p);
    ThirdPointOnCurve(x1, y1, x2, s, b, x3, y3, p);
  }

  lemma TangentRemainder(x: int, y: int, s: int)
    ensures R1(x, y, x, s) == (3 * (x * x) - 3) - s * (2 * y)
  {
  }

  lemma DoubleOnCurve(x1: int, y1: int, x3: int, y3: int, b: int, p: int)
    requires p > 0 && OnCurve(x1, y1, b, p) && IsDouble(x1, y1, x3, y3, p)
    ensures OnCurve(x3, y3, b, p)
  {
    var s :| Cong(s * (2 * y1), 3 * (x1 * x1) - 3, p) && ThirdPoint(x1, y1, x1, s, x3, y3, p);
    TangentRemainder(x1, y1, s);
    CongSymm(s * (2 * y1), 3 * (x1 * x1) - 3, p);
    ThirdPointOnCurve(x1, y1, x1, s, b, x3, y3, p);
  }

  // The chord sum does not depend on the order of the points.
  lemma ChordSumCommutes(x1: int, y1: int, x2: int, y2: int, x3: int, y3: int, p: int)
    requires p > 0 && IsChordSum(x1, y1, x2, y2, x3, y3, p)
    ensures IsChordSum(x2, y2, x1, y1, x3, y3, p)
  {
    var s :| Cong(s * (x1 - x2), y1 - y2, p) && ThirdPoint(x1, y1, x2, s, x3, y3, p);
    CongSelf(0, p);
    CongAdd(0, 0, s * (x1 - x2), y1 - y2, p);
    Negate(s, x2, x1);
    assert Cong(s * (x2 - x1), y2 - y1, p);
    CongSelf(s * (x1 - x3) - y1, p);
    CongAdd(s * (x1 - x3) - y1, s * (x1 - x3) - y1, s * (x2 - x1), y2 - y1, p);
    CongSelf(y2 - y1, p);
    CongAdd(s * (x2 - x1), y2 - y1, y2 - y1, y2 - y1, p);
    var e := s * (x2 - x1) - (y2 - y1);
    CongAdd(s * (x1 - x3) - y1, s * (x1 - x3) - y1, e, 0, p);
    assert s * (x1 - x3) - y1 + e == s * (x2 - x3) - y2 by { Telescope(s, x1, x2, x3); }
    CongSymm(s * (x2 - x3) - y2, s * (x1 - x3) - y1, p);
    CongTrans(y3, s * (x1 - x3) - y1, s * (x2 - x3) - y2, p);
    assert ThirdPoint(x2, y2, x1, s, x3, y3, p);
  }

  lemma Telescope(s: int, x1: int, x2: int, x3: int)
    ensures s * (x1 - x3) + s * (x2 - x1) == s * (x2 - x3)
  {
  }

  // The third point is determined, so each sum has one reduced result.
  lemma ChordSumUnique(x1: int, y1: int, x2: int, y2: int, x3: int, y3: int, x3': int, y3': int, p: int)
    requires Prime(p) && (x1 - x2) % p != 0
    requires IsChordSum(x1, y1, x2, y2, x3, y3, p) && IsChordSum(x1, y1, x2, y2, x3', y3', p)
    requires Reduced(x3, p) && Reduced(y3, p) && Reduced(x3', p) && Reduced(y3', p)
    ensures x3 == x3' && y3 == y3'
  {
    var s :| Cong(s * (x1 - x2), y1 - y2, p) && ThirdPoint(x1, y1, x2, s, x3, y3, p);
    var s' :| Cong(s' * (x1 - x2), y1 - y2, p) && ThirdPoint(x1, y1, x2, s', x3', y3', p);
    CongSymm(s' * (x1 - x2), y1 - y2, p);
    CongTrans(s * (x1 - x2), y1 - y2, s' * (x1 - x2), p);
    CancelFactor(s, s', x1 - x2, p);
    ThirdPointUnique(x1, y1, x2, s, x3, y3, s', x3', y3', p);
  }

  lemma ThirdPointUnique(x1: int, y1: int, x2: int, s: int, x3: int, y3: int, s': int, x3': int, y3': int, p: int)
    requires p > 0 && Cong(s, s', p)
    requires ThirdPoint(x1, y1, x2, s, x3, y3, p) && ThirdPoint(x1, y1, x2, s', x3', y3', p)
    requires Reduced(x3, p) && Reduced(y3, p) && Reduced(x3', p) && Reduced(y3', p)
    ensures x3 == x3' && y3 == y3'
  {
    CongSelf(x1, p);
    CongSelf(x2, p);
    CongSelf(y1, p);
    CongMul(s, s', s, s', p);
    CongAdd(s * s, s' * s', x1, x1, p);
    CongAdd(s * s - x1, s' * s' - x1, x2, x2, p);
    CongTrans(x3, s * s - x1 - x2, s' * s' - x1 - x2, p);
    CongSymm(x3', s' * s' - x1 - x2, p);
    CongTrans(x3, s' * s' - x1 - x2, x3', p);
    ReducedEqual(x3, x3', p);
    CongSelf(x1 - x3, p);
    CongMul(s, s', x1 - x3, x1 - x3, p);
    CongAdd(s * (x1 - x3), s' * (x1 - x3), y1, y1, p);
    CongTrans(y3, s * (x1 - x3) - y1, s' * (x1 - x3) - y1, p);
    CongSymm(y3', s' * (x1 - x3) - y1, p);
    CongTrans(y3, s' * (x1 - x3) - y1, y3', p);
    ReducedEqual(y3, y3', p);
  }

  lemma ReducedEqual(a: int, b: int, p: int)
    requires p > 0 && Reduced(a, p) && Reduced(b, p) && Cong(a, b, p)
    ensures a == b
  {
    CongResidue(a, b, p);
    SmallResidue(a, p);
    SmallResidue(b, p);
  }

  // ---- The routines ----

  // R = 2P; R may be P.
  method DblPoint(P: Point, R: Point, modulus: int) returns (res: Status)
    requires Prime(modulus) && modulus > 2
    modifies R
    ensures res == CryptOk <==> old(P.y) % modulus != 0
    ensures res == CryptOk ==> IsDouble(old(P.x), old(P.y), R.x, R.y, modulus)
    ensures res == CryptOk ==> Reduced(R.x, modulus) && Reduced(R.y, modulus)
    ensures res == CryptOk ==>
      forall b :: OnCurve(old(P.x), old(P.y), b, modulus) ==> OnCurve(R.x, R.y, b, modulus)
    ensures res != CryptOk ==> res == CryptInvalidArg && R.x == old(R.x) && R.y == old(R.y)
  {
    hide OnCurve;
    hide Cong, ThirdPoint, IsDouble, Prime;
    ghost var px, py := P.x, P.y;
    var tmp := 2 * P.y;
    DoubleUnit(py, modulus);
    var inv := Invmod(tmp, modulus);
    if inv == None {
      return CryptInvalidArg;
    }
    tmp := inv.value;
    var s := P.x * P.x;
    s := s % modulus;
    s := s * 3;
    s := s - 3;
    if s < 0 {
      s := s + modulus;
    }
    TangentSlope(px, py, s, tmp, modulus);
    s := s * tmp;
    s := s % modulus;

    var tmpx := s * s;
    tmpx := tmpx % modulus;
    tmpx := tmpx - P.x;
    tmpx := (tmpx - P.x) % modulus;

    tmp := P.x - tmpx;
    tmp := tmp * s;
    R.y := (tmp - P.y) % modulus;
    R.x := tmpx;
    DoubleResult(px, py, s, tmpx, R.y, modulus);
    forall b | OnCurve(px, py, b, modulus) ensures OnCurve(R.x, R.y, b, modulus) {
      DoubleOnCurve(px, py, R.x, R.y, b, modulus);
    }
    return CryptOk;
  }

  lemma DoubleUnit(y: int, p: int)
    requires Prime(p) && p > 2
    ensures Invmod(2 * y, p).Some? <==> y % p != 0
  {
    InvmodPrime(2 * y, p);
    SmallResidue(2, p);
    if (2 * y) % p == 0 { EuclidLemma(2, y, p); }
    if y % p == 0 {
      assert 2 * y == 2 * (y / p) * p;
      MultipleOf(2 * (y / p), p);
    }
  }

  lemma DoubleResult(x: int, y: int, s: int, x3: int, y3: int, p: int)
    requires p > 0 && Cong(s * (2 * y), 3 * (x * x) - 3, p)
    requires x3 == (s * s % p - x - x) % p && y3 == ((x - x3) * s - y) % p
    ensures IsDouble(x, y, x3, y3, p) && Reduced(x3, p) && Reduced(y3, p)
  {
    CongSelf(s * s, p);
    ReducedThirdPoint(x, y, x, s, s * s % p, x3, (x - x3) * s - y, y3, p);
  }

  // s * inv is the slope of the tangent, whichever representative s is.
  lemma TangentSlope(x: int, y: int, s: int, inv: int, p: int)
    requires p > 0 && Cong(2 * y * inv, 1, p)
    requires s == x * x % p * 3 - 3 || s == x * x % p * 3 - 3 + p
    ensures Cong((s * inv % p) * (2 * y), 3 * (x * x) - 3, p)
  {
    CongSelf(x * x, p);
    CongSelf(3, p);
    CongMul(x * x % p, x * x, 3, 3, p);
    CongAdd(x * x % p * 3, x * x * 3, 3, 3, p);
    var f := 3 * (x * x) - 3;
    CongIntro(p, 0, 1, p);
    CongAdd(x * x % p * 3 - 3, f, p, 0, p);
    assert Cong(s, f, p);
    SlopeOf(s, f, inv, 2 * y, p);
  }

  lemma SlopeOf(s: int, f: int, inv: int, d: int, p: int)
    requires p > 0 && Cong(d * inv, 1, p) && Cong(s, f, p)
    ensures Cong((s * inv % p) * d, f, p)
  {
    CongSelf(s * inv, p);
    CongSelf(d, p);
    CongMul(s * inv % p, s * inv, d, d, p);
    CongMul(s, f, d * inv, 1, p);
    assert s * inv * d == s * (d * inv) by { MulAssoc(s, inv, d); }
    CongTrans((s * inv % p) * d, s * inv * d, f, p);
  }

  lemma ReducedThirdPoint(x1: int, y1: int, x2: int, s: int, ss: int, x3: int, u: int, y3: int, p: int)
    requires p > 0 && Cong(ss, s * s, p)
    requires x3 == (ss - x1 - x2) % p && u == (x1 - x3) * s - y1 && y3 == u % p
    ensures ThirdPoint(x1, y1, x2, s, x3, y3, p)
  {
    CongSelf(x1 + x2, p);
    CongSelf(ss - x1 - x2, p);
    CongAdd(ss, s * s, x1 + x2, x1 + x2, p);
    CongTrans(x3, ss - x1 - x2, s * s - x1 - x2, p);
    CongSelf(u, p);
  }

  // R = P + Q; R may be P or Q. Points with the same abscissa are doubled when
  // they are equal and also when they are opposite, whose sum is not affine.
  method AddPoint(P: Point, Q: Point, R: Point, modulus: int) returns (res: Status)
    requires Prime(modulus) && modulus > 2
    requires Reduced(P.x, modulus) && Reduced(P.y, modulus) && Reduced(Q.x, modulus) && Reduced(Q.y, modulus)
    modifies R
    ensures old(P.x) != old(Q.x) ==>
      && res == CryptOk
      && IsChordSum(old(P.x), old(P.y), old(Q.x), old(Q.y), R.x, R.y, modulus)
    ensures old(P.x) == old(Q.x) ==>
      (res == CryptOk <==> old(P.y) != 0 && (old(P.y) == old(Q.y) || old(P.y) + old(Q.y) == modulus))
    ensures old(P.x) == old(Q.x) && res == CryptOk ==> IsDouble(old(P.x), old(P.y), R.x, R.y, modulus)
    ensures res == CryptOk ==> Reduced(R.x, modulus) && Reduced(R.y, modulus)
    ensures res == CryptOk ==>
      forall b :: OnCurve(old(P.x), old(P.y), b, modulus) && OnCurve(old(Q.x), old(Q.y), b, modulus)
                  ==> OnCurve(R.x, R.y, b, modulus)
    ensures res != CryptOk ==> res == CryptInvalidArg && R.x == old(R.x) && R.y == old(R.y)
  {
    hide OnCurve, Cong, ThirdPoint, IsDouble, IsChordSum, Prime;
    ghost var px, py, qx, qy := P.x, P.y, Q.x, Q.y;
    var tmp := -Q.y;
    tmp := tmp % modulus;
    Opposite(qy, modulus);
    SmallResidue(py, modulus);
    if P.x == Q.x {
      if P.y == Q.y || P.y == tmp {
        res := DblPoint(P, R, modulus);
        return;
      }
    }

    tmp := P.x - Q.x;
    if tmp < 0 {
      tmp := tmp + modulus;
    }
    SmallResidue(tmp, modulus);
    InvmodPrime(tmp, modulus);
    var inv := Invmod(tmp, modulus);
    if inv == None {
      return CryptInvalidArg;
    }
    ghost var d := tmp;
    tmp := inv.value;
    var s := P.y - Q.y;
    if s < 0 {
      s := s + modulus;
    }
    ChordSlope(px - qx, py - qy, d, s, tmp, modulus);
    s := s * tmp;
    s := s % modulus;

    tmp := s * s;
    tmp := tmp % modulus;
    tmp := tmp - P.x;
    var tmpx := tmp - Q.x;

    tmp := P.x - tmpx;
    tmp := tmp * s;
    R.y := (tmp - P.y) % modulus;
    R.x := tmpx % modulus;
    ChordResult(px, py, qx, qy, s, tmpx, R.x, R.y, modulus);
    forall b | OnCurve(px, py, b, modulus) && OnCurve(qx, qy, b, modulus)
      ensures OnCurve(R.x, R.y, b, modulus)
    {
      Distinct(px, qx, modulus);
      ChordSumOnCurve(px, py, qx, qy, R.x, R.y, b, modulus);
    }
    return CryptOk;
  }

  lemma Opposite(y: int, p: int)
    requires p > 0 && Reduced(y, p)
    ensures -y % p == if y == 0 then 0 else p - y
  {
    if y > 0 {
      CongIntro(-y, p - y, -1, p);
      CongResidue(-y, p - y, p);
      SmallResidue(p - y, p);
    }
  }

  lemma Distinct(x1: int, x2: int, p: int)
    requires p > 0 && Reduced(x1, p) && Reduced(x2, p) && x1 != x2
    ensures (x1 - x2) % p != 0
  {
    if Cong(x1, x2, p) { ReducedEqual(x1, x2, p); }
  }

  lemma ChordSlope(dx: int, dy: int, d: int, s: int, inv: int, p: int)
    requires p > 0 && Cong(d * inv, 1, p)
    requires (d == dx || d == dx + p) && (s == dy || s == dy + p)
    ensures Cong((s * inv % p) * dx, dy, p)
  {
    CongIntro(dx, d, if d == dx then 0 else -1, p);
    CongIntro(s, dy, if s == dy then 0 else 1, p);
    var l := s * inv % p;
    SlopeOf(s, dy, inv, d, p);
    CongSelf(l, p);
    CongMul(l, l, dx, d, p);
    CongTrans(l * dx, l * d, dy, p);
  }

  lemma ChordResult(x1: int, y1: int, x2: int, y2: int, s: int, t: int, x3: int, y3: int, p: int)
    requires p > 0 && Cong(s * (x1 - x2), y1 - y2, p)
    requires t == s * s % p - x1 - x2 && x3 == t % p && y3 == ((x1 - t) * s - y1) % p
    ensures IsChordSum(x1, y1, x2, y2, x3, y3, p) && Reduced(x3, p) && Reduced(y3, p)
  {
    CongSelf(s * s, p);
    CongSelf(t, p);
    CongSelf(x1 + x2, p);
    CongAdd(s * s % p, s * s, x1 + x2, x1 + x2, p);
    CongTrans(x3, t, s * s - x1 - x2, p);
    CongSymm(x3, t, p);
    CongSelf(x1, p);
    CongSelf(s, p);
    CongSelf(y1, p);
    CongAdd(x1, x1, t, x3, p);
    CongMul(s, s, x1 - t, x1 - x3, p);
    CongAdd(s * (x1 - t), s * (x1 - x3), y1, y1, p);
    CongSelf((x1 - t) * s - y1, p);
    CongTrans(y3, s * (x1 - t) - y1, s * (x1 - x3) - y1, p);
    assert ThirdPoint(x1, y1, x2, s, x3, y3, p);
  }

  // Two reduced curve points with the same abscissa are equal or opposite, so on
  // the curve the addition fails only at the points of order two.
  lemma SameAbscissa(x: int, y: int, y': int, b: int, p: int)
    requires Prime(p) && Reduced(y, p) && Reduced(y', p)
    requires OnCurve(x, y, b, p) && OnCurve(x, y', b, p)
    ensures y == y' || y + y' == p
  {
    CongSymm(y' * y', Cubic(x, b), p);
    CongTrans(y * y, Cubic(x, b), y' * y', p);
    TwoRoots(y, y', p);
    if Cong(y, y', p) {
      ReducedEqual(y, y', p);
    } else if y' == 0 {
      ReducedEqual(y, 0, p);
    } else {
      CongIntro(-y', p - y', -1, p);
      CongTrans(y, -y', p - y', p);
      ReducedEqual(y, p - y', p);
    }
  }

  // ---- One-bit compression of y, for primes that are 3 modulo 4 ----

  // The candidate root (x^3 - 3x + b)^((p+1)/4) mod p
  function Root(x: int, b: int, p: int): int
    requires p > 0
  {
    Pow(Cubic(x, b) % p, (p + 1) / 2 / 2) % p
  }

  function CompressedBit(x: int, y: int, b: int, p: int): int
    requires p > 0
  {
    if Root(x, b, p) == y then 0 else 1
  }

  function ExpandedY(x: int, bit: int, b: int, p: int): int
    requires p > 0
  {
    if bit == 0 then Root(x, b, p) else p - Root(x, b, p)
  }

  ghost predicate IsSquare(y: int, p: int)
    requires p > 0
  {
    exists z: int :: IsRoot(z, y, p)
  }

  predicate IsRoot(z: int, y: int, p: int)
    requires p > 0
  {
    Cong(z * z, y, p)
  }

  // Of the two ordinates of an abscissa one is a square modulo the prime: bit 0 stands
  // for that one.
  method CompressYPoint(pt: Point, b: int, p: int) returns (result: int)
    requires p > 0
    ensures result == CompressedBit(pt.x, pt.y, b, p)
    ensures Prime(p) && p % 4 == 3 && Reduced(pt.y, p) && OnCurve(pt.x, pt.y, b, p) ==>
      ExpandedY(pt.x, result, b, p) == pt.y && (result == 0 <==> IsSquare(pt.y, p))
    ensures result == 0 || result == 1
  {
    hide Prime, Cong, OnCurve, Reduced, IsSquare;
    if Prime(p) && p % 4 == 3 && Reduced(pt.y, p) && OnCurve(pt.x, pt.y, b, p) {
      CompressRoundTrip(pt.x, pt.y, b, p);
      SquareRoot(pt.x, pt.y, b, p);
    }
    var tmp := Pow(pt.x, 3);
    CubeIs(pt.x);
    var tmp2 := 3 * pt.x;
    tmp := tmp - tmp2;
    tmp := tmp + b;
    tmp := tmp % p;
    tmp2 := p + 1;
    tmp2 := tmp2 / 2;
    tmp2 := tmp2 / 2;
    tmp := Pow(tmp, tmp2) % p;
    result := if tmp == pt.y then 0 else 1;
  }

  // y from x and the bit
  method ExpandYPoint(pt: Point, b: int, p: int, result: int)
    requires p > 0
    modifies pt`y
    ensures pt.y == ExpandedY(pt.x, result, b, p)
    ensures Prime(p) && p % 4 == 3 ==>
      forall y :: Reduced(y, p) && OnCurve(pt.x, y, b, p) && (result == 0 <==> IsSquare(y, p)) ==> pt.y == y
    ensures Prime(p) && p % 4 == 3 && result == 0 && (exists y :: Reduced(y, p) && OnCurve(pt.x, y, b, p)) ==>
      OnCurve(pt.x, pt.y, b, p) && IsSquare(pt.y, p)
  {
    hide Prime, Cong, OnCurve, Reduced, IsSquare, Root;
    if Prime(p) && p % 4 == 3 {
      forall y | Reduced(y, p) && OnCurve(pt.x, y, b, p)
        ensures ExpandedY(pt.x, if IsSquare(y, p) then 0 else 1, b, p) == y
        ensures OnCurve(pt.x, Root(pt.x, b, p), b, p) && IsSquare(Root(pt.x, b, p), p)
      {
        CompressRoundTrip(pt.x, y, b, p);
        SquareRoot(pt.x, y, b, p);
      }
    }
    assert Root(pt.x, b, p) == Pow(Cubic(pt.x, b) % p, (p + 1) / 2 / 2) % p by {
      RootIs(pt.x, b, p);
    }
    var tmp := Pow(pt.x, 3);
    CubeIs(pt.x);
    var tmp2 := 3 * pt.x;
    tmp := tmp - tmp2;
    tmp := tmp + b;
    tmp := tmp % p;
    tmp2 := p + 1;
    tmp2 := tmp2 / 2;
    tmp2 := tmp2 / 2;
    tmp := Pow(tmp, tmp2) % p;
    if result == 0 {
      pt.y := tmp;
    } else {
      pt.y := p - tmp;
    }
  }

  lemma CubeIs(x: int)
    ensures Pow(x, 3) == x * x * x
  {
    assert Pow(x, 3) == x * Pow(x, 2);
    assert Pow(x, 2) == x * Pow(x, 1);
  }

  // The candidate is a root whenever there is one.
  lemma RootSquared(y: int, c: int, p: int)
    requires Prime(p) && p % 4 == 3 && Cong(y * y, c, p)
    ensures var r := Pow(c % p, (p + 1) / 2 / 2) % p; Cong(r * r, y * y, p)
  {
    var e := (p + 1) / 2 / 2;
    var u, r := Pow(c % p, e), Pow(c % p, e) % p;
    assert p + 1 == 4 * e;
    CongSelf(u, p);
    CongMul(r, u, r, u, p);
    CongSelf(c, p);
    CongSymm(y * y, c, p);
    CongTrans(c % p, c, y * y, p);
    PowCong(c % p, y * y, e, p);
    CongMul(u, Pow(y * y, e), u, Pow(y * y, e), p);
    CongTrans(r * r, u * u, Pow(y * y, e) * Pow(y * y, e), p);
    SquareTower(y, e, p);
    CongTrans(r * r, Pow(y * y, e) * Pow(y * y, e), y * y, p);
  }

  // (y^2)^e squared is y^(p+1), which is y^2.
  lemma SquareTower(y: int, e: nat, p: int)
    requires Prime(p) && p + 1 == 4 * e
    ensures Cong(Pow(y * y, e) * Pow(y * y, e), y * y, p)
  {
    hide Cong, Pow;
    var w := Pow(y * y, e);
    PowAdd(y * y, e, e);
    SquareIs(y);
    PowMul(y, 2, e + e);
    PowAdd(y, p - 1, 2);
    assert 2 * (e + e) == p - 1 + 2;
    assert w * w == Pow(y, p - 1) * (y * y);
    if y % p == 0 {
      SquareOfMultiple(y, p);
      CongSelf(Pow(y, p - 1), p);
      CongMul(Pow(y, p - 1), Pow(y, p - 1), y * y, 0, p);
      CongSymm(y * y, 0, p);
      CongTrans(w * w, 0, y * y, p);
    } else {
      Fermat(y, p);
      CongSelf(y * y, p);
      CongMul(Pow(y, p - 1), 1, y * y, y * y, p);
    }
  }

  lemma SquareOfMultiple(y: int, p: int)
    requires p > 0 && y % p == 0
    ensures Cong(y * y, 0, p)
  {
    CongSelf(y, p);
    CongMul(y, 0, y, 0, p);
  }

  lemma SquareIs(y: int)
    ensures Pow(y, 2) == y * y
  {
    assert Pow(y, 2) == y * Pow(y, 1);
  }

  // The candidate root of a square is itself a square, ...
  lemma RootIsSquare(y: int, c: int, p: int)
    requires Prime(p) && p % 4 == 3 && Cong(y * y, c, p)
    ensures IsSquare(Pow(c % p, (p + 1) / 2 / 2) % p, p)
  {
    hide Cong, Pow;
    var e := (p + 1) / 2 / 2;
    var u, z := Pow(c % p, e), Pow(y, e);
    PowOfProduct(y, y, e);
    CongSelf(c, p);
    CongSymm(c % p, c, p);
    CongTrans(y * y, c, c % p, p);
    PowCong(y * y, c % p, e, p);
    CongSelf(u, p);
    CongSymm(u % p, u, p);
    CongTrans(z * z, u, u % p, p);
    assert IsRoot(z, u % p, p);
  }

  // ... and of two opposite numbers only one is, unless they are multiples of p.
  lemma NoOpposite(w: int, z: int, p: int)
    requires Prime(p) && p % 4 == 3 && Cong(w * w, -(z * z), p)
    ensures z % p == 0
  {
    hide Cong, Pow;
    var h := (p - 1) / 2;
    if z % p != 0 {
      if w % p == 0 {
        SquareOfMultiple(w, p);
        CongSymm(w * w, 0, p);
        CongTrans(0, w * w, -(z * z), p);
        ZeroSquare(z, p);
      }
      PowCong(w * w, -(z * z), h, p);
      SquaredPower(w, h, p);
      SquaredPower(z, h, p);
      PowOfProduct(-1, z * z, h);
      assert -1 * (z * z) == -(z * z);
      OddPower(h);
      Fermat(w, p);
      Fermat(z, p);
      CongSelf(0, p);
      CongAdd(0, 0, Pow(z, p - 1), 1, p);
      CongSymm(Pow(w, p - 1), 1, p);
      assert -1 * Pow(z, p - 1) == 0 - Pow(z, p - 1);
      CongTrans(1, Pow(w, p - 1), 0 - Pow(z, p - 1), p);
      CongTrans(1, 0 - Pow(z, p - 1), 0 - 1, p);
      MinusOne(p);
    }
  }

  lemma ZeroSquare(z: int, p: int)
    requires Prime(p) && Cong(0, -(z * z), p)
    ensures z % p == 0
  {
    assert (0 - -(z * z)) == z * z;
    EuclidLemma(z, z, p);
  }

  lemma SquaredPower(w: int, h: nat, p: int)
    requires p - 1 == 2 * h
    ensures Pow(w * w, h) == Pow(w, p - 1)
  {
    hide Pow;
    SquareIs(w);
    PowMul(w, 2, h);
  }

  lemma {:induction false} OddPower(h: nat)
    requires h % 2 == 1
    ensures Pow(-1, h) == -1
  {
    if h > 1 {
      OddPower(h - 2);
      assert Pow(-1, h) == -1 * Pow(-1, h - 1);
    }
  }

  lemma MinusOne(p: int)
    requires p > 2
    ensures !Cong(1, -1, p)
  {
    SmallResidue(2, p);
  }

  // The candidate root is the ordinate that is a square.
  lemma SquareRoot(x: int, y: int, b: int, p: int)
    requires Prime(p) && p % 4 == 3 && Reduced(y, p) && OnCurve(x, y, b, p)
    ensures OnCurve(x, Root(x, b, p), b, p) && IsSquare(Root(x, b, p), p)
    ensures Root(x, b, p) == y <==> IsSquare(y, p)
  {
    hide Pow, Prime;
    var r := Root(x, b, p);
    RootSquared(y, Cubic(x, b), p);
    CongTrans(r * r, y * y, Cubic(x, b), p);
    RootIsSquare(y, Cubic(x, b), p);
    if IsSquare(y, p) && r != y {
      OtherRoot(r, y, p);
    }
  }

  lemma OtherRoot(r: int, y: int, p: int)
    requires Prime(p) && p % 4 == 3 && Reduced(r, p) && Reduced(y, p) && Cong(r * r, y * y, p)
    requires IsSquare(r, p) && IsSquare(y, p)
    ensures r == y
  {
    hide Cong, Prime;
    TwoRoots(r, y, p);
    if Cong(r, y, p) {
      ReducedEqual(r, y, p);
    } else {
      var w :| IsRoot(w, r, p);
      var z :| IsRoot(z, y, p);
      CongSelf(0, p);
      CongAdd(0, 0, z * z, y, p);
      CongSymm(0 - z * z, 0 - y, p);
      CongTrans(w * w, r, -y, p);
      CongTrans(w * w, -y, -(z * z), p);
      NoOpposite(w, z, p);
      SquareOfMultiple(z, p);
      CongSymm(z * z, y, p);
      CongTrans(y, z * z, 0, p);
      ReducedEqual(y, 0, p);
      ReducedEqual(r, 0, p);
    }
  }

  lemma RootIs(x: int, b: int, p: int)
    requires p > 0
    ensures Root(x, b, p) == Pow(Cubic(x, b) % p, (p + 1) / 2 / 2) % p
  {
  }

  // Expanding the compressed point gives y back.
  lemma CompressRoundTrip(x: int, y: int, b: int, p: int)
    requires Prime(p) && p % 4 == 3 && Reduced(y, p) && OnCurve(x, y, b, p)
    ensures ExpandedY(x, CompressedBit(x, y, b, p), b, p) == y
  {
    var r := Root(x, b, p);
    if r != y {
      RootSquared(y, Cubic(x, b), p);
      CongSymm(r * r, y * y, p);
      TwoRoots(r, y, p);
      if Cong(r, y, p) {
        ReducedEqual(r, y, p);
      } else if y == 0 {
        ReducedEqual(r, 0, p);
      } else {
        CongIntro(-y, p - y, -1, p);
        CongTrans(r, -y, p - y, p);
        ReducedEqual(r, p - y, p);
      }
    }
  }
}
