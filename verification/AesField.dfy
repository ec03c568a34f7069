// Bytes as elements of GF(2^8): sums, the constants of MixColumns, and the
// identities between them that make InvMixColumns undo MixColumns.
module AesField {
  import opened AesBox

  // The exclusive or, which is the addition of GF(2^8).
  function Add(x: Byte, y: Byte): Byte {
    Byte(x.b7 != y.b7, x.b6 != y.b6, x.b5 != y.b5, x.b4 != y.b4,
         x.b3 != y.b3, x.b2 != y.b2, x.b1 != y.b1, x.b0 != y.b0)
  }

  function Add4(x: Byte, y: Byte, z: Byte, w: Byte): Byte {
    Add(Add(Add(x, y), z), w)
  }

  const ZERO := Byte(false, false, false, false, false, false, false, false)

  // ---- Arithmetic in GF(2^8) by the constants of MixColumns ----

  // x times the polynomial x, modulo x^8 + x^4 + x^3 + x + 1
  function Mul2(x: Byte): Byte {
    Byte(x.b6, x.b5, x.b4, x.b3 != x.b7, x.b2 != x.b7, x.b1, x.b0 != x.b7, x.b7)
  }

  function Mul8(x: Byte): Byte { Mul2(Mul2(Mul2(x))) }
  function Mul3(x: Byte): Byte { Add(Mul2(x), x) }
  function Mul9(x: Byte): Byte { Add(Mul8(x), x) }
  function MulB(x: Byte): Byte { Add(Add(Mul8(x), Mul2(x)), x) }
  function MulD(x: Byte): Byte { Add(Add(Mul8(x), Mul2(Mul2(x))), x) }
  function MulE(x: Byte): Byte { Add(Add(Mul8(x), Mul2(Mul2(x))), Mul2(x)) }

  // These are the sums and products of the field that the box is made from.
  lemma AddPacked(x: Byte, y: Byte)
    ensures Pack(Add(x, y)) == Plus(Pack(x), Pack(y))
  {
    hide Pack, Unpack, Add, Plus;
    UnpackPack(x);
    UnpackPack(y);
    PlusUnpacked(Pack(x), Pack(y));
    PackUnpack(Plus(Pack(x), Pack(y)));
  }

  lemma PlusUnpacked(v: bv8, w: bv8)
    ensures Unpack(Plus(v, w)) == Add(Unpack(v), Unpack(w))
  {
    hide Has, Plus;
    PlusHigh(v, w);
    PlusLow(v, w);
  }

  lemma PlusHigh(v: bv8, w: bv8)
    ensures Has(Plus(v, w), 0x80) == (Has(v, 0x80) != Has(w, 0x80))
    ensures Has(Plus(v, w), 0x40) == (Has(v, 0x40) != Has(w, 0x40))
    ensures Has(Plus(v, w), 0x20) == (Has(v, 0x20) != Has(w, 0x20))
    ensures Has(Plus(v, w), 0x10) == (Has(v, 0x10) != Has(w, 0x10))
  {
  }

  lemma PlusLow(v: bv8, w: bv8)
    ensures Has(Plus(v, w), 0x08) == (Has(v, 0x08) != Has(w, 0x08))
    ensures Has(Plus(v, w), 0x04) == (Has(v, 0x04) != Has(w, 0x04))
    ensures Has(Plus(v, w), 0x02) == (Has(v, 0x02) != Has(w, 0x02))
    ensures Has(Plus(v, w), 0x01) == (Has(v, 0x01) != Has(w, 0x01))
  {
  }

  lemma Mul2Packed(x: Byte)
    ensures Pack(Mul2(x)) == Double(Pack(x))
  {
  }

  lemma Mul8Packed(x: Byte)
    ensures Pack(Mul8(x)) == Double(Double(Double(Pack(x))))
    ensures Pack(Mul2(Mul2(x))) == Double(Double(Pack(x)))
  {
    hide Pack, Mul2, Double;
    Mul2Packed(x);
    Mul2Packed(Mul2(x));
    Mul2Packed(Mul2(Mul2(x)));
  }

  lemma ProductsMix(v: bv8)
    ensures Product(v, 0x02) == Double(v) && Product(v, 0x03) == Plus(Double(v), v)
  {
  }

  lemma ProductsOdd(v: bv8)
    ensures Product(v, 0x09) == Plus(Double(Double(Double(v))), v)
    ensures Product(v, 0x0b) == Plus(Plus(Double(Double(Double(v))), Double(v)), v)
  {
  }

  lemma ProductsInverse(v: bv8)
    ensures Product(v, 0x0d) == Plus(Plus(Double(Double(Double(v))), Double(Double(v))), v)
    ensures Product(v, 0x0e) == Plus(Plus(Double(Double(Double(v))), Double(Double(v))), Double(v))
  {
  }

  lemma MulPacked(x: Byte)
    ensures Pack(Mul2(x)) == Product(Pack(x), 0x02) && Pack(Mul3(x)) == Product(Pack(x), 0x03)
    ensures Pack(Mul9(x)) == Product(Pack(x), 0x09) && Pack(MulB(x)) == Product(Pack(x), 0x0b)
    ensures Pack(MulD(x)) == Product(Pack(x), 0x0d) && Pack(MulE(x)) == Product(Pack(x), 0x0e)
  {
    hide Pack, Add, Plus, Mul2, Mul8, Double, Product;
    ProductsMix(Pack(x));
    ProductsOdd(Pack(x));
    ProductsInverse(Pack(x));
    Mul2Packed(x);
    Mul8Packed(x);
    AddPacked(Mul2(x), x);
    AddPacked(Mul8(x), x);
    AddPacked(Mul8(x), Mul2(x));
    AddPacked(Add(Mul8(x), Mul2(x)), x);
    AddPacked(Mul8(x), Mul2(Mul2(x)));
    AddPacked(Add(Mul8(x), Mul2(Mul2(x))), x);
    AddPacked(Add(Mul8(x), Mul2(Mul2(x))), Mul2(x));
  }

  lemma Add4Packed(x: Byte, y: Byte, z: Byte, w: Byte)
    ensures Pack(Add4(x, y, z, w)) == Plus4(Pack(x), Pack(y), Pack(z), Pack(w))
  {
    hide Pack, Add, Plus;
    AddPacked(x, y);
    AddPacked(Add(x, y), z);
    AddPacked(Add(Add(x, y), z), w);
  }

  // The box on bytes is the affine map of the inverse too.
  lemma ByteBox(x: Byte)
    ensures var v := InvAffine(Pack(S(x)));
      Affine(v) == Pack(S(x)) && (if Pack(x) == 0 then v == 0 else Product(Pack(x), v) == 1)
  {
    hide Pack, Unpack, Sub, Affine, InvAffine, Product;
    PackUnpack(Sub(Pack(x)));
    BoxIsAffineInverse(Pack(x));
  }

  // ---- The algebra of sums ----

  lemma AddZero(x: Byte)
    ensures Add(x, ZERO) == x && Add(ZERO, x) == x
  {
  }

  lemma AddCancel(x: Byte, y: Byte)
    ensures Add(Add(x, y), y) == x
  {
  }

  lemma Add2Swap(a: Byte, b: Byte, c: Byte, d: Byte)
    ensures Add(Add(a, b), Add(c, d)) == Add(Add(a, c), Add(b, d))
  {
  }

  lemma AddRotate(a: Byte, b: Byte, c: Byte, d: Byte)
    ensures Add4(a, b, c, d) == Add4(b, c, d, a)
  {
  }

  lemma Mul2Add(x: Byte, y: Byte)
    ensures Mul2(Add(x, y)) == Add(Mul2(x), Mul2(y))
  {
  }

  lemma Add4Swap(a: Byte, b: Byte, c: Byte, d: Byte, a': Byte, b': Byte, c': Byte, d': Byte)
    ensures Add4(Add(a, a'), Add(b, b'), Add(c, c'), Add(d, d'))
         == Add(Add4(a, b, c, d), Add4(a', b', c', d'))
  {
    hide Add;
    Add2Swap(a, a', b, b');
    Add2Swap(Add(a, b), Add(a', b'), c, c');
    Add2Swap(Add(Add(a, b), c), Add(Add(a', b'), c'), d, d');
  }

  lemma MulAdd(x: Byte, y: Byte)
    ensures Mul9(Add(x, y)) == Add(Mul9(x), Mul9(y)) && MulB(Add(x, y)) == Add(MulB(x), MulB(y))
    ensures MulD(Add(x, y)) == Add(MulD(x), MulD(y)) && MulE(Add(x, y)) == Add(MulE(x), MulE(y))
  {
    hide Add, Mul2;
    var x1, y1 := Mul2(x), Mul2(y);
    var x2, y2 := Mul2(x1), Mul2(y1);
    var x3, y3 := Mul2(x2), Mul2(y2);
    Mul2Add(x, y);
    Mul2Add(x1, y1);
    Mul2Add(x2, y2);
    Add2Swap(x3, y3, x, y);
    Add2Swap(x3, y3, x1, y1);
    Add2Swap(x3, y3, x2, y2);
    Add2Swap(Add(x3, x1), Add(y3, y1), x, y);
    Add2Swap(Add(x3, x2), Add(y3, y2), x, y);
    Add2Swap(Add(x3, x2), Add(y3, y2), x1, y1);
  }

  lemma AddSelf(x: Byte)
    ensures Add(x, x) == ZERO
  {
  }

  lemma AddComm(x: Byte, y: Byte)
    ensures Add(x, y) == Add(y, x)
  {
  }

  lemma AddAssoc(x: Byte, y: Byte, z: Byte)
    ensures Add(Add(x, y), z) == Add(x, Add(y, z))
  {
  }

  lemma AddPairsOuter(p: Byte, q: Byte, r: Byte, s: Byte)
    ensures Add4(p, q, r, s) == Add(Add(p, s), Add(q, r))
  {
  }

  lemma AddPairsAlternate(p: Byte, q: Byte, r: Byte, s: Byte)
    ensures Add4(p, q, r, s) == Add(Add(p, r), Add(q, s))
  {
  }

  // Sums in which terms come twice
  lemma AddLast(x: Byte, y: Byte, z: Byte)
    ensures Add(Add(x, y), z) == Add(Add(x, z), y)
  {
    hide Add;
    AddAssoc(x, y, z);
    AddComm(y, z);
    AddAssoc(x, z, y);
  }

  lemma CancelRight(x: Byte, y: Byte, z: Byte)
    ensures Add(Add(x, z), Add(y, z)) == Add(x, y)
  {
    hide Add;
    Add2Swap(x, z, y, z);
    AddSelf(z);
    AddZero(Add(x, y));
  }

  lemma CancelInside(x: Byte, y: Byte, z: Byte)
    ensures Add(Add(x, z), Add(z, y)) == Add(x, y)
  {
    hide Add;
    AddComm(z, y);
    CancelRight(x, y, z);
  }

  lemma CancelHead(x: Byte, y: Byte, z: Byte)
    ensures Add(Add(z, x), Add(z, y)) == Add(x, y)
  {
    hide Add;
    AddComm(z, x);
    CancelInside(x, y, z);
  }

  lemma CancelOuter(x: Byte, y: Byte, p: Byte, q: Byte)
    ensures Add(Add(Add(x, p), y), Add(Add(x, q), y)) == Add(p, q)
  {
    hide Add;
    CancelRight(Add(x, p), Add(x, q), y);
    CancelHead(p, q, x);
  }

  lemma CancelCrossed(x: Byte, y: Byte, p: Byte, q: Byte)
    ensures Add(Add(Add(x, q), p), Add(Add(x, p), y)) == Add(q, y)
  {
    hide Add;
    AddLast(x, p, y);
    CancelOuter(x, p, q, y);
  }

  lemma CancelBoth(x: Byte, y: Byte, q: Byte)
    ensures Add(Add(Add(x, q), y), Add(x, y)) == q
  {
    hide Add;
    CancelRight(Add(x, q), x, y);
    AddLast(x, q, x);
    AddSelf(x);
    AddZero(q);
  }

  lemma CancelFirst(y: Byte, p: Byte, q: Byte)
    ensures Add(Add(q, Add(p, y)), Add(p, q)) == y
  {
    hide Add;
    AddAssoc(q, p, y);
    AddComm(p, q);
    AddLast(Add(q, p), y, Add(q, p));
    AddSelf(Add(q, p));
    AddZero(y);
  }

  lemma CancelHeads(u: Byte, x: Byte, y: Byte, p: Byte, q: Byte)
    ensures Add(Add(Add(u, x), q), Add(Add(u, p), Add(x, y))) == Add(q, Add(p, y))
  {
    hide Add;
    Add2Swap(u, p, x, y);
    CancelHead(q, Add(p, y), Add(u, x));
  }

  lemma CancelInner(u: Byte, x: Byte, y: Byte, p: Byte, q: Byte)
    ensures Add(Add(Add(u, x), p), Add(Add(x, q), y)) == Add(Add(u, p), Add(q, y))
  {
    hide Add;
    AddLast(u, x, p);
    AddAssoc(x, q, y);
    CancelInside(Add(u, p), Add(q, y), x);
  }

  lemma CancelMiddle(u: Byte, x: Byte, p: Byte, q: Byte, y: Byte)
    ensures Add(Add(Add(u, q), p), Add(Add(x, p), y)) == Add(Add(u, q), Add(x, y))
  {
    hide Add;
    AddLast(x, p, y);
    CancelRight(Add(u, q), Add(x, y), p);
  }

  lemma CancelEnds(u: Byte, x: Byte, p: Byte, q: Byte)
    ensures Add(Add(Add(u, x), p), Add(Add(x, q), p)) == Add(u, q)
  {
    hide Add;
    CancelRight(Add(u, x), Add(x, q), p);
    CancelInside(u, q, x);
  }

  lemma CancelShared(u: Byte, x: Byte, p: Byte, q: Byte)
    ensures Add(Add(Add(u, x), q), Add(Add(x, q), p)) == Add(u, p)
  {
    hide Add;
    AddAssoc(u, x, q);
    CancelInside(u, p, Add(x, q));
  }

  lemma CancelLeft(x: Byte, z: Byte)
    ensures Add(x, Add(x, z)) == z && Add(x, Add(z, x)) == z
  {
  }

  // The constants of InvMixColumns and MixColumns are inverse polynomials: all
  // but one of the terms a * x^i come in pairs.
  lemma InvMixByte(a: Byte)
    ensures Add4(MulE(Mul2(a)), MulB(a), MulD(a), Mul9(Mul3(a))) == a
    ensures Add4(Mul9(Mul2(a)), MulE(a), MulB(a), MulD(Mul3(a))) == ZERO
    ensures Add4(MulD(Mul2(a)), Mul9(a), MulE(a), MulB(Mul3(a))) == ZERO
    ensures Add4(MulB(Mul2(a)), MulD(a), Mul9(a), MulE(Mul3(a))) == ZERO
  {
    hide Add, Add4, Mul2;
    var a1 := Mul2(a);
    var a2 := Mul2(a1);
    var a3 := Mul2(a2);
    MulAdd(a1, a);
    InvMixSum0(a, a1, a2, a3, Mul2(a3));
    InvMixSum1(a, a1, a2, a3, Mul2(a3));
    InvMixSum2(a, a1, a2, a3, Mul2(a3));
    InvMixSum3(a, a1, a2, a3, Mul2(a3));
  }

  lemma InvMixSum0(a: Byte, a1: Byte, a2: Byte, a3: Byte, a4: Byte)
    ensures Add4(Add(Add(a4, a3), a2), Add(Add(a3, a1), a), Add(Add(a3, a2), a),
                 Add(Add(a4, a1), Add(a3, a))) == a
  {
    hide Add, Add4;
    AddPairsOuter(Add(Add(a4, a3), a2), Add(Add(a3, a1), a), Add(Add(a3, a2), a), Add(Add(a4, a1), Add(a3, a)));
    CancelOuter(a3, a, a1, a2);
    CancelHeads(a4, a3, a, a1, a2);
    CancelFirst(a, a1, a2);
  }

  lemma InvMixSum1(a: Byte, a1: Byte, a2: Byte, a3: Byte, a4: Byte)
    ensures Add4(Add(a4, a1), Add(Add(a3, a2), a1), Add(Add(a3, a1), a),
                 Add(Add(Add(a4, a3), a1), Add(Add(a3, a2), a))) == ZERO
  {
    hide Add, Add4;
    AddPairsOuter(Add(a4, a1), Add(Add(a3, a2), a1), Add(Add(a3, a1), a),
             Add(Add(Add(a4, a3), a1), Add(Add(a3, a2), a)));
    CancelCrossed(a3, a, a1, a2);
    CancelInner(a4, a3, a, a1, a2);
    CancelLeft(Add(a4, a1), Add(a2, a));
    AddSelf(Add(a2, a));
  }

  lemma InvMixSum2(a: Byte, a1: Byte, a2: Byte, a3: Byte, a4: Byte)
    ensures Add4(Add(Add(a4, a3), a1), Add(a3, a), Add(Add(a3, a2), a1),
                 Add(Add(Add(a4, a2), a1), Add(Add(a3, a1), a))) == ZERO
  {
    hide Add, Add4;
    AddPairsAlternate(Add(Add(a4, a3), a1), Add(a3, a), Add(Add(a3, a2), a1),
             Add(Add(Add(a4, a2), a1), Add(Add(a3, a1), a)));
    CancelMiddle(a4, a3, a1, a2, a);
    CancelEnds(a4, a3, a1, a2);
    CancelLeft(Add(a3, a), Add(a4, a2));
    AddSelf(Add(a4, a2));
  }

  lemma InvMixSum3(a: Byte, a1: Byte, a2: Byte, a3: Byte, a4: Byte)
    ensures Add4(Add(Add(a4, a2), a1), Add(Add(a3, a2), a), Add(a3, a),
                 Add(Add(Add(a4, a3), a2), Add(Add(a3, a2), a1))) == ZERO
  {
    hide Add, Add4;
    AddPairsOuter(Add(Add(a4, a2), a1), Add(Add(a3, a2), a), Add(a3, a),
             Add(Add(Add(a4, a3), a2), Add(Add(a3, a2), a1)));
    CancelShared(a4, a3, a1, a2);
    CancelBoth(a3, a, a2);
    CancelBoth(a4, a1, a2);
    AddSelf(a2);
  }
}
