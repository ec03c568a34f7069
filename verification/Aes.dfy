// Rijndael with 128-bit blocks: the key schedules and the table-driven cipher of
// both directions, against the round functions of FIPS 197.
module Aes {
  import opened AesBox
  import opened AesField

  // A 32-bit word by its bytes, most significant first.
  datatype Word = Word(b3: Byte, b2: Byte, b1: Byte, b0: Byte)

  function Xor(u: Word, v: Word): Word {
    Word(Add(u.b3, v.b3), Add(u.b2, v.b2), Add(u.b1, v.b1), Add(u.b0, v.b0))
  }

  // ---- The tables, by the equations that define them ----

  function Te0(x: Byte): Word { Word(Mul2(S(x)), S(x), S(x), Mul3(S(x))) }
  function Te1(x: Byte): Word { Word(Mul3(S(x)), Mul2(S(x)), S(x), S(x)) }
  function Te2(x: Byte): Word { Word(S(x), Mul3(S(x)), Mul2(S(x)), S(x)) }
  function Te3(x: Byte): Word { Word(S(x), S(x), Mul3(S(x)), Mul2(S(x))) }
  function Te4_3(x: Byte): Word { Word(S(x), ZERO, ZERO, ZERO) }
  function Te4_2(x: Byte): Word { Word(ZERO, S(x), ZERO, ZERO) }
  function Te4_1(x: Byte): Word { Word(ZERO, ZERO, S(x), ZERO) }
  function Te4_0(x: Byte): Word { Word(ZERO, ZERO, ZERO, S(x)) }

  function Td0(x: Byte): Word { Word(MulE(InvS(x)), Mul9(InvS(x)), MulD(InvS(x)), MulB(InvS(x))) }
  function Td1(x: Byte): Word { Word(MulB(InvS(x)), MulE(InvS(x)), Mul9(InvS(x)), MulD(InvS(x))) }
  function Td2(x: Byte): Word { Word(MulD(InvS(x)), MulB(InvS(x)), MulE(InvS(x)), Mul9(InvS(x))) }
  function Td3(x: Byte): Word { Word(Mul9(InvS(x)), MulD(InvS(x)), MulB(InvS(x)), MulE(InvS(x))) }
  function Td4_3(x: Byte): Word { Word(InvS(x), ZERO, ZERO, ZERO) }
  function Td4_2(x: Byte): Word { Word(ZERO, InvS(x), ZERO, ZERO) }
  function Td4_1(x: Byte): Word { Word(ZERO, ZERO, InvS(x), ZERO) }
  function Td4_0(x: Byte): Word { Word(ZERO, ZERO, ZERO, InvS(x)) }

  // ---- The round functions of sections 5.1 and 5.3 of FIPS 197 ----

  datatype State = State(c0: Word, c1: Word, c2: Word, c3: Word)

  function SubWord(w: Word): Word {
    Word(S(w.b3), S(w.b2), S(w.b1), S(w.b0))
  }

  function InvSubWord(w: Word): Word {
    Word(InvS(w.b3), InvS(w.b2), InvS(w.b1), InvS(w.b0))
  }

  function MixWord(w: Word): Word {
    Word(Add4(Mul2(w.b3), Mul3(w.b2), w.b1, w.b0),
         Add4(w.b3, Mul2(w.b2), Mul3(w.b1), w.b0),
         Add4(w.b3, w.b2, Mul2(w.b1), Mul3(w.b0)),
         Add4(Mul3(w.b3), w.b2, w.b1, Mul2(w.b0)))
  }

  function InvMixWord(w: Word): Word {
    Word(Add4(MulE(w.b3), MulB(w.b2), MulD(w.b1), Mul9(w.b0)),
         Add4(Mul9(w.b3), MulE(w.b2), MulB(w.b1), MulD(w.b0)),
         Add4(MulD(w.b3), Mul9(w.b2), MulE(w.b1), MulB(w.b0)),
         Add4(MulB(w.b3), MulD(w.b2), Mul9(w.b1), MulE(w.b0)))
  }

  // The matrices of sections 5.1.3 and 5.3.3 over the field
  lemma MixWordProducts(w: Word)
    ensures var a0, a1, a2, a3, r := Pack(w.b3), Pack(w.b2), Pack(w.b1), Pack(w.b0), MixWord(w);
      && Pack(r.b3) == Plus4(Product(a0, 0x02), Product(a1, 0x03), a2, a3)
      && Pack(r.b2) == Plus4(a0, Product(a1, 0x02), Product(a2, 0x03), a3)
      && Pack(r.b1) == Plus4(a0, a1, Product(a2, 0x02), Product(a3, 0x03))
      && Pack(r.b0) == Plus4(Product(a0, 0x03), a1, a2, Product(a3, 0x02))
  {
    hide Pack, Product, Plus4, Add4, Mul2, Mul3;
    MulPacked(w.b3);
    MulPacked(w.b2);
    MulPacked(w.b1);
    MulPacked(w.b0);
    Add4Packed(Mul2(w.b3), Mul3(w.b2), w.b1, w.b0);
    Add4Packed(w.b3, Mul2(w.b2), Mul3(w.b1), w.b0);
    Add4Packed(w.b3, w.b2, Mul2(w.b1), Mul3(w.b0));
    Add4Packed(Mul3(w.b3), w.b2, w.b1, Mul2(w.b0));
  }

  lemma InvMixWordProducts(w: Word)
    ensures var a0, a1, a2, a3, r := Pack(w.b3), Pack(w.b2), Pack(w.b1), Pack(w.b0), InvMixWord(w);
      && Pack(r.b3) == Plus4(Product(a0, 0x0e), Product(a1, 0x0b), Product(a2, 0x0d), Product(a3, 0x09))
      && Pack(r.b2) == Plus4(Product(a0, 0x09), Product(a1, 0x0e), Product(a2, 0x0b), Product(a3, 0x0d))
      && Pack(r.b1) == Plus4(Product(a0, 0x0d), Product(a1, 0x09), Product(a2, 0x0e), Product(a3, 0x0b))
      && Pack(r.b0) == Plus4(Product(a0, 0x0b), Product(a1, 0x0d), Product(a2, 0x09), Product(a3, 0x0e))
  {
    hide Pack, Product, Plus4, Add4, Mul9, MulB, MulD, MulE;
    MulPacked(w.b3);
    MulPacked(w.b2);
    MulPacked(w.b1);
    MulPacked(w.b0);
    Add4Packed(MulE(w.b3), MulB(w.b2), MulD(w.b1), Mul9(w.b0));
    Add4Packed(Mul9(w.b3), MulE(w.b2), MulB(w.b1), MulD(w.b0));
    Add4Packed(MulD(w.b3), Mul9(w.b2), MulE(w.b1), MulB(w.b0));
    Add4Packed(MulB(w.b3), MulD(w.b2), Mul9(w.b1), MulE(w.b0));
  }

  function SubBytes(s: State): State {
    State(SubWord(s.c0), SubWord(s.c1), SubWord(s.c2), SubWord(s.c3))
  }

  function InvSubBytes(s: State): State {
    State(InvSubWord(s.c0), InvSubWord(s.c1), InvSubWord(s.c2), InvSubWord(s.c3))
  }

  function ShiftRows(s: State): State {
    State(Word(s.c0.b3, s.c1.b2, s.c2.b1, s.c3.b0), Word(s.c1.b3, s.c2.b2, s.c3.b1, s.c0.b0),
          Word(s.c2.b3, s.c3.b2, s.c0.b1, s.c1.b0), Word(s.c3.b3, s.c0.b2, s.c1.b1, s.c2.b0))
  }

  function InvShiftRows(s: State): State {
    State(Word(s.c0.b3, s.c3.b2, s.c2.b1, s.c1.b0), Word(s.c1.b3, s.c0.b2, s.c3.b1, s.c2.b0),
          Word(s.c2.b3, s.c1.b2, s.c0.b1, s.c3.b0), Word(s.c3.b3, s.c2.b2, s.c1.b1, s.c0.b0))
  }

  function MixColumns(s: State): State {
    State(MixWord(s.c0), MixWord(s.c1), MixWord(s.c2), MixWord(s.c3))
  }

  function InvMixColumns(s: State): State {
    State(InvMixWord(s.c0), InvMixWord(s.c1), InvMixWord(s.c2), InvMixWord(s.c3))
  }

  function AddRoundKey(s: State, k: State): State {
    State(Xor(s.c0, k.c0), Xor(s.c1, k.c1), Xor(s.c2, k.c2), Xor(s.c3, k.c3))
  }

  // The byte in row r and column c
  function At(s: State, r: nat, c: nat): Byte
    requires r < 4 && c < 4
  {
    var w := if c == 0 then s.c0 else if c == 1 then s.c1 else if c == 2 then s.c2 else s.c3;
    if r == 0 then w.b3 else if r == 1 then w.b2 else if r == 2 then w.b1 else w.b0
  }

  // Row r turns left by r places, and back.
  lemma ShiftedRow(s: State, r: nat, c: nat)
    requires r < 4 && c < 4
    ensures At(ShiftRows(s), r, c) == At(s, r, (c + r) % 4)
    ensures At(InvShiftRows(s), r, (c + r) % 4) == At(s, r, c)
  {
  }

  // The i-th round key of a schedule
  function RoundKey(ks: seq<Word>, i: nat): State
    requires 4 * i + 4 <= |ks|
  {
    State(ks[4 * i], ks[4 * i + 1], ks[4 * i + 2], ks[4 * i + 3])
  }

  // The state before the last round, and after all of them.
  function Rounds(s: State, ks: seq<Word>, i: nat): State
    requires 4 * i + 4 <= |ks|
  {
    if i == 0 then AddRoundKey(s, RoundKey(ks, 0))
    else AddRoundKey(MixColumns(ShiftRows(SubBytes(Rounds(s, ks, i - 1)))), RoundKey(ks, i))
  }

  function Cipher(s: State, ks: seq<Word>, nr: nat): State
    requires nr > 0 && 4 * nr + 4 <= |ks|
  {
    AddRoundKey(ShiftRows(SubBytes(Rounds(s, ks, nr - 1))), RoundKey(ks, nr))
  }

  // The equivalent inverse cipher of section 5.3.5
  function InvRounds(s: State, ks: seq<Word>, i: nat): State
    requires 4 * i + 4 <= |ks|
  {
    if i == 0 then AddRoundKey(s, RoundKey(ks, 0))
    else AddRoundKey(InvMixColumns(InvShiftRows(InvSubBytes(InvRounds(s, ks, i - 1)))), RoundKey(ks, i))
  }

  function EqInvCipher(s: State, ks: seq<Word>, nr: nat): State
    requires nr > 0 && 4 * nr + 4 <= |ks|
  {
    AddRoundKey(InvShiftRows(InvSubBytes(InvRounds(s, ks, nr - 1))), RoundKey(ks, nr))
  }

  // ---- The inverse steps undo the steps. ----

  lemma InvMixXor(u: Word, v: Word)
    ensures InvMixWord(Xor(u, v)) == Xor(InvMixWord(u), InvMixWord(v))
  {
    hide Add, Add4, Mul9, MulB, MulD, MulE;
    MulAdd(u.b3, v.b3);
    MulAdd(u.b2, v.b2);
    MulAdd(u.b1, v.b1);
    MulAdd(u.b0, v.b0);
    Add4Swap(MulE(u.b3), MulB(u.b2), MulD(u.b1), Mul9(u.b0), MulE(v.b3), MulB(v.b2), MulD(v.b1), Mul9(v.b0));
    Add4Swap(Mul9(u.b3), MulE(u.b2), MulB(u.b1), MulD(u.b0), Mul9(v.b3), MulE(v.b2), MulB(v.b1), MulD(v.b0));
    Add4Swap(MulD(u.b3), Mul9(u.b2), MulE(u.b1), MulB(u.b0), MulD(v.b3), Mul9(v.b2), MulE(v.b1), MulB(v.b0));
    Add4Swap(MulB(u.b3), MulD(u.b2), Mul9(u.b1), MulE(u.b0), MulB(v.b3), MulD(v.b2), Mul9(v.b1), MulE(v.b0));
  }

  // InvMixColumns of the part of MixColumns that each byte makes
  lemma InvMixPart(a: Byte)
    ensures InvMixWord(Word(Mul2(a), a, a, Mul3(a))) == Word(a, ZERO, ZERO, ZERO)
    ensures InvMixWord(Word(Mul3(a), Mul2(a), a, a)) == Word(ZERO, a, ZERO, ZERO)
    ensures InvMixWord(Word(a, Mul3(a), Mul2(a), a)) == Word(ZERO, ZERO, a, ZERO)
    ensures InvMixWord(Word(a, a, Mul3(a), Mul2(a))) == Word(ZERO, ZERO, ZERO, a)
  {
    hide Add4, Mul2, Mul3, Mul9, MulB, MulD, MulE;
    InvMixByte(a);
    Rotations(MulE(Mul2(a)), MulB(a), MulD(a), Mul9(Mul3(a)));
    Rotations(Mul9(Mul2(a)), MulE(a), MulB(a), MulD(Mul3(a)));
    Rotations(MulD(Mul2(a)), Mul9(a), MulE(a), MulB(Mul3(a)));
    Rotations(MulB(Mul2(a)), MulD(a), Mul9(a), MulE(Mul3(a)));
  }

  lemma Rotations(a: Byte, b: Byte, c: Byte, d: Byte)
    ensures Add4(a, b, c, d) == Add4(b, c, d, a) == Add4(c, d, a, b) == Add4(d, a, b, c)
  {
    hide Add4;
    AddRotate(a, b, c, d);
    AddRotate(b, c, d, a);
    AddRotate(c, d, a, b);
  }

  lemma InvMixMix(w: Word)
    ensures InvMixWord(MixWord(w)) == w
  {
    hide InvMixWord, Mul2, Mul3, Add;
    var p3 := Word(Mul2(w.b3), w.b3, w.b3, Mul3(w.b3));
    var p2 := Word(Mul3(w.b2), Mul2(w.b2), w.b2, w.b2);
    var p1 := Word(w.b1, Mul3(w.b1), Mul2(w.b1), w.b1);
    var p0 := Word(w.b0, w.b0, Mul3(w.b0), Mul2(w.b0));
    InvMixPart(w.b3);
    InvMixPart(w.b2);
    InvMixPart(w.b1);
    InvMixPart(w.b0);
    assert MixWord(w) == Xor(Xor(Xor(p3, p2), p1), p0);
    InvMixXor(Xor(Xor(p3, p2), p1), p0);
    InvMixXor(Xor(p3, p2), p1);
    InvMixXor(p3, p2);
    AddZero(w.b3);
    AddZero(w.b2);
    AddZero(w.b1);
    AddZero(w.b0);
    AddZero(ZERO);
  }

  lemma UndoWord(w: Word)
    ensures InvSubWord(SubWord(w)) == w
  {
    hide S, InvS;
    BoxInverse(w.b3);
    BoxInverse(w.b2);
    BoxInverse(w.b1);
    BoxInverse(w.b0);
  }

  lemma InvSubShift(s: State)
    ensures InvSubBytes(ShiftRows(s)) == ShiftRows(InvSubBytes(s))
  {
    hide InvS;
  }

  lemma UndoSubShift(s: State)
    ensures InvShiftRows(InvSubBytes(ShiftRows(SubBytes(s)))) == s
  {
    hide SubWord, InvSubWord;
    InvSubShift(SubBytes(s));
    UndoWord(s.c0);
    UndoWord(s.c1);
    UndoWord(s.c2);
    UndoWord(s.c3);
  }

  lemma UndoKey(s: State, k: State)
    ensures AddRoundKey(AddRoundKey(s, k), k) == s
  {
    hide Xor;
    UndoXor(s.c0, k.c0);
    UndoXor(s.c1, k.c1);
    UndoXor(s.c2, k.c2);
    UndoXor(s.c3, k.c3);
  }

  lemma UndoXor(u: Word, v: Word)
    ensures Xor(Xor(u, v), v) == u
  {
    hide Add;
    AddCancel(u.b3, v.b3);
    AddCancel(u.b2, v.b2);
    AddCancel(u.b1, v.b1);
    AddCancel(u.b0, v.b0);
  }

  lemma UndoMixKey(s: State, k: State)
    ensures AddRoundKey(InvMixColumns(AddRoundKey(MixColumns(s), k)), InvMixColumns(k)) == s
  {
    hide Xor, MixWord, InvMixWord;
    var m := MixColumns(s);
    InvMixXor(m.c0, k.c0);
    InvMixXor(m.c1, k.c1);
    InvMixXor(m.c2, k.c2);
    InvMixXor(m.c3, k.c3);
    InvMixMix(s.c0);
    InvMixMix(s.c1);
    InvMixMix(s.c2);
    InvMixMix(s.c3);
    UndoKey(s, InvMixColumns(k));
  }

  // dk is ek backwards, with the inner round keys through InvMixColumns.
  predicate IsInverseSchedule(ek: seq<Word>, dk: seq<Word>, nr: nat) {
    && nr > 0 && 4 * nr + 4 <= |ek| && 4 * nr + 4 <= |dk|
    && RoundKey(dk, 0) == RoundKey(ek, nr) && RoundKey(dk, nr) == RoundKey(ek, 0)
    && forall i :: 0 < i < nr ==> RoundKey(dk, i) == InvMixColumns(RoundKey(ek, nr - i))
  }

  lemma {:induction false} RoundsUndone(s: State, ek: seq<Word>, dk: seq<Word>, nr: nat, i: nat)
    requires IsInverseSchedule(ek, dk, nr) && i < nr
    ensures InvRounds(Cipher(s, ek, nr), dk, i) == ShiftRows(SubBytes(Rounds(s, ek, nr - 1 - i)))
  {
    hide SubBytes, ShiftRows, InvSubBytes, InvShiftRows, MixColumns, InvMixColumns, AddRoundKey, RoundKey;
    if i == 0 {
      UndoKey(ShiftRows(SubBytes(Rounds(s, ek, nr - 1))), RoundKey(ek, nr));
    } else {
      RoundsUndone(s, ek, dk, nr, i - 1);
      UndoSubShift(Rounds(s, ek, nr - i));
      UndoMixKey(ShiftRows(SubBytes(Rounds(s, ek, nr - 1 - i))), RoundKey(ek, nr - i));
    }
  }

  // Decryption undoes encryption, whatever the keys.
  lemma CipherUndone(s: State, ek: seq<Word>, dk: seq<Word>, nr: nat)
    requires IsInverseSchedule(ek, dk, nr)
    ensures EqInvCipher(Cipher(s, ek, nr), dk, nr) == s
  {
    hide SubBytes, ShiftRows, InvSubBytes, InvShiftRows, AddRoundKey, RoundKey;
    hide Cipher, InvRounds, MixColumns, InvMixColumns;
    RoundsUndone(s, ek, dk, nr, nr - 1);
    UndoSubShift(Rounds(s, ek, 0));
    UndoKey(s, RoundKey(ek, 0));
  }
}
