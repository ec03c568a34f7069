// The key object of the cipher: setting up both schedules, and encrypting and
// decrypting a block through the tables.
module Rijndael {
  import opened Results
  import opened AesBox
  import opened AesField
  import opened Aes

  function LoadWord(b: seq<Byte>, i: nat): Word
    requires i + 4 <= |b|
  {
    Word(b[i], b[i + 1], b[i + 2], b[i + 3])
  }

  function LoadState(b: seq<Byte>): State
    requires |b| >= 16
  {
    State(LoadWord(b, 0), LoadWord(b, 4), LoadWord(b, 8), LoadWord(b, 12))
  }

  // Byte 4c + r of the block stands in row r and column c.
  lemma LoadedByte(b: seq<Byte>, r: nat, c: nat)
    requires |b| >= 16 && r < 4 && c < 4
    ensures At(LoadState(b), r, c) == b[4 * c + r]
  {
  }

  // ---- The key expansion of section 5.2 of FIPS 197 ----

  function RotWord(w: Word): Word {
    Word(w.b2, w.b1, w.b0, w.b3)
  }

  function Power(j: nat): Byte {
    if j == 0 then Byte(false, false, false, false, false, false, false, true) else Mul2(Power(j - 1))
  }

  function Rcon(j: nat): Word {
    Word(Power(j), ZERO, ZERO, ZERO)
  }

  const CONSTANTS: seq<bv8> := [0x01, 0x02, 0x04, 0x08, 0x10, 0x20, 0x40, 0x80, 0x1b, 0x36]

  // The powers of 2 in the field stand for the first bytes of the table.
  lemma {:induction false} PowersOfTwo(j: nat)
    ensures Pack(Power(0)) == 0x01 && Pack(Power(j + 1)) == Product(Pack(Power(j)), 0x02)
    ensures j < 10 ==> Pack(Rcon(j).b3) == CONSTANTS[j] && Rcon(j).b2 == Rcon(j).b1 == Rcon(j).b0 == ZERO
  {
    hide Pack, Mul2, Product;
    MulPacked(Power(j));
    One();
    if 0 < j < 10 {
      PowersOfTwo(j - 1);
      NextConstant(j);
    }
  }

  lemma One()
    ensures Pack(Power(0)) == 0x01
  {
  }

  lemma NextConstant(j: nat)
    requires 0 < j < 10
    ensures CONSTANTS[j] == Product(CONSTANTS[j - 1], 0x02)
  {
  }

  predicate IsKey(key: seq<Byte>) {
    |key| == 16 || |key| == 24 || |key| == 32
  }

  function KeyRounds(key: seq<Byte>): nat
    requires IsKey(key)
  {
    10 + (|key| / 8 - 2) * 2
  }

  function Expanded(key: seq<Byte>, i: nat): Word
    requires IsKey(key)
  {
    var nk := |key| / 4;
    if i < nk then LoadWord(key, 4 * i)
    else Xor(Expanded(key, i - nk), Mixed(nk, i, Expanded(key, i - 1)))
  }

  // What the previous word contributes to word i
  function Mixed(nk: nat, i: nat, previous: Word): Word
    requires 4 <= nk <= i
  {
    if i % nk == 0 then Xor(SubWord(RotWord(previous)), Rcon(i / nk - 1))
    else if nk > 6 && i % nk == 4 then SubWord(previous)
    else previous
  }

  ghost predicate ExpandedTo(key: seq<Byte>, k: seq<Word>, n: nat)
    requires IsKey(key)
  {
    n <= |k| && forall i :: 0 <= i < n ==> k[i] == Expanded(key, i)
  }

  lemma ExpandOne(key: seq<Byte>, k: seq<Word>, n: nat, w: Word)
    requires IsKey(key) && ExpandedTo(key, k, n) && |key| / 4 <= n < |k|
    requires w == Xor(k[n - |key| / 4], Mixed(|key| / 4, n, k[n - 1]))
    ensures ExpandedTo(key, k[n := w], n + 1)
  {
    hide Expanded, Mixed, Xor;
    ExpandedNext(key, n);
  }

  lemma ExpandedNext(key: seq<Byte>, n: nat)
    requires IsKey(key) && |key| / 4 <= n
    ensures Expanded(key, n)
         == Xor(Expanded(key, n - |key| / 4), Mixed(|key| / 4, n, Expanded(key, n - 1)))
  {
    hide Mixed, Xor;
  }

  // rk[n] = rk[n-nk] ^ Te4_3[byte(t,2)] ^ Te4_2[byte(t,1)] ^ Te4_1[byte(t,0)] ^ Te4_0[byte(t,3)] ^ rcon[i]
  lemma RotatedWord(r: Word, t: Word, c: Word)
    ensures Xor(Xor(Xor(Xor(Xor(r, Te4_3(t.b2)), Te4_2(t.b1)), Te4_1(t.b0)), Te4_0(t.b3)), c)
         == Xor(r, Xor(SubWord(RotWord(t)), c))
  {
    hide Add, S;
    XorParts(r, S(t.b2), S(t.b1), S(t.b0), S(t.b3));
    XorAssoc(r, SubWord(RotWord(t)), c);
  }

  lemma PlainWord(r: Word, t: Word)
    ensures Xor(Xor(Xor(Xor(r, Te4_3(t.b3)), Te4_2(t.b2)), Te4_1(t.b1)), Te4_0(t.b0)) == Xor(r, SubWord(t))
  {
    hide Add, S;
    XorParts(r, S(t.b3), S(t.b2), S(t.b1), S(t.b0));
  }

  lemma XorParts(r: Word, p: Byte, q: Byte, s: Byte, t: Byte)
    ensures Xor(Xor(Xor(Xor(r, Word(p, ZERO, ZERO, ZERO)), Word(ZERO, q, ZERO, ZERO)),
                    Word(ZERO, ZERO, s, ZERO)), Word(ZERO, ZERO, ZERO, t))
         == Xor(r, Word(p, q, s, t))
  {
    hide Add;
    AddZero(r.b3);
    AddZero(r.b2);
    AddZero(r.b1);
    AddZero(r.b0);
    AddZero(Add(r.b3, p));
    AddZero(Add(r.b2, q));
    AddZero(Add(r.b1, s));
  }

  lemma XorAssoc(u: Word, v: Word, w: Word)
    ensures Xor(Xor(u, v), w) == Xor(u, Xor(v, w))
  {
    hide Add;
    AddAssoc(u.b3, v.b3, w.b3);
    AddAssoc(u.b2, v.b2, w.b2);
    AddAssoc(u.b1, v.b1, w.b1);
    AddAssoc(u.b0, v.b0, w.b0);
  }

  lemma TurnedWord(nk: nat, n: nat, i: nat, r: Word, t: Word)
    requires (nk == 4 && n == 4 * i + 4) || (nk == 6 && n == 6 * i + 6) || (nk == 8 && n == 8 * i + 8)
    ensures Xor(Xor(Xor(Xor(Xor(r, Te4_3(t.b2)), Te4_2(t.b1)), Te4_1(t.b0)), Te4_0(t.b3)), Rcon(i))
         == Xor(r, Mixed(nk, n, t))
  {
    hide Xor, Rcon, Te4_0, Te4_1, Te4_2, Te4_3, SubWord;
    RotatedWord(r, t, Rcon(i));
    assert n % nk == 0 && n / nk - 1 == i;
  }

  // ---- One output word of a round, through the tables ----

  function TableColumn(a: Byte, b: Byte, c: Byte, d: Byte, k: Word): Word {
    Xor(Xor(Xor(Xor(Te0(a), Te1(b)), Te2(c)), Te3(d)), k)
  }

  function LastColumn(a: Byte, b: Byte, c: Byte, d: Byte, k: Word): Word {
    Xor(Xor(Xor(Xor(Te4_3(a), Te4_2(b)), Te4_1(c)), Te4_0(d)), k)
  }

  function InvTableColumn(a: Byte, b: Byte, c: Byte, d: Byte, k: Word): Word {
    Xor(Xor(Xor(Xor(Td0(a), Td1(b)), Td2(c)), Td3(d)), k)
  }

  function InvLastColumn(a: Byte, b: Byte, c: Byte, d: Byte, k: Word): Word {
    Xor(Xor(Xor(Xor(Td4_3(a), Td4_2(b)), Td4_1(c)), Td4_0(d)), k)
  }

  lemma TableWord(w: Word, k: Word)
    ensures TableColumn(w.b3, w.b2, w.b1, w.b0, k) == Xor(MixWord(SubWord(w)), k)
  {
    hide S, Add, Mul2, Mul3;
  }

  lemma LastWord(w: Word, k: Word)
    ensures LastColumn(w.b3, w.b2, w.b1, w.b0, k) == Xor(SubWord(w), k)
  {
    hide S, Add;
    AddZero(S(w.b3));
    AddZero(S(w.b2));
    AddZero(S(w.b1));
    AddZero(S(w.b0));
    AddZero(ZERO);
  }

  lemma InvTableWord(w: Word, k: Word)
    ensures InvTableColumn(w.b3, w.b2, w.b1, w.b0, k) == Xor(InvMixWord(InvSubWord(w)), k)
  {
    hide InvS, Add, Mul9, MulB, MulD, MulE;
  }

  lemma InvLastWord(w: Word, k: Word)
    ensures InvLastColumn(w.b3, w.b2, w.b1, w.b0, k) == Xor(InvSubWord(w), k)
  {
    hide InvS, Add;
    AddZero(InvS(w.b3));
    AddZero(InvS(w.b2));
    AddZero(InvS(w.b1));
    AddZero(InvS(w.b0));
    AddZero(ZERO);
  }

  lemma TableRound(s: State, k: State)
    ensures State(TableColumn(s.c0.b3, s.c1.b2, s.c2.b1, s.c3.b0, k.c0),
                  TableColumn(s.c1.b3, s.c2.b2, s.c3.b1, s.c0.b0, k.c1),
                  TableColumn(s.c2.b3, s.c3.b2, s.c0.b1, s.c1.b0, k.c2),
                  TableColumn(s.c3.b3, s.c0.b2, s.c1.b1, s.c2.b0, k.c3))
         == AddRoundKey(MixColumns(ShiftRows(SubBytes(s))), k)
  {
    hide TableColumn, MixWord, Xor, S;
    var w := ShiftRows(s);
    TableWord(w.c0, k.c0);
    TableWord(w.c1, k.c1);
    TableWord(w.c2, k.c2);
    TableWord(w.c3, k.c3);
  }

  lemma LastRound(s: State, k: State)
    ensures State(LastColumn(s.c0.b3, s.c1.b2, s.c2.b1, s.c3.b0, k.c0),
                  LastColumn(s.c1.b3, s.c2.b2, s.c3.b1, s.c0.b0, k.c1),
                  LastColumn(s.c2.b3, s.c3.b2, s.c0.b1, s.c1.b0, k.c2),
                  LastColumn(s.c3.b3, s.c0.b2, s.c1.b1, s.c2.b0, k.c3))
         == AddRoundKey(ShiftRows(SubBytes(s)), k)
  {
    hide LastColumn, Xor, S;
    var w := ShiftRows(s);
    LastWord(w.c0, k.c0);
    LastWord(w.c1, k.c1);
    LastWord(w.c2, k.c2);
    LastWord(w.c3, k.c3);
  }

  lemma InvTableRound(s: State, k: State)
    ensures State(InvTableColumn(s.c0.b3, s.c3.b2, s.c2.b1, s.c1.b0, k.c0),
                  InvTableColumn(s.c1.b3, s.c0.b2, s.c3.b1, s.c2.b0, k.c1),
                  InvTableColumn(s.c2.b3, s.c1.b2, s.c0.b1, s.c3.b0, k.c2),
                  InvTableColumn(s.c3.b3, s.c2.b2, s.c1.b1, s.c0.b0, k.c3))
         == AddRoundKey(InvMixColumns(InvShiftRows(InvSubBytes(s))), k)
  {
    hide InvTableColumn, InvMixWord, Xor, InvS;
    var w := InvShiftRows(s);
    InvTableWord(w.c0, k.c0);
    InvTableWord(w.c1, k.c1);
    InvTableWord(w.c2, k.c2);
    InvTableWord(w.c3, k.c3);
  }

  lemma InvLastRound(s: State, k: State)
    ensures State(InvLastColumn(s.c0.b3, s.c3.b2, s.c2.b1, s.c1.b0, k.c0),
                  InvLastColumn(s.c1.b3, s.c0.b2, s.c3.b1, s.c2.b0, k.c1),
                  InvLastColumn(s.c2.b3, s.c1.b2, s.c0.b1, s.c3.b0, k.c2),
                  InvLastColumn(s.c3.b3, s.c2.b2, s.c1.b1, s.c0.b0, k.c3))
         == AddRoundKey(InvShiftRows(InvSubBytes(s)), k)
  {
    hide InvLastColumn, Xor, InvS;
    var w := InvShiftRows(s);
    InvLastWord(w.c0, k.c0);
    InvLastWord(w.c1, k.c1);
    InvLastWord(w.c2, k.c2);
    InvLastWord(w.c3, k.c3);
  }

  method StoreWord(w: Word, b: array<Byte>, i: nat)
    requires i + 4 <= b.Length
    modifies b
    ensures LoadWord(b[..], i) == w
    ensures forall j :: 0 <= j < i || i + 4 <= j < b.Length ==> b[j] == old(b[j])
  {
    b[i], b[i + 1], b[i + 2], b[i + 3] := w.b3, w.b2, w.b1, w.b0;
  }

  method StoreState(s: State, b: array<Byte>)
    requires b.Length >= 16
    modifies b
    ensures LoadState(b[..]) == s
    ensures forall j :: 16 <= j < b.Length ==> b[j] == old(b[j])
  {
    StoreWord(s.c0, b, 0);
    StoreWord(s.c1, b, 4);
    StoreWord(s.c2, b, 8);
    StoreWord(s.c3, b, 12);
  }

  class Key {
    var Nr: nat
    const eK: array<Word>
    const dK: array<Word>

    ghost predicate Valid()
      reads this
    {
      eK.Length == 64 && dK.Length == 64 && eK != dK && (Nr == 10 || Nr == 12 || Nr == 14)
    }

    constructor ()
      ensures Valid() && fresh(eK) && fresh(dK)
    {
      var zero := Word(ZERO, ZERO, ZERO, ZERO);
      eK := new Word[64](_ => zero);
      dK := new Word[64](_ => zero);
      Nr := 10;
    }

    // eK[n] = eK[n-nk] ^ eK[n-1]
    method Chain(key: seq<Byte>, n: nat)
      requires Valid() && IsKey(key) && ExpandedTo(key, eK[..], n) && |key| / 4 <= n < 64
      requires n % (|key| / 4) != 0 && (|key| == 32 ==> n % 8 != 4)
      modifies eK
      ensures ExpandedTo(key, eK[..], n + 1)
    {
      hide ExpandedTo, Xor;
      var nk := |key| / 4;
      ExpandOne(key, eK[..], n, Xor(eK[n - nk], eK[n - 1]));
      eK[n] := Xor(eK[n - nk], eK[n - 1]);
    }

    // eK[n] from the rotated and substituted word before it, and rcon[i]
    method Turn(key: seq<Byte>, n: nat, i: nat)
      requires Valid() && IsKey(key) && ExpandedTo(key, eK[..], n) && n < 64
      requires n == if |key| == 16 then 4 * i + 4 else if |key| == 24 then 6 * i + 6 else 8 * i + 8
      modifies eK
      ensures ExpandedTo(key, eK[..], n + 1)
    {
      hide ExpandedTo, Mixed, Xor, Rcon, Te4_0, Te4_1, Te4_2, Te4_3;
      var nk := |key| / 4;
      var temp := eK[n - 1];
      TurnedWord(nk, n, i, eK[n - nk], temp);
      ExpandOne(key, eK[..], n, Xor(eK[n - nk], Mixed(nk, n, temp)));
      eK[n] := Xor(Xor(Xor(Xor(Xor(eK[n - nk],
        Te4_3(temp.b2)), Te4_2(temp.b1)), Te4_1(temp.b0)), Te4_0(temp.b3)), Rcon(i));
    }

    method ExpandKey(key: seq<Byte>)
      requires Valid() && IsKey(key) && ExpandedTo(key, eK[..], |key| / 4)
      modifies eK
      ensures ExpandedTo(key, eK[..], 4 * (KeyRounds(key) + 1))
    {
      hide ExpandedTo;
      var i, rk := 0, 0;
      if |key| == 16 {
        while true
          invariant 0 <= i < 10 && rk == 4 * i && ExpandedTo(key, eK[..], rk + 4)
          decreases 10 - i
        {
          Turn(key, rk + 4, i);
          Chain(key, rk + 5);
          Chain(key, rk + 6);
          Chain(key, rk + 7);
          i := i + 1;
          if i == 10 {
            break;
          }
          rk := rk + 4;
        }
      } else if |key| == 24 {
        while true
          invariant 0 <= i < 8 && rk == 6 * i && ExpandedTo(key, eK[..], rk + 6)
          decreases 8 - i
        {
          Turn(key, rk + 6, i);
          Chain(key, rk + 7);
          Chain(key, rk + 8);
          Chain(key, rk + 9);
          i := i + 1;
          if i == 8 {
            break;
          }
          Chain(key, rk + 10);
          Chain(key, rk + 11);
          rk := rk + 6;
        }
      } else {
        while true
          invariant 0 <= i < 7 && rk == 8 * i && ExpandedTo(key, eK[..], rk + 8)
          decreases 7 - i
        {
          Turn(key, rk + 8, i);
          Chain(key, rk + 9);
          Chain(key, rk + 10);
          Chain(key, rk + 11);
          i := i + 1;
          if i == 7 {
            break;
          }
          Substitute(key, rk + 12);
          Chain(key, rk + 13);
          Chain(key, rk + 14);
          Chain(key, rk + 15);
          rk := rk + 8;
        }
      }
    }

    // eK[n] from the substituted word before it, in 256-bit keys
    method Substitute(key: seq<Byte>, n: nat)
      requires Valid() && |key| == 32 && ExpandedTo(key, eK[..], n) && 8 <= n < 64 && n % 8 == 4
      modifies eK
      ensures ExpandedTo(key, eK[..], n + 1)
    {
      hide ExpandedTo, Xor, SubWord, Te4_0, Te4_1, Te4_2, Te4_3;
      var temp := eK[n - 1];
      PlainWord(eK[n - 8], temp);
      ExpandOne(key, eK[..], n, Xor(eK[n - 8], SubWord(temp)));
      eK[n] := Xor(Xor(Xor(Xor(eK[n - 8],
        Te4_3(temp.b3)), Te4_2(temp.b2)), Te4_1(temp.b1)), Te4_0(temp.b0));
    }

    // One inner round key of the inverse schedule, through Td0..Td3 of the
    // substituted bytes.
    method InvertRound(i: nat)
      requires Valid() && 0 < i < Nr && InvertedTo(eK[..], dK[..], Nr, i)
      modifies dK
      ensures InvertedTo(eK[..], dK[..], Nr, i + 1)
    {
      hide InvMixWord, Td0, Td1, Td2, Td3, S, InvertedTo, Xor;
      var rk, rrk := 4 * i, 4 * (Nr - i);
      ghost var before := dK[..];
      for n := 0 to 4
        invariant forall m :: 0 <= m < rk ==> dK[m] == before[m]
        invariant forall m :: rk <= m < rk + n ==> dK[m] == InvMixWord(eK[m - rk + rrk])
      {
        var temp := eK[rrk + n];
        TableInvMix(temp);
        dK[rk + n] := Xor(Xor(Xor(Td0(S(temp.b3)), Td1(S(temp.b2))), Td2(S(temp.b1))), Td3(S(temp.b0)));
      }
      InvertedOne(eK[..], before, dK[..], Nr, i);
    }

    // The inverse schedule: eK backwards, by rounds.
    method InvertKey()
      requires Valid()
      modifies dK
      ensures IsInverseSchedule(eK[..], dK[..], Nr)
    {
      hide InvMixColumns, InvertedTo;
      var rrk := 4 * Nr;
      dK[0], dK[1], dK[2], dK[3] := eK[rrk], eK[rrk + 1], eK[rrk + 2], eK[rrk + 3];
      InvertedFirst(eK[..], dK[..], Nr);
      for i := 1 to Nr
        invariant InvertedTo(eK[..], dK[..], Nr, i)
      {
        InvertRound(i);
      }
      var rk := 4 * Nr;
      ghost var before := dK[..];
      dK[rk], dK[rk + 1], dK[rk + 2], dK[rk + 3] := eK[0], eK[1], eK[2], eK[3];
      InvertedLast(eK[..], before, dK[..], Nr);
    }

    method Setup(key: seq<Byte>, rounds: int) returns (res: Status)
      requires Valid()
      modifies this, eK, dK
      ensures Valid()
      ensures res == if !IsKey(key) then CryptInvalidKeysize
                     else if rounds != 0 && rounds != KeyRounds(key) then CryptInvalidRounds else CryptOk
      ensures res != CryptOk ==> Nr == old(Nr) && eK[..] == old(eK[..]) && dK[..] == old(dK[..])
      ensures res == CryptOk ==> Nr == KeyRounds(key) && ExpandedTo(key, eK[..], 4 * (Nr + 1))
      ensures res == CryptOk ==> IsInverseSchedule(eK[..], dK[..], Nr)
    {
      if |key| != 16 && |key| != 24 && |key| != 32 {
        return CryptInvalidKeysize;
      }
      if rounds != 0 && rounds != 10 + (|key| / 8 - 2) * 2 {
        return CryptInvalidRounds;
      }
      Nr := 10 + (|key| / 8 - 2) * 2;
      for i := 0 to |key| / 4
        invariant Nr == KeyRounds(key)
        invariant ExpandedTo(key, eK[..], i)
      {
        eK[i] := LoadWord(key, 4 * i);
      }
      ExpandKey(key);
      InvertKey();
      return CryptOk;
    }

    // A block encrypted and decrypted with the schedules that Setup makes comes back,
    // in one buffer or in several.
    method EncryptThenDecrypt(pt: array<Byte>, ct: array<Byte>, back: array<Byte>)
      requires Valid() && IsInverseSchedule(eK[..], dK[..], Nr)
      requires pt.Length >= 16 && ct.Length >= 16 && back.Length >= 16
      modifies ct, back
      ensures LoadState(back[..]) == old(LoadState(pt[..]))
    {
      hide Cipher, EqInvCipher, IsInverseSchedule, LoadState;
      CipherUndone(LoadState(pt[..]), eK[..], dK[..], Nr);
      EcbEncrypt(pt, ct);
      EcbDecrypt(ct, back);
    }

    // Two table rounds per turn of the loop; ct may be pt itself.
    method EcbEncrypt(pt: array<Byte>, ct: array<Byte>)
      requires Valid() && pt.Length >= 16 && ct.Length >= 16
      modifies ct
      ensures LoadState(ct[..]) == Cipher(old(LoadState(pt[..])), eK[..], Nr)
      ensures forall j :: 16 <= j < ct.Length ==> ct[j] == old(ct[j])
    {
      hide TableColumn, LastColumn, Xor, LoadWord, AddRoundKey, MixColumns, ShiftRows, SubBytes;
      ghost var m, ks := LoadState(pt[..]), eK[..];
      var s0, s1 := Xor(LoadWord(pt[..], 0), eK[0]), Xor(LoadWord(pt[..], 4), eK[1]);
      var s2, s3 := Xor(LoadWord(pt[..], 8), eK[2]), Xor(LoadWord(pt[..], 12), eK[3]);
      Whitened(m, RoundKey(ks, 0));
      var r, rk := Nr / 2, 0;
      var t0, t1, t2, t3 := s0, s1, s2, s3;
      while true
        invariant 0 < r <= Nr / 2 && rk == 8 * (Nr / 2 - r)
        invariant State(s0, s1, s2, s3) == Rounds(m, ks, rk / 4)
        decreases r
        modifies {}
      {
        t0, t1, t2, t3 :=
          TableColumn(s0.b3, s1.b2, s2.b1, s3.b0, eK[rk + 4]),
          TableColumn(s1.b3, s2.b2, s3.b1, s0.b0, eK[rk + 5]),
          TableColumn(s2.b3, s3.b2, s0.b1, s1.b0, eK[rk + 6]),
          TableColumn(s3.b3, s0.b2, s1.b1, s2.b0, eK[rk + 7]);
        TableRound(State(s0, s1, s2, s3), RoundKey(ks, rk / 4 + 1));
        rk := rk + 8;
        r := r - 1;
        if r == 0 {
          break;
        }
        s0, s1, s2, s3 :=
          TableColumn(t0.b3, t1.b2, t2.b1, t3.b0, eK[rk + 0]),
          TableColumn(t1.b3, t2.b2, t3.b1, t0.b0, eK[rk + 1]),
          TableColumn(t2.b3, t3.b2, t0.b1, t1.b0, eK[rk + 2]),
          TableColumn(t3.b3, t0.b2, t1.b1, t2.b0, eK[rk + 3]);
        TableRound(State(t0, t1, t2, t3), RoundKey(ks, rk / 4));
      }
      s0, s1, s2, s3 :=
          LastColumn(t0.b3, t1.b2, t2.b1, t3.b0, eK[rk + 0]),
          LastColumn(t1.b3, t2.b2, t3.b1, t0.b0, eK[rk + 1]),
          LastColumn(t2.b3, t3.b2, t0.b1, t1.b0, eK[rk + 2]),
          LastColumn(t3.b3, t0.b2, t1.b1, t2.b0, eK[rk + 3]);
      LastRound(State(t0, t1, t2, t3), RoundKey(ks, Nr));
      StoreState(State(s0, s1, s2, s3), ct);
    }

    // The same shape over dK; pt may be ct itself.
    method EcbDecrypt(ct: array<Byte>, pt: array<Byte>)
      requires Valid() && ct.Length >= 16 && pt.Length >= 16
      modifies pt
      ensures LoadState(pt[..]) == EqInvCipher(old(LoadState(ct[..])), dK[..], Nr)
      ensures forall j :: 16 <= j < pt.Length ==> pt[j] == old(pt[j])
    {
      hide InvTableColumn, InvLastColumn, Xor, LoadWord, AddRoundKey, InvMixColumns, InvShiftRows, InvSubBytes;
      ghost var m, ks := LoadState(ct[..]), dK[..];
      var s0, s1 := Xor(LoadWord(ct[..], 0), dK[0]), Xor(LoadWord(ct[..], 4), dK[1]);
      var s2, s3 := Xor(LoadWord(ct[..], 8), dK[2]), Xor(LoadWord(ct[..], 12), dK[3]);
      Whitened(m, RoundKey(ks, 0));
      var r, rk := Nr / 2, 0;
      var t0, t1, t2, t3 := s0, s1, s2, s3;
      while true
        invariant 0 < r <= Nr / 2 && rk == 8 * (Nr / 2 - r)
        invariant State(s0, s1, s2, s3) == InvRounds(m, ks, rk / 4)
        decreases r
        modifies {}
      {
        t0, t1, t2, t3 :=
          InvTableColumn(s0.b3, s3.b2, s2.b1, s1.b0, dK[rk + 4]),
          InvTableColumn(s1.b3, s0.b2, s3.b1, s2.b0, dK[rk + 5]),
          InvTableColumn(s2.b3, s1.b2, s0.b1, s3.b0, dK[rk + 6]),
          InvTableColumn(s3.b3, s2.b2, s1.b1, s0.b0, dK[rk + 7]);
        InvTableRound(State(s0, s1, s2, s3), RoundKey(ks, rk / 4 + 1));
        rk := rk + 8;
        r := r - 1;
        if r == 0 {
          break;
        }
        s0, s1, s2, s3 :=
          InvTableColumn(t0.b3, t3.b2, t2.b1, t1.b0, dK[rk + 0]),
          InvTableColumn(t1.b3, t0.b2, t3.b1, t2.b0, dK[rk + 1]),
          InvTableColumn(t2.b3, t1.b2, t0.b1, t3.b0, dK[rk + 2]),
          InvTableColumn(t3.b3, t2.b2, t1.b1, t0.b0, dK[rk + 3]);
        InvTableRound(State(t0, t1, t2, t3), RoundKey(ks, rk / 4));
      }
      s0, s1, s2, s3 :=
          InvLastColumn(t0.b3, t3.b2, t2.b1, t1.b0, dK[rk + 0]),
          InvLastColumn(t1.b3, t0.b2, t3.b1, t2.b0, dK[rk + 1]),
          InvLastColumn(t2.b3, t1.b2, t0.b1, t3.b0, dK[rk + 2]),
          InvLastColumn(t3.b3, t2.b2, t1.b1, t0.b0, dK[rk + 3]);
      InvLastRound(State(t0, t1, t2, t3), RoundKey(ks, Nr));
      StoreState(State(s0, s1, s2, s3), pt);
    }
  }

  lemma Whitened(s: State, k: State)
    ensures State(Xor(s.c0, k.c0), Xor(s.c1, k.c1), Xor(s.c2, k.c2), Xor(s.c3, k.c3)) == AddRoundKey(s, k)
  {
  }

  // Td0[S(b3)] ^ Td1[S(b2)] ^ Td2[S(b1)] ^ Td3[S(b0)] is InvMixColumns of a word.
  lemma TableInvMix(w: Word)
    ensures Xor(Xor(Xor(Td0(S(w.b3)), Td1(S(w.b2))), Td2(S(w.b1))), Td3(S(w.b0))) == InvMixWord(w)
  {
    hide S, InvS, Add, Mul9, MulB, MulD, MulE;
    BoxInverse(w.b3);
    BoxInverse(w.b2);
    BoxInverse(w.b1);
    BoxInverse(w.b0);
  }

  // The first i round keys of the inverse schedule are in place.
  ghost predicate InvertedTo(ek: seq<Word>, dk: seq<Word>, nr: nat, i: nat) {
    && 4 * nr + 4 <= |ek| && 4 * nr + 4 <= |dk| && i <= nr
    && RoundKey(dk, 0) == RoundKey(ek, nr)
    && forall j :: 0 < j < i ==> RoundKey(dk, j) == InvMixColumns(RoundKey(ek, nr - j))
  }

  lemma InvertedFirst(ek: seq<Word>, dk: seq<Word>, nr: nat)
    requires nr > 0 && 4 * nr + 4 <= |ek| && 4 * nr + 4 <= |dk|
    requires forall m :: 0 <= m < 4 ==> dk[m] == ek[4 * nr + m]
    ensures InvertedTo(ek, dk, nr, 1)
  {
  }

  lemma InvertedOne(ek: seq<Word>, before: seq<Word>, dk: seq<Word>, nr: nat, i: nat)
    requires 0 < i < nr && InvertedTo(ek, before, nr, i) && |dk| == |before|
    requires forall m :: 0 <= m < 4 * i ==> dk[m] == before[m]
    requires forall m :: 4 * i <= m < 4 * i + 4 ==> dk[m] == InvMixWord(ek[m - 4 * i + 4 * (nr - i)])
    ensures InvertedTo(ek, dk, nr, i + 1)
  {
    hide InvMixWord;
    forall j | 0 <= j < i
      ensures RoundKey(dk, j) == RoundKey(before, j)
    {
    }
  }

  lemma InvertedLast(ek: seq<Word>, before: seq<Word>, dk: seq<Word>, nr: nat)
    requires nr > 0 && InvertedTo(ek, before, nr, nr) && |dk| == |before|
    requires forall m :: 0 <= m < 4 * nr ==> dk[m] == before[m]
    requires forall m :: 0 <= m < 4 ==> dk[4 * nr + m] == ek[m]
    ensures IsInverseSchedule(ek, dk, nr)
  {
    hide InvMixColumns;
    forall j | 0 <= j < nr
      ensures RoundKey(dk, j) == RoundKey(before, j)
    {
    }
  }
}
