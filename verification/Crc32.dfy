// The CRC-32 of the keyring: the table-driven, eightfold unrolled loop against the
// division of the reflected polynomial, bit by bit.
module Crc32 {

  // ---- The operators, named so that proofs can go by their laws ----

  function Plus(c: bv32, d: bv32): bv32 {
    c ^ d
  }

  function Flip(c: bv32): bv32 {
    c ^ 0xffff_ffff
  }

  // crc ^ *buf
  function Fed(c: bv32, b: bv8): bv32 {
    c ^ (b as bv32)
  }

  function Low(c: bv32): bv8 {
    (c & 0xff) as bv8
  }

  function Wide(b: bv8): bv32 {
    b as bv32
  }

  function High(c: bv32): bv32 {
    c >> 8
  }

  // ---- One byte, bit by bit ----

  function Shifted(c: bv32): bv32 {
    if c & 1 != 0 then (c >> 1) ^ 0xedb88320 else c >> 1
  }

  function Divided(c: bv32): bv32 {
    Shifted(Shifted(Shifted(Shifted(Shifted(Shifted(Shifted(Shifted(c))))))))
  }

  function Byte(c: bv32, b: bv8): bv32 {
    Divided(Fed(c, b))
  }

  // ---- One byte, by the table ----

  // crc_table[(crc ^ b) & 0xff] ^ (crc >> 8)
  function TableByte(c: bv32, b: bv8): bv32 {
    Plus(Table(Low(Fed(c, b))), High(c))
  }

  lemma TableDivides(x: bv8)
    ensures Table(x) == Divided(Wide(x))
  {
  }

  lemma ShiftedPlus(c: bv32, d: bv32)
    ensures Shifted(Plus(c, d)) == Plus(Shifted(c), Shifted(d))
  {
    hide Shifted, Plus;
    if c & 1 == 0 {
      if d & 1 == 0 {
        EvenEven(c, d);
      } else {
        EvenOdd(c, d);
      }
    } else if d & 1 == 0 {
      OddEven(c, d);
    } else {
      OddOdd(c, d);
    }
  }

  lemma EvenEven(c: bv32, d: bv32)
    requires c & 1 == 0 && d & 1 == 0
    ensures Shifted(Plus(c, d)) == Plus(Shifted(c), Shifted(d))
  {
  }

  lemma EvenOdd(c: bv32, d: bv32)
    requires c & 1 == 0 && d & 1 != 0
    ensures Shifted(Plus(c, d)) == Plus(Shifted(c), Shifted(d))
  {
  }

  lemma OddEven(c: bv32, d: bv32)
    requires c & 1 != 0 && d & 1 == 0
    ensures Shifted(Plus(c, d)) == Plus(Shifted(c), Shifted(d))
  {
  }

  lemma OddOdd(c: bv32, d: bv32)
    requires c & 1 != 0 && d & 1 != 0
    ensures Shifted(Plus(c, d)) == Plus(Shifted(c), Shifted(d))
  {
  }

  lemma ShiftedInjective(c: bv32, d: bv32)
    requires Shifted(c) == Shifted(d)
    ensures c == d
  {
  }

  // The division is linear.
  lemma DividedPlus(c: bv32, d: bv32)
    ensures Divided(Plus(c, d)) == Plus(Divided(c), Divided(d))
  {
    hide Shifted, Plus;
    var c1, d1 := Shifted(c), Shifted(d);
    var c2, d2 := Shifted(c1), Shifted(d1);
    var c3, d3 := Shifted(c2), Shifted(d2);
    var c4, d4 := Shifted(c3), Shifted(d3);
    var c5, d5 := Shifted(c4), Shifted(d4);
    var c6, d6 := Shifted(c5), Shifted(d5);
    var c7, d7 := Shifted(c6), Shifted(d6);
    ShiftedPlus(c, d);
    ShiftedPlus(c1, d1);
    ShiftedPlus(c2, d2);
    ShiftedPlus(c3, d3);
    ShiftedPlus(c4, d4);
    ShiftedPlus(c5, d5);
    ShiftedPlus(c6, d6);
    ShiftedPlus(c7, d7);
  }

  lemma DividedInjective(c: bv32, d: bv32)
    requires Divided(c) == Divided(d)
    ensures c == d
  {
    hide Shifted;
    var c1, d1 := Shifted(c), Shifted(d);
    var c2, d2 := Shifted(c1), Shifted(d1);
    var c3, d3 := Shifted(c2), Shifted(d2);
    var c4, d4 := Shifted(c3), Shifted(d3);
    var c5, d5 := Shifted(c4), Shifted(d4);
    var c6, d6 := Shifted(c5), Shifted(d5);
    var c7, d7 := Shifted(c6), Shifted(d6);
    ShiftedInjective(c7, d7);
    ShiftedInjective(c6, d6);
    ShiftedInjective(c5, d5);
    ShiftedInjective(c4, d4);
    ShiftedInjective(c3, d3);
    ShiftedInjective(c2, d2);
    ShiftedInjective(c1, d1);
    ShiftedInjective(c, d);
  }

  function Upper(c: bv32): bv32 {
    (c >> 8) << 8
  }

  lemma Halves(c: bv32)
    ensures Plus(Wide(Low(c)), Upper(c)) == c
  {
  }

  lemma UpperDivided(c: bv32)
    ensures Divided(Upper(c)) == High(c)
  {
  }

  lemma HighFed(c: bv32, b: bv8)
    ensures High(Fed(c, b)) == High(c)
  {
  }

  lemma FedInjective(c: bv32, b: bv8, b': bv8)
    requires Fed(c, b) == Fed(c, b')
    ensures b == b'
  {
  }

  lemma TableByteIsByte(c: bv32, b: bv8)
    ensures TableByte(c, b) == Byte(c, b)
  {
    hide Table, Divided, Plus, Fed, Low, Wide, High, Upper;
    var d := Fed(c, b);
    TableDivides(Low(d));
    Halves(d);
    DividedPlus(Wide(Low(d)), Upper(d));
    UpperDivided(d);
    HighFed(c, b);
  }

  // No step loses anything of the byte.
  lemma ByteInjective(c: bv32, b: bv8, b': bv8)
    requires Byte(c, b) == Byte(c, b')
    ensures b == b'
  {
    hide Divided, Fed;
    DividedInjective(Fed(c, b), Fed(c, b'));
    FedInjective(c, b, b');
  }

  // ---- Whole strings ----

  function Fold(c: bv32, s: seq<bv8>): bv32
    decreases |s|
  {
    if s == [] then c else Fold(Byte(c, s[0]), s[1..])
  }

  // The CRC of s after data whose CRC is crc
  function Crc(crc: bv32, s: seq<bv8>): bv32 {
    Flip(Fold(Flip(crc), s))
  }

  // The CRCs of no data and of one zero byte, and the check value of CRC-32, that of the
  // digits from 1 to 9
  lemma KnownCrcs()
    ensures Crc(0, []) == 0 && Crc(0, [0x00]) == 0xd202_ef8d
    ensures Crc(0, [0x31, 0x32, 0x33, 0x34, 0x35, 0x36, 0x37, 0x38, 0x39]) == 0xcbf4_3926
  {
    Digits();
  }

  lemma Digits()
    ensures Fold(0xffff_ffff, [0x31, 0x32, 0x33, 0x34, 0x35, 0x36, 0x37, 0x38, 0x39]) == 0x340b_c6d9
  {
    var s: seq<bv8> := [0x31, 0x32, 0x33, 0x34, 0x35, 0x36, 0x37, 0x38, 0x39];
    var t: seq<bv8> := [0x31, 0x32, 0x33];
    var u: seq<bv8> := [0x34, 0x35, 0x36];
    var v: seq<bv8> := [0x37, 0x38, 0x39];
    FoldConcat(0xffff_ffff, t, u + v);
    FoldConcat(Fold(0xffff_ffff, t), u, v);
    assert s == t + (u + v);
  }

  lemma {:induction false} FoldConcat(c: bv32, s: seq<bv8>, t: seq<bv8>)
    ensures Fold(c, s + t) == Fold(Fold(c, s), t)
    decreases |s|
  {
    hide Byte;
    if s == [] {
      assert s + t == t;
    } else {
      FoldConcat(Byte(c, s[0]), s[1..], t);
      assert (s + t)[1..] == s[1..] + t;
    }
  }

  lemma Complement(c: bv32)
    ensures Flip(Flip(c)) == c
  {
  }

  // Chained calls give the CRC of the concatenation.
  lemma CrcConcat(crc: bv32, s: seq<bv8>, t: seq<bv8>)
    ensures Crc(Crc(crc, s), t) == Crc(crc, s + t)
  {
    hide Fold, Flip;
    FoldConcat(Flip(crc), s, t);
    Complement(Fold(Flip(crc), s));
  }

  // Strings that differ in their last byte only have different CRCs.
  lemma LastByteCounts(crc: bv32, s: seq<bv8>, b: bv8, b': bv8)
    requires Crc(crc, s + [b]) == Crc(crc, s + [b'])
    ensures b == b'
  {
    hide Byte, Flip;
    FoldConcat(Flip(crc), s, [b]);
    FoldConcat(Flip(crc), s, [b']);
    Complement(Fold(Flip(crc), s + [b]));
    Complement(Fold(Flip(crc), s + [b']));
    ByteInjective(Fold(Flip(crc), s), b, b');
  }

  lemma FoldTwo(c: bv32, s: seq<bv8>)
    requires |s| >= 2
    ensures Fold(c, s) == Fold(Byte(Byte(c, s[0]), s[1]), s[2..])
  {
    hide Byte;
    assert s[1..][1..] == s[2..];
  }

  method Do2(c: bv32, s: seq<bv8>, at: nat) returns (r: bv32)
    requires at + 2 <= |s|
    ensures Fold(c, s[at..]) == Fold(r, s[at + 2..])
  {
    hide Byte, TableByte, Fold;
    FoldTwo(c, s[at..]);
    TableByteIsByte(c, s[at]);
    r := TableByte(c, s[at]);
    TableByteIsByte(r, s[at + 1]);
    r := TableByte(r, s[at + 1]);
    assert s[at..][2..] == s[at + 2..];
  }

  method Crc32(crc: bv32, buf: seq<bv8>) returns (r: bv32)
    ensures r == Crc(crc, buf)
  {
    hide Byte, TableByte, Flip;
    r := Flip(crc);
    var len: nat, at: nat := |buf|, 0;
    assert buf[0..] == buf;
    while len >= 8
      invariant at + len == |buf| && Fold(r, buf[at..]) == Fold(Flip(crc), buf)
    {
      r := Do2(r, buf, at);
      r := Do2(r, buf, at + 2);
      r := Do2(r, buf, at + 4);
      r := Do2(r, buf, at + 6);
      at := at + 8;
      len := len - 8;
    }
    if len > 0 {
      while true
        invariant len > 0 && at + len == |buf| && Fold(r, buf[at..]) == Fold(Flip(crc), buf)
        decreases len
      {
        TableByteIsByte(r, buf[at]);
        r := TableByte(r, buf[at]);
        assert buf[at..][1..] == buf[at + 1..];
        at := at + 1;
        len := len - 1;
        if len == 0 {
          break;
        }
      }
    }
    r := Flip(r);
  }

  // crc_table, chosen bit by bit of the index
  function Table(x: bv8): bv32 {
    if x & 0x80 != 0 then
      if x & 0x40 != 0 then
        if x & 0x20 != 0 then
          if x & 0x10 != 0 then
            if x & 0x08 != 0 then
              if x & 0x04 != 0 then
                if x & 2 != 0 then (if x & 1 != 0 then 0x2d02ef8d else 0x5a05df1b)
                else (if x & 1 != 0 then 0xc30c8ea1 else 0xb40bbe37)
              else
                if x & 2 != 0 then (if x & 1 != 0 then 0x2a6f2b94 else 0x5d681b02)
                else (if x & 1 != 0 then 0xc4614ab8 else 0xb3667a2e)
            else
              if x & 0x04 != 0 then
                if x & 2 != 0 then (if x & 1 != 0 then 0x23d967bf else 0x54de5729)
                else (if x & 1 != 0 then 0xcdd70693 else 0xbad03605)
              else
                if x & 2 != 0 then (if x & 1 != 0 then 0x24b4a3a6 else 0x53b39330)
                else (if x & 1 != 0 then 0xcabac28a else 0xbdbdf21c)
          else
            if x & 0x08 != 0 then
              if x & 0x04 != 0 then
                if x & 2 != 0 then (if x & 1 != 0 then 0x30b5ffe9 else 0x47b2cf7f)
                else (if x & 1 != 0 then 0xdebb9ec5 else 0xa9bcae53)
              else
                if x & 2 != 0 then (if x & 1 != 0 then 0x37d83bf0 else 0x40df0b66)
                else (if x & 1 != 0 then 0xd9d65adc else 0xaed16a4a)
            else
              if x & 0x04 != 0 then
                if x & 2 != 0 then (if x & 1 != 0 then 0x3e6e77db else 0x4969474d)
                else (if x & 1 != 0 then 0xd06016f7 else 0xa7672661)
              else
                if x & 2 != 0 then (if x & 1 != 0 then 0x3903b3c2 else 0x4e048354)
                else (if x & 1 != 0 then 0xd70dd2ee else 0xa00ae278)
        else
          if x & 0x10 != 0 then
            if x & 0x08 != 0 then
              if x & 0x04 != 0 then
                if x & 2 != 0 then (if x & 1 != 0 then 0x166ccf45 else 0x616bffd3)
                else (if x & 1 != 0 then 0xf862ae69 else 0x8f659eff)
              else
                if x & 2 != 0 then (if x & 1 != 0 then 0x11010b5c else 0x66063bca)
                else (if x & 1 != 0 then 0xff0f6a70 else 0x88085ae6)
            else
              if x & 0x04 != 0 then
                if x & 2 != 0 then (if x & 1 != 0 then 0x18b74777 else 0x6fb077e1)
                else (if x & 1 != 0 then 0xf6b9265b else 0x81be16cd)
              else
                if x & 2 != 0 then (if x & 1 != 0 then 0x1fda836e else 0x68ddb3f8)
                else (if x & 1 != 0 then 0xf1d4e242 else 0x86d3d2d4)
          else
            if x & 0x08 != 0 then
              if x & 0x04 != 0 then
                if x & 2 != 0 then (if x & 1 != 0 then 0x0bdbdf21 else 0x7cdcefb7)
                else (if x & 1 != 0 then 0xe5d5be0d else 0x92d28e9b)
              else
                if x & 2 != 0 then (if x & 1 != 0 then 0x0cb61b38 else 0x7bb12bae)
                else (if x & 1 != 0 then 0xe2b87a14 else 0x95bf4a82)
            else
              if x & 0x04 != 0 then
                if x & 2 != 0 then (if x & 1 != 0 then 0x05005713 else 0x72076785)
                else (if x & 1 != 0 then 0xeb0e363f else 0x9c0906a9)
              else
                if x & 2 != 0 then (if x & 1 != 0 then 0x026d930a else 0x756aa39c)
                else (if x & 1 != 0 then 0xec63f226 else 0x9b64c2b0)
      else
        if x & 0x20 != 0 then
          if x & 0x10 != 0 then
            if x & 0x08 != 0 then
              if x & 0x04 != 0 then
                if x & 2 != 0 then (if x & 1 != 0 then 0x5bdeae1d else 0x2cd99e8b)
                else (if x & 1 != 0 then 0xb5d0cf31 else 0xc2d7ffa7)
              else
                if x & 2 != 0 then (if x & 1 != 0 then 0x5cb36a04 else 0x2bb45a92)
                else (if x & 1 != 0 then 0xb2bd0b28 else 0xc5ba3bbe)
            else
              if x & 0x04 != 0 then
                if x & 2 != 0 then (if x & 1 != 0 then 0x5505262f else 0x220216b9)
                else (if x & 1 != 0 then 0xbb0b4703 else 0xcc0c7795)
              else
                if x & 2 != 0 then (if x & 1 != 0 then 0x5268e236 else 0x256fd2a0)
                else (if x & 1 != 0 then 0xbc66831a else 0xcb61b38c)
          else
            if x & 0x08 != 0 then
              if x & 0x04 != 0 then
                if x & 2 != 0 then (if x & 1 != 0 then 0x4669be79 else 0x316e8eef)
                else (if x & 1 != 0 then 0xa867df55 else 0xdf60efc3)
              else
                if x & 2 != 0 then (if x & 1 != 0 then 0x41047a60 else 0x36034af6)
                else (if x & 1 != 0 then 0xaf0a1b4c else 0xd80d2bda)
            else
              if x & 0x04 != 0 then
                if x & 2 != 0 then (if x & 1 != 0 then 0x48b2364b else 0x3fb506dd)
                else (if x & 1 != 0 then 0xa6bc5767 else 0xd1bb67f1)
              else
                if x & 2 != 0 then (if x & 1 != 0 then 0x4fdff252 else 0x38d8c2c4)
                else (if x & 1 != 0 then 0xa1d1937e else 0xd6d6a3e8)
        else
          if x & 0x10 != 0 then
            if x & 0x08 != 0 then
              if x & 0x04 != 0 then
                if x & 2 != 0 then (if x & 1 != 0 then 0x60b08ed5 else 0x17b7be43)
                else (if x & 1 != 0 then 0x8ebeeff9 else 0xf9b9df6f)
              else
                if x & 2 != 0 then (if x & 1 != 0 then 0x67dd4acc else 0x10da7a5a)
                else (if x & 1 != 0 then 0x89d32be0 else 0xfed41b76)
            else
              if x & 0x04 != 0 then
                if x & 2 != 0 then (if x & 1 != 0 then 0x6e6b06e7 else 0x196c3671)
                else (if x & 1 != 0 then 0x806567cb else 0xf762575d)
              else
                if x & 2 != 0 then (if x & 1 != 0 then 0x6906c2fe else 0x1e01f268)
                else (if x & 1 != 0 then 0x8708a3d2 else 0xf00f9344)
          else
            if x & 0x08 != 0 then
              if x & 0x04 != 0 then
                if x & 2 != 0 then (if x & 1 != 0 then 0x7d079eb1 else 0x0a00ae27)
                else (if x & 1 != 0 then 0x9309ff9d else 0xe40ecf0b)
              else
                if x & 2 != 0 then (if x & 1 != 0 then 0x7a6a5aa8 else 0x0d6d6a3e)
                else (if x & 1 != 0 then 0x94643b84 else 0xe3630b12)
            else
              if x & 0x04 != 0 then
                if x & 2 != 0 then (if x & 1 != 0 then 0x73dc1683 else 0x04db2615)
                else (if x & 1 != 0 then 0x9dd277af else 0xead54739)
              else
                if x & 2 != 0 then (if x & 1 != 0 then 0x74b1d29a else 0x03b6e20c)
                else (if x & 1 != 0 then 0x9abfb3b6 else 0xedb88320)
    else
      if x & 0x40 != 0 then
        if x & 0x20 != 0 then
          if x & 0x10 != 0 then
            if x & 0x08 != 0 then
              if x & 0x04 != 0 then
                if x & 2 != 0 then (if x & 1 != 0 then 0xc0ba6cad else 0xb7bd5c3b)
                else (if x & 1 != 0 then 0x2eb40d81 else 0x59b33d17)
              else
                if x & 2 != 0 then (if x & 1 != 0 then 0xc7d7a8b4 else 0xb0d09822)
                else (if x & 1 != 0 then 0x29d9c998 else 0x5edef90e)
            else
              if x & 0x04 != 0 then
                if x & 2 != 0 then (if x & 1 != 0 then 0xce61e49f else 0xb966d409)
                else (if x & 1 != 0 then 0x206f85b3 else 0x5768b525)
              else
                if x & 2 != 0 then (if x & 1 != 0 then 0xc90c2086 else 0xbe0b1010)
                else (if x & 1 != 0 then 0x270241aa else 0x5005713c)
          else
            if x & 0x08 != 0 then
              if x & 0x04 != 0 then
                if x & 2 != 0 then (if x & 1 != 0 then 0xdd0d7cc9 else 0xaa0a4c5f)
                else (if x & 1 != 0 then 0x33031de5 else 0x44042d73)
              else
                if x & 2 != 0 then (if x & 1 != 0 then 0xda60b8d0 else 0xad678846)
                else (if x & 1 != 0 then 0x346ed9fc else 0x4369e96a)
            else
              if x & 0x04 != 0 then
                if x & 2 != 0 then (if x & 1 != 0 then 0xd3d6f4fb else 0xa4d1c46d)
                else (if x & 1 != 0 then 0x3dd895d7 else 0x4adfa541)
              else
                if x & 2 != 0 then (if x & 1 != 0 then 0xd4bb30e2 else 0xa3bc0074)
                else (if x & 1 != 0 then 0x3ab551ce else 0x4db26158)
        else
          if x & 0x10 != 0 then
            if x & 0x08 != 0 then
              if x & 0x04 != 0 then
                if x & 2 != 0 then (if x & 1 != 0 then 0xfbd44c65 else 0x8cd37cf3)
                else (if x & 1 != 0 then 0x15da2d49 else 0x62dd1ddf)
              else
                if x & 2 != 0 then (if x & 1 != 0 then 0xfcb9887c else 0x8bbeb8ea)
                else (if x & 1 != 0 then 0x12b7e950 else 0x65b0d9c6)
            else
              if x & 0x04 != 0 then
                if x & 2 != 0 then (if x & 1 != 0 then 0xf50fc457 else 0x8208f4c1)
                else (if x & 1 != 0 then 0x1b01a57b else 0x6c0695ed)
              else
                if x & 2 != 0 then (if x & 1 != 0 then 0xf262004e else 0x856530d8)
                else (if x & 1 != 0 then 0x1c6c6162 else 0x6b6b51f4)
          else
            if x & 0x08 != 0 then
              if x & 0x04 != 0 then
                if x & 2 != 0 then (if x & 1 != 0 then 0xe6635c01 else 0x91646c97)
                else (if x & 1 != 0 then 0x086d3d2d else 0x7f6a0dbb)
              else
                if x & 2 != 0 then (if x & 1 != 0 then 0xe10e9818 else 0x9609a88e)
                else (if x & 1 != 0 then 0x0f00f934 else 0x7807c9a2)
            else
              if x & 0x04 != 0 then
                if x & 2 != 0 then (if x & 1 != 0 then 0xe8b8d433 else 0x9fbfe4a5)
                else (if x & 1 != 0 then 0x06b6b51f else 0x71b18589)
              else
                if x & 2 != 0 then (if x & 1 != 0 then 0xefd5102a else 0x98d220bc)
                else (if x & 1 != 0 then 0x01db7106 else 0x76dc4190)
      else
        if x & 0x20 != 0 then
          if x & 0x10 != 0 then
            if x & 0x08 != 0 then
              if x & 0x04 != 0 then
                if x & 2 != 0 then (if x & 1 != 0 then 0xb6662d3d else 0xc1611dab)
                else (if x & 1 != 0 then 0x58684c11 else 0x2f6f7c87)
              else
                if x & 2 != 0 then (if x & 1 != 0 then 0xb10be924 else 0xc60cd9b2)
                else (if x & 1 != 0 then 0x5f058808 else 0x2802b89e)
            else
              if x & 0x04 != 0 then
                if x & 2 != 0 then (if x & 1 != 0 then 0xb8bda50f else 0xcfba9599)
                else (if x & 1 != 0 then 0x56b3c423 else 0x21b4f4b5)
              else
                if x & 2 != 0 then (if x & 1 != 0 then 0xbfd06116 else 0xc8d75180)
                else (if x & 1 != 0 then 0x51de003a else 0x26d930ac)
          else
            if x & 0x08 != 0 then
              if x & 0x04 != 0 then
                if x & 2 != 0 then (if x & 1 != 0 then 0xabd13d59 else 0xdcd60dcf)
                else (if x & 1 != 0 then 0x45df5c75 else 0x32d86ce3)
              else
                if x & 2 != 0 then (if x & 1 != 0 then 0xacbcf940 else 0xdbbbc9d6)
                else (if x & 1 != 0 then 0x42b2986c else 0x35b5a8fa)
            else
              if x & 0x04 != 0 then
                if x & 2 != 0 then (if x & 1 != 0 then 0xa50ab56b else 0xd20d85fd)
                else (if x & 1 != 0 then 0x4b04d447 else 0x3c03e4d1)
              else
                if x & 2 != 0 then (if x & 1 != 0 then 0xa2677172 else 0xd56041e4)
                else (if x & 1 != 0 then 0x4c69105e else 0x3b6e20c8)
        else
          if x & 0x10 != 0 then
            if x & 0x08 != 0 then
              if x & 0x04 != 0 then
                if x & 2 != 0 then (if x & 1 != 0 then 0x8d080df5 else 0xfa0f3d63)
                else (if x & 1 != 0 then 0x63066cd9 else 0x14015c4f)
              else
                if x & 2 != 0 then (if x & 1 != 0 then 0x8a65c9ec else 0xfd62f97a)
                else (if x & 1 != 0 then 0x646ba8c0 else 0x136c9856)
            else
              if x & 0x04 != 0 then
                if x & 2 != 0 then (if x & 1 != 0 then 0x83d385c7 else 0xf4d4b551)
                else (if x & 1 != 0 then 0x6ddde4eb else 0x1adad47d)
              else
                if x & 2 != 0 then (if x & 1 != 0 then 0x84be41de else 0xf3b97148)
                else (if x & 1 != 0 then 0x6ab020f2 else 0x1db71064)
          else
            if x & 0x08 != 0 then
              if x & 0x04 != 0 then
                if x & 2 != 0 then (if x & 1 != 0 then 0x90bf1d91 else 0xe7b82d07)
                else (if x & 1 != 0 then 0x7eb17cbd else 0x09b64c2b)
              else
                if x & 2 != 0 then (if x & 1 != 0 then 0x97d2d988 else 0xe0d5e91e)
                else (if x & 1 != 0 then 0x79dcb8a4 else 0x0edb8832)
            else
              if x & 0x04 != 0 then
                if x & 2 != 0 then (if x & 1 != 0 then 0x9e6495a3 else 0xe963a535)
                else (if x & 1 != 0 then 0x706af48f else 0x076dc419)
              else
                if x & 2 != 0 then (if x & 1 != 0 then 0x990951ba else 0xee0e612c)
                else (if x & 1 != 0 then 0x77073096 else 0x00000000)
  }
}
