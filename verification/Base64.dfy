// Base64 text of byte strings, and its decoder, which skips what is not in the
// alphabet.
module Base64 {

  import opened Results
  import opened Numbers

  type Byte = n: nat | n < 256
  type Six = n: nat | n < 64

  const PAD: Byte := 61

  // codes[v]: capital letters, small letters, digits, + and /
  function Code(v: Six): Byte {
    if v < 26 then 65 + v else if v < 52 then 71 + v else if v < 62 then v - 4 else if v == 62 then 43 else 47
  }

  // Table 1 of RFC 4648
  lemma CodeIsLetter(v: Six)
    ensures v < 26 ==> Code(v) == 'A' as int + v
    ensures 26 <= v < 52 ==> Code(v) == 'a' as int + v - 26
    ensures 52 <= v < 62 ==> Code(v) == '0' as int + v - 52
    ensures Code(62) == '+' as int && Code(63) == '/' as int && PAD == '=' as int
  {
  }

  // map[c]: the value of a letter of the alphabet, 254 for the padding, or 255
  function Map(c: Byte): Byte {
    if 65 <= c <= 90 then c - 65
    else if 97 <= c <= 122 then c - 71
    else if 48 <= c <= 57 then c + 4
    else if c == 43 then 62
    else if c == 47 then 63
    else if c == PAD then 254
    else 255
  }

  lemma MapCode(v: Six)
    ensures Map(Code(v)) == v
  {
  }

  // ---- Encoding ----

  function Group(a: Byte, b: Byte, c: Byte): seq<Byte> {
    [Code(a / 4), Code(a % 4 * 16 + b / 16), Code(b % 16 * 4 + c / 64), Code(c % 64)]
  }

  // The text of section 4 of RFC 4648
  function Encoded(x: seq<Byte>): seq<Byte> {
    if |x| == 0 then []
    else if |x| == 1 then [Code(x[0] / 4), Code(x[0] % 4 * 16), PAD, PAD]
    else if |x| == 2 then [Code(x[0] / 4), Code(x[0] % 4 * 16 + x[1] / 16), Code(x[1] % 16 * 4), PAD]
    else Group(x[0], x[1], x[2]) + Encoded(x[3..])
  }

  // The number that letters stand for, six bits each, the first most significant
  function Sixes(q: seq<Byte>): nat {
    if q == [] then 0 else 0x40 * Sixes(q[..|q| - 1]) + Map(q[|q| - 1])
  }

  // Three bytes, the first most significant, make four letters; one or two bytes make
  // two or three, with zero bits below them, and padding.
  lemma GroupNumber(a: Byte, b: Byte, c: Byte, rest: seq<Byte>)
    ensures var x: seq<Byte> := [a, b, c] + rest;
      Encoded(x) == Group(a, b, c) + Encoded(rest) && Sixes(Group(a, b, c)) == 0x1_0000 * a + 0x100 * b + c
  {
    hide Code, Map;
    var x: seq<Byte> := [a, b, c] + rest;
    assert x[3..] == rest;
    LetterValues(a, b, c);
    var q := Group(a, b, c);
    FourSixes(q[0], q[1], q[2], q[3]);
  }

  lemma LastNumber(a: Byte, b: Byte)
    ensures Encoded([a])[2..] == [PAD, PAD] && Sixes(Encoded([a])[..2]) == 0x10 * a
    ensures Encoded([a, b])[3..] == [PAD] && Sixes(Encoded([a, b])[..3]) == 4 * (0x100 * a + b)
  {
    hide Code, Map, Sixes;
    LetterValues(a, 0, 0);
    LetterValues(a, b, 0);
    var one, two := Encoded([a]), Encoded([a, b]);
    assert one[..2] == [one[0], one[1]] && two[..3] == [two[0], two[1], two[2]];
    FourSixes(one[0], one[1], 0, 0);
    FourSixes(two[0], two[1], two[2], 0);
  }

  lemma FourSixes(p: Byte, q: Byte, r: Byte, s: Byte)
    ensures Sixes([p, q]) == 0x40 * Map(p) + Map(q) && Sixes([p, q, r]) == 0x40 * Sixes([p, q]) + Map(r)
    ensures Sixes([p, q, r, s]) == 0x40 * Sixes([p, q, r]) + Map(s)
  {
    hide Map;
    assert [p, q][..1] == [p] && [p, q, r][..2] == [p, q] && [p, q, r, s][..3] == [p, q, r];
    assert Sixes([p]) == 0x40 * Sixes([]) + Map(p) by {
      assert [p][..0] == [];
    }
  }

  lemma LetterValues(a: Byte, b: Byte, c: Byte)
    ensures Map(Code(a / 4)) == a / 4 && Map(Code(a % 4 * 16 + b / 16)) == a % 4 * 16 + b / 16
    ensures Map(Code(b % 16 * 4 + c / 64)) == b % 16 * 4 + c / 64 && Map(Code(c % 64)) == c % 64
  {
    hide Code, Map;
    MapCode(a / 4);
    MapCode(a % 4 * 16 + b / 16);
    MapCode(b % 16 * 4 + c / 64);
    MapCode(c % 64);
  }

  lemma {:induction false} EncodedLength(x: seq<Byte>)
    ensures |Encoded(x)| == 4 * ((|x| + 2) / 3)
  {
    if |x| >= 3 {
      EncodedLength(x[3..]);
    }
  }

  method Encode(inp: seq<Byte>, out: array<Byte>, outlen: nat) returns (res: Status, written: nat)
    requires outlen <= out.Length
    modifies out
    ensures res == if outlen < |Encoded(inp)| + 1 then CryptBufferOverflow else CryptOk
    ensures res != CryptOk ==> written == outlen && out[..] == old(out[..])
    ensures res == CryptOk ==> written == |Encoded(inp)| && out[..written] == Encoded(inp) && out[written] == 0
    ensures res == CryptOk ==> forall j :: written < j < out.Length ==> out[j] == old(out[j])
  {
    hide Encoded, Code;
    EncodedLength(inp);
    var len := |inp|;
    var len2 := 4 * ((len + 2) / 3);
    if outlen < len2 + 1 {
      return CryptBufferOverflow, outlen;
    }
    var p: nat, i: nat := 0, 0;
    var leven := 3 * (len / 3);
    assert inp[0..] == inp;
    while i < leven
      invariant 0 <= i <= leven && i % 3 == 0 && p == i / 3 * 4
      invariant out[..p] + Encoded(inp[i..]) == Encoded(inp)
      invariant forall j :: len2 < j < out.Length ==> out[j] == old(out[j])
    {
      PutThree(inp, i, out, p);
      p := p + 4;
      i := i + 3;
    }
    if i < len {
      PutLast(inp, i, out, p);
      p := p + 4;
    }
    assert out[..p] == Encoded(inp) by {
      EncodedLast(inp[i..]);
    }
    out[p] := 0;
    return CryptOk, p;
  }

  // A whole group
  method PutThree(inp: seq<Byte>, i: nat, out: array<Byte>, p: nat)
    requires i + 3 <= |inp| && p + 4 <= out.Length
    modifies out
    ensures out[..p + 4] + Encoded(inp[i + 3..]) == old(out[..p]) + Encoded(inp[i..])
    ensures forall j :: p + 4 <= j < out.Length ==> out[j] == old(out[j])
  {
    hide Encoded, Code;
    EncodedGroup(inp[i..]);
    assert inp[i..][3..] == inp[i + 3..];
    PutFour(out, p, Code(inp[i] / 4), Code(inp[i] % 4 * 16 + inp[i + 1] / 16),
            Code(inp[i + 1] % 16 * 4 + inp[i + 2] / 64), Code(inp[i + 2] % 64));
  }

  // The padded group
  method PutLast(inp: seq<Byte>, i: nat, out: array<Byte>, p: nat)
    requires i < |inp| <= i + 2 && p + 4 <= out.Length
    modifies out
    ensures out[..p + 4] == old(out[..p]) + Encoded(inp[i..])
    ensures forall j :: p + 4 <= j < out.Length ==> out[j] == old(out[j])
  {
    hide Encoded, Code;
    var a := inp[i];
    var b := if i + 1 < |inp| then inp[i + 1] else 0;
    var c := 0;
    EncodedLast(inp[i..]);
    PutFour(out, p, Code(a / 4), Code(a % 4 * 16 + b / 16),
            if i + 1 < |inp| then Code(b % 16 * 4 + c / 64) else PAD, PAD);
  }

  method PutFour(out: array<Byte>, p: nat, c0: Byte, c1: Byte, c2: Byte, c3: Byte)
    requires p + 4 <= out.Length
    modifies out
    ensures out[..p + 4] == old(out[..p]) + [c0, c1, c2, c3]
    ensures forall j :: p + 4 <= j < out.Length ==> out[j] == old(out[j])
  {
    out[p], out[p + 1], out[p + 2], out[p + 3] := c0, c1, c2, c3;
  }

  lemma EncodedGroup(x: seq<Byte>)
    requires |x| >= 3
    ensures Encoded(x) == Group(x[0], x[1], x[2]) + Encoded(x[3..])
  {
  }

  lemma EncodedLast(x: seq<Byte>)
    requires |x| < 3
    ensures |x| == 0 ==> Encoded(x) == []
    ensures |x| == 1 ==> Encoded(x) == [Code(x[0] / 4), Code(x[0] % 4 * 16), PAD, PAD]
    ensures |x| == 2 ==> Encoded(x) == [Code(x[0] / 4), Code(x[0] % 4 * 16 + x[1] / 16), Code(x[1] % 16 * 4), PAD]
  {
  }

  // ---- Decoding ----

  // y values have been collected in t since the last group, and a whole group makes
  // g bytes.
  datatype Decoder = Decoder(t: nat, y: nat, g: int, out: seq<Byte>, full: bool)

  const START: Decoder := Decoder(0, 0, 3, [], false)

  function GroupBytes(t: nat, g: int): seq<Byte> {
    [t / 0x1_0000 % 256] + (if g > 1 then [t / 0x100 % 256] else []) + if g > 2 then [t % 256] else []
  }

  // z + g is an unsigned sum, so that a negative one wraps around.
  const ULONG: nat := 0x1_0000_0000

  // One character, where the output holds limit bytes
  function Step(d: Decoder, c: Byte, limit: nat): Decoder {
    if d.full || Map(c) == 255 then d
    else
      var g := if Map(c) == 254 then d.g - 1 else d.g;
      var t := d.t * 64 + if Map(c) == 254 then 0 else Map(c);
      if d.y + 1 < 4 then Decoder(t, d.y + 1, g, d.out, false)
      else if (|d.out| + g) % ULONG > limit then Decoder(t, d.y + 1, g, d.out, true)
      else Decoder(0, 0, g, d.out + GroupBytes(t, g), false)
  }

  function Fold(d: Decoder, s: seq<Byte>, limit: nat): Decoder
    decreases |s|
  {
    if s == [] then d else Fold(Step(d, s[0], limit), s[1..], limit)
  }

  // What the decoder makes of a whole text
  function Verdict(d: Decoder): Status {
    if d.full then CryptBufferOverflow else if d.y != 0 then CryptInvalidPacket else CryptOk
  }

  lemma {:induction false} FoldConcat(d: Decoder, s: seq<Byte>, u: seq<Byte>, limit: nat)
    ensures Fold(d, s + u, limit) == Fold(Fold(d, s, limit), u, limit)
    decreases |s|
  {
    if s == [] {
      assert s + u == u;
    } else {
      assert (s + u)[1..] == s[1..] + u;
      FoldConcat(Step(d, s[0], limit), s[1..], u, limit);
    }
  }

  // The characters of the alphabet and the padding
  function Letters(s: seq<Byte>): seq<Byte> {
    if s == [] then [] else (if Map(s[0]) == 255 then [] else [s[0]]) + Letters(s[1..])
  }

  // Other characters make no difference.
  lemma {:induction false} FoldLetters(d: Decoder, s: seq<Byte>, limit: nat)
    ensures Fold(d, Letters(s), limit) == Fold(d, s, limit)
    decreases |s|
  {
    if s != [] {
      FoldLetters(Step(d, s[0], limit), s[1..], limit);
      if Map(s[0]) != 255 {
        assert Letters(s)[1..] == Letters(s[1..]);
      } else {
        assert Letters(s) == Letters(s[1..]);
      }
    }
  }

  lemma {:induction false} FoldFull(d: Decoder, s: seq<Byte>, limit: nat)
    requires d.full
    ensures Fold(d, s, limit) == d
    decreases |s|
  {
    if s != [] {
      FoldFull(d, s[1..], limit);
    }
  }

  lemma FoldFour(d: Decoder, c0: Byte, c1: Byte, c2: Byte, c3: Byte, limit: nat)
    ensures Fold(d, [c0, c1, c2, c3], limit)
         == Step(Step(Step(Step(d, c0, limit), c1, limit), c2, limit), c3, limit)
  {
    hide Step, Fold;
    var d1 := Step(d, c0, limit);
    var d2 := Step(d1, c1, limit);
    var d3 := Step(d2, c2, limit);
    assert [c0] + [c1, c2, c3] == [c0, c1, c2, c3] && [c1] + [c2, c3] == [c1, c2, c3];
    assert [c2] + [c3] == [c2, c3] && [c3] + [] == [c3];
    FoldFirst(d, c0, [c1, c2, c3], limit);
    FoldFirst(d1, c1, [c2, c3], limit);
    FoldFirst(d2, c2, [c3], limit);
    FoldFirst(d3, c3, [], limit);
  }

  lemma FoldFirst(d: Decoder, c: Byte, s: seq<Byte>, limit: nat)
    ensures Fold(d, [c] + s, limit) == Fold(Step(d, c, limit), s, limit)
    ensures s == [] ==> Fold(d, [c] + s, limit) == Step(d, c, limit)
  {
    assert ([c] + s)[1..] == s;
  }

  // Four letters of the alphabet between groups
  lemma FourLetters(out: seq<Byte>, v0: Six, v1: Six, v2: Six, v3: Six, limit: nat)
    ensures var t := v0 * 0x4_0000 + v1 * 0x1000 + v2 * 64 + v3;
      Fold(Decoder(0, 0, 3, out, false), [Code(v0), Code(v1), Code(v2), Code(v3)], limit)
      == if (|out| + 3) % ULONG > limit
         then Decoder(t, 4, 3, out, true) else Decoder(0, 0, 3, out + GroupBytes(t, 3), false)
  {
    hide Map, Code, GroupBytes;
    MapCode(v0);
    MapCode(v1);
    MapCode(v2);
    MapCode(v3);
    FoldFour(Decoder(0, 0, 3, out, false), Code(v0), Code(v1), Code(v2), Code(v3), limit);
  }

  lemma ThreeLetters(out: seq<Byte>, v0: Six, v1: Six, v2: Six, limit: nat)
    ensures var t := v0 * 0x4_0000 + v1 * 0x1000 + v2 * 64;
      Fold(Decoder(0, 0, 3, out, false), [Code(v0), Code(v1), Code(v2), PAD], limit)
      == if (|out| + 2) % ULONG > limit
         then Decoder(t, 4, 2, out, true) else Decoder(0, 0, 2, out + GroupBytes(t, 2), false)
  {
    hide Code, GroupBytes;
    MapCode(v0);
    MapCode(v1);
    MapCode(v2);
    FoldFour(Decoder(0, 0, 3, out, false), Code(v0), Code(v1), Code(v2), PAD, limit);
  }

  lemma TwoLetters(out: seq<Byte>, v0: Six, v1: Six, limit: nat)
    ensures var t := v0 * 0x4_0000 + v1 * 0x1000;
      Fold(Decoder(0, 0, 3, out, false), [Code(v0), Code(v1), PAD, PAD], limit)
      == if (|out| + 1) % ULONG > limit
         then Decoder(t, 4, 1, out, true) else Decoder(0, 0, 1, out + GroupBytes(t, 1), false)
  {
    hide Code, GroupBytes;
    MapCode(v0);
    MapCode(v1);
    FoldFour(Decoder(0, 0, 3, out, false), Code(v0), Code(v1), PAD, PAD, limit);
  }

  // Three bytes through their 24 bits
  lemma Regrouped(a: Byte, b: Byte, c: Byte)
    ensures var t := a / 4 * 0x4_0000 + (a % 4 * 16 + b / 16) * 0x1000 + (b % 16 * 4 + c / 64) * 64 + c % 64;
      t == a * 0x1_0000 + b * 0x100 + c
    ensures var t := a * 0x1_0000 + b * 0x100 + c;
      GroupBytes(t, 3) == [a, b, c] && GroupBytes(t, 2) == [a, b] && GroupBytes(t, 1) == [a]
  {
    assert a == a / 4 * 4 + a % 4 && b == b / 16 * 16 + b % 16 && c == c / 64 * 64 + c % 64;
    var t := a * 0x1_0000 + b * 0x100 + c;
    DivMod(t, 0x1_0000, a, b * 0x100 + c);
    DivMod(t, 0x100, a * 0x100 + b, c);
    DivMod(a * 0x100 + b, 0x100, a, b);
    DivMod(a, 0x100, 0, a);
  }

  lemma GroupBack(out: seq<Byte>, a: Byte, b: Byte, c: Byte, limit: nat)
    ensures var d := Fold(Decoder(0, 0, 3, out, false), Group(a, b, c), limit);
      if (|out| + 3) % ULONG > limit then d.full else d == Decoder(0, 0, 3, out + [a, b, c], false)
  {
    hide Code, GroupBytes, Fold;
    Regrouped(a, b, c);
    FourLetters(out, a / 4, a % 4 * 16 + b / 16, b % 16 * 4 + c / 64, c % 64, limit);
  }

  lemma FoldEmpty(d: Decoder, limit: nat)
    ensures Fold(d, [], limit) == d
  {
  }

  lemma {:induction false} FoldEncoded(out: seq<Byte>, x: seq<Byte>, limit: nat)
    requires |out| + |x| < ULONG
    ensures var d := Fold(Decoder(0, 0, 3, out, false), Encoded(x), limit);
      && d.full == (|out| + |x| > limit && |x| > 0)
      && (!d.full ==> d.y == 0 && d.out == out + x)
    decreases |x|
  {
    hide Code, Step, GroupBytes, Fold, Group;
    if |x| == 0 {
      FoldEmpty(Decoder(0, 0, 3, out, false), limit);
    } else if |x| == 1 {
      Regrouped(x[0], 0, 0);
      TwoLetters(out, x[0] / 4, x[0] % 4 * 16, limit);
    } else if |x| == 2 {
      Regrouped(x[0], x[1], 0);
      ThreeLetters(out, x[0] / 4, x[0] % 4 * 16 + x[1] / 16, x[1] % 16 * 4, limit);
    } else {
      var a, b, c := x[0], x[1], x[2];
      GroupBack(out, a, b, c, limit);
      FoldConcat(Decoder(0, 0, 3, out, false), Group(a, b, c), Encoded(x[3..]), limit);
      if |out| + 3 > limit {
        FoldFull(Fold(Decoder(0, 0, 3, out, false), Group(a, b, c), limit), Encoded(x[3..]), limit);
      } else {
        FoldEncoded(out + [a, b, c], x[3..], limit);
        assert out + [a, b, c] + x[3..] == out + x;
      }
    }
  }

  lemma {:induction false} FewerLetters(s: seq<Byte>)
    ensures |Letters(s)| <= |s|
  {
    if s != [] {
      FewerLetters(s[1..]);
    }
  }

  // The text of x, with other characters anywhere in it, decodes to x whenever x
  // fits, and overflows otherwise. Its length is itself an unsigned number.
  lemma DecodeEncode(x: seq<Byte>, s: seq<Byte>, limit: nat)
    requires Letters(s) == Encoded(x) && |s| < ULONG
    ensures var d := Fold(START, s, limit);
      && Verdict(d) == (if |x| > limit then CryptBufferOverflow else CryptOk)
      && (|x| <= limit ==> d.out == x)
  {
    FewerLetters(s);
    EncodedLength(x);
    FoldLetters(START, s, limit);
    FoldEncoded([], x, limit);
    assert [] + x == x;
  }

  // ---- Where the decoder writes ----

  // The padding characters of a text
  function Pads(s: seq<Byte>): nat {
    if s == [] then 0 else (if s[|s| - 1] == PAD then 1 else 0) + Pads(s[..|s| - 1])
  }

  // How many bytes the decoder writes of a text, whether or not they fit: one for a
  // group even when it counts them as none or fewer
  function Reach(s: seq<Byte>, limit: nat): nat {
    |Fold(START, s, limit).out|
  }

  function Width(g: int): nat {
    if g > 2 then 3 else if g > 1 then 2 else 1
  }

  // The bytes of the first j groups of the letters
  function Room(letters: seq<Byte>, j: nat): nat
    requires 4 * j <= |letters|
  {
    if j == 0 then 0 else Room(letters, j - 1) + Width(3 - Pads(letters[..4 * j]))
  }

  // The test before the bytes of group j, when all before it have been written
  predicate Passes(letters: seq<Byte>, limit: nat, j: nat)
    requires 4 * j + 4 <= |letters|
  {
    (Room(letters, j) + 3 - Pads(letters[..4 * j + 4])) % ULONG <= limit
  }

  // The room is full before a group whose padding brings the total to three or more,
  // and the test, which counts nothing or less for it, has passed so far.
  predicate Overruns(letters: seq<Byte>, limit: nat) {
    exists j :: 0 <= j < |letters| / 4 && Room(letters, j) == limit && Pads(letters[..4 * j + 4]) >= 3
      && forall i :: 0 <= i <= j ==> Passes(letters, limit, i)
  }

  predicate AreLetters(s: seq<Byte>) {
    forall i :: 0 <= i < |s| ==> Map(s[i]) != 255
  }

  lemma {:induction false} LettersAre(s: seq<Byte>)
    ensures AreLetters(Letters(s))
  {
    if s != [] {
      LettersAre(s[1..]);
    }
  }

  lemma PadsNext(s: seq<Byte>, x: nat)
    requires x < |s|
    ensures Pads(s[..x + 1]) == Pads(s[..x]) + if Map(s[x]) == 254 then 1 else 0
  {
    assert s[..x + 1][..x] == s[..x];
  }

  lemma FoldNext(s: seq<Byte>, x: nat, limit: nat)
    requires x < |s|
    ensures Fold(START, s[..x + 1], limit) == Step(Fold(START, s[..x], limit), s[x], limit)
  {
    hide Step;
    assert s[..x + 1] == s[..x] + [s[x]];
    FoldConcat(START, s[..x], [s[x]], limit);
  }

  // Between groups
  predicate Between(d: Decoder, s: seq<Byte>, room: nat) {
    d.t == 0 && d.y == 0 && d.g == 3 - Pads(s) && !d.full && |d.out| == room
  }

  lemma GroupStep(letters: seq<Byte>, limit: nat, j: nat)
    requires AreLetters(letters) && 4 * j + 4 <= |letters|
    requires Between(Fold(START, letters[..4 * j], limit), letters[..4 * j], Room(letters, j))
    ensures var d := Fold(START, letters[..4 * j + 4], limit);
      if Passes(letters, limit, j) then Between(d, letters[..4 * j + 4], Room(letters, j + 1))
      else d.full && |d.out| == Room(letters, j)
  {
    hide Map, Fold, Pads, Step;
    var x := 4 * j;
    for k := 0 to 3
      invariant var d := Fold(START, letters[..x + k], limit);
        d.y == k && d.g == 3 - Pads(letters[..x + k]) && !d.full && |d.out| == Room(letters, j)
    {
      FoldNext(letters, x + k, limit);
      PadsNext(letters, x + k);
      StepInside(Fold(START, letters[..x + k], limit), letters[x + k], limit);
    }
    FoldNext(letters, x + 3, limit);
    PadsNext(letters, x + 3);
    StepLast(Fold(START, letters[..x + 3], limit), letters[x + 3], limit);
  }

  lemma StepInside(d: Decoder, c: Byte, limit: nat)
    requires !d.full && Map(c) != 255 && d.y < 3
    ensures var e := Step(d, c, limit);
      e.y == d.y + 1 && e.g == d.g - (if Map(c) == 254 then 1 else 0) && !e.full && e.out == d.out
  {
  }

  lemma StepLast(d: Decoder, c: Byte, limit: nat)
    requires !d.full && Map(c) != 255 && d.y == 3
    ensures var e, g := Step(d, c, limit), d.g - (if Map(c) == 254 then 1 else 0);
      if (|d.out| + g) % ULONG > limit then e.full && e.out == d.out
      else !e.full && e.t == 0 && e.y == 0 && e.g == g && |e.out| == |d.out| + Width(g)
  {
  }

  lemma {:induction false} Groups(letters: seq<Byte>, limit: nat, j: nat)
    requires AreLetters(letters) && 4 * j <= |letters|
    requires forall i :: 0 <= i < j ==> Passes(letters, limit, i)
    ensures Between(Fold(START, letters[..4 * j], limit), letters[..4 * j], Room(letters, j))
  {
    if j > 0 {
      hide Between, Passes;
      Groups(letters, limit, j - 1);
      GroupStep(letters, limit, j - 1);
    }
  }

  // Fewer than four letters write nothing.
  lemma {:induction false} FoldShort(d: Decoder, s: seq<Byte>, limit: nat)
    requires d.y + |s| < 4
    ensures Fold(d, s, limit).out == d.out
    decreases |s|
  {
    if s != [] {
      FoldShort(Step(d, s[0], limit), s[1..], limit);
    }
  }

  // The decoder gets through f groups, and then the letters end or the test fails.
  lemma {:induction false} Stops(letters: seq<Byte>, limit: nat, j: nat) returns (f: nat)
    requires AreLetters(letters) && 4 * j <= |letters|
    requires forall i :: 0 <= i < j ==> Passes(letters, limit, i)
    ensures j <= f <= |letters| / 4 && forall i :: 0 <= i < f ==> Passes(letters, limit, i)
    ensures f == |letters| / 4 || !Passes(letters, limit, f)
    ensures Reach(letters, limit) == Room(letters, f)
    decreases |letters| - 4 * j
  {
    hide Passes, Room;
    Groups(letters, limit, j);
    if 4 * j + 4 > |letters| {
      f := j;
      assert letters == letters[..4 * j] + letters[4 * j..];
      FoldConcat(START, letters[..4 * j], letters[4 * j..], limit);
      FoldShort(Fold(START, letters[..4 * j], limit), letters[4 * j..], limit);
    } else if Passes(letters, limit, j) {
      f := Stops(letters, limit, j + 1);
    } else {
      f := j;
      GroupStep(letters, limit, j);
      assert letters == letters[..4 * j + 4] + letters[4 * j + 4..];
      FoldConcat(START, letters[..4 * j + 4], letters[4 * j + 4..], limit);
      FoldFull(Fold(START, letters[..4 * j + 4], limit), letters[4 * j + 4..], limit);
    }
  }

  lemma {:induction false} RoomGrows(letters: seq<Byte>, i: nat, j: nat)
    requires i <= j && 4 * j <= |letters|
    ensures Room(letters, i) <= Room(letters, j) <= Room(letters, i) + 3 * (j - i)
  {
    if i < j {
      RoomGrows(letters, i, j - 1);
    }
  }

  // Past a group that passes its test, the room is exceeded only if it was full and
  // the group counted for nothing.
  lemma {:induction false} Exceeds(letters: seq<Byte>, limit: nat, f: nat)
    requires 4 * f <= |letters| < ULONG && Room(letters, f) > limit
    requires forall i :: 0 <= i < f ==> Passes(letters, limit, i)
    ensures Overruns(letters, limit)
  {
    if Room(letters, f - 1) > limit {
      Exceeds(letters, limit, f - 1);
    } else {
      var j := f - 1;
      RoomGrows(letters, 0, j);
      assert Passes(letters, limit, j);
      assert Room(letters, j) == limit;
    }
  }

  // Every byte is written inside the output if and only if no group overruns it.
  lemma WritesInside(s: seq<Byte>, limit: nat)
    requires |s| < ULONG
    ensures Reach(s, limit) <= limit <==> !Overruns(Letters(s), limit)
  {
    hide Passes, Room, Fold, Overruns;
    var letters := Letters(s);
    LettersAre(s);
    FewerLetters(s);
    FoldLetters(START, s, limit);
    var f := Stops(letters, limit, 0);
    if Room(letters, f) > limit {
      Exceeds(letters, limit, f);
    }
    if Overruns(letters, limit) {
      Overrun(letters, limit, f);
    }
  }

  lemma Overrun(letters: seq<Byte>, limit: nat, f: nat)
    requires f <= |letters| / 4 && Overruns(letters, limit) && (f == |letters| / 4 || !Passes(letters, limit, f))
    ensures Room(letters, f) > limit
  {
    hide Passes, Room, Pads;
    var j :| 0 <= j < |letters| / 4 && Room(letters, j) == limit && Pads(letters[..4 * j + 4]) >= 3
      && forall i :: 0 <= i <= j ==> Passes(letters, limit, i);
    RoomNext(letters, j);
    assert j < f;
    RoomGrows(letters, j + 1, f);
  }

  lemma RoomNext(letters: seq<Byte>, j: nat)
    requires 4 * j + 4 <= |letters|
    ensures Room(letters, j + 1) > Room(letters, j)
  {
  }

  // With two padding characters or fewer, every text stays inside.
  lemma FewPads(s: seq<Byte>, limit: nat)
    requires |s| < ULONG && Pads(Letters(s)) <= 2
    ensures Reach(s, limit) <= limit
  {
    hide Fold, Passes, Room;
    WritesInside(s, limit);
    forall k | 0 <= k <= |Letters(s)|
      ensures Pads(Letters(s)[..k]) <= 2
    {
      PadsMonotone(Letters(s), k);
    }
  }

  lemma {:induction false} PadsMonotone(s: seq<Byte>, x: nat)
    requires x <= |s|
    ensures Pads(s[..x]) <= Pads(s)
  {
    if x < |s| {
      PadsMonotone(s[..|s| - 1], x);
      assert s[..|s| - 1][..x] == s[..x];
    } else {
      assert s[..x] == s;
    }
  }

  // "===A" is not refused for an output of no bytes, and one byte is written.
  lemma ThreePads()
    ensures Reach([PAD, PAD, PAD, 65], 0) == 1 && Verdict(Fold(START, [PAD, PAD, PAD, 65], 0)) == CryptOk
  {
    hide GroupBytes, Fold;
    FoldFour(START, PAD, PAD, PAD, 65, 0);
    OneByte(0);
  }

  lemma OneByte(t: nat)
    ensures |GroupBytes(t, 0)| == 1
  {
  }

  lemma {:induction false} FoldGrows(d: Decoder, s: seq<Byte>, limit: nat)
    ensures |Fold(d, s, limit).out| >= |d.out|
    decreases |s|
  {
    if s != [] {
      FoldGrows(Step(d, s[0], limit), s[1..], limit);
    }
  }

  // The output array may be longer than outlen, and has to hold what is written there.
  method Decode(inp: seq<Byte>, out: array<Byte>, outlen: nat) returns (res: Status, written: nat)
    requires outlen <= out.Length && Reach(inp, outlen) <= out.Length
    modifies out
    ensures res == Verdict(Fold(START, inp, outlen))
    ensures written == if res == CryptOk then Reach(inp, outlen) else outlen
    ensures out[..Reach(inp, outlen)] == Fold(START, inp, outlen).out
    ensures forall j :: Reach(inp, outlen) <= j < out.Length ==> out[j] == old(out[j])
  {
    hide Map, GroupBytes, Fold;
    var t: nat, y: nat, z: nat, x: nat := 0, 0, 0, 0;
    var g := 3;
    FoldEmpty(START, outlen);
    assert inp[..0] == [];
    while x < |inp|
      invariant 0 <= x <= |inp| && 0 <= z <= out.Length && 0 <= y < 4
      invariant Fold(START, inp[..x], outlen) == Decoder(t, y, g, out[..z], false)
      invariant forall j :: z <= j < out.Length ==> out[j] == old(out[j])
    {
      FoldNext(inp, x, outlen);
      FoldRest(inp, x + 1, outlen);
      var c: nat := Map(inp[x]);
      x := x + 1;
      if c != 255 {
        if c == 254 {
          c := 0;
          g := g - 1;
        }
        t := t * 64 + c;
        y := y + 1;
        if y == 4 {
          if (z + g) % ULONG > outlen {
            return CryptBufferOverflow, outlen;
          }
          GroupWidth(t, g);
          z := Put(t, g, out, z);
          y, t := 0, 0;
        }
      }
    }
    assert inp[..x] == inp;
    if y != 0 {
      return CryptInvalidPacket, outlen;
    }
    return CryptOk, z;
  }

  lemma GroupWidth(t: nat, g: int)
    ensures |GroupBytes(t, g)| == Width(g)
  {
  }

  method Put(t: nat, g: int, out: array<Byte>, at: nat) returns (z: nat)
    requires at + Width(g) <= out.Length
    modifies out
    ensures z == at + Width(g) && out[..z] == old(out[..at]) + GroupBytes(t, g)
    ensures forall j :: z <= j < out.Length ==> out[j] == old(out[j])
  {
    z := at;
    out[z] := t / 0x1_0000 % 256;
    z := z + 1;
    if g > 1 {
      out[z] := t / 0x100 % 256;
      z := z + 1;
    }
    if g > 2 {
      out[z] := t % 256;
      z := z + 1;
    }
  }

  // What has been written stays, and once full nothing follows.
  lemma FoldRest(s: seq<Byte>, x: nat, limit: nat)
    requires x <= |s|
    ensures |Fold(START, s[..x], limit).out| <= Reach(s, limit)
    ensures Fold(START, s[..x], limit).full ==> Fold(START, s, limit) == Fold(START, s[..x], limit)
  {
    assert s == s[..x] + s[x..];
    FoldConcat(START, s[..x], s[x..], limit);
    FoldGrows(Fold(START, s[..x], limit), s[x..], limit);
    if Fold(START, s[..x], limit).full {
      FoldFull(Fold(START, s[..x], limit), s[x..], limit);
    }
  }
}
