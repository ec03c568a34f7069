// The hash buffering of HASH_PROCESS and the padding of md5_done, over a compression
// function given as a parameter.
module Md5 {
  import opened Results
  import opened Words
  import opened Binary
  import opened Numbers

  type State = s: seq<Word> | |s| == 4 witness [Zeros(32), Zeros(32), Zeros(32), Zeros(32)]
  type Compress = (State, seq<Byte>) -> State

  const BLOCK := 64

  function ByteOf(b: Bits, i: nat): Byte
    requires 8 * i + 8 <= |b|
  {
    b[8 * i..8 * i + 8]
  }

  // Words stored low-order byte first
  function Stored(b: Bits): seq<Byte>
    requires |b| % 8 == 0
  {
    seq(|b| / 8, i requires 0 <= i < |b| / 8 => ByteOf(b, i))
  }

  // They keep their value.
  lemma {:induction false} StoredValue(b: Bits)
    requires |b| % 8 == 0
    ensures LowFirst(Stored(b)) == FromBits(b)
    decreases |b|
  {
    hide FromBits;
    if b == [] {
      Nothing();
    } else {
      var low: Byte, high := b[..8], b[8..];
      StoredValue(high);
      ByteFirst(low, high);
      assert b == low + high;
      StoredParts(low, high);
    }
  }

  lemma Nothing()
    ensures FromBits([]) == 0
  {
  }

  lemma StoredParts(low: Byte, high: Bits)
    requires |high| % 8 == 0
    ensures Stored(low + high) == [low] + Stored(high)
  {
    var b := low + high;
    assert ByteOf(b, 0) == low;
    forall i | 0 <= i < |high| / 8
      ensures ByteOf(b, i + 1) == ByteOf(high, i)
    {
    }
  }

  // ---- The one-shot meaning ----

  function Initial(): State {
    [ToWord(0x67452301), ToWord(0xefcdab89), ToWord(0x98badcfe), ToWord(0x10325476)]
  }

  function ToWord(n: nat): Word {
    ToBits(n, 32)
  }

  // compress folded over the whole blocks of x
  function Fold(c: Compress, x: seq<Byte>): State
    requires |x| % BLOCK == 0
  {
    if x == [] then Initial() else c(Fold(c, x[..|x| - BLOCK]), x[|x| - BLOCK..])
  }

  function Zeroes(n: nat): seq<Byte> {
    seq(n, i => Zeros(8))
  }

  const MARK: Byte := [false, false, false, false, false, false, false, true]

  // The zero bytes of the padding: up to 56 modulo 64
  function Gap(n: nat): nat {
    if n % BLOCK < 56 then 55 - n % BLOCK else 119 - n % BLOCK
  }

  // The message padded as in sections 3.1 and 3.2 of RFC 1321
  function Padded(m: seq<Byte>): seq<Byte> {
    m + [MARK] + Zeroes(Gap(|m|)) + Stored(ToBits(8 * |m|, 64))
  }

  lemma PaddedBlocks(m: seq<Byte>)
    ensures |Padded(m)| % BLOCK == 0
  {
    var n := |m| + 1 + Gap(|m|);
    assert n % BLOCK == 56;
    assert |Padded(m)| == n + 8;
  }

  function Output(s: State): seq<Byte> {
    Stored(s[0]) + Stored(s[1]) + Stored(s[2]) + Stored(s[3])
  }

  // The bytes of word i, low-order byte first, are at 4i.
  lemma OutputValue(s: State, i: nat)
    requires i < 4
    ensures |Output(s)| == 16 && HasWord(Output(s), i, s[i])
  {
    hide Stored, LowFirst, FromBits;
    StoredValue(s[i]);
    forall j | 0 <= j < 4
      ensures |Stored(s[j])| == 4
    {
      StoredBytes(s[j]);
    }
    assert Output(s)[4 * i..4 * i + 4] == Stored(s[i]);
    LowFirstFour(Stored(s[i]));
  }

  lemma LowFirstFour(b: seq<Byte>)
    requires |b| == 4
    ensures LowFirst(b) == FromBits(b[0]) + 0x100 * FromBits(b[1])
                           + 0x1_0000 * FromBits(b[2]) + 0x100_0000 * FromBits(b[3])
  {
    hide FromBits;
    assert b[3..][1..] == [] && b[2..][1..] == b[3..] && b[1..][1..] == b[2..];
    assert LowFirst(b[3..]) == FromBits(b[3]) + 0x100 * LowFirst([]);
    assert LowFirst(b[2..]) == FromBits(b[2]) + 0x100 * LowFirst(b[3..]);
    assert LowFirst(b[1..]) == FromBits(b[1]) + 0x100 * LowFirst(b[2..]);
  }

  // The value of the word is the sum of its four bytes, each 256 times the one before.
  predicate HasWord(h: seq<Byte>, i: nat, w: Word)
    requires |h| == 16 && i < 4
  {
    FromBits(w) == FromBits(h[4 * i]) + 0x100 * FromBits(h[4 * i + 1])
                   + 0x1_0000 * FromBits(h[4 * i + 2]) + 0x100_0000 * FromBits(h[4 * i + 3])
  }

  // A mark bit above seven zero bits, zeros, and the length in bits modulo 2^64 in the
  // last eight bytes
  lemma PaddedParts(m: seq<Byte>)
    ensures var p, n := Padded(m), |m|;
      && n + 9 <= |p| <= n + 72 && |p| % BLOCK == 0 && p[..n] == m && FromBits(p[n]) == 0x80
      && (forall i :: n < i < |p| - 8 ==> FromBits(p[i]) == 0)
      && LowFirst(p[|p| - 8..]) == 8 * n % Pow2(64)
  {
    hide Stored, LowFirst, FromBits, Pow2, ToBits;
    var l := ToBits(8 * |m|, 64);
    PaddedBlocks(m);
    StoredBytes(l);
    StoredValue(l);
    BitsValue(8 * |m|, 64);
    ZerosValue(8);
    MarkValue();
    assert Padded(m)[|Padded(m)| - 8..] == Stored(l);
  }

  lemma MarkValue()
    ensures FromBits(MARK) == 0x80
  {
  }

  // The initial state is the bytes of section 3.3 of RFC 1321.
  lemma InitialValues()
    ensures FromBits(Initial()[0]) == 0x67452301 && FromBits(Initial()[1]) == 0xefcdab89
    ensures FromBits(Initial()[2]) == 0x98badcfe && FromBits(Initial()[3]) == 0x10325476
  {
    hide FromBits, Pow2, ToBits;
    Pow2Values();
    BitsValue(0x67452301, 32);
    BitsValue(0xefcdab89, 32);
    BitsValue(0x98badcfe, 32);
    BitsValue(0x10325476, 32);
  }

  function Digest(c: Compress, m: seq<Byte>): (d: seq<Byte>)
    ensures |d| == 16
  {
    PaddedBlocks(m);
    Output(Fold(c, Padded(m)))
  }

  lemma {:induction false} StoredInjective(b: Bits, b': Bits)
    requires |b| % 8 == 0 && |b| == |b'| && Stored(b) == Stored(b')
    ensures b == b'
  {
    forall i | 0 <= i < |b|
      ensures b[i] == b'[i]
    {
      assert Stored(b)[i / 8] == Stored(b')[i / 8];
      assert ByteOf(b, i / 8)[i % 8] == b[i];
      assert ByteOf(b', i / 8)[i % 8] == b'[i];
    }
  }

  // The length that ends the padding tells messages apart.
  lemma PaddedInjective(m: seq<Byte>, m': seq<Byte>)
    requires |m| < Pow2(61) && |m'| < Pow2(61) && Padded(m) == Padded(m')
    ensures m == m'
  {
    hide ToBits, Pow2, Stored, Zeroes;
    var p, p' := Padded(m), Padded(m');
    var l, l' := ToBits(8 * |m|, 64), ToBits(8 * |m'|, 64);
    StoredBytes(l);
    StoredBytes(l');
    assert p[|p| - 8..] == Stored(l) && p'[|p'| - 8..] == Stored(l');
    StoredInjective(l, l');
    BitsValue(8 * |m|, 64);
    BitsValue(8 * |m'|, 64);
    Octets(|m|);
    Octets(|m'|);
    assert p[..|m|] == m && p'[..|m'|] == m';
  }

  lemma Octets(n: nat)
    requires n < Pow2(61)
    ensures 8 * n % Pow2(64) == 8 * n
  {
    assert Pow2(64) == 8 * Pow2(61);
    DivMod(8 * n, Pow2(64), 0, 8 * n);
  }

  // ---- The streaming state ----

  // The length counts bits modulo 2^64.
  const MODULUS: nat := 0x1_0000_0000_0000_0000

  lemma ModulusIsPower()
    ensures MODULUS == Pow2(64)
  {
    hide Pow2;
    Pow2Values();
  }

  datatype View = View(length: nat, state: State, curlen: nat, live: seq<Byte>)

  // The state that a message leads to, however it came in
  function Absorbed(c: Compress, m: seq<Byte>): View {
    var whole := |m| - |m| % BLOCK;
    View(8 * whole % MODULUS, Fold(c, m[..whole]), |m| % BLOCK, m[whole..])
  }

  lemma AbsorbedPart(c: Compress, m: seq<Byte>, p: seq<Byte>)
    requires |m| % BLOCK + |p| < BLOCK
    ensures Absorbed(c, m + p)
         == var v := Absorbed(c, m); View(v.length, v.state, v.curlen + |p|, v.live + p)
  {
    hide Fold;
    var whole := |m| - |m| % BLOCK;
    assert |m + p| - |m + p| % BLOCK == whole;
    assert (m + p)[..whole] == m[..whole];
    assert (m + p)[whole..] == m[whole..] + p;
  }

  lemma AbsorbedBlock(c: Compress, m: seq<Byte>, p: seq<Byte>)
    requires |m| % BLOCK + |p| == BLOCK
    ensures Absorbed(c, m + p)
         == var v := Absorbed(c, m); View((v.length + 512) % MODULUS, c(v.state, v.live + p), 0, [])
  {
    var whole := |m| - |m| % BLOCK;
    assert |m + p| == whole + BLOCK && |m + p| % BLOCK == 0;
    assert (m + p)[..whole + BLOCK] == m + p;
    assert (m + p)[..whole] == m[..whole];
    assert (m + p)[whole..] == m[whole..] + p;
    ModPlus(8 * whole, 512, MODULUS);
  }

  lemma BitsModulus(n: nat)
    ensures ToBits(n % MODULUS, 64) == ToBits(n, 64)
  {
    hide ToBits, Pow2;
    ModulusIsPower();
    BitsMod(n, 64);
  }

  lemma LengthBits(c: Compress, m: seq<Byte>)
    ensures var v := Absorbed(c, m);
      ToBits((v.length + v.curlen * 8) % MODULUS, 64) == ToBits(8 * |m|, 64)
  {
    hide Fold, ToBits;
    var whole := |m| - |m| % BLOCK;
    ModPlus(8 * whole, 8 * (|m| % BLOCK), MODULUS);
    BitsModulus(8 * |m|);
  }

  // The last block when the length still fits in it
  lemma FinishOne(c: Compress, m: seq<Byte>)
    requires |m| % BLOCK < 56
    ensures var v := Absorbed(c, m);
      var last := v.live + [MARK] + Zeroes(55 - v.curlen) + Stored(ToBits(8 * |m|, 64));
      |Padded(m)| % BLOCK == 0 && Fold(c, Padded(m)) == c(v.state, last)
  {
    hide ToBits;
    PaddedBlocks(m);
    var p, whole := Padded(m), |m| - |m| % BLOCK;
    assert |p| == whole + BLOCK;
    assert p[..whole] == m[..whole];
    assert p[whole..] == m[whole..] + [MARK] + Zeroes(55 - |m| % BLOCK) + Stored(ToBits(8 * |m|, 64));
  }

  // The last two when it does not
  lemma FinishTwo(c: Compress, m: seq<Byte>)
    requires |m| % BLOCK >= 56
    ensures var v := Absorbed(c, m);
      var middle, last := v.live + [MARK] + Zeroes(63 - v.curlen), Zeroes(56) + Stored(ToBits(8 * |m|, 64));
      |Padded(m)| % BLOCK == 0 && Fold(c, Padded(m)) == c(c(v.state, middle), last)
  {
    hide ToBits;
    PaddedBlocks(m);
    var p, whole := Padded(m), |m| - |m| % BLOCK;
    var k := |m| % BLOCK;
    var middle, last := m[whole..] + [MARK] + Zeroes(63 - k), Zeroes(56) + Stored(ToBits(8 * |m|, 64));
    assert Zeroes(Gap(|m|)) == Zeroes(63 - k) + Zeroes(56);
    assert p == m[..whole] + middle + last;
    assert p[..whole + BLOCK] == m[..whole] + middle && p[whole + BLOCK..] == last;
    assert (m[..whole] + middle)[..whole] == m[..whole] && (m[..whole] + middle)[whole..] == middle;
  }

  class HashState {
    var length: nat
    var state: State
    var curlen: nat
    const buf: array<Byte>

    ghost predicate Valid() {
      buf.Length == BLOCK
    }

    // The part of the object that its methods read: the buffer up to curlen
    function Value(): View
      requires Valid() && curlen <= BLOCK
      reads this, buf
    {
      View(length, state, curlen, buf[..curlen])
    }

    constructor ()
      ensures Valid() && fresh(buf)
    {
      buf := new Byte[BLOCK](_ => Zeros(8));
      length, curlen, state := 0, 0, Initial();
    }

    method Init(ghost c: Compress)
      requires Valid()
      modifies this
      ensures curlen == 0 && Value() == Absorbed(c, [])
    {
      hide ToBits;
      state := Initial();
      curlen := 0;
      length := 0;
      DivMod(0, MODULUS, 0, 0);
    }

    // A whole block straight from the data
    method TakeBlock(c: Compress, p: seq<Byte>, ghost m: seq<Byte>)
      requires Valid() && curlen == 0 && |p| == BLOCK
      modifies this
      ensures curlen == 0
      ensures old(Value()) == Absorbed(c, m) ==> Value() == Absorbed(c, m + p)
    {
      hide Absorbed;
      LiveLength(c, m);
      if Value() == Absorbed(c, m) {
        AbsorbedBlock(c, m, p);
      }
      assert buf[..0] + p == p;
      state := c(state, p);
      length := (length + 512) % MODULUS;
    }

    // Data into the buffer, and the buffer into the state once it is full
    method TakePart(c: Compress, p: seq<Byte>, ghost m: seq<Byte>)
      requires Valid() && curlen + |p| <= BLOCK
      modifies this, buf
      ensures curlen == (old(curlen) + |p|) % BLOCK
      ensures old(Value()) == Absorbed(c, m) ==> Value() == Absorbed(c, m + p)
    {
      hide Absorbed;
      LiveLength(c, m);
      if Value() == Absorbed(c, m) {
        if curlen + |p| < BLOCK {
          AbsorbedPart(c, m, p);
        } else {
          AbsorbedBlock(c, m, p);
        }
      }
      Copy(p);
      if curlen == BLOCK {
        assert buf[..BLOCK] == buf[..];
        state := c(state, buf[..]);
        length := (length + 512) % MODULUS;
        curlen := 0;
      }
    }

    // However the message is cut into calls, it leads to the same state.
    method Process(c: Compress, data: seq<Byte>, ghost m: seq<Byte>) returns (res: Status)
      requires Valid()
      modifies this, buf
      ensures res == if old(curlen) > BLOCK then CryptInvalidArg else CryptOk
      ensures old(curlen) > BLOCK ==> unchanged(this) && unchanged(buf)
      ensures old(curlen) <= BLOCK && old(Value()) == Absorbed(c, m)
        ==> curlen < BLOCK && Value() == Absorbed(c, m + data)
    {
      hide Absorbed;
      if curlen > BLOCK {
        return CryptInvalidArg;
      }
      ghost var held := Value() == Absorbed(c, m);
      var len: nat, at: nat := |data|, 0;
      assert m + data[..0] == m;
      while len > 0
        invariant at + len == |data| && curlen <= BLOCK
        invariant held ==> Value() == Absorbed(c, m + data[..at])
        decreases len, curlen
      {
        ghost var before := m + data[..at];
        var n := if curlen == 0 && len >= BLOCK then BLOCK
                 else if len < BLOCK - curlen then len else BLOCK - curlen;
        assert before + data[at..at + n] == m + data[..at + n];
        if curlen == 0 && len >= BLOCK {
          TakeBlock(c, data[at..at + BLOCK], before);
        } else {
          TakePart(c, data[at..at + n], before);
        }
        at := at + n;
        len := len - n;
      }
      assert m + data[..at] == m + data;
      LiveLength(c, m + data);
      return CryptOk;
    }

    method Copy(p: seq<Byte>)
      requires Valid() && curlen + |p| <= BLOCK
      modifies this`curlen, buf
      ensures curlen == old(curlen) + |p|
      ensures Value() == View(length, state, old(curlen) + |p|, old(Value().live) + p)
    {
      for i := 0 to |p|
        invariant curlen == old(curlen)
        invariant buf[..curlen + i] == old(buf[..curlen]) + p[..i]
      {
        buf[curlen + i] := p[i];
      }
      curlen := curlen + |p|;
    }

    // buf[curlen++] = b
    method Put(b: Byte)
      requires Valid() && curlen < BLOCK
      modifies this`curlen, buf
      ensures curlen == old(curlen) + 1 && Value() == View(length, state, curlen, old(Value().live) + [b])
    {
      buf[curlen] := b;
      curlen := curlen + 1;
    }

    method PutZeroes(n: nat)
      requires Valid() && curlen <= n <= BLOCK
      modifies this`curlen, buf
      ensures curlen == n
      ensures Value() == View(length, state, n, old(Value().live) + Zeroes(n - old(curlen)))
    {
      while curlen < n
        invariant curlen <= n
        invariant Value() == View(length, state, curlen, old(Value().live) + Zeroes(curlen - old(curlen)))
      {
        Put(Zeros(8));
      }
    }

    // STORE64L of the length
    method PutLength()
      requires Valid() && curlen == 56
      modifies this`curlen, buf
      ensures curlen == BLOCK
      ensures Value() == View(length, state, BLOCK, old(Value().live) + Stored(ToBits(length, 64)))
    {
      hide ToBits, Stored;
      StoredBytes(ToBits(length, 64));
      for i := 0 to 8
        invariant curlen == 56 + i
        invariant Value() == View(length, state, curlen, old(Value().live) + Stored(ToBits(length, 64))[..i])
      {
        Put(ByteOf(ToBits(length, 64), i));
      }
    }

    // Zeros up to the end of a block that has no room for the length
    method CloseBlock(c: Compress)
      requires Valid() && 56 < curlen <= BLOCK
      modifies this, buf
      ensures curlen == 0
      ensures Value() == View(length, c(old(state), old(Value().live) + Zeroes(BLOCK - old(curlen))), 0, [])
      ensures length == old(length)
    {
      PutZeroes(BLOCK);
      assert buf[..BLOCK] == buf[..];
      state := c(state, buf[..]);
      curlen := 0;
    }

    method LastBlock(c: Compress)
      requires Valid() && curlen <= 56
      modifies this, buf
      ensures state == c(old(state), old(Value().live) + Zeroes(56 - old(curlen)) + Stored(ToBits(old(length), 64)))
    {
      hide ToBits, Stored, Zeroes;
      PutZeroes(56);
      PutLength();
      assert buf[..BLOCK] == buf[..];
      state := c(state, buf[..]);
    }

    method Finish(c: Compress, ghost m: seq<Byte>)
      requires Valid() && curlen < BLOCK
      modifies this, buf
      ensures old(Value()) == Absorbed(c, m) ==> |Padded(m)| % BLOCK == 0 && state == Fold(c, Padded(m))
    {
      hide Absorbed, ToBits, Stored, Fold, Padded, Zeroes;
      LengthBits(c, m);
      LiveLength(c, m);
      if |m| % BLOCK < 56 {
        FinishOne(c, m);
      } else {
        FinishTwo(c, m);
      }
      length := (length + curlen * 8) % MODULUS;
      Put(MARK);
      if curlen > 56 {
        CloseBlock(c);
        assert [] + Zeroes(56) == Zeroes(56);
      }
      LastBlock(c);
    }

    method Done(c: Compress, hash: array<Byte>, ghost m: seq<Byte>) returns (res: Status)
      requires Valid() && hash != buf && hash.Length >= 16
      modifies this, buf, hash
      ensures res == if old(curlen) >= BLOCK then CryptInvalidArg else CryptOk
      ensures old(curlen) >= BLOCK ==> unchanged(this) && unchanged(buf) && unchanged(hash)
      ensures old(curlen) < BLOCK && old(Value()) == Absorbed(c, m) ==> hash[..16] == Digest(c, m)
      ensures old(curlen) < BLOCK ==> forall i :: 0 <= i < 4 ==> HasWord(hash[..16], i, state[i])
      ensures old(curlen) < BLOCK && old(Value()) == Absorbed(c, m)
        ==> |Padded(m)| % BLOCK == 0 && state == Fold(c, Padded(m))
      ensures forall j :: 16 <= j < hash.Length ==> hash[j] == old(hash[j])
    {
      hide Absorbed, Output, Padded, Fold, HasWord;
      if curlen >= BLOCK {
        return CryptInvalidArg;
      }
      Finish(c, m);
      for i := 0 to 16
        invariant forall j :: 0 <= j < i ==> hash[j] == ByteOf(state[j / 4], j % 4)
        invariant forall j :: 16 <= j < hash.Length ==> hash[j] == old(hash[j])
        modifies hash
      {
        hash[i] := ByteOf(state[i / 4], i % 4);
      }
      OutputBytes(state, hash[..16]);
      OutputWords(state);
      return CryptOk;
    }
  }

  lemma OutputWords(s: State)
    ensures |Output(s)| == 16 && forall i :: 0 <= i < 4 ==> HasWord(Output(s), i, s[i])
  {
    hide HasWord, Output;
    forall i | 0 <= i < 4
      ensures |Output(s)| == 16 && HasWord(Output(s), i, s[i])
    {
      OutputValue(s, i);
    }
    OutputValue(s, 0);
  }

  lemma OutputBytes(s: State, h: seq<Byte>)
    requires |h| == 16 && forall j :: 0 <= j < 16 ==> h[j] == ByteOf(s[j / 4], j % 4)
    ensures h == Output(s)
  {
    hide ByteOf;
    forall j | 0 <= j < 16
      ensures h[j] == Output(s)[j]
    {
      assert Output(s)[j] == Stored(s[j / 4])[j % 4];
    }
  }

  lemma LiveLength(c: Compress, m: seq<Byte>)
    ensures Absorbed(c, m).curlen == |m| % BLOCK == |Absorbed(c, m).live|
  {
  }

  lemma StoredBytes(b: Bits)
    requires |b| % 8 == 0
    ensures |Stored(b)| == |b| / 8
    ensures forall i :: 0 <= i < |b| / 8 ==> Stored(b)[i] == ByteOf(b, i)
  {
  }
}
