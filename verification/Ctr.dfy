// Counter mode: the counter is a little-endian number that is incremented in place.
module Ctr {
  import opened Results
  import opened Words
  import opened Numbers
  import opened Binary
  import opened Streams

  // (b + 1) & 255
  function AddOne(b: Byte): Byte {
    ToBits((FromBits(b) + 1) % 256, 8)
  }

  // The counter after one pass of the carry loop
  function Next(c: seq<Byte>): (r: seq<Byte>)
    ensures |r| == |c|
  {
    if c == [] then []
    else if AddOne(c[0]) != Zeros(8) then [AddOne(c[0])] + c[1..]
    else [AddOne(c[0])] + Next(c[1..])
  }

  function CounterAt(c: seq<Byte>, n: nat): (r: seq<Byte>)
    ensures |r| == |c|
  {
    if n == 0 then c else Next(CounterAt(c, n - 1))
  }

  // How many counters of that many bytes there are; a counter stands for a number with
  // its low-order byte first
  function Size(bytes: nat): (r: nat)
    ensures r > 0
  {
    if bytes == 0 then 1 else 256 * Size(bytes - 1)
  }

  lemma AddOneValue(b: Byte)
    ensures FromBits(AddOne(b)) == (FromBits(b) + 1) % 256
    ensures AddOne(b) == Zeros(8) <==> FromBits(b) == 255
    ensures FromBits(b) < 256
  {
    hide FromBits, ToBits, Pow2;
    Pow2Values();
    BitsValue((FromBits(b) + 1) % 256, 8);
    ValueBound(b);
    BitsOfValue(AddOne(b));
    ZerosValue(8);
  }

  lemma {:induction false} ValueInRange(c: seq<Byte>)
    ensures LowFirst(c) < Size(|c|)
  {
    if c != [] {
      AddOneValue(c[0]);
      ValueInRange(c[1..]);
    }
  }

  lemma {:induction false} NextValue(c: seq<Byte>)
    ensures LowFirst(Next(c)) == (LowFirst(c) + 1) % Size(|c|)
  {
    if c != [] {
      hide AddOne, FromBits, Size, LowFirst;
      var t := c[1..];
      var m := Size(|t|);
      var v, low := LowFirst(t), FromBits(c[0]);
      AddOneValue(c[0]);
      ValueInRange(t);
      ValueParts(c);
      ValueParts(Next(c));
      if low != 255 {
        assert Next(c)[1..] == t;
        NoCarry(low, v, m);
      } else {
        NextValue(t);
        assert Next(c)[1..] == Next(t);
        Carry(v, m);
      }
    }
  }

  lemma ValueParts(c: seq<Byte>)
    requires c != []
    ensures LowFirst(c) == FromBits(c[0]) + 256 * LowFirst(c[1..]) && Size(|c|) == 256 * Size(|c| - 1)
  {
  }

  lemma NoCarry(low: nat, v: nat, m: nat)
    requires v < m && low < 255
    ensures (low + 256 * v + 1) % (256 * m) == (low + 1) % 256 + 256 * v
  {
    DivMod(low + 256 * v + 1, 256 * m, 0, low + 256 * v + 1);
  }

  lemma Carry(v: nat, m: nat)
    requires v < m
    ensures (255 + 256 * v + 1) % (256 * m) == 256 * ((v + 1) % m)
  {
    if v + 1 < m {
      DivMod(v + 1, m, 0, v + 1);
      DivMod(256 * (v + 1), 256 * m, 0, 256 * (v + 1));
    } else {
      DivMod(v + 1, m, 1, 0);
      DivMod(256 * (v + 1), 256 * m, 1, 0);
    }
  }

  // After n increments the counter is the start plus n, modulo its size.
  lemma {:induction false} CounterValue(c: seq<Byte>, n: nat)
    ensures LowFirst(CounterAt(c, n)) == (LowFirst(c) + n) % Size(|c|)
  {
    if n == 0 {
      ValueInRange(c);
      DivMod(LowFirst(c), Size(|c|), 0, LowFirst(c));
    } else {
      hide LowFirst, Next, Size;
      var d := CounterAt(c, n - 1);
      CounterValue(c, n - 1);
      NextValue(d);
      ModPlus(LowFirst(c) + n - 1, 1, Size(|c|));
    }
  }

  // Byte p of the keystream: counter block p / blocklen encrypted
  function Pad(e: BlockCipher, count: seq<Byte>, p: nat): Byte
    requires count != []
  {
    e(CounterAt(count, p / |count|), p % |count|)
  }

  function Stream(e: BlockCipher, count: seq<Byte>): KeyStream
    requires count != []
  {
    (p: nat) => Pad(e, count, p)
  }

  lemma {:induction false} SameNumber(c: seq<Byte>, d: seq<Byte>)
    requires |c| == |d| && LowFirst(c) == LowFirst(d)
    ensures c == d
    decreases |c|
  {
    if c != [] {
      hide FromBits, LowFirst, Size;
      ValueParts(c);
      ValueParts(d);
      AddOneValue(c[0]);
      AddOneValue(d[0]);
      BitsOfValue(c[0]);
      BitsOfValue(d[0]);
      SameNumber(c[1..], d[1..]);
      assert c == [c[0]] + c[1..] && d == [d[0]] + d[1..];
    }
  }

  // The keystream is the encryption of the counters from the start on, one for each
  // block, modulo 256^blocklen.
  lemma PadIs(e: BlockCipher, count: seq<Byte>, p: nat, c: seq<Byte>)
    requires count != [] && |c| == |count|
    requires LowFirst(c) == (LowFirst(count) + p / |count|) % Size(|count|)
    ensures Stream(e, count)(p) == e(c, p % |count|)
  {
    hide LowFirst, CounterAt, Size;
    CounterValue(count, p / |count|);
    SameNumber(c, CounterAt(count, p / |count|));
  }

  // One byte of the carry loop, after the bytes h
  lemma CarryStep(h: seq<Byte>, t: seq<Byte>)
    requires t != []
    ensures var b := AddOne(t[0]);
      && (h + t)[|h| := b] == h + [b] + t[1..]
      && h + Next(t) == h + [b] + if b != Zeros(8) then t[1..] else Next(t[1..])
  {
    hide AddOne;
  }

  class CtrState {
    var blocklen: int
    var padlen: int
    const ctr: array<Byte>
    const pad: array<Byte>

    predicate InRange()
      reads this
    {
      0 <= blocklen <= MAXBLOCKSIZE && 0 <= padlen <= MAXBLOCKSIZE
    }

    // The state that ctr_start sets up and ctr_encrypt keeps
    predicate Valid()
      reads this
    {
      && ctr.Length == MAXBLOCKSIZE && pad.Length == MAXBLOCKSIZE && ctr != pad
      && (InRange() ==> 0 < blocklen && padlen <= blocklen)
    }

    // p bytes have been used of the stream that starts at count.
    ghost predicate At(e: BlockCipher, count: seq<Byte>, p: nat)
      requires Valid()
      reads this, ctr, pad
    {
      && InRange() && |count| == blocklen
      && padlen == p - Turn(p, blocklen) * blocklen
      && ctr[..blocklen] == CounterAt(count, Turn(p, blocklen))
      && pad[..blocklen] == Encrypted(e, ctr[..blocklen])
    }

    constructor Start(e: BlockCipher, count: seq<Byte>)
      requires 0 < |count| <= MAXBLOCKSIZE
      ensures Valid() && At(e, count, 0) && fresh(ctr) && fresh(pad)
    {
      ctr := new Byte[MAXBLOCKSIZE](_ => Zeros(8));
      pad := new Byte[MAXBLOCKSIZE](_ => Zeros(8));
      blocklen := |count|;
      padlen := 0;
      new;
      for x := 0 to blocklen
        invariant ctr[..x] == count[..x] && blocklen == |count| && padlen == 0
      {
        ctr[x] := count[x];
      }
      EcbEncrypt(e, ctr, pad, blocklen);
    }

    method Increment()
      requires Valid() && InRange()
      modifies ctr
      ensures ctr[..blocklen] == Next(old(ctr[..blocklen]))
    {
      hide AddOne, Next;
      ghost var h, t := [], ctr[..blocklen];
      assert h + t == t && h + Next(t) == Next(t);
      var x := 0;
      while x < blocklen
        invariant 0 <= x <= blocklen && |h| == x
        invariant ctr[..blocklen] == h + t && Next(old(ctr[..blocklen])) == h + Next(t)
        modifies ctr
      {
        ghost var now := ctr[..blocklen];
        ghost var b := AddOne(t[0]);
        CarryStep(h, t);
        assert now[x] == t[0];
        ctr[x] := AddOne(ctr[x]);
        assert ctr[..blocklen] == now[x := b];
        if ctr[x] != Zeros(8) {
          return;
        }
        x := x + 1;
        h, t := h + [b], t[1..];
      }
      assert t == [] && h + t == h && h + Next(t) == h;
    }

    // The pad for position p
    method Refill(e: BlockCipher, ghost count: seq<Byte>, ghost p: nat)
      requires Valid() && InRange()
      modifies this`padlen, ctr, pad
      ensures Valid() && InRange() && padlen < blocklen
      ensures old(At(e, count, p)) ==>
        && padlen == p % blocklen && ctr[..blocklen] == CounterAt(count, p / blocklen)
        && pad[..blocklen] == Encrypted(e, ctr[..blocklen])
    {
      hide Encrypted, CounterAt;
      ghost var held := At(e, count, p);
      if held && p > 0 {
        Turned(p, blocklen, padlen);
      }
      if padlen == blocklen {
        Increment();
        EcbEncrypt(e, ctr, pad, blocklen);
        padlen := 0;
        if held {
          CounterStep(count, p / blocklen);
        }
      }
    }

    method Crypt(e: BlockCipher, pt: array<Byte>, ct: array<Byte>, len: nat, ghost count: seq<Byte>, ghost p: nat)
      returns (res: Status)
      requires Valid() && len <= pt.Length && len <= ct.Length
      requires ct != ctr && ct != pad && pt != ctr && pt != pad
      modifies this`padlen, ctr, pad, ct
      ensures res == if old(InRange()) then CryptOk else CryptInvalidArg
      ensures res == CryptInvalidArg ==> unchanged(this) && unchanged(ctr) && unchanged(pad) && unchanged(ct)
      ensures Valid()
      ensures old(At(e, count, p)) ==>
        At(e, count, p + len) && ct[..len] == Streamed(Stream(e, count), p, old(pt[..len]))
      ensures forall j :: len <= j < ct.Length ==> ct[j] == old(ct[j])
    {
      hide Encrypted, CounterAt, XorByte, Streamed, Stream, Pad, Turn;
      if !InRange() {
        return CryptInvalidArg;
      }
      ghost var held := At(e, count, p);
      for i := 0 to len
        invariant Valid() && InRange() && blocklen == old(blocklen)
        invariant held ==> At(e, count, p + i)
        invariant forall j :: i <= j < len ==> pt[j] == old(pt[j])
        invariant held ==> forall j :: 0 <= j < i ==> ct[j] == XorByte(old(pt[j]), Pad(e, count, p + j))
        invariant forall j :: len <= j < ct.Length ==> ct[j] == old(ct[j])
      {
        Refill(e, count, p + i);
        if held {
          PadByte(e, count, p + i, pad[..blocklen]);
          Advanced(p + i, blocklen);
        }
        ct[i] := XorByte(pt[i], pad[padlen]);
        padlen := padlen + 1;
      }
      if held {
        Masked(e, count, p, old(pt[..len]), ct[..len]);
      }
      return CryptOk;
    }
  }

  lemma Masked(e: BlockCipher, count: seq<Byte>, p: nat, pt: seq<Byte>, ct: seq<Byte>)
    requires count != [] && |pt| == |ct|
    requires forall j :: 0 <= j < |ct| ==> ct[j] == XorByte(pt[j], Pad(e, count, p + j))
    ensures ct == Streamed(Stream(e, count), p, pt)
  {
    hide XorByte, Pad;
  }

  lemma CounterStep(count: seq<Byte>, n: nat)
    ensures n > 0 ==> CounterAt(count, n) == Next(CounterAt(count, n - 1))
  {
  }

  lemma PadByte(e: BlockCipher, count: seq<Byte>, p: nat, pad: seq<Byte>)
    requires count != [] && pad == Encrypted(e, CounterAt(count, p / |count|))
    ensures pad[p % |count|] == Pad(e, count, p)
  {
  }
}
