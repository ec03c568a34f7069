// Message authentication over the streaming hash, against section 2 of RFC 2104.
module Hmac {
  import opened Results
  import opened Words
  import opened Binary
  import opened Md5

  const HASHSIZE := 16
  const IPAD: Byte := [false, true, true, false, true, true, false, false]
  const OPAD: Byte := [false, false, true, true, true, false, true, false]

  // The key as one block: hashed when it is longer, followed by zeros
  function BlockKey(c: Compress, k: seq<Byte>): (r: seq<Byte>)
    ensures |r| == BLOCK
  {
    var short := if |k| > BLOCK then Digest(c, k) else k;
    short + Zeroes(BLOCK - |short|)
  }

  function Xored(k: seq<Byte>, pad: Byte): (r: seq<Byte>)
    ensures |r| == |k|
  {
    seq(|k|, i requires 0 <= i < |k| => Xor(k[i], pad))
  }

  // The pads are the bytes 0x36 and 0x5c, changed in the bits that the key has.
  lemma PadBits(k: seq<Byte>, i: nat, b: nat)
    requires i < |k| && b < 8
    ensures FromBits(IPAD) == 0x36 && FromBits(OPAD) == 0x5c
    ensures Xored(k, IPAD)[i][b] == (k[i][b] != IPAD[b]) && Xored(k, OPAD)[i][b] == (k[i][b] != OPAD[b])
  {
    InnerPad();
    OuterPad();
  }

  lemma InnerPad()
    ensures FromBits(IPAD) == 0x36
  {
  }

  lemma OuterPad()
    ensures FromBits(OPAD) == 0x5c
  {
  }

  // A key of up to a block is followed by zeros, and a longer one gives way to its digest.
  lemma BlockKeyBytes(c: Compress, k: seq<Byte>, i: nat)
    requires i < BLOCK
    ensures |k| <= BLOCK && i < |k| ==> BlockKey(c, k)[i] == k[i]
    ensures |k| > BLOCK && i < HASHSIZE ==> BlockKey(c, k)[i] == Digest(c, k)[i]
    ensures i >= (if |k| <= BLOCK then |k| else HASHSIZE) ==> FromBits(BlockKey(c, k)[i]) == 0
  {
    hide Digest, FromBits;
    ZerosValue(8);
  }

  // H(K xor opad, H(K xor ipad, text))
  function Mac(c: Compress, k: seq<Byte>, text: seq<Byte>): (d: seq<Byte>)
    ensures |d| == HASHSIZE
  {
    var b := BlockKey(c, k);
    Digest(c, Xored(b, OPAD) + Digest(c, Xored(b, IPAD) + text))
  }

  // The nested digests, for any blocks that are the key under the byte 0x36 and under 0x5c
  lemma MacIsNested(c: Compress, k: seq<Byte>, text: seq<Byte>, inner: seq<Byte>, outer: seq<Byte>)
    requires |inner| == BLOCK && forall i :: 0 <= i < BLOCK ==> inner[i] == Xor(BlockKey(c, k)[i], ToBits(0x36, 8))
    requires |outer| == BLOCK && forall i :: 0 <= i < BLOCK ==> outer[i] == Xor(BlockKey(c, k)[i], ToBits(0x5c, 8))
    ensures Mac(c, k, text) == Digest(c, outer + Digest(c, inner + text))
  {
    hide BlockKey, Digest, ToBits, FromBits, Xor;
    InnerPad();
    OuterPad();
    BitsOfValue(IPAD);
    BitsOfValue(OPAD);
    assert inner == Xored(BlockKey(c, k), IPAD) && outer == Xored(BlockKey(c, k), OPAD);
  }

  // The digest of data, as hash_memory computes it into a buffer of outlen bytes
  method HashMemory(c: Compress, data: seq<Byte>, dst: array<Byte>, outlen: nat) returns (ok: bool, written: nat)
    requires outlen <= dst.Length
    modifies dst
    ensures ok <==> outlen >= HASHSIZE
    ensures !ok ==> written == outlen && unchanged(dst)
    ensures ok ==> written == HASHSIZE && dst[..HASHSIZE] == Digest(c, data)
    ensures forall j :: HASHSIZE <= j < dst.Length ==> dst[j] == old(dst[j])
  {
    hide Absorbed, Digest;
    if outlen < HASHSIZE {
      return false, outlen;
    }
    var md := new HashState();
    md.Init(c);
    var res := md.Process(c, data, []);
    assert [] + data == data;
    res := md.Done(c, dst, data);
    return true, HASHSIZE;
  }

  // The digest, cut to outlen bytes
  method CopyPrefix(buf: array<Byte>, hashOut: array<Byte>, outlen: nat) returns (i: nat)
    requires buf.Length >= HASHSIZE && outlen <= hashOut.Length && buf != hashOut
    modifies hashOut
    ensures i == if outlen < HASHSIZE then outlen else HASHSIZE
    ensures hashOut[..i] == buf[..i]
    ensures forall j :: i <= j < hashOut.Length ==> hashOut[j] == old(hashOut[j])
  {
    i := 0;
    while i < HASHSIZE && i < outlen
      invariant i <= HASHSIZE && i <= outlen
      invariant forall j :: 0 <= j < i ==> hashOut[j] == buf[j]
      invariant forall j :: i <= j < hashOut.Length ==> hashOut[j] == old(hashOut[j])
    {
      hashOut[i] := buf[i];
      i := i + 1;
    }
  }

  class HmacState {
    const md: HashState
    const key: array<Byte>

    ghost predicate Valid() {
      md.Valid() && key.Length == 128 && md.buf != key
    }

    constructor ()
      ensures Valid() && fresh(md) && fresh(md.buf) && fresh(key)
    {
      md := new HashState();
      key := new Byte[128](_ => Zeros(8));
    }

    // The object has been given the key k and then text, in whatever pieces.
    ghost predicate Holds(c: Compress, k: seq<Byte>, text: seq<Byte>)
      requires Valid()
      reads md, md.buf, key
    {
      && md.curlen < BLOCK && key[..BLOCK] == BlockKey(c, k)
      && md.Value() == Absorbed(c, Xored(BlockKey(c, k), IPAD) + text)
    }

    method PutKey(c: Compress, k: seq<Byte>)
      requires Valid()
      modifies key
      ensures key[..BLOCK] == BlockKey(c, k)
    {
      hide Digest;
      if |k| > BLOCK {
        var ok, z := HashMemory(c, k, key, 128);
        for i := HASHSIZE to BLOCK
          invariant key[..HASHSIZE] == Digest(c, k)
          invariant key[HASHSIZE..i] == Zeroes(i - HASHSIZE)
        {
          key[i] := Zeros(8);
        }
      } else {
        for i := 0 to |k|
          invariant key[..i] == k[..i]
        {
          key[i] := k[i];
        }
        for i := |k| to BLOCK
          invariant key[..|k|] == k && key[|k|..i] == Zeroes(i - |k|)
        {
          key[i] := Zeros(8);
        }
      }
    }

    method Init(c: Compress, k: seq<Byte>) returns (res: Status)
      requires Valid()
      modifies md, md.buf, key
      ensures res == if |k| == 0 then CryptInvalidKeysize else CryptOk
      ensures res == CryptInvalidKeysize ==> unchanged(md) && unchanged(md.buf) && unchanged(key)
      ensures res == CryptOk ==> Holds(c, k, [])
    {
      hide Absorbed, BlockKey;
      if |k| == 0 {
        return CryptInvalidKeysize;
      }
      PutKey(c, k);
      var pad := Xored(key[..BLOCK], IPAD);
      md.Init(c);
      assert [] + pad == pad && pad + [] == pad;
      var err := md.Process(c, pad, []);
      return CryptOk;
    }

    method Process(c: Compress, data: seq<Byte>, ghost k: seq<Byte>, ghost text: seq<Byte>) returns (res: Status)
      requires Valid()
      modifies md, md.buf
      ensures res == if old(md.curlen) > BLOCK then CryptInvalidArg else CryptOk
      ensures res == CryptInvalidArg ==> unchanged(md) && unchanged(md.buf)
      ensures old(Holds(c, k, text)) ==> Holds(c, k, text + data)
    {
      hide Absorbed, BlockKey;
      ghost var start := Xored(BlockKey(c, k), IPAD);
      assert start + text + data == start + (text + data);
      var err := md.Process(c, data, start + text);
      return if err == CryptOk then CryptOk else CryptInvalidArg;
    }

    method Done(c: Compress, hashOut: array<Byte>, outlen: nat, ghost k: seq<Byte>, ghost text: seq<Byte>)
      returns (res: Status, written: nat)
      requires Valid() && hashOut != key && hashOut != md.buf && outlen <= hashOut.Length
      modifies md, md.buf, hashOut
      ensures res == if old(md.curlen) >= BLOCK then CryptInvalidArg else CryptOk
      ensures res == CryptInvalidArg ==> written == outlen && unchanged(md) && unchanged(md.buf) && unchanged(hashOut)
      ensures res == CryptOk ==> written == if outlen < HASHSIZE then outlen else HASHSIZE
      ensures old(Holds(c, k, text)) ==> hashOut[..written] == Mac(c, k, text)[..written]
      ensures forall j :: written <= j < hashOut.Length ==> hashOut[j] == old(hashOut[j])
    {
      hide Absorbed, BlockKey, Digest;
      ghost var b := BlockKey(c, k);
      var isha := new Byte[128](_ => Zeros(8));
      var err := md.Done(c, isha, Xored(b, IPAD) + text);
      if err != CryptOk {
        return CryptInvalidArg, outlen;
      }
      var pad := Xored(key[..BLOCK], OPAD);
      md.Init(c);
      assert [] + pad == pad;
      err := md.Process(c, pad, []);
      err := md.Process(c, isha[..HASHSIZE], pad);
      var buf := new Byte[128](_ => Zeros(8));
      err := md.Done(c, buf, pad + isha[..HASHSIZE]);
      written := CopyPrefix(buf, hashOut, outlen);
      assert buf[..written] == buf[..HASHSIZE][..written];
      return CryptOk, written;
    }
  }

  method HmacMemory(c: Compress, k: seq<Byte>, data: seq<Byte>, dst: array<Byte>, dstlen: nat)
    returns (res: Status, written: nat)
    requires dstlen <= dst.Length
    modifies dst
    ensures res == if |k| == 0 then CryptInvalidKeysize else CryptOk
    ensures res == CryptInvalidKeysize ==> written == dstlen && unchanged(dst)
    ensures res == CryptOk ==> written == if dstlen < HASHSIZE then dstlen else HASHSIZE
    ensures res == CryptOk ==> dst[..written] == Mac(c, k, data)[..written]
    ensures res == CryptOk ==> forall j :: written <= j < dst.Length ==> dst[j] == old(dst[j])
  {
    hide Absorbed, BlockKey, Mac;
    var hmac := new HmacState();
    res := hmac.Init(c, k);
    if res != CryptOk {
      return res, dstlen;
    }
    res := hmac.Process(c, data, k, []);
    assert [] + data == data;
    res, written := hmac.Done(c, dst, dstlen, k, data);
  }
}
