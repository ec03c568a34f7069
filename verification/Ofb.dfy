// Output feedback: the vector is encrypted over itself.
module Ofb {
  import opened Results
  import opened Words
  import opened Numbers
  import opened Streams

  // The vector after n encryptions
  function Vector(e: BlockCipher, iv: seq<Byte>, n: nat): (r: seq<Byte>)
    ensures |r| == |iv|
  {
    if n == 0 then iv else Encrypted(e, Vector(e, iv, n - 1))
  }

  // How often the vector has been encrypted when p bytes have been used
  function Refills(p: nat, blocklen: nat): nat
    requires blocklen > 0
  {
    if p == 0 then 0 else (p - 1) / blocklen + 1
  }

  // Byte p of the keystream
  function Pad(e: BlockCipher, iv: seq<Byte>, p: nat): Byte
    requires iv != []
  {
    Vector(e, iv, p / |iv| + 1)[p % |iv|]
  }

  function Stream(e: BlockCipher, iv: seq<Byte>): KeyStream
    requires iv != []
  {
    (p: nat) => Pad(e, iv, p)
  }

  // Every block of the keystream is the encryption of the one before it, the first that
  // of the initial vector.
  lemma PadIs(e: BlockCipher, iv: seq<Byte>, p: nat, previous: seq<Byte>)
    requires iv != [] && |previous| == |iv|
    requires if p < |iv| then previous == iv else
      forall t :: 0 <= t < |iv| ==> previous[t] == Stream(e, iv)(p - p % |iv| - |iv| + t)
    ensures Stream(e, iv)(p) == e(previous, p % |iv|)
  {
    hide Encrypted, Vector;
    var n := |iv|;
    if p < n {
      DivMod(p, n, 0, p);
      VectorNext(e, iv, 0);
      VectorStart(e, iv);
    } else {
      VectorNext(e, iv, p / n);
      forall t | 0 <= t < n
        ensures previous[t] == Vector(e, iv, p / n)[t]
      {
        assert n * (p / n) == p - p % n;
        DivMod(p - p % n - n + t, n, p / n - 1, t);
        assert previous[t] == Stream(e, iv)(p - p % n - n + t);
      }
      assert previous == Vector(e, iv, p / n);
    }
    EncryptedAt(e, previous, p % n);
  }

  lemma VectorStart(e: BlockCipher, iv: seq<Byte>)
    ensures Vector(e, iv, 0) == iv
  {
  }

  lemma VectorNext(e: BlockCipher, iv: seq<Byte>, n: nat)
    ensures Vector(e, iv, n + 1) == Encrypted(e, Vector(e, iv, n))
  {
  }

  lemma EncryptedAt(e: BlockCipher, b: seq<Byte>, i: nat)
    requires i < |b|
    ensures Encrypted(e, b)[i] == e(b, i)
  {
  }

  class OfbState {
    var blocklen: int
    var padlen: int
    const IV: array<Byte>

    predicate InRange()
      reads this
    {
      0 <= blocklen <= MAXBLOCKSIZE && 0 <= padlen <= MAXBLOCKSIZE
    }

    predicate Valid()
      reads this
    {
      IV.Length == MAXBLOCKSIZE && (InRange() ==> 0 < blocklen && padlen <= blocklen)
    }

    // p bytes have been used of the stream that starts at iv.
    ghost predicate At(e: BlockCipher, iv: seq<Byte>, p: nat)
      requires Valid()
      reads this, IV
    {
      && InRange() && |iv| == blocklen
      && padlen == p + blocklen - Refills(p, blocklen) * blocklen
      && IV[..blocklen] == Vector(e, iv, Refills(p, blocklen))
    }

    constructor Start(e: BlockCipher, iv: seq<Byte>)
      requires 0 < |iv| <= MAXBLOCKSIZE
      ensures Valid() && At(e, iv, 0) && fresh(IV)
    {
      IV := new Byte[MAXBLOCKSIZE](_ => Zeros(8));
      blocklen := |iv|;
      padlen := |iv|;
      new;
      for x := 0 to blocklen
        invariant IV[..x] == iv[..x] && blocklen == padlen == |iv|
      {
        IV[x] := iv[x];
      }
    }

    // The vector for position p
    method Refill(e: BlockCipher, ghost iv: seq<Byte>, ghost p: nat)
      requires Valid() && InRange()
      modifies this`padlen, IV
      ensures Valid() && InRange() && padlen < blocklen
      ensures old(At(e, iv, p)) ==>
        padlen == p % blocklen && IV[..blocklen] == Vector(e, iv, p / blocklen + 1)
    {
      hide Encrypted, Vector;
      if At(e, iv, p) {
        Refilled(p, blocklen, padlen);
        VectorStep(e, iv, p / blocklen);
      }
      if padlen == blocklen {
        EcbEncrypt(e, IV, IV, blocklen);
        padlen := 0;
      }
    }

    method Crypt(e: BlockCipher, pt: array<Byte>, ct: array<Byte>, len: nat, ghost iv: seq<Byte>, ghost p: nat)
      returns (res: Status)
      requires Valid() && len <= pt.Length && len <= ct.Length
      requires ct != IV && pt != IV
      modifies this`padlen, IV, ct
      ensures res == if old(InRange()) then CryptOk else CryptInvalidArg
      ensures res == CryptInvalidArg ==> unchanged(this) && unchanged(IV) && unchanged(ct)
      ensures Valid()
      ensures old(At(e, iv, p)) ==>
        At(e, iv, p + len) && ct[..len] == Streamed(Stream(e, iv), p, old(pt[..len]))
      ensures forall j :: len <= j < ct.Length ==> ct[j] == old(ct[j])
    {
      hide Encrypted, Vector, XorByte, Streamed, Stream, Pad, Refills;
      if !InRange() {
        return CryptInvalidArg;
      }
      ghost var held := At(e, iv, p);
      for i := 0 to len
        invariant Valid() && InRange() && blocklen == old(blocklen)
        invariant held ==> At(e, iv, p + i)
        invariant forall j :: i <= j < len ==> pt[j] == old(pt[j])
        invariant held ==> forall j :: 0 <= j < i ==> ct[j] == XorByte(old(pt[j]), Pad(e, iv, p + j))
        invariant forall j :: len <= j < ct.Length ==> ct[j] == old(ct[j])
      {
        Refill(e, iv, p + i);
        if held {
          PadByte(e, iv, p + i, IV[..blocklen]);
        }
        ct[i] := XorByte(pt[i], IV[padlen]);
        padlen := padlen + 1;
        if held {
          Used(p + i, blocklen);
        }
      }
      if held {
        Masked(e, iv, p, old(pt[..len]), ct[..len]);
      }
      return CryptOk;
    }
  }

  lemma Masked(e: BlockCipher, iv: seq<Byte>, p: nat, pt: seq<Byte>, ct: seq<Byte>)
    requires iv != [] && |pt| == |ct|
    requires forall j :: 0 <= j < |ct| ==> ct[j] == XorByte(pt[j], Pad(e, iv, p + j))
    ensures ct == Streamed(Stream(e, iv), p, pt)
  {
    hide XorByte, Pad;
  }

  lemma Refilled(p: nat, n: nat, padlen: int)
    requires n > 0 && padlen == p + n - Refills(p, n) * n
    ensures padlen == n ==> Refills(p, n) == p / n && p % n == 0
    ensures padlen != n ==> Refills(p, n) == p / n + 1 && padlen == p % n
  {
    if p == 0 {
    } else if p % n == 0 {
      DivMod(p - 1, n, p / n - 1, n - 1);
      assert p / n * n == p;
    } else {
      assert (p / n + 1) * n == p / n * n + n;
      DivMod(p - 1, n, p / n, p % n - 1);
    }
  }

  lemma Used(p: nat, n: nat)
    requires n > 0
    ensures Refills(p + 1, n) == p / n + 1 && p + 1 + n - Refills(p + 1, n) * n == p % n + 1
  {
  }

  lemma VectorStep(e: BlockCipher, iv: seq<Byte>, n: nat)
    ensures Vector(e, iv, n + 1) == Encrypted(e, Vector(e, iv, n))
  {
  }

  lemma PadByte(e: BlockCipher, iv: seq<Byte>, p: nat, vector: seq<Byte>)
    requires iv != [] && vector == Vector(e, iv, p / |iv| + 1)
    ensures vector[p % |iv|] == Pad(e, iv, p)
  {
  }
}
