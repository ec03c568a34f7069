// Cipher feedback: the pad collects the ciphertext that the next vector comes from.
module Cfb {
  import opened Results
  import opened Words
  import opened Numbers
  import opened Streams

  // The block whose encryption masks the byte after the ciphertext c
  function Source(iv: seq<Byte>, c: seq<Byte>): (r: seq<Byte>)
    requires iv != []
    ensures |r| == |iv|
  {
    var n, j := |iv|, |c| / |iv|;
    if j == 0 then iv else
      Room(j, n, |c|);
      c[(j - 1) * n..j * n]
  }

  lemma Room(j: nat, n: nat, len: nat)
    requires n > 0 && j > 0 && j == len / n
    ensures 0 <= (j - 1) * n <= j * n <= len && j * n == (j - 1) * n + n
  {
    assert j * n == (j - 1) * n + n;
  }

  function Mask(e: BlockCipher, iv: seq<Byte>, c: seq<Byte>): Byte
    requires iv != []
  {
    e(Source(iv, c), |c| % |iv|)
  }

  // What the data encrypts to after the ciphertext c
  function Encryption(e: BlockCipher, iv: seq<Byte>, c: seq<Byte>, data: seq<Byte>): (r: seq<Byte>)
    requires iv != []
    ensures |r| == |data|
    decreases |data|
  {
    if data == [] then []
    else
      var x := XorByte(data[0], Mask(e, iv, c));
      [x] + Encryption(e, iv, c + [x], data[1..])
  }

  function Decryption(e: BlockCipher, iv: seq<Byte>, c: seq<Byte>, data: seq<Byte>): (r: seq<Byte>)
    requires iv != []
    ensures |r| == |data|
    decreases |data|
  {
    if data == [] then []
    else [XorByte(data[0], Mask(e, iv, c))] + Decryption(e, iv, c + [data[0]], data[1..])
  }

  lemma {:induction false} EncryptedByte(e: BlockCipher, iv: seq<Byte>, c: seq<Byte>, data: seq<Byte>, i: nat)
    requires iv != [] && i < |data|
    ensures var ct := Encryption(e, iv, c, data); ct[i] == XorByte(data[i], Mask(e, iv, c + ct[..i]))
    decreases |data|
  {
    hide XorByte, Mask;
    var ct := Encryption(e, iv, c, data);
    if i == 0 {
      assert c + ct[..0] == c;
    } else {
      EncryptedByte(e, iv, c + [ct[0]], data[1..], i - 1);
      assert c + [ct[0]] + ct[1..][..i - 1] == c + ct[..i];
    }
  }

  // Every block is the plaintext under the encryption of the ciphertext block before it.
  lemma Feedback(e: BlockCipher, iv: seq<Byte>, data: seq<Byte>, i: nat, b: nat)
    requires iv != [] && i < |data| && b < 8
    ensures var ct, n, t := Encryption(e, iv, [], data), |iv|, i % |iv|;
      ct[i][b] == (data[i][b] != e(if i < n then iv else ct[i - t - n..i - t], t)[b])
  {
    hide Encryption, Source;
    var ct := Encryption(e, iv, [], data);
    EncryptedByte(e, iv, [], data, i);
    assert [] + ct[..i] == ct[..i];
    SourceIs(iv, ct, i);
  }

  lemma SourceIs(iv: seq<Byte>, ct: seq<Byte>, i: nat)
    requires iv != [] && i <= |ct|
    ensures var n, t := |iv|, i % |iv|;
      Source(iv, ct[..i]) == if i < n then iv else ct[i - t - n..i - t]
  {
    hide Source;
    var n := |iv|;
    if i < n {
      SourceStart(iv, ct[..i]);
    } else {
      var end := i - i % n;
      Ends(i, n);
      SourceBlock(iv, ct[..i], end);
      assert ct[..i][end - n..end] == ct[end - n..end];
    }
  }

  lemma Ends(i: nat, n: nat)
    requires 0 < n <= i
    ensures i / n > 0 && (i / n - 1) * n == i - i % n - n && i / n * n == i - i % n
  {
    Room(i / n, n, i);
  }

  lemma SourceStart(iv: seq<Byte>, c: seq<Byte>)
    requires |c| < |iv|
    ensures Source(iv, c) == iv
  {
    DivMod(|c|, |iv|, 0, |c|);
  }

  lemma SourceBlock(iv: seq<Byte>, c: seq<Byte>, end: nat)
    requires iv != [] && |iv| <= end <= |c| && |c| / |iv| > 0
    requires (|c| / |iv| - 1) * |iv| == end - |iv| && |c| / |iv| * |iv| == end
    ensures Source(iv, c) == c[end - |iv|..end]
  {
  }

  // Decryption from an equal start undoes encryption.
  lemma {:induction false} DecryptEncrypt(e: BlockCipher, iv: seq<Byte>, c: seq<Byte>, data: seq<Byte>)
    requires iv != []
    ensures Decryption(e, iv, c, Encryption(e, iv, c, data)) == data
    decreases |data|
  {
    if data != [] {
      hide XorByte, Mask;
      var x := XorByte(data[0], Mask(e, iv, c));
      XorTwice(data[0], Mask(e, iv, c));
      DecryptEncrypt(e, iv, c + [x], data[1..]);
      assert Encryption(e, iv, c, data)[1..] == Encryption(e, iv, c + [x], data[1..]);
    }
  }

  // Data cut in two encrypts to the same bytes.
  lemma {:induction false} EncryptionCut(e: BlockCipher, iv: seq<Byte>, c: seq<Byte>, a: seq<Byte>, b: seq<Byte>)
    requires iv != []
    ensures Encryption(e, iv, c, a + b)
         == Encryption(e, iv, c, a) + Encryption(e, iv, c + Encryption(e, iv, c, a), b)
    decreases |a|
  {
    hide Mask, XorByte, Encryption;
    if a == [] {
      EncryptionEmpty(e, iv, c);
      assert a + b == b && c + [] == c && [] + Encryption(e, iv, c, b) == Encryption(e, iv, c, b);
    } else {
      var x := XorByte(a[0], Mask(e, iv, c));
      var rest := Encryption(e, iv, c + [x], a[1..]);
      EncryptionFirst(e, iv, c, a + b);
      EncryptionFirst(e, iv, c, a);
      assert (a + b)[1..] == a[1..] + b;
      EncryptionCut(e, iv, c + [x], a[1..], b);
      assert c + [x] + rest == c + ([x] + rest);
      var last := Encryption(e, iv, c + ([x] + rest), b);
      assert [x] + (rest + last) == [x] + rest + last;
    }
  }

  lemma EncryptionEmpty(e: BlockCipher, iv: seq<Byte>, c: seq<Byte>)
    requires iv != []
    ensures Encryption(e, iv, c, []) == []
  {
  }

  lemma EncryptionFirst(e: BlockCipher, iv: seq<Byte>, c: seq<Byte>, data: seq<Byte>)
    requires iv != [] && data != []
    ensures var x := XorByte(data[0], Mask(e, iv, c));
      Encryption(e, iv, c, data) == [x] + Encryption(e, iv, c + [x], data[1..])
  {
  }

  lemma {:induction false} DecryptionCut(e: BlockCipher, iv: seq<Byte>, c: seq<Byte>, a: seq<Byte>, b: seq<Byte>)
    requires iv != []
    ensures Decryption(e, iv, c, a + b) == Decryption(e, iv, c, a) + Decryption(e, iv, c + a, b)
    decreases |a|
  {
    if a == [] {
      assert a + b == b && c + [] == c;
    } else {
      hide Mask, XorByte;
      assert (a + b)[1..] == a[1..] + b;
      DecryptionCut(e, iv, c + [a[0]], a[1..], b);
      assert c + [a[0]] + a[1..] == c + a;
    }
  }

  // The pieces handed over in separate calls
  function EncryptCalls(e: BlockCipher, iv: seq<Byte>, c: seq<Byte>, pieces: seq<seq<Byte>>): seq<Byte>
    requires iv != []
    decreases |pieces|
  {
    if pieces == [] then []
    else
      var x := Encryption(e, iv, c, pieces[0]);
      x + EncryptCalls(e, iv, c + x, pieces[1..])
  }

  function DecryptCalls(e: BlockCipher, iv: seq<Byte>, c: seq<Byte>, pieces: seq<seq<Byte>>): seq<Byte>
    requires iv != []
    decreases |pieces|
  {
    if pieces == [] then []
    else Decryption(e, iv, c, pieces[0]) + DecryptCalls(e, iv, c + pieces[0], pieces[1..])
  }

  lemma {:induction false} EncryptCallsAreOne(e: BlockCipher, iv: seq<Byte>, c: seq<Byte>, pieces: seq<seq<Byte>>)
    requires iv != []
    ensures EncryptCalls(e, iv, c, pieces) == Encryption(e, iv, c, Flatten(pieces))
    decreases |pieces|
  {
    if pieces != [] {
      EncryptCallsAreOne(e, iv, c + Encryption(e, iv, c, pieces[0]), pieces[1..]);
      EncryptionCut(e, iv, c, pieces[0], Flatten(pieces[1..]));
    }
  }

  lemma {:induction false} DecryptCallsAreOne(e: BlockCipher, iv: seq<Byte>, c: seq<Byte>, pieces: seq<seq<Byte>>)
    requires iv != []
    ensures DecryptCalls(e, iv, c, pieces) == Decryption(e, iv, c, Flatten(pieces))
    decreases |pieces|
  {
    if pieces != [] {
      DecryptCallsAreOne(e, iv, c + pieces[0], pieces[1..]);
      DecryptionCut(e, iv, c, pieces[0], Flatten(pieces[1..]));
    }
  }

  // The ciphertext, cut in any way, goes back to the plaintext, which had been cut
  // in any other way.
  lemma CallsBack(e: BlockCipher, iv: seq<Byte>, c: seq<Byte>, pt: seq<seq<Byte>>, ct: seq<seq<Byte>>)
    requires iv != [] && Flatten(ct) == EncryptCalls(e, iv, c, pt)
    ensures DecryptCalls(e, iv, c, ct) == Flatten(pt)
  {
    EncryptCallsAreOne(e, iv, c, pt);
    DecryptCallsAreOne(e, iv, c, ct);
    DecryptEncrypt(e, iv, c, Flatten(pt));
  }

  // After the ciphertext c the pad has its last, perhaps whole, block, and vector is
  // the mask of that block.
  ghost predicate Fits(e: BlockCipher, iv: seq<Byte>, c: seq<Byte>, padlen: int, pad: seq<Byte>, vector: seq<Byte>) {
    && iv != [] && 0 <= padlen <= |c| && padlen <= |pad| && |vector| == |iv|
    && padlen == |c| - Turn(|c|, |iv|) * |iv|
    && pad[..padlen] == c[|c| - padlen..]
    && vector == Encrypted(e, Source(iv, c[..|c| - padlen]))
  }

  // The same with the pad's block never whole
  ghost predicate Ready(e: BlockCipher, iv: seq<Byte>, c: seq<Byte>, padlen: int, pad: seq<Byte>, vector: seq<Byte>) {
    && iv != [] && 0 <= padlen <= |c| && padlen <= |pad| && |vector| == |iv|
    && padlen == |c| % |iv|
    && pad[..padlen] == c[|c| - padlen..]
    && vector == Encrypted(e, Source(iv, c[..|c| - padlen]))
  }

  lemma Started(e: BlockCipher, iv: seq<Byte>, pad: seq<Byte>)
    requires iv != []
    ensures Fits(e, iv, [], 0, pad, Encrypted(e, iv))
  {
    var c: seq<Byte> := [];
    assert c[..0] == c;
  }

  lemma Kept(e: BlockCipher, iv: seq<Byte>, c: seq<Byte>, padlen: int, pad: seq<Byte>, vector: seq<Byte>)
    requires Fits(e, iv, c, padlen, pad, vector) && padlen != |iv|
    ensures Ready(e, iv, c, padlen, pad, vector)
  {
    if c != [] {
      Turned(|c|, |iv|, padlen);
    }
  }

  lemma Renewed(e: BlockCipher, iv: seq<Byte>, c: seq<Byte>, pad: seq<Byte>, vector: seq<Byte>)
    requires |pad| == |iv| && Fits(e, iv, c, |iv|, pad, vector)
    ensures Ready(e, iv, c, 0, pad, Encrypted(e, pad))
  {
    Turned(|c|, |iv|, |iv|);
    WholeBlock(iv, c);
    assert pad[..|iv|] == pad && c[..|c|] == c;
  }

  lemma Fed(e: BlockCipher, iv: seq<Byte>, c: seq<Byte>, padlen: int, pad: seq<Byte>, vector: seq<Byte>, x: Byte)
    requires Ready(e, iv, c, padlen, pad, vector) && padlen < |pad|
    ensures Fits(e, iv, c + [x], padlen + 1, pad[padlen := x], vector)
  {
    hide Source, Encrypted, Turn;
    Advanced(|c|, |iv|);
    assert (c + [x])[..|c| - padlen] == c[..|c| - padlen];
    assert pad[padlen := x][..padlen + 1] == pad[..padlen] + [x];
    assert (c + [x])[|c| - padlen..] == c[|c| - padlen..] + [x];
  }

  class CfbState {
    var blocklen: int
    var padlen: int
    const IV: array<Byte>
    const pad: array<Byte>

    predicate InRange()
      reads this
    {
      0 <= blocklen <= MAXBLOCKSIZE && 0 <= padlen <= MAXBLOCKSIZE
    }

    predicate Valid()
      reads this
    {
      && IV.Length == MAXBLOCKSIZE && pad.Length == MAXBLOCKSIZE && IV != pad
      && (InRange() ==> 0 < blocklen && padlen <= blocklen)
    }

    // The ciphertext so far is c.
    ghost predicate At(e: BlockCipher, iv: seq<Byte>, c: seq<Byte>)
      requires Valid()
      reads this, IV, pad
    {
      InRange() && |iv| == blocklen && Fits(e, iv, c, padlen, pad[..blocklen], IV[..blocklen])
    }

    constructor Start(e: BlockCipher, iv: seq<Byte>)
      requires 0 < |iv| <= MAXBLOCKSIZE
      ensures Valid() && At(e, iv, []) && fresh(IV) && fresh(pad)
    {
      hide Fits;
      IV := new Byte[MAXBLOCKSIZE](_ => Zeros(8));
      pad := new Byte[MAXBLOCKSIZE](_ => Zeros(8));
      blocklen := |iv|;
      padlen := 0;
      new;
      for x := 0 to blocklen
        invariant IV[..x] == iv[..x] && blocklen == |iv| && padlen == 0
      {
        IV[x] := iv[x];
      }
      EcbEncrypt(e, IV, IV, blocklen);
      assert iv[..blocklen] == iv;
      Started(e, iv, pad[..blocklen]);
    }

    // The mask for the byte after c
    method Refill(e: BlockCipher, ghost iv: seq<Byte>, ghost c: seq<Byte>)
      requires Valid() && InRange()
      modifies this`padlen, IV
      ensures Valid() && InRange() && padlen < blocklen
      ensures old(At(e, iv, c)) ==> Ready(e, iv, c, padlen, pad[..blocklen], IV[..blocklen])
    {
      hide Encrypted, Fits, Ready;
      if At(e, iv, c) {
        if padlen == |iv| {
          Renewed(e, iv, c, pad[..blocklen], IV[..blocklen]);
        } else {
          Kept(e, iv, c, padlen, pad[..blocklen], IV[..blocklen]);
        }
      }
      if padlen == blocklen {
        EcbEncrypt(e, pad, IV, blocklen);
        padlen := 0;
      }
    }

    // One byte of ciphertext into the pad
    method Feed(e: BlockCipher, x: Byte, ghost iv: seq<Byte>, ghost c: seq<Byte>)
      requires Valid() && InRange() && padlen < blocklen
      modifies this`padlen, pad
      ensures Valid() && InRange()
      ensures |iv| == blocklen && old(Ready(e, iv, c, padlen, pad[..blocklen], IV[..blocklen])) ==> At(e, iv, c + [x])
    {
      hide Fits, Ready;
      ghost var was := pad[..blocklen];
      if Ready(e, iv, c, padlen, was, IV[..blocklen]) {
        Fed(e, iv, c, padlen, was, IV[..blocklen], x);
      }
      pad[padlen] := x;
      assert pad[..blocklen] == was[padlen := x];
      padlen := padlen + 1;
    }

    method Encrypt(e: BlockCipher, pt: array<Byte>, ct: array<Byte>, len: nat, ghost iv: seq<Byte>, ghost c: seq<Byte>)
      returns (res: Status)
      requires Valid() && len <= pt.Length && len <= ct.Length
      requires ct != IV && ct != pad && pt != IV && pt != pad
      modifies this`padlen, IV, pad, ct
      ensures res == if old(InRange()) then CryptOk else CryptInvalidArg
      ensures res == CryptInvalidArg ==> unchanged(this) && unchanged(IV) && unchanged(pad) && unchanged(ct)
      ensures Valid()
      ensures old(At(e, iv, c)) ==>
        iv != [] && ct[..len] == Encryption(e, iv, c, old(pt[..len])) && At(e, iv, c + ct[..len])
      ensures forall j :: len <= j < ct.Length ==> ct[j] == old(ct[j])
    {
      hide Fits, Ready, XorByte, Encryption, Mask;
      if !InRange() {
        return CryptInvalidArg;
      }
      ghost var held := At(e, iv, c);
      ghost var m, done := pt[..len], [];
      assert c + [] == c && m[..0] == [];
      if held {
        EncryptionEmpty(e, iv, c);
      }
      for i := 0 to len
        invariant Valid() && InRange() && blocklen == old(blocklen) && ct[..i] == done
        invariant held ==> At(e, iv, c + done)
        invariant forall j :: i <= j < len ==> pt[j] == m[j]
        invariant held ==> done == Encryption(e, iv, c, m[..i])
        invariant forall j :: len <= j < ct.Length ==> ct[j] == old(ct[j])
      {
        Refill(e, iv, c + done);
        var x := XorByte(pt[i], IV[padlen]);
        if held {
          MaskByte(e, iv, c + done, padlen, pad[..blocklen], IV[..blocklen]);
          EncryptionNext(e, iv, c, m, i);
        }
        Feed(e, x, iv, c + done);
        ct[i] := x;
        assert c + done + [x] == c + (done + [x]);
        done := done + [x];
      }
      assert m[..len] == m;
      return CryptOk;
    }

    method Decrypt(e: BlockCipher, ct: array<Byte>, pt: array<Byte>, len: nat, ghost iv: seq<Byte>, ghost c: seq<Byte>)
      returns (res: Status)
      requires Valid() && len <= pt.Length && len <= ct.Length
      requires ct != IV && ct != pad && pt != IV && pt != pad
      modifies this`padlen, IV, pad, pt
      ensures res == if old(InRange()) then CryptOk else CryptInvalidArg
      ensures res == CryptInvalidArg ==> unchanged(this) && unchanged(IV) && unchanged(pad) && unchanged(pt)
      ensures Valid()
      ensures old(At(e, iv, c)) ==>
        iv != [] && pt[..len] == Decryption(e, iv, c, old(ct[..len])) && At(e, iv, c + old(ct[..len]))
      ensures forall j :: len <= j < pt.Length ==> pt[j] == old(pt[j])
    {
      hide Fits, Ready, XorByte, Decryption, Mask;
      if !InRange() {
        return CryptInvalidArg;
      }
      ghost var held := At(e, iv, c);
      ghost var m, fed := ct[..len], [];
      assert c + [] == c && m[..0] == [];
      if held {
        DecryptionEmpty(e, iv, c);
      }
      for i := 0 to len
        invariant Valid() && InRange() && blocklen == old(blocklen) && fed == m[..i]
        invariant held ==> At(e, iv, c + fed)
        invariant forall j :: i <= j < len ==> ct[j] == m[j]
        invariant held ==> pt[..i] == Decryption(e, iv, c, fed)
        invariant forall j :: len <= j < pt.Length ==> pt[j] == old(pt[j])
      {
        ghost var done := pt[..i];
        Refill(e, iv, c + fed);
        var y := ct[i];
        var x := XorByte(y, IV[padlen]);
        if held {
          MaskByte(e, iv, c + fed, padlen, pad[..blocklen], IV[..blocklen]);
          DecryptionNext(e, iv, c, m, i);
        }
        Feed(e, y, iv, c + fed);
        pt[i] := x;
        assert pt[..i + 1] == done + [x] && c + fed + [y] == c + (fed + [y]);
        fed := fed + [y];
      }
      assert m[..len] == m;
      return CryptOk;
    }
  }

  // A whole block of ciphertext is the source of the next mask.
  lemma WholeBlock(iv: seq<Byte>, c: seq<Byte>)
    requires iv != [] && |c| % |iv| == 0 && |c| >= |iv|
    ensures Source(iv, c) == c[|c| - |iv|..]
  {
    var j, n := |c| / |iv|, |iv|;
    Room(j, n, |c|);
    assert j * n == |c|;
  }

  // Within a block the source stays that of its first byte.
  lemma SameSource(iv: seq<Byte>, c: seq<Byte>)
    requires iv != [] && |c| % |iv| <= |c|
    ensures Source(iv, c[..|c| - |c| % |iv|]) == Source(iv, c)
  {
    var n, j := |iv|, |c| / |iv|;
    var b := c[..|c| - |c| % n];
    assert |b| == j * n;
    DivMod(|b|, n, j, 0);
    if j > 0 {
      Room(j, n, |c|);
      assert b[(j - 1) * n..j * n] == c[(j - 1) * n..j * n];
    }
  }

  lemma MaskByte(e: BlockCipher, iv: seq<Byte>, c: seq<Byte>, padlen: int, pad: seq<Byte>, vector: seq<Byte>)
    requires Ready(e, iv, c, padlen, pad, vector) && padlen < |vector|
    ensures vector[padlen] == Mask(e, iv, c)
  {
    hide Source;
    SameSource(iv, c);
  }

  lemma EncryptionNext(e: BlockCipher, iv: seq<Byte>, c: seq<Byte>, m: seq<Byte>, i: nat)
    requires iv != [] && i < |m|
    ensures var done := Encryption(e, iv, c, m[..i]);
      Encryption(e, iv, c, m[..i + 1]) == done + [XorByte(m[i], Mask(e, iv, c + done))]
  {
    hide Mask, XorByte;
    assert m[..i + 1] == m[..i] + [m[i]];
    EncryptionCut(e, iv, c, m[..i], [m[i]]);
  }

  lemma DecryptionEmpty(e: BlockCipher, iv: seq<Byte>, c: seq<Byte>)
    requires iv != []
    ensures Decryption(e, iv, c, []) == []
  {
  }

  lemma DecryptionNext(e: BlockCipher, iv: seq<Byte>, c: seq<Byte>, m: seq<Byte>, i: nat)
    requires iv != [] && i < |m|
    ensures Decryption(e, iv, c, m[..i + 1]) == Decryption(e, iv, c, m[..i]) + [XorByte(m[i], Mask(e, iv, c + m[..i]))]
  {
    hide Mask, XorByte;
    assert m[..i + 1] == m[..i] + [m[i]];
    DecryptionCut(e, iv, c, m[..i], [m[i]]);
  }
}
