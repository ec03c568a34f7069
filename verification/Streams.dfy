// What the modes that turn a block cipher into a stream cipher have in common.
module Streams {
  import opened Results
  import opened Words
  import opened Numbers

  const MAXBLOCKSIZE := 128

  // A block cipher under one key: byte i of the encryption of a block
  type BlockCipher = (seq<Byte>, nat) -> Byte

  function Encrypted(e: BlockCipher, b: seq<Byte>): (r: seq<Byte>)
    ensures |r| == |b|
  {
    seq(|b|, i requires 0 <= i < |b| => e(b, i))
  }

  function XorByte(x: Byte, y: Byte): Byte {
    Xor(x, y)
  }

  lemma XorTwice(x: Byte, y: Byte)
    ensures XorByte(XorByte(x, y), y) == x
  {
  }

  method EcbEncrypt(e: BlockCipher, src: array<Byte>, dst: array<Byte>, n: nat)
    requires n <= src.Length && n <= dst.Length
    modifies dst
    ensures dst[..n] == Encrypted(e, old(src[..n]))
    ensures forall j :: n <= j < dst.Length ==> dst[j] == old(dst[j])
  {
    var block := src[..n];
    for i := 0 to n
      invariant forall j :: 0 <= j < i ==> dst[j] == e(block, j)
      invariant forall j :: n <= j < dst.Length ==> dst[j] == old(dst[j])
    {
      dst[i] := e(block, i);
    }
  }

  // ---- The position in a stream of blocks ----

  // The number of the block that holds the last of p bytes
  function Turn(p: nat, blocklen: nat): nat
    requires blocklen > 0
  {
    if p == 0 then 0 else (p - 1) / blocklen
  }

  lemma Turned(p: nat, n: nat, padlen: int)
    requires p > 0 && n > 0 && padlen == p - Turn(p, n) * n
    ensures padlen == n <==> p % n == 0
    ensures padlen == n ==> Turn(p, n) == p / n - 1
    ensures padlen != n ==> Turn(p, n) == p / n && padlen == p % n
  {
    if p % n == 0 {
      DivMod(p - 1, n, p / n - 1, n - 1);
    } else {
      DivMod(p - 1, n, p / n, p % n - 1);
    }
  }

  lemma Advanced(p: nat, n: nat)
    requires n > 0
    ensures Turn(p + 1, n) == p / n && p + 1 - Turn(p + 1, n) * n == p % n + 1
  {
  }

  // ---- A keystream that does not depend on the data ----

  type KeyStream = nat -> Byte

  // Data xored with the keystream from position p on
  function Streamed(ks: KeyStream, p: nat, data: seq<Byte>): (r: seq<Byte>)
    ensures |r| == |data|
  {
    seq(|data|, i requires 0 <= i < |data| => XorByte(data[i], ks(p + i)))
  }

  lemma StreamedBit(ks: KeyStream, p: nat, data: seq<Byte>, i: nat, b: nat)
    requires i < |data| && b < 8
    ensures Streamed(ks, p, data)[i][b] == (data[i][b] != ks(p + i)[b])
  {
  }

  // The pieces one after the other
  function Flatten(pieces: seq<seq<Byte>>): seq<Byte> {
    if pieces == [] then [] else pieces[0] + Flatten(pieces[1..])
  }

  // The pieces handed over in separate calls
  function Calls(ks: KeyStream, p: nat, pieces: seq<seq<Byte>>): seq<Byte>
    decreases |pieces|
  {
    if pieces == [] then []
    else Streamed(ks, p, pieces[0]) + Calls(ks, p + |pieces[0]|, pieces[1..])
  }

  lemma {:induction false} CallsAreOne(ks: KeyStream, p: nat, pieces: seq<seq<Byte>>)
    ensures Calls(ks, p, pieces) == Streamed(ks, p, Flatten(pieces))
    decreases |pieces|
  {
    if pieces != [] {
      CallsAreOne(ks, p + |pieces[0]|, pieces[1..]);
      assert Streamed(ks, p, Flatten(pieces))
          == Streamed(ks, p, pieces[0]) + Streamed(ks, p + |pieces[0]|, Flatten(pieces[1..]));
    }
  }

  // The ciphertext, cut in any way, goes back to the plaintext, which had been cut
  // in any other way.
  lemma StreamBack(ks: KeyStream, p: nat, pt: seq<seq<Byte>>, ct: seq<seq<Byte>>)
    requires Flatten(ct) == Calls(ks, p, pt)
    ensures Calls(ks, p, ct) == Flatten(pt)
  {
    CallsAreOne(ks, p, pt);
    CallsAreOne(ks, p, ct);
    var m := Flatten(pt);
    forall i | 0 <= i < |m|
      ensures Streamed(ks, p, Streamed(ks, p, m))[i] == m[i]
    {
      XorTwice(m[i], ks(p + i));
    }
    assert Streamed(ks, p, Streamed(ks, p, m)) == m;
  }
}
