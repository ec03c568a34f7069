// Unsigned machine words as their bits, least significant first, with C's
// bitwise operators on them. A result has the width of its left operand; bits
// shifted past either end are lost.
module Words {

  function Pow2(n: nat): (r: nat)
    ensures r > 0
  {
    if n == 0 then 1 else 2 * Pow2(n - 1)
  }

  lemma {:induction false} Pow2Add(a: nat, b: nat)
    ensures Pow2(a + b) == Pow2(a) * Pow2(b)
  {
    if a > 0 {
      Pow2Add(a - 1, b);
    }
  }

  lemma Pow2Values()
    ensures Pow2(8) == 0x100 && Pow2(16) == 0x1_0000
    ensures Pow2(32) == 0x1_0000_0000 && Pow2(64) == 0x1_0000_0000_0000_0000
  {
    hide Pow2;
    Pow2Eight();
    Pow2Add(8, 8);
    Pow2Add(16, 16);
    Pow2Add(32, 32);
  }

  lemma Pow2Eight()
    ensures Pow2(8) == 0x100
  {
  }

  type Bits = seq<bool>

  function Zeros(width: nat): (r: Bits)
    ensures |r| == width
  {
    seq(width, i => false)
  }

  type Word = w: Bits | |w| == 32 witness Zeros(32)

  type Byte = b: Bits | |b| == 8 witness Zeros(8)

  function One(width: nat): (r: Bits)
    ensures |r| == width
  {
    seq(width, i => i == 0)
  }

  // (1 << n) - 1
  function Ones(width: nat, n: nat): (r: Bits)
    ensures |r| == width
  {
    seq(width, i => i < n)
  }

  function Xor(x: Bits, y: Bits): (r: Bits)
    requires |x| == |y|
    ensures |r| == |x|
  {
    seq(|x|, i requires 0 <= i < |x| => x[i] != y[i])
  }

  function Or(x: Bits, y: Bits): (r: Bits)
    requires |x| == |y|
    ensures |r| == |x|
  {
    seq(|x|, i requires 0 <= i < |x| => x[i] || y[i])
  }

  function And(x: Bits, y: Bits): (r: Bits)
    requires |x| == |y|
    ensures |r| == |x|
  {
    seq(|x|, i requires 0 <= i < |x| => x[i] && y[i])
  }

  function Shl(x: Bits, n: nat): (r: Bits)
    ensures |r| == |x|
  {
    seq(|x|, i requires 0 <= i < |x| => i >= n && x[i - n])
  }

  function Shr(x: Bits, n: nat): (r: Bits)
    ensures |r| == |x|
  {
    seq(|x|, i requires 0 <= i < |x| => i + n < |x| && x[i + n])
  }

  predicate NonZero(x: Bits) {
    exists i :: 0 <= i < |x| && x[i]
  }

  // w & (1 << i)
  lemma TestBit(w: Bits, i: nat)
    requires i < |w|
    ensures NonZero(And(w, Shl(One(|w|), i))) <==> w[i]
  {
    var m := And(w, Shl(One(|w|), i));
    assert m[i] == w[i];
    assert forall j :: 0 <= j < |w| && m[j] ==> j == i;
  }
}
