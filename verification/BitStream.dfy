// The bit stream of the codec: integers and byte strings of any width at any bit
// position of a byte buffer.
module BitStream {
  import opened Words
  import opened Numbers
  import opened Binary
  import opened Types

  const RESIZE_PAD := 1500

  // ---- The stream as the set of its one bits ----

  function Content(b: seq<Byte>): set<nat> {
    set k: nat | k < 8 * |b| && b[k / 8][k % 8]
  }

  // The one bits of b when it starts at a position
  function Placed(b: Bits, at: nat): set<nat> {
    set k: nat | k < at + |b| && Marked(b, at, k)
  }

  predicate Marked(b: Bits, at: nat, k: nat) {
    at <= k < at + |b| && b[k - at]
  }

  function Taken(ones: set<nat>, at: nat, n: nat): Bits {
    seq(n, i requires 0 <= i < n => at + i in ones)
  }

  function Window(at: nat, n: nat): set<nat> {
    set k: nat | k < at + n && Inside(k, at, n)
  }

  predicate Inside(k: nat, at: nat, n: nat) {
    at <= k < at + n
  }

  // The low n bits of a word, followed by zeros past its end
  function IntBits(v: Word, n: nat): Bits {
    seq(n, i requires 0 <= i < n => i < 32 && v[i])
  }

  function ToU32(b: Bits): Word {
    seq(32, i requires 0 <= i < 32 => i < |b| && b[i])
  }

  function DataBits(data: seq<Byte>, n: nat): Bits
    requires n <= 8 * |data|
  {
    seq(n, i requires 0 <= i < n => data[i / 8][i % 8])
  }

  // ---- What was written is read back. ----

  // Bit strings one after the other from a position on
  function WriteAll(ones: set<nat>, at: nat, items: seq<Bits>): set<nat>
    decreases |items|
  {
    if items == [] then ones else WriteAll(ones + Placed(items[0], at), at + |items[0]|, items[1..])
  }

  // Strings of the same widths taken one after the other
  function ReadAll(ones: set<nat>, at: nat, items: seq<Bits>): seq<Bits>
    decreases |items|
  {
    if items == [] then [] else [Taken(ones, at, |items[0]|)] + ReadAll(ones, at + |items[0]|, items[1..])
  }

  function Total(items: seq<Bits>): nat {
    if items == [] then 0 else |items[0]| + Total(items[1..])
  }

  lemma {:induction false} WriteAllOutside(ones: set<nat>, at: nat, items: seq<Bits>, k: nat)
    requires k < at || k >= at + Total(items)
    ensures k in WriteAll(ones, at, items) <==> k in ones
    decreases |items|
  {
    if items != [] {
      WriteAllOutside(ones + Placed(items[0], at), at + |items[0]|, items[1..], k);
    }
  }

  // Into zeroed space, items of any widths come back, and nothing outside changes.
  lemma {:induction false} ReadBack(ones: set<nat>, at: nat, items: seq<Bits>)
    requires ones !! Window(at, Total(items))
    ensures ReadAll(WriteAll(ones, at, items), at, items) == items
    ensures WriteAll(ones, at, items) - Window(at, Total(items)) == ones
    decreases |items|
  {
    var all := WriteAll(ones, at, items);
    forall k: nat | k < at || k >= at + Total(items)
      ensures k in all <==> k in ones
    {
      WriteAllOutside(ones, at, items, k);
    }
    if items != [] {
      var b := items[0];
      var next := ones + Placed(b, at);
      forall i | 0 <= i < |b|
        ensures (at + i in all) == b[i]
      {
        WriteAllOutside(next, at + |b|, items[1..], at + i);
      }
      assert Taken(all, at, |b|) == b;
      ReadBack(next, at + |b|, items[1..]);
    }
  }

  lemma {:induction false} WriteAllLast(ones: set<nat>, at: nat, items: seq<Bits>, b: Bits)
    ensures WriteAll(ones, at, items + [b]) == WriteAll(ones, at, items) + Placed(b, at + Total(items))
    ensures Total(items + [b]) == Total(items) + |b|
    decreases |items|
  {
    if items == [] {
      assert items + [b] == [b] && [b][1..] == [];
    } else {
      assert (items + [b])[1..] == items[1..] + [b];
      WriteAllLast(ones + Placed(items[0], at), at + |items[0]|, items[1..], b);
    }
  }

  lemma {:induction false} ReadAllAt(ones: set<nat>, at: nat, items: seq<Bits>, i: nat)
    requires i < |items|
    ensures |ReadAll(ones, at, items)| == |items|
    ensures ReadAll(ones, at, items)[i] == Taken(ones, at + Total(items[..i]), |items[i]|)
    ensures Total(items[..i]) + |items[i]| == Total(items[..i + 1]) <= Total(items)
    decreases |items|
  {
    if i == 0 {
      assert items[..1][1..] == [];
      if |items| > 1 {
        ReadAllAt(ones, at + |items[0]|, items[1..], 0);
      }
    } else {
      ReadAllAt(ones, at + |items[0]|, items[1..], i - 1);
      assert items[..i][1..] == items[1..][..i - 1] && items[..i + 1][1..] == items[1..][..i];
    }
  }

  // Replacing zeros is the same as writing over them, so whole bytes go to the same
  // place at a byte boundary as bit by bit.
  lemma ReplaceOrAdd(ones: set<nat>, at: nat, n: nat, b: Bits)
    requires ones !! Window(at, n)
    ensures ones - Window(at, n) + Placed(b, at) == ones + Placed(b, at)
  {
  }

  // An integer comes back modulo 2^width.
  lemma IntBack(v: Word, n: nat)
    ensures FromBits(ToU32(IntBits(v, n))) == FromBits(v) % Pow2(n)
  {
    hide FromBits, ToBits, Pow2;
    BitsOfValue(v);
    ValueBound(v);
    LowBits(FromBits(v), n);
    if n >= 32 {
      assert ToU32(IntBits(v, n)) == v;
      Pow2Monotone(32, n);
      DivMod(FromBits(v), Pow2(n), 0, FromBits(v));
    }
  }

  lemma LowBits(x: nat, n: nat)
    ensures n < 32 ==> FromBits(ToU32(IntBits(ToBits(x, 32), n))) == x % Pow2(n)
  {
    hide FromBits, Pow2;
    if n < 32 {
      BitsValue(x, n);
      assert ToU32(IntBits(ToBits(x, 32), n)) == ToBits(x, n) + Zeros(32 - n);
      ZerosAbove(ToBits(x, n), 32 - n);
    }
  }

  lemma {:induction false} ZerosAbove(b: Bits, n: nat)
    ensures FromBits(b + Zeros(n)) == FromBits(b)
  {
    if b == [] {
      assert b + Zeros(n) == Zeros(n);
      ZerosValue(n);
    } else {
      assert (b + Zeros(n))[1..] == b[1..] + Zeros(n);
      ZerosAbove(b[1..], n);
    }
  }

  // ---- Ranged values ----

  // The width for the numbers from start to end; U8 of the logarithm
  function RangeBits(start: U32, end: U32): nat {
    GetNextBinLog2((end - start + 1) % U32_SIZE) % 256
  }

  function RangedBits(value: U32, start: U32, end: U32): Bits
    requires start <= value <= end
  {
    IntBits(ToBits(value - start, 32), RangeBits(start, end))
  }

  function RangedValue(b: Bits, start: U32): U32 {
    (FromBits(ToU32(b)) + start) % U32_SIZE
  }

  lemma RangeFits(value: U32, start: U32, end: U32)
    requires start <= value <= end
    ensures value - start < Pow2(RangeBits(start, end))
  {
    hide GetNextBinLog2, Pow2;
    var size := end - start + 1;
    Pow2Values();
    if size == U32_SIZE {
      DivMod(size, U32_SIZE, 1, 0);
      WholeRange();
      Pow2Monotone(32, 129);
    } else {
      DivMod(size, U32_SIZE, 0, size);
      NextBinLog2Covers(size);
    }
  }

  // No more bits than that many numbers need, but for one where the logarithm of the size
  // rounds up, and for the range of all numbers
  ghost predicate IsWidth(size: nat, n: nat)
    requires 0 < size <= U32_SIZE
  {
    if size == U32_SIZE then n == 129
    else n <= 33 && if RoundsToPower(size) then n > 0 && IsCeilLog2(size, n - 1) else IsCeilLog2(size, n)
  }

  lemma RangeWidth(start: U32, end: U32)
    requires start <= end
    ensures IsWidth(end - start + 1, RangeBits(start, end))
  {
    hide GetNextBinLog2, Pow2, RoundsToPower, IsCeilLog2;
    var size := end - start + 1;
    if size == U32_SIZE {
      DivMod(size, U32_SIZE, 1, 0);
      WholeRange();
    } else {
      DivMod(size, U32_SIZE, 0, size);
      NextBinLog2Covers(size);
      Width(size);
    }
  }

  lemma Width(size: U32)
    requires size > 0
    ensures RoundsToPower(size) ==> GetNextBinLog2(size) > 0
  {
    hide GetNextBinLog2, Floor;
    NextBinLog2Covers(size);
  }

  // Every value comes back from its range, even from the range of all numbers.
  lemma RangedBack(value: U32, start: U32, end: U32)
    requires start <= value <= end
    ensures RangedValue(RangedBits(value, start, end), start) == value
  {
    hide FromBits, ToBits, Pow2, RangeBits;
    var d := value - start;
    Pow2Values();
    RangeFits(value, start, end);
    IntBack(ToBits(d, 32), RangeBits(start, end));
    BitsValue(d, 32);
    DivMod(d, Pow2(32), 0, d);
    DivMod(d, Pow2(RangeBits(start, end)), 0, d);
    DivMod(value, U32_SIZE, 0, value);
  }

  // ---- Bits within one byte ----

  // b |= U8(value & U32(mask)) << pos, where mask has n ones
  function PutByte(b: Byte, v: Word, pos: nat, n: nat): Byte
    requires pos + n <= 8
  {
    Or(b, Shl(And(v, Ones(8, n) + Zeros(24))[..8], pos))
  }

  lemma PutByteBits(b: Byte, v: Word, pos: nat, n: nat)
    requires pos + n <= 8
    ensures forall i :: 0 <= i < 8 ==> PutByte(b, v, pos, n)[i] == (b[i] || (pos <= i < pos + n && v[i - pos]))
  {
  }

  // (b >> pos) & mask
  function GetByte(b: Byte, pos: nat, n: nat): Byte
    requires pos + n <= 8
  {
    And(Shr(b, pos), Ones(8, n))
  }

  lemma GetByteBits(b: Byte, pos: nat, n: nat)
    requires pos + n <= 8
    ensures forall i :: 0 <= i < 8 ==> GetByte(b, pos, n)[i] == (i < n && b[pos + i])
  {
  }

  lemma PutContent(b: seq<Byte>, p: nat, pos: nat, n: nat, v: Word)
    requires p < |b| && pos + n <= 8
    ensures Content(b[p := PutByte(b[p], v, pos, n)]) == Content(b) + Placed(IntBits(v, n), 8 * p + pos)
  {
    hide PutByte;
    PutByteBits(b[p], v, pos, n);
    var x := PutByte(b[p], v, pos, n);
    forall k: nat | k < 8 * |b|
      ensures k in Content(b[p := x]) <==> k in Content(b) || k in Placed(IntBits(v, n), 8 * p + pos)
    {
      if k / 8 == p {
        assert k == 8 * p + k % 8;
      }
    }
  }

  lemma PlacedNext(v: Word, done: nat, n: nat, at: nat)
    requires n <= 8
    ensures Placed(IntBits(v, done), at) + Placed(IntBits(Shr(v, done), n), at + done)
         == Placed(IntBits(v, done + n), at)
  {
  }

  lemma TakenNext(b: seq<Byte>, p: nat, pos: nat, n: nat, at: nat, done: nat)
    requires p < |b| && pos + n <= 8 && at + done == 8 * p + pos
    ensures Or(ToU32(Taken(Content(b), at, done)), Shl(GetByte(b[p], pos, n) + Zeros(24), done))
         == ToU32(Taken(Content(b), at, done + n))
  {
    hide GetByte;
    GetByteBits(b[p], pos, n);
    forall k: nat | at + done <= k < at + done + n
      ensures k in Content(b) <==> b[p][k - 8 * p]
    {
      assert k / 8 == p && k % 8 == k - 8 * p;
    }
  }

  lemma Grown(b: seq<Byte>, n: nat)
    ensures Content(b + seq(n, i => Zeros(8))) == Content(b)
  {
    forall k: nat | k < 8 * (|b| + n)
      ensures k in Content(b + seq(n, i => Zeros(8))) <==> k in Content(b)
    {
    }
  }

  // ---- The stream ----

  // The bytes of the buffer, and the positions that reads and writes may go up to
  datatype Limits = Limits(length: nat, read: nat, write: nat)

  // The limits once n bits have been written at a position: a resizable stream whose
  // buffer is too short gets one that holds them, with room to spare, and both limits
  // at its end.
  function After(l: Limits, resizable: bool, at: nat, n: nat): Limits {
    if resizable && at + n > l.write && at + n > 8 * l.length then
      var length := Bytes(at + n) + RESIZE_PAD;
      Limits(length, 8 * length, 8 * length)
    else l
  }

  class BitStream {
    var buffer: array<Byte>
    var bitNum: nat
    var maxReadBitNum: nat
    var maxWriteBitNum: nat
    var error: bool
    const resizable: bool

    ghost predicate Valid()
      reads this
    {
      maxReadBitNum <= 8 * buffer.Length && maxWriteBitNum <= 8 * buffer.Length
    }

    function TheLimits(): Limits
      reads this
    {
      Limits(buffer.Length, maxReadBitNum, maxWriteBitNum)
    }

    // n more bits can be written, in a larger buffer if need be.
    predicate HasRoom(n: nat)
      reads this
    {
      bitNum + n <= maxWriteBitNum || resizable
    }

    ghost function Ones(): set<nat>
      reads this, buffer
    {
      Content(buffer[..])
    }

    constructor (size: nat, resizable: bool)
      ensures Valid() && fresh(buffer) && buffer.Length == size && this.resizable == resizable
      ensures bitNum == 0 && !error && Ones() == {}
      ensures maxReadBitNum == maxWriteBitNum == 8 * size
    {
      buffer := new Byte[size](_ => Zeros(8));
      bitNum, error := 0, false;
      maxReadBitNum, maxWriteBitNum := 8 * size, 8 * size;
      this.resizable := resizable;
    }

    // Room for n more bits, all of them kept that are there
    method ResizeBits(n: nat) returns (ok: bool)
      requires Valid()
      modifies this`buffer, this`maxReadBitNum, this`maxWriteBitNum
      requires bitNum + n > maxWriteBitNum
      ensures Valid() && ok == resizable && Ones() == old(Ones())
      ensures ok ==> bitNum + n <= 8 * buffer.Length
      ensures buffer == old(buffer) || fresh(buffer)
      ensures TheLimits() == After(old(TheLimits()), resizable, bitNum, n)
    {
      if !resizable {
        return false;
      }
      var bytesNeeded := Bytes(bitNum + n);
      if buffer.Length < bytesNeeded {
        var newSize := bytesNeeded + RESIZE_PAD;
        var newBuffer := new Byte[newSize](_ => Zeros(8));
        for i := 0 to buffer.Length
          invariant newBuffer[..i] == buffer[..i]
          invariant forall j :: i <= j < newSize ==> newBuffer[j] == Zeros(8)
          modifies newBuffer
        {
          newBuffer[i] := buffer[i];
        }
        Grown(buffer[..], newSize - buffer.Length);
        assert newBuffer[..] == buffer[..] + seq(newSize - buffer.Length, i => Zeros(8));
        buffer := newBuffer;
        maxReadBitNum, maxWriteBitNum := 8 * newSize, 8 * newSize;
      }
      return true;
    }

    // The bits of value where the position is, over zeros or over what is there
    method WriteInt(value: Word, bitCount: nat)
      requires Valid() && bitCount < 256
      modifies this, buffer
      ensures Valid() && (buffer == old(buffer) || fresh(buffer))
      ensures TheLimits() == After(old(TheLimits()), resizable, old(bitNum), bitCount)
      ensures !old(HasRoom(bitCount)) ==>
        error && bitNum == old(bitNum) && Ones() == old(Ones())
      ensures old(HasRoom(bitCount)) ==>
        error == old(error) && bitNum == old(bitNum) + bitCount
        && Ones() == old(Ones()) + Placed(IntBits(value, bitCount), old(bitNum))
    {
      hide Content, Placed, IntBits, And, Words.Ones;
      if bitNum + bitCount > maxWriteBitNum {
        var ok := ResizeBits(bitCount);
        if !ok {
          error := true;
          return;
        }
      }
      MaskedInt(value, bitCount);
      var masked: Word := And(value, Words.Ones(32, bitCount));
      PlacedNone(masked, bitNum);
      if bitCount == 0 {
        return;
      }
      ghost var at := bitNum;
      var v, rest := masked, bitCount;
      while rest > 0
        invariant 0 < rest <= bitCount && bitNum == at + bitCount - rest
        invariant v == Shr(masked, bitCount - rest)
        invariant Content(buffer[..]) == old(Ones()) + Placed(IntBits(masked, bitCount - rest), at)
        invariant bitNum + rest <= 8 * buffer.Length
        modifies this`bitNum, buffer
      {
        var bytePos, bitPos := bitNum / 8, bitNum % 8;
        var bitsInByte := 8 - bitPos;
        ghost var was := buffer[..];
        var n := if rest <= bitsInByte then rest else bitsInByte;
        PutContent(was, bytePos, bitPos, n, v);
        PlacedNext(masked, bitCount - rest, n, at);
        buffer[bytePos] := PutByte(buffer[bytePos], v, bitPos, n);
        assert buffer[..] == was[bytePos := PutByte(was[bytePos], v, bitPos, n)];
        bitNum := bitNum + n;
        if rest <= bitsInByte {
          return;
        }
        ShrNext(masked, bitCount - rest, n);
        v := Shr(v, n);
        rest := rest - n;
      }
    }

    method ReadInt(bitCount: nat) returns (value: Word)
      requires Valid() && bitCount < 256
      modifies this`bitNum, this`error
      ensures old(bitNum) + bitCount > maxReadBitNum ==> error && bitNum == old(bitNum) && value == Zeros(32)
      ensures old(bitNum) + bitCount <= maxReadBitNum ==>
        && error == old(error) && bitNum == old(bitNum) + bitCount
        && value == ToU32(Taken(Ones(), old(bitNum), bitCount))
    {
      hide Content, Taken, ToU32;
      if bitNum + bitCount > maxReadBitNum {
        error := true;
        return Zeros(32);
      }
      TakenNone(Ones(), bitNum);
      if bitCount == 0 {
        return Zeros(32);
      }
      ghost var at := bitNum;
      value := Zeros(32);
      var rest, bitsRead := bitCount, 0;
      while rest > 0
        invariant 0 < rest && rest + bitsRead == bitCount && bitNum == at + bitsRead
        invariant error == old(error)
        invariant value == ToU32(Taken(Content(buffer[..]), at, bitsRead))
      {
        var bytePos, bitPos := bitNum / 8, bitNum % 8;
        var bitsInByte := 8 - bitPos;
        var n := if rest <= bitsInByte then rest else bitsInByte;
        TakenNext(buffer[..], bytePos, bitPos, n, at, bitsRead);
        var bits := GetByte(buffer[bytePos], bitPos, n);
        value := Or(value, Shl(bits + Zeros(24), bitsRead));
        bitNum := bitNum + n;
        if rest <= bitsInByte {
          return;
        }
        rest := rest - n;
        bitsRead := bitsRead + n;
      }
    }

    // Bytes at a byte boundary replace what is there; elsewhere the bits go in one by
    // one, as those of WriteInt.
    method WriteBits(bitCount: nat, data: seq<Byte>) returns (ok: bool)
      requires Valid()
      modifies this, buffer
      ensures Valid() && (buffer == old(buffer) || fresh(buffer))
      ensures TheLimits() == After(old(TheLimits()), resizable, old(bitNum), bitCount)
      ensures !old(HasRoom(bitCount)) || 8 * |data| < bitCount ==>
        !ok && error && bitNum == old(bitNum) && Ones() == old(Ones())
      ensures old(HasRoom(bitCount)) && bitCount <= 8 * |data| ==>
        && error == old(error) && bitNum == old(bitNum) + bitCount
        && ok == (old(bitNum) % 8 == 0 || !error)
        && Ones() == if old(bitNum) % 8 == 0
                     then old(Ones()) - Window(old(bitNum), 8 * Bytes(bitCount))
                          + Placed(DataBits(data, 8 * Bytes(bitCount)), old(bitNum))
                     else old(Ones()) + Placed(DataBits(data, bitCount), old(bitNum))
    {
      hide Content, Placed, DataBits, IntBits, Window;
      if bitNum + bitCount > maxWriteBitNum {
        var room := ResizeBits(bitCount);
        if !room {
          error := true;
          return false;
        }
      }
      var byteCount := Bytes(bitCount);
      if |data| < byteCount {
        error := true;
        return false;
      }
      if bitNum % 8 == 0 {
        CopyIn(bitNum / 8, data[..byteCount]);
        DataPrefix(data, byteCount);
        bitNum := bitNum + bitCount;
        return true;
      }
      ghost var at := bitNum;
      DataNone(data, at);
      for i := 0 to bitCount
        invariant Valid() && (buffer == old(buffer) || fresh(buffer)) && at + bitCount <= 8 * buffer.Length
        invariant TheLimits() == After(old(TheLimits()), resizable, at, bitCount)
        invariant bitNum == at + i && error == old(error)
        invariant HasRoom(bitCount - i)
        invariant Ones() == old(Ones()) + Placed(DataBits(data, i), at)
      {
        DataNext(data, i, at);
        WriteInt(OneBit(data[i / 8][i % 8]), 1);
      }
      return !error;
    }

    method CopyIn(p: nat, data: seq<Byte>)
      requires Valid() && p + |data| <= buffer.Length
      modifies buffer
      ensures Ones() == old(Ones()) - Window(8 * p, 8 * |data|) + Placed(DataBits(data, 8 * |data|), 8 * p)
    {
      hide Content, Window, Placed, DataBits;
      ghost var was := buffer[..];
      for i := 0 to |data|
        invariant forall j :: 0 <= j < i ==> buffer[p + j] == data[j]
        invariant forall j :: 0 <= j < p || p + i <= j < buffer.Length ==> buffer[j] == was[j]
      {
        buffer[p + i] := data[i];
      }
      assert buffer[..] == was[..p] + data + was[p + |data|..];
      CopyContent(was, p, data);
    }

    method ReadBits(bitCount: nat, data: array<Byte>) returns (ok: bool)
      requires Valid() && data != buffer
      modifies this`bitNum, this`error, data
      ensures old(bitNum) + bitCount > maxReadBitNum || 8 * data.Length < bitCount ==>
        !ok && error && bitNum == old(bitNum) && data[..] == old(data[..])
      ensures old(bitNum) + bitCount <= maxReadBitNum && bitCount <= 8 * data.Length ==>
        && error == old(error) && bitNum == old(bitNum) + bitCount
        && ok == (old(bitNum) % 8 == 0 || !error)
        && DataBits(data[..], 8 * Bytes(bitCount)) ==
           (if old(bitNum) % 8 == 0 then Taken(Ones(), old(bitNum), 8 * Bytes(bitCount))
            else Taken(Ones(), old(bitNum), bitCount) + old(DataBits(data[..], 8 * Bytes(bitCount)))[bitCount..])
        && forall j :: Bytes(bitCount) <= j < data.Length ==> data[j] == old(data[j])
    {
      hide Content, Taken, DataBits;
      if bitNum + bitCount > maxReadBitNum {
        error := true;
        return false;
      }
      var byteCount := Bytes(bitCount);
      if data.Length < byteCount {
        error := true;
        return false;
      }
      if bitNum % 8 == 0 {
        CopyOut(bitNum / 8, byteCount, data);
        bitNum := bitNum + bitCount;
        return true;
      }
      ghost var at, start := bitNum, data[..];
      for i := 0 to bitCount
        invariant bitNum == at + i && error == old(error)
        invariant forall k :: 0 <= k < i ==> data[k / 8][k % 8] == (at + k in Ones())
        invariant forall k :: i <= k < 8 * data.Length ==> data[k / 8][k % 8] == start[k / 8][k % 8]
        invariant forall j :: byteCount <= j < data.Length ==> data[j] == old(data[j])
        modifies this`bitNum, this`error, data
      {
        ghost var was := data[..];
        var bit := ReadInt(1);
        ReadOne(Ones(), at + i, bit);
        PutBit(data, i, NonZero(bit));
        OtherBits(was, data[..], i, NonZero(bit));
      }
      TakenBits(Ones(), at, start, data[..], bitCount);
      return !error;
    }

    method CopyOut(p: nat, n: nat, data: array<Byte>)
      requires Valid() && data != buffer && p + n <= buffer.Length && n <= data.Length
      modifies data
      ensures DataBits(data[..], 8 * n) == Taken(Ones(), 8 * p, 8 * n)
      ensures forall j :: n <= j < data.Length ==> data[j] == old(data[j])
    {
      hide Content, Taken, DataBits;
      for i := 0 to n
        invariant forall j :: 0 <= j < i ==> data[j] == buffer[p + j]
        invariant forall j :: n <= j < data.Length ==> data[j] == old(data[j])
      {
        data[i] := buffer[p + i];
      }
      CopiedOut(buffer[..], p, n, data[..]);
    }

    // Set or clear bit i of the bytes.
    method PutBit(data: array<Byte>, i: nat, on: bool)
      requires i < 8 * data.Length
      modifies data
      ensures data[..] == old(data[..])[i / 8 := old(data[i / 8])[i % 8 := on]]
    {
      hide Or, And, Shl, Not;
      SetBit(data[i / 8], i % 8, on);
      data[i / 8] := if on then Or(data[i / 8], Shl(ONE, i % 8)) else And(data[i / 8], Not(Shl(ONE, i % 8)));
    }

    method WriteRangedU32(value: U32, rangeStart: U32, rangeEnd: U32)
      requires Valid()
      modifies this, buffer
      ensures Valid() && (buffer == old(buffer) || fresh(buffer))
      ensures TheLimits() == if rangeStart <= value <= rangeEnd
                             then After(old(TheLimits()), resizable, old(bitNum), RangeBits(rangeStart, rangeEnd))
                             else old(TheLimits())
      ensures !(rangeStart <= value <= rangeEnd) || !old(HasRoom(RangeBits(rangeStart, rangeEnd))) ==>
        error && bitNum == old(bitNum) && Ones() == old(Ones())
      ensures rangeStart <= value <= rangeEnd && old(HasRoom(RangeBits(rangeStart, rangeEnd))) ==>
        && error == old(error) && bitNum == old(bitNum) + RangeBits(rangeStart, rangeEnd)
        && Ones() == old(Ones()) + Placed(RangedBits(value, rangeStart, rangeEnd), old(bitNum))
    {
      hide Content, Placed, IntBits, ToBits, GetNextBinLog2;
      if value < rangeStart || value > rangeEnd {
        error := true;
        return;
      }
      var rangeSize := (rangeEnd - rangeStart + 1) % U32_SIZE;
      var rangeBits := GetNextBinLog2(rangeSize);
      WriteInt(ToBits(value - rangeStart, 32), rangeBits % 256);
    }

    method ReadRangedU32(rangeStart: U32, rangeEnd: U32) returns (value: U32)
      requires Valid()
      modifies this`bitNum, this`error
      ensures rangeEnd < rangeStart ==> error && bitNum == old(bitNum) && value == rangeStart
      ensures rangeStart <= rangeEnd && old(bitNum) + RangeBits(rangeStart, rangeEnd) <= maxReadBitNum ==>
        && error == old(error) && bitNum == old(bitNum) + RangeBits(rangeStart, rangeEnd)
        && value == RangedValue(Taken(Ones(), old(bitNum), RangeBits(rangeStart, rangeEnd)), rangeStart)
      ensures rangeStart <= rangeEnd && old(bitNum) + RangeBits(rangeStart, rangeEnd) > maxReadBitNum ==>
        error && bitNum == old(bitNum) && value == rangeStart
    {
      hide Content, Taken, ToU32, GetNextBinLog2;
      if rangeEnd < rangeStart {
        error := true;
        return rangeStart;
      }
      var rangeSize := (rangeEnd - rangeStart + 1) % U32_SIZE;
      var rangeBits := GetNextBinLog2(rangeSize);
      var val := ReadInt(rangeBits % 256);
      ZerosValue(32);
      value := (FromBits(val) + rangeStart) % U32_SIZE;
    }
  }

  // ---- A stream written, rewound and read ----

  datatype Field = Field(value: Word, width: nat)

  function FieldBits(f: Field): Bits {
    IntBits(f.value, f.width)
  }

  function Items(fields: seq<Field>): (r: seq<Bits>)
    ensures |r| == |fields|
  {
    seq(|fields|, i requires 0 <= i < |fields| => FieldBits(fields[i]))
  }

  // total bits from a position on can be written and then read: there is room, and
  // they end below the read limit, or beyond the buffer, so that it grows.
  predicate Fits(l: Limits, resizable: bool, at: nat, total: nat) {
    && (resizable || at + total <= l.write)
    && (at + total <= l.read || (resizable && at + total > 8 * l.length))
  }

  // The limits after some writes from a position on: still those at the start, or
  // those of a buffer that holds everything
  ghost predicate Reached(start: Limits, l: Limits, resizable: bool, at: nat, total: nat) {
    if at + total <= 8 * start.length || !resizable then l == start
    else l.read == l.write == 8 * l.length && at + total <= 8 * l.length
  }

  lemma ReachedNext(start: Limits, l: Limits, resizable: bool, at: nat, total: nat, n: nat)
    requires start.write <= 8 * start.length && (Reached(start, l, resizable, at, total) || (l == start && total == 0))
    ensures Reached(start, After(l, resizable, at + total, n), resizable, at, total + n)
  {
  }

  lemma FieldsNext(ones: set<nat>, at: nat, fields: seq<Field>, i: nat)
    requires i < |fields|
    ensures Items(fields)[..i + 1] == Items(fields)[..i] + [FieldBits(fields[i])]
    ensures Total(Items(fields)[..i + 1]) == Total(Items(fields)[..i]) + fields[i].width <= Total(Items(fields))
    ensures WriteAll(ones, at, Items(fields)[..i + 1])
         == WriteAll(ones, at, Items(fields)[..i]) + Placed(FieldBits(fields[i]), at + Total(Items(fields)[..i]))
  {
    hide WriteAll, Placed, FieldBits;
    var items := Items(fields);
    assert items[..i + 1] == items[..i] + [items[i]];
    WriteAllLast(ones, at, items[..i], items[i]);
    ReadAllAt(ones, at, items, i);
    FieldWidth(fields[i]);
  }

  lemma FieldWidth(f: Field)
    ensures |FieldBits(f)| == f.width
  {
  }

  // Each field is found where it was written.
  lemma FieldBack(ones: set<nat>, at: nat, fields: seq<Field>, i: nat)
    requires i < |fields| && ones !! Window(at, Total(Items(fields)))
    ensures Taken(WriteAll(ones, at, Items(fields)), at + Total(Items(fields)[..i]), fields[i].width)
         == FieldBits(fields[i])
  {
    hide WriteAll, Placed, FieldBits, Taken;
    FieldWidth(fields[i]);
    ReadBack(ones, at, Items(fields));
    ReadAllAt(WriteAll(ones, at, Items(fields)), at, Items(fields), i);
  }

  // Fields of any widths written from the position on, the position set back and the
  // same widths read. Where they fit, every value comes back modulo 2^width, the
  // position is where the writes left it, and no other bit has changed; where they do
  // not, the stream is in error.
  method RoundTrip(bs: BitStream, fields: seq<Field>) returns (back: seq<Word>)
    requires bs.Valid() && forall i :: 0 <= i < |fields| ==> fields[i].width < 256
    requires bs.Ones() !! Window(bs.bitNum, Total(Items(fields)))
    modifies bs, bs.buffer
    ensures bs.Valid() && |back| == |fields|
    ensures fields == [] || old(Fits(bs.TheLimits(), bs.resizable, bs.bitNum, Total(Items(fields)))) ==>
      && bs.error == old(bs.error) && bs.bitNum == old(bs.bitNum) + Total(Items(fields))
      && (forall i :: 0 <= i < |fields| ==> FromBits(back[i]) == FromBits(fields[i].value) % Pow2(fields[i].width))
      && bs.Ones() - Window(old(bs.bitNum), Total(Items(fields))) == old(bs.Ones())
    ensures fields != [] && !old(Fits(bs.TheLimits(), bs.resizable, bs.bitNum, Total(Items(fields)))) ==> bs.error
  {
    hide Content, WriteAll, Total, Placed, FieldBits, Window, After, Reached, Fits, Items, ToU32, FromBits, Pow2;
    ghost var items, at, ones, start := Items(fields), bs.bitNum, bs.Ones(), bs.TheLimits();
    ghost var total := Total(items);
    if fields == [] {
      NoFields(at);
      return [];
    }
    var position := bs.bitNum;
    WriteFields(bs, fields);
    FitsReached(start, bs.TheLimits(), bs.resizable, at, total);
    bs.bitNum := position;
    back := ReadFields(bs, fields, ones, at);
    if Fits(start, bs.resizable, at, total) {
      ReadBack(ones, at, items);
      forall i | 0 <= i < |fields|
        ensures FromBits(back[i]) == FromBits(fields[i].value) % Pow2(fields[i].width)
      {
        FieldValue(fields[i]);
      }
    }
  }

  lemma NoFields(at: nat)
    ensures Total(Items([])) == 0 && Window(at, 0) == {}
  {
  }

  lemma FitsReached(start: Limits, l: Limits, resizable: bool, at: nat, total: nat)
    ensures Fits(start, resizable, at, total) ==> resizable || at + total <= start.write
    ensures (resizable || at + total <= start.write) && Reached(start, l, resizable, at, total)
      ==> (Fits(start, resizable, at, total) <==> at + total <= l.read)
  {
  }

  lemma FieldValue(f: Field)
    ensures FromBits(ToU32(FieldBits(f))) == FromBits(f.value) % Pow2(f.width)
  {
    hide FromBits, Pow2;
    IntBack(f.value, f.width);
  }

  method WriteFields(bs: BitStream, fields: seq<Field>)
    requires bs.Valid() && fields != [] && forall i :: 0 <= i < |fields| ==> fields[i].width < 256
    modifies bs, bs.buffer
    ensures bs.Valid() && (bs.buffer == old(bs.buffer) || fresh(bs.buffer))
    ensures !bs.resizable && old(bs.bitNum) + Total(Items(fields)) > old(bs.maxWriteBitNum) ==> bs.error
    ensures bs.resizable || old(bs.bitNum) + Total(Items(fields)) <= old(bs.maxWriteBitNum) ==>
      && bs.error == old(bs.error) && bs.Ones() == WriteAll(old(bs.Ones()), old(bs.bitNum), Items(fields))
      && bs.bitNum == old(bs.bitNum) + Total(Items(fields))
      && Reached(old(bs.TheLimits()), bs.TheLimits(), bs.resizable, old(bs.bitNum), Total(Items(fields)))
  {
    hide Content, WriteAll, Total, Placed, FieldBits, After, Reached;
    ghost var items, at, ones, start := Items(fields), bs.bitNum, bs.Ones(), bs.TheLimits();
    ghost var fine := true;
    NothingWritten(ones, at, items);
    for i := 0 to |fields|
      invariant bs.Valid() && (bs.buffer == old(bs.buffer) || fresh(bs.buffer))
      invariant !fine ==> bs.error && !bs.resizable && at + Total(items) > start.write
      invariant fine ==> bs.error == old(bs.error) && bs.bitNum == at + Total(items[..i])
      invariant fine ==> bs.Ones() == WriteAll(ones, at, items[..i])
      invariant fine && i == 0 ==> bs.TheLimits() == start
      invariant fine && i > 0 ==> Reached(start, bs.TheLimits(), bs.resizable, at, Total(items[..i]))
      invariant fine && i > 0 && !bs.resizable ==> at + Total(items[..i]) <= start.write
    {
      ghost var room := bs.HasRoom(fields[i].width);
      FieldsNext(ones, at, fields, i);
      if fine {
        ReachedNext(start, bs.TheLimits(), bs.resizable, at, Total(items[..i]), fields[i].width);
        StillStart(start, bs.TheLimits(), bs.resizable, at, Total(items[..i]));
      }
      bs.WriteInt(fields[i].value, fields[i].width);
      IntBitsOf(fields[i]);
      fine := fine && room;
    }
    assert items[..|fields|] == items;
  }

  lemma IntBitsOf(f: Field)
    ensures IntBits(f.value, f.width) == FieldBits(f)
  {
  }

  lemma NothingWritten(ones: set<nat>, at: nat, items: seq<Bits>)
    ensures Total(items[..0]) == 0 && WriteAll(ones, at, items[..0]) == ones
  {
  }

  lemma StillStart(start: Limits, l: Limits, resizable: bool, at: nat, total: nat)
    ensures !resizable && Reached(start, l, resizable, at, total) ==> l == start
  {
  }

  method ReadFields(bs: BitStream, fields: seq<Field>, ghost ones: set<nat>, ghost at: nat) returns (back: seq<Word>)
    requires bs.Valid() && fields != [] && forall i :: 0 <= i < |fields| ==> fields[i].width < 256
    requires bs.bitNum == at
    modifies bs`bitNum, bs`error
    ensures |back| == |fields|
    ensures at + Total(Items(fields)) > bs.maxReadBitNum || old(bs.error) ==> bs.error
    ensures at + Total(Items(fields)) <= bs.maxReadBitNum ==>
      bs.error == old(bs.error) && bs.bitNum == at + Total(Items(fields))
    ensures at + Total(Items(fields)) <= bs.maxReadBitNum && ones !! Window(at, Total(Items(fields)))
            && bs.Ones() == WriteAll(ones, at, Items(fields))
      ==> forall i :: 0 <= i < |fields| ==> back[i] == ToU32(FieldBits(fields[i]))
  {
    hide Content, WriteAll, Total, Placed, FieldBits, Taken, ToU32, Window;
    ghost var items := Items(fields);
    ghost var total, written := Total(items), ones !! Window(at, Total(items)) && bs.Ones() == WriteAll(ones, at, items);
    ghost var fine := true;
    NothingWritten(ones, at, items);
    back := [];
    for i := 0 to |fields|
      invariant |back| == i && (old(bs.error) ==> bs.error)
      invariant !fine ==> bs.error && at + total > bs.maxReadBitNum
      invariant fine ==> bs.error == old(bs.error) && bs.bitNum == at + Total(items[..i])
      invariant fine && i > 0 ==> at + Total(items[..i]) <= bs.maxReadBitNum
      invariant fine && written ==> forall j :: 0 <= j < i ==> back[j] == ToU32(FieldBits(fields[j]))
    {
      FieldsNext(ones, at, fields, i);
      if written {
        FieldBack(ones, at, fields, i);
      }
      ghost var room := bs.bitNum + fields[i].width <= bs.maxReadBitNum;
      var value := bs.ReadInt(fields[i].width);
      back := back + [value];
      fine := fine && room;
    }
    assert items[..|fields|] == items;
  }

  function Bytes(bits: nat): nat {
    (bits + 7) / 8
  }

  const ONE: Byte := [true, false, false, false, false, false, false, false]

  function OneBit(b: bool): Word {
    seq(32, i => i == 0 && b)
  }

  function Not(b: Byte): Byte {
    seq(8, i requires 0 <= i < 8 => !b[i])
  }

  lemma DataPrefix(data: seq<Byte>, n: nat)
    requires n <= |data|
    ensures DataBits(data[..n], 8 * n) == DataBits(data, 8 * n)
  {
  }

  lemma DataNone(data: seq<Byte>, at: nat)
    ensures Placed(DataBits(data, 0), at) == {}
  {
  }

  lemma DataNext(data: seq<Byte>, i: nat, at: nat)
    requires i < 8 * |data|
    ensures Placed(DataBits(data, i), at) + Placed(IntBits(OneBit(data[i / 8][i % 8]), 1), at + i)
         == Placed(DataBits(data, i + 1), at)
  {
    assert forall k: nat :: k < at + i ==> (Marked(DataBits(data, i), at, k) <==> Marked(DataBits(data, i + 1), at, k));
  }

  lemma CopyContent(was: seq<Byte>, p: nat, data: seq<Byte>)
    requires p + |data| <= |was|
    ensures Content(was[..p] + data + was[p + |data|..])
         == Content(was) - Window(8 * p, 8 * |data|) + Placed(DataBits(data, 8 * |data|), 8 * p)
  {
    var now := was[..p] + data + was[p + |data|..];
    forall k: nat | k < 8 * |was|
      ensures k in Content(now) <==>
        (k in Content(was) && !Inside(k, 8 * p, 8 * |data|)) || Marked(DataBits(data, 8 * |data|), 8 * p, k)
    {
      if Inside(k, 8 * p, 8 * |data|) {
        assert (k - 8 * p) / 8 == k / 8 - p && (k - 8 * p) % 8 == k % 8;
      }
    }
  }

  lemma CopiedOut(b: seq<Byte>, p: nat, n: nat, data: seq<Byte>)
    requires p + n <= |b| && n <= |data|
    requires forall j :: 0 <= j < n ==> data[j] == b[p + j]
    ensures DataBits(data, 8 * n) == Taken(Content(b), 8 * p, 8 * n)
  {
    forall i | 0 <= i < 8 * n
      ensures DataBits(data, 8 * n)[i] == Taken(Content(b), 8 * p, 8 * n)[i]
    {
      assert (8 * p + i) / 8 == p + i / 8 && (8 * p + i) % 8 == i % 8;
    }
  }

  lemma ReadOne(ones: set<nat>, at: nat, bit: Word)
    requires bit == ToU32(Taken(ones, at, 1))
    ensures NonZero(bit) <==> at in ones
  {
    assert bit[0] == (at + 0 in ones);
  }

  lemma SetBit(b: Byte, i: nat, on: bool)
    requires i < 8
    ensures (if on then Or(b, Shl(ONE, i)) else And(b, Not(Shl(ONE, i)))) == b[i := on]
  {
  }

  lemma OtherBits(was: seq<Byte>, now: seq<Byte>, i: nat, on: bool)
    requires i < 8 * |was| && |now| == |was|
    requires now == was[i / 8 := was[i / 8][i % 8 := on]]
    ensures forall k :: 0 <= k < 8 * |was| && k != i ==> now[k / 8][k % 8] == was[k / 8][k % 8]
  {
  }

  lemma TakenBits(ones: set<nat>, at: nat, start: seq<Byte>, data: seq<Byte>, n: nat)
    requires n <= 8 * |data| && |start| == |data|
    requires forall k :: 0 <= k < n ==> data[k / 8][k % 8] == (at + k in ones)
    requires forall k :: n <= k < 8 * |data| ==> data[k / 8][k % 8] == start[k / 8][k % 8]
    ensures DataBits(data, 8 * Bytes(n)) == Taken(ones, at, n) + DataBits(start, 8 * Bytes(n))[n..]
  {
  }

  // value & ((1 << n) - 1)
  lemma MaskedInt(v: Word, n: nat)
    ensures IntBits(And(v, Words.Ones(32, n)), n) == IntBits(v, n)
    ensures n == 0 ==> IntBits(v, n) == []
  {
  }

  lemma PlacedNone(v: Word, at: nat)
    ensures Placed(IntBits(v, 0), at) == {} && Shr(v, 0) == v
  {
  }

  lemma ShrNext(v: Word, a: nat, b: nat)
    ensures Shr(Shr(v, a), b) == Shr(v, a + b)
  {
  }

  lemma TakenNone(ones: set<nat>, at: nat)
    ensures ToU32(Taken(ones, at, 0)) == Zeros(32)
  {
  }
}
