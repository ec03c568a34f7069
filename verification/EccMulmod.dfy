// Scalar multiplication by a sliding window, over any point addition.
module EccMulmod {
  import opened Results
  import opened Words
  import opened Mp
  import opened EccWalk

  // A point in its storage, which the routines overwrite.
  class Cell<T> {
    var v: T

    constructor (v: T)
      ensures this.v == v
    {
      this.v := v;
    }
  }

  // R = 2P; R may be P.
  method Dbl<T>(op: (T, T) -> T, P: Cell<T>, R: Cell<T>)
    modifies R
    ensures R.v == op(old(P.v), old(P.v))
  {
    R.v := op(P.v, P.v);
  }

  // R = P + Q; R may be P or Q.
  method Add<T>(op: (T, T) -> T, P: Cell<T>, Q: Cell<T>, R: Cell<T>)
    modifies R
    ensures R.v == op(old(P.v), old(Q.v))
  {
    R.v := op(P.v, Q.v);
  }

  // The bit (buf >> (digitBit - 1)) & 1 after n shifts
  lemma NextBit(digit: Bits, digitBit: nat, n: nat)
    requires n < digitBit <= |digit|
    ensures |Shr(Shl(digit, n), digitBit - 1)| > 0
    ensures Shr(Shl(digit, n), digitBit - 1)[0] == DigitBits(digit, digitBit)[n]
    ensures Shl(Shl(digit, n), 1) == Shl(digit, n + 1)
    ensures Shl(digit, 0) == digit
  {
  }

  // ---- The loop ----

  // The table of 8g to 15g
  ghost predicate TableOf<T>(op: (T, T) -> T, g: T, M: seq<Cell<T>>)
    reads M
  {
    |M| == 8 && forall j :: 0 <= j < 8 ==> M[j].v == Entry(op, g, 8 + j)
  }

  method MakeTable<T>(op: (T, T) -> T, G: Cell<T>) returns (M: seq<Cell<T>>)
    ensures TableOf(op, G.v, M) && fresh(M)
  {
    ghost var g := G.v;
    M := [];
    for i := 0 to 8
      invariant |M| == i && fresh(M)
      invariant forall a, b :: 0 <= a < b < i ==> M[a] != M[b]
    {
      var m := new Cell(G.v);
      M := M + [m];
    }
    Dbl(op, G, M[0]);
    Dbl(op, M[0], M[0]);
    Dbl(op, M[0], M[0]);
    for j := 9 to 16
      invariant G.v == g
      invariant forall i :: 0 <= i < j - 8 ==> M[i].v == Entry(op, g, 8 + i)
    {
      Add(op, M[j - 9], G, M[j - 8]);
    }
  }

  // What the loop keeps: the bits of an unfilled window stand at the top of bitbuf, and
  // the walk from R over them and the bits to come ends in the target.
  ghost predicate Window<T>(op: (T, T) -> T, g: T, target: Option<T>, r: T, start: T,
                            mode: int, pending: Bits, bitbuf: nat, first: bool, rest: Bits)
  {
    && |pending| < WINSIZE && bitbuf == Nibble(pending)
    && (first ==> r == start)
    && target == Walk(op, g, if first then None else Some(r), pending + rest)
    && match mode {
         case 0 => first && pending == []
         case 1 => !first && pending == []
         case _ => mode == 2 && pending != [] && pending[0]
       }
  }

  lemma WindowStart<T>(op: (T, T) -> T, g: T, start: T, b: Bits)
    ensures Window(op, g, Walk(op, g, None, b), start, start, 0, [], 0, true, b)
  {
    assert [] + b == b;
  }

  // A zero bit outside a window
  lemma WindowZero<T>(op: (T, T) -> T, g: T, target: Option<T>, r: T, start: T,
                      mode: int, bitbuf: nat, first: bool, rest: Bits)
    requires rest != [] && !rest[0] && mode != 2
    requires Window(op, g, target, r, start, mode, [], bitbuf, first, rest)
    ensures mode == 0 || mode == 1
    ensures Window(op, g, target, if mode == 0 then r else op(r, r), start, mode, [], bitbuf, first, rest[1..])
  {
    assert [] + rest == rest && [] + rest[1..] == rest[1..];
  }

  // A bit that opens, extends or fills a window
  lemma WindowPush<T>(op: (T, T) -> T, g: T, target: Option<T>, r: T, start: T,
                      mode: int, pending: Bits, bitbuf: nat, first: bool, rest: Bits)
    requires rest != [] && (mode == 2 || rest[0])
    requires Window(op, g, target, r, start, mode, pending, bitbuf, first, rest)
    ensures var more, bits := pending + [rest[0]], bitbuf + (if rest[0] then Pow2(WINSIZE - (|pending| + 1)) else 0);
      if |more| < WINSIZE then Window(op, g, target, r, start, 2, more, bits, first, rest[1..])
      else
        && 8 <= bits < 16
        && Window(op, g, target, Flush(op, g, if first then None else Some(r), bits), start, 1, [], 0, false, rest[1..])
  {
    hide Flush;
    var more := pending + [rest[0]];
    var bits := bitbuf + (if rest[0] then Pow2(WINSIZE - (|pending| + 1)) else 0);
    NibbleGrows(pending, rest[0]);
    NibbleFull(more);
    assert more + rest[1..] == pending + rest;
    if |more| == WINSIZE {
      assert (more + rest[1..])[..WINSIZE] == more && (more + rest[1..])[WINSIZE..] == rest[1..];
      assert [] + rest[1..] == rest[1..];
    }
  }

  lemma NibbleGrows(b: Bits, i: bool)
    requires |b| < WINSIZE
    ensures Nibble(b + [i]) == Nibble(b) + if i then Pow2(WINSIZE - (|b| + 1)) else 0
  {
    hide Pow2;
    SmallPowers();
  }

  lemma SmallPowers()
    ensures Pow2(0) == 1 && Pow2(1) == 2 && Pow2(2) == 4 && Pow2(3) == 8 && Pow2(4) == 16
  {
  }

  lemma WindowEnd<T>(op: (T, T) -> T, g: T, target: Option<T>, r: T, start: T,
                     mode: int, pending: Bits, bitbuf: nat, first: bool)
    requires Window(op, g, target, r, start, mode, pending, bitbuf, first, [])
    ensures mode == 2 <==> pending != []
    ensures first ==> r == start
    ensures mode == 2 ==> target == Tail(op, g, if first then None else Some(r), pending)
    ensures mode != 2 ==> target == if first then None else Some(r)
    ensures |pending| < WINSIZE && bitbuf == Nibble(pending)
    ensures mode == 2 ==> pending[0]
  {
    assert pending + [] == pending;
  }

  // One round of the loop, on the next bit i of the scalar.
  method TakeBit<T>(op: (T, T) -> T, ghost g: T, ghost target: Option<T>, ghost start: T,
                    ghost pending0: Bits, ghost rest: Bits, M: seq<Cell<T>>, R: Cell<T>,
                    mode0: int, bitcpy0: nat, bitbuf0: nat, first0: bool, i: nat)
    returns (mode: int, bitcpy: nat, bitbuf: nat, first: bool, ghost pending: Bits)
    requires TableOf(op, g, M) && R !in M && rest != [] && i == if rest[0] then 1 else 0
    requires bitcpy0 == |pending0|
    requires Window(op, g, target, R.v, start, mode0, pending0, bitbuf0, first0, rest)
    modifies R
    ensures bitcpy == |pending|
    ensures Window(op, g, target, R.v, start, mode, pending, bitbuf, first, rest[1..])
  {
    hide TableOf, Window, Pow2, Walk;
    mode, bitcpy, bitbuf, first, pending := mode0, bitcpy0, bitbuf0, first0, pending0;
    if i == 0 && mode != 2 {
      WindowEmpty(op, g, target, R.v, start, mode, pending, bitbuf, first, rest);
      WindowZero(op, g, target, R.v, start, mode, bitbuf, first, rest);
    } else {
      WindowPush(op, g, target, R.v, start, mode, pending, bitbuf, first, rest);
    }

    if mode == 0 && i == 0 {
      return;
    }
    if mode == 1 && i == 0 {
      Dbl(op, R, R);
      return;
    }

    WindowShort(op, g, target, R.v, start, mode, pending, bitbuf, first, rest);
    bitcpy := bitcpy + 1;
    bitbuf := bitbuf + (if i == 1 then Pow2(WINSIZE - bitcpy) else 0);
    pending := pending + [rest[0]];
    mode := 2;
    if bitcpy == WINSIZE {
      FlushWindow(op, g, bitbuf, first, M, R);
      first := false;
      bitcpy, bitbuf, pending := 0, 0, [];
      mode := 1;
    }
  }

  lemma WindowEmpty<T>(op: (T, T) -> T, g: T, target: Option<T>, r: T, start: T,
                       mode: int, pending: Bits, bitbuf: nat, first: bool, rest: Bits)
    requires Window(op, g, target, r, start, mode, pending, bitbuf, first, rest) && mode != 2
    ensures pending == []
  {
  }

  lemma WindowShort<T>(op: (T, T) -> T, g: T, target: Option<T>, r: T, start: T,
                       mode: int, pending: Bits, bitbuf: nat, first: bool, rest: Bits)
    requires Window(op, g, target, r, start, mode, pending, bitbuf, first, rest)
    ensures |pending| < WINSIZE
  {
  }

  // The window is full: copy its table entry, or double four times and add it.
  method FlushWindow<T>(op: (T, T) -> T, ghost g: T, bitbuf: nat, first: bool, M: seq<Cell<T>>, R: Cell<T>)
    requires TableOf(op, g, M) && R !in M && 8 <= bitbuf < 16
    modifies R
    ensures R.v == Flush(op, g, if first then None else Some(old(R.v)), bitbuf)
  {
    if first {
      R.v := M[bitbuf - 8].v;
    } else {
      ghost var p := R.v;
      for j := 0 to WINSIZE
        invariant R.v == Doubled(op, p, j)
      {
        Dbl(op, R, R);
      }
      assert R.v == Twice(op, Doubled(op, p, 3)) && Doubled(op, p, 3) == Twice(op, Doubled(op, p, 2));
      Add(op, R, M[bitbuf - 8], R);
    }
  }

  ghost function Doubled<T>(op: (T, T) -> T, p: T, j: nat): T {
    if j == 0 then p else Twice(op, Doubled(op, p, j - 1))
  }

  // The bits remaining in the window: double and add one by one.
  method TailBits<T>(op: (T, T) -> T, ghost pending: Bits, bitcpy: nat, bitbuf0: nat, first0: bool,
                     tG: Cell<T>, R: Cell<T>)
    requires tG != R && bitcpy == |pending| && 0 < bitcpy < WINSIZE && pending[0] && bitbuf0 == Nibble(pending)
    modifies R
    ensures Tail(op, tG.v, if first0 then None else Some(old(R.v)), pending) == Some(R.v)
  {
    hide Tail;
    var bitbuf, first := bitbuf0, first0;
    ghost var g, rest := tG.v, pending;
    ghost var target := Tail(op, g, if first then None else Some(R.v), pending);
    for j := 0 to bitcpy
      invariant tG.v == g && |rest| == bitcpy - j && bitbuf % 16 == Nibble(rest)
      invariant first ==> rest != [] && rest[0]
      invariant target == Tail(op, g, if first then None else Some(R.v), rest)
    {
      TailStep(op, g, if first then None else Some(R.v), rest, bitbuf);
      if !first {
        Dbl(op, R, R);
      }
      bitbuf := bitbuf * 2;
      if bitbuf / 16 % 2 != 0 {
        if first {
          R.v := tG.v;
          first := false;
        } else {
          Add(op, R, tG, R);
        }
      }
      rest := rest[1..];
    }
    TailEnd(op, g, Some(R.v));
  }

  lemma TailEnd<T>(op: (T, T) -> T, g: T, r: Option<T>)
    ensures Tail(op, g, r, []) == r
  {
  }

  lemma TailStep<T>(op: (T, T) -> T, g: T, r: Option<T>, b: Bits, bitbuf: nat)
    requires 0 < |b| < WINSIZE && bitbuf % 16 == Nibble(b)
    ensures bitbuf * 2 / 16 % 2 != 0 <==> b[0]
    ensures bitbuf * 2 % 16 == Nibble(b[1..])
    ensures r.Some? ==>
      Tail(op, g, r, b) == Tail(op, g, Some(if b[0] then op(Twice(op, r.value), g) else Twice(op, r.value)), b[1..])
    ensures r == None && b[0] ==> Tail(op, g, r, b) == Tail(op, g, Some(g), b[1..])
  {
  }

  // R is what the walk along the bits leaves there, which over an associative addition
  // is kG; R may be G. A zero scalar leaves R as it was.
  method EccMulmod<T(!new)>(op: (T, T) -> T, k: seq<Bits>, digitBit: nat, G: Cell<T>, R: Cell<T>)
    requires IsScalar(k, digitBit)
    modifies R
    ensures R.v == Multiple(op, old(G.v), old(R.v), ScalarValue(k, digitBit))
    ensures Associative(op) ==>
      R.v == if ScalarValue(k, digitBit) == 0 then old(R.v) else Times(op, ScalarValue(k, digitBit), old(G.v))
  {
    hide ScalarValue, Associative, Times, ScalarBits, DigitBits, TableOf, Window, Walk, Tail, Pow2, Shl, Shr;
    ghost var g, start := G.v, R.v;
    ghost var rest: Bits, pending: Bits := ScalarBits(k, digitBit), [];
    ghost var target := Walk(op, g, None, rest);
    ByValue(op, g, start, k, digitBit);
    if Associative(op) {
      MultipleIsTimes(op, g, start, ScalarValue(k, digitBit));
    }
    var M := MakeTable(op, G);
    var tG := new Cell(G.v);

    var mode, bitcnt, buf, digidx := 0, 1, [], |k| - 1;
    var bitcpy: nat, bitbuf: nat, first := 0, 0, true;
    WindowStart(op, g, start, rest);
    assert k[..|k|] == k;
    while true
      invariant -1 <= digidx < |k| && 1 <= bitcnt <= digitBit && bitcpy == |pending|
      invariant bitcnt == 1 ==> rest == ScalarBits(k[..digidx + 1], digitBit)
      invariant bitcnt > 1 ==> digidx + 1 < |k| && buf == Shl(k[digidx + 1], digitBit - (bitcnt - 1))
      invariant bitcnt > 1 ==> rest == DigitBits(k[digidx + 1], digitBit)[digitBit - (bitcnt - 1)..]
                                       + ScalarBits(k[..digidx + 1], digitBit)
      invariant Window(op, g, target, R.v, start, mode, pending, bitbuf, first, rest)
      invariant tG.v == g && TableOf(op, g, M) && tG != R && R !in M
      decreases digidx, bitcnt
    {
      bitcnt := bitcnt - 1;
      if bitcnt == 0 {
        if digidx == -1 {
          break;
        }
        buf := k[digidx];
        OpenDigit(k[..digidx + 1], digitBit);
        assert k[..digidx + 1][..digidx] == k[..digidx];
        digidx := digidx - 1;
        bitcnt := digitBit;
      }
      ghost var n := digitBit - bitcnt;
      ghost var d := DigitBits(k[digidx + 1], digitBit);
      NextBit(k[digidx + 1], digitBit, n);
      var i := if Shr(buf, digitBit - 1)[0] then 1 else 0;
      buf := Shl(buf, 1);
      DropBit(d, n, ScalarBits(k[..digidx + 1], digitBit));
      mode, bitcpy, bitbuf, first, pending :=
        TakeBit(op, g, target, start, pending, rest, M, R, mode, bitcpy, bitbuf, first, i);
      rest := rest[1..];
    }
    NoDigits(k[..0], digitBit);

    WindowEnd(op, g, target, R.v, start, mode, pending, bitbuf, first);
    if mode == 2 && bitcpy > 0 {
      TailBits(op, pending, bitcpy, bitbuf, first, tG, R);
    }
  }

  lemma ByValue<T>(op: (T, T) -> T, g: T, start: T, k: seq<Bits>, digitBit: nat)
    requires IsScalar(k, digitBit)
    ensures Result(op, g, start, ScalarBits(k, digitBit)) == Multiple(op, g, start, ScalarValue(k, digitBit))
  {
    hide Walk;
    ScalarNumber(k, digitBit);
    WalkByValue(op, g, ScalarBits(k, digitBit));
  }

  lemma NoDigits(k: seq<Bits>, digitBit: nat)
    requires |k| == 0 && digitBit > 0
    ensures ScalarBits(k, digitBit) == []
  {
  }

  lemma OpenDigit(k: seq<Bits>, digitBit: nat)
    requires IsScalar(k, digitBit) && |k| > 0
    ensures ScalarBits(k, digitBit)
         == DigitBits(k[|k| - 1], digitBit)[0..] + ScalarBits(k[..|k| - 1], digitBit)
  {
    TopDigit(k, digitBit);
  }

  lemma DropBit(d: Bits, n: nat, lower: Bits)
    requires n < |d|
    ensures (d[n..] + lower)[0] == d[n] && (d[n..] + lower)[1..] == d[n + 1..] + lower
    ensures n + 1 == |d| ==> (d[n..] + lower)[1..] == lower
  {
  }
}
