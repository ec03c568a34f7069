// DES and three-key DES: the key schedules of both directions and the cipher, with
// the substitution tables SP1..SP8 as a parameter.
module Des {
  import opened Results
  import opened Words
  import opened Binary

  datatype Halves = Halves(l: Word, r: Word)

  // SP tables: the number of the table and the masked index word to the entry
  type Boxes = (nat, Word) -> Word

  function Swap(h: Halves): Halves {
    Halves(h.r, h.l)
  }

  function Rol(w: Word, n: nat): (r: Word)
    requires n <= 32
    ensures forall i :: 0 <= i < 32 ==> r[i] == w[if i >= n then i - n else 32 + i - n]
  {
    Or(Shl(w, n), Shr(w, 32 - n))
  }

  function Ror(w: Word, n: nat): (r: Word)
    requires n <= 32
    ensures forall i :: 0 <= i < 32 ==> r[i] == w[if i + n < 32 then i + n else i + n - 32]
  {
    Or(Shr(w, n), Shl(w, 32 - n))
  }

  // ---- The initial and the final network ----

  // 0x0f0f0f0f, 0x0000ffff, 0x33333333, 0x00ff00ff and 0xaaaaaaaa
  function M4(): Word { seq(32, i => i % 8 < 4) }
  function M16(): Word { seq(32, i => i < 16) }
  function M2(): Word { seq(32, i => i % 4 < 2) }
  function M8(): Word { seq(32, i => i % 16 < 8) }
  function M1(): Word { seq(32, i => i % 2 == 1) }

  // work = ((l >> n) ^ r) & m; r ^= work; l ^= work << n
  function Exchange(h: Halves, n: nat, m: Word): Halves {
    Halves(Xor(h.l, Shl(Work(h, n, m), n)), Xor(h.r, Work(h, n, m)))
  }

  function Work(h: Halves, n: nat, m: Word): Word {
    And(Xor(Shr(h.l, n), h.r), m)
  }

  // work = (l ^ r) & 0xaaaaaaaa; l ^= work; r ^= work
  function Blend(h: Halves): Halves {
    Halves(Xor(h.l, And(Xor(h.l, h.r), M1())), Xor(h.r, And(Xor(h.l, h.r), M1())))
  }

  function Initial(h: Halves): Halves {
    var h1 := Exchange(Exchange(h, 4, M4()), 16, M16());
    var h2 := Swap(Exchange(Exchange(Swap(h1), 2, M2()), 8, M8()));
    var h3 := Blend(Halves(h2.l, Rol(h2.r, 1)));
    Halves(Rol(h3.l, 1), h3.r)
  }

  // The halves come out in the order in which they are stored in the block.
  function Final(h: Halves): Halves {
    var h1 := Blend(Halves(h.l, Ror(h.r, 1)));
    var h2 := Exchange(Exchange(Halves(Ror(h1.l, 1), h1.r), 8, M8()), 2, M2());
    Exchange(Exchange(Swap(h2), 16, M16()), 4, M4())
  }

  // m has no bit in common with m << n, and n more bits fit above each of m's.
  predicate Disjoint(m: Word, n: nat) {
    forall i :: 0 <= i < 32 && m[i] ==> i + n < 32 && !m[i + n]
  }

  lemma ExchangeBits(h: Halves, n: nat, m: Word)
    requires Disjoint(m, n)
    ensures forall i :: 0 <= i < 32 ==>
      Exchange(h, n, m).l[i] == if i >= n && m[i - n] then h.r[i - n] else h.l[i]
    ensures forall i :: 0 <= i < 32 ==>
      Exchange(h, n, m).r[i] == if m[i] then h.l[i + n] else h.r[i]
  {
  }

  lemma ExchangeBit(h: Halves, n: nat, m: Word, i: nat)
    requires Disjoint(m, n) && i < 32
    ensures Exchange(h, n, m).l[i] == if i >= n && m[i - n] then h.r[i - n] else h.l[i]
    ensures Exchange(h, n, m).r[i] == if m[i] then h.l[i + n] else h.r[i]
    ensures m[i] ==> i + n < 32
  {
  }

  lemma BlendBits(h: Halves)
    ensures forall i :: 0 <= i < 32 ==> Blend(h).l[i] == if i % 2 == 1 then h.r[i] else h.l[i]
    ensures forall i :: 0 <= i < 32 ==> Blend(h).r[i] == if i % 2 == 1 then h.l[i] else h.r[i]
  {
  }

  lemma SameBits(g: Halves, h: Halves)
    requires forall i :: 0 <= i < 32 ==> g.l[i] == h.l[i]
    requires forall i :: 0 <= i < 32 ==> g.r[i] == h.r[i]
    ensures g == h
  {
  }

  lemma ExchangeTwice(h: Halves, n: nat, m: Word)
    requires Disjoint(m, n)
    ensures Exchange(Exchange(h, n, m), n, m) == h
  {
    hide Exchange;
    ExchangeBits(h, n, m);
    ExchangeBits(Exchange(h, n, m), n, m);
    SameBits(Exchange(Exchange(h, n, m), n, m), h);
  }

  lemma BlendTwice(h: Halves)
    ensures Blend(Blend(h)) == h
  {
    hide Blend;
    BlendBits(h);
    BlendBits(Blend(h));
    SameBits(Blend(Blend(h)), h);
  }

  lemma BlendSwap(h: Halves)
    ensures Blend(Swap(h)) == Swap(Blend(h))
  {
    hide Blend;
    BlendBits(h);
    BlendBits(Swap(h));
    SameBits(Blend(Swap(h)), Swap(Blend(h)));
  }

  lemma RolRor(w: Word)
    ensures Rol(Ror(w, 1), 1) == w
    ensures Ror(Rol(w, 1), 1) == w
  {
    hide Or, Shl, Shr;
  }

  lemma Masks()
    ensures Disjoint(M4(), 4) && Disjoint(M16(), 16) && Disjoint(M2(), 2) && Disjoint(M8(), 8)
  {
    hide Disjoint, M2, M4, M8, M16;
    Mask4();
    Mask16();
    Mask2();
    Mask8();
  }

  lemma Mask4()
    ensures Disjoint(M4(), 4)
  {
  }

  lemma Mask16()
    ensures Disjoint(M16(), 16)
  {
  }

  lemma Mask2()
    ensures Disjoint(M2(), 2)
  {
  }

  lemma Mask8()
    ensures Disjoint(M8(), 8)
  {
  }

  // The final network undoes the initial one across the swap of the halves, ...
  lemma FinalInitial(h: Halves)
    ensures Final(Swap(Initial(h))) == h
  {
    hide Exchange, Blend, Rol, Ror, Disjoint;
    Masks();
    ExchangeTwice(h, 4, M4());
    var h1 := Exchange(h, 4, M4());
    ExchangeTwice(h1, 16, M16());
    var h2 := Swap(Exchange(h1, 16, M16()));
    ExchangeTwice(h2, 2, M2());
    var h3 := Exchange(h2, 2, M2());
    ExchangeTwice(h3, 8, M8());
    var h4 := Swap(Exchange(h3, 8, M8()));
    var h5 := Halves(h4.l, Rol(h4.r, 1));
    BlendTwice(h5);
    BlendSwap(Blend(h5));
    RolRor(Blend(h5).l);
    RolRor(h4.r);
  }

  // ... and the initial network undoes the final one.
  lemma InitialFinal(h: Halves)
    ensures Initial(Final(h)) == Swap(h)
  {
    hide Exchange, Blend, Rol, Ror, Disjoint;
    Masks();
    var h0 := Halves(h.l, Ror(h.r, 1));
    var h1 := Halves(Ror(Blend(h0).l, 1), Blend(h0).r);
    var h2 := Exchange(h1, 8, M8());
    var h3 := Swap(Exchange(h2, 2, M2()));
    var h4 := Exchange(h3, 16, M16());
    ExchangeTwice(h4, 4, M4());
    ExchangeTwice(h3, 16, M16());
    ExchangeTwice(h2, 2, M2());
    ExchangeTwice(h1, 8, M8());
    RolRor(Blend(h0).l);
    BlendSwap(Blend(h0));
    BlendTwice(h0);
    RolRor(h.r);
  }

  // Bit k of a block, counted from 1 at the most significant end
  function BlockBit(h: Halves, k: nat): bool
    requires 1 <= k <= 64
  {
    if k <= 32 then h.l[32 - k] else h.r[64 - k]
  }

  // Bit x of byte y of one of the halves
  datatype Position = Position(left: bool, y: nat, x: nat)

  predicate IsPosition(p: Position) {
    p.y < 4 && p.x < 8
  }

  function BitAt(h: Halves, p: Position): bool
    requires IsPosition(p)
  {
    if p.left then h.l[8 * p.y + p.x] else h.r[8 * p.y + p.x]
  }

  // Where each exchange took the bit from: it swaps the half with one bit of the
  // position in it.
  function Before4(p: Position): Position {
    if p.left == (p.x >= 4) then Position(!p.left, p.y, if p.left then p.x - 4 else p.x + 4) else p
  }

  function Before16(p: Position): Position {
    if p.left == (p.y >= 2) then Position(!p.left, if p.left then p.y - 2 else p.y + 2, p.x) else p
  }

  function Before2(p: Position): Position {
    if p.left == (p.x % 4 >= 2) then Position(!p.left, p.y, if p.left then p.x - 2 else p.x + 2) else p
  }

  function Before8(p: Position): Position {
    if p.left == (p.y % 2 == 1) then Position(!p.left, if p.left then p.y - 1 else p.y + 1, p.x) else p
  }

  function Across(p: Position): Position {
    Position(!p.left, p.y, p.x)
  }

  lemma Exchanged4(h: Halves, p: Position)
    requires IsPosition(p)
    ensures IsPosition(Before4(p)) && BitAt(Exchange(h, 4, M4()), p) == BitAt(h, Before4(p))
  {
    hide Exchange, Disjoint;
    Mask4();
    ExchangeBit(h, 4, M4(), 8 * p.y + p.x);
    assert (8 * p.y + p.x) % 8 == p.x;
  }

  lemma Exchanged16(h: Halves, p: Position)
    requires IsPosition(p)
    ensures IsPosition(Before16(p)) && BitAt(Exchange(h, 16, M16()), p) == BitAt(h, Before16(p))
  {
    hide Exchange, Disjoint;
    Mask16();
    ExchangeBit(h, 16, M16(), 8 * p.y + p.x);
    assert 8 * p.y + p.x < 16 <==> p.y < 2;
  }

  lemma Exchanged2(h: Halves, p: Position)
    requires IsPosition(p)
    ensures IsPosition(Before2(p)) && BitAt(Exchange(h, 2, M2()), p) == BitAt(h, Before2(p))
  {
    hide Exchange, Disjoint;
    Mask2();
    ExchangeBit(h, 2, M2(), 8 * p.y + p.x);
    assert (8 * p.y + p.x) % 4 == p.x % 4;
  }

  lemma Exchanged8(h: Halves, p: Position)
    requires IsPosition(p)
    ensures IsPosition(Before8(p)) && BitAt(Exchange(h, 8, M8()), p) == BitAt(h, Before8(p))
  {
    hide Exchange, Disjoint;
    Mask8();
    ExchangeBit(h, 8, M8(), 8 * p.y + p.x);
    assert (8 * p.y + p.x) % 16 < 8 <==> p.y % 2 == 0;
  }

  lemma Swapped(h: Halves, p: Position)
    requires IsPosition(p)
    ensures BitAt(Swap(h), p) == BitAt(h, Across(p))
  {
  }

  // The exchanges together
  function Sent(h: Halves): Halves {
    Swap(Exchange(Exchange(Swap(Exchange(Exchange(h, 4, M4()), 16, M16())), 2, M2()), 8, M8()))
  }

  function Origin(p: Position): Position {
    Before4(Before16(Across(Before2(Before8(Across(p))))))
  }

  lemma SentFrom(h: Halves, p: Position)
    requires IsPosition(p)
    ensures IsPosition(Origin(p)) && BitAt(Sent(h), p) == BitAt(h, Origin(p))
  {
    hide BitAt, Exchange, Swap, Before2, Before4, Before8, Before16;
    var h1 := Exchange(h, 4, M4());
    var h2 := Swap(Exchange(h1, 16, M16()));
    var h3 := Exchange(h2, 2, M2());
    var p3 := Across(p);
    Swapped(Exchange(h3, 8, M8()), p);
    Exchanged8(h3, p3);
    Exchanged2(h2, Before8(p3));
    var p1 := Before2(Before8(p3));
    Swapped(Exchange(h1, 16, M16()), p1);
    Exchanged16(h1, Across(p1));
    Exchanged4(h, Before16(Across(p1)));
  }

  lemma Blended(l: Word, r: Word, i: nat)
    requires i < 32
    ensures Rol(Blend(Halves(l, Rol(r, 1))).l, 1)[(i + 1) % 32] == if i % 2 == 1 then r[i - 1] else l[i]
    ensures Blend(Halves(l, Rol(r, 1))).r[(i + 1) % 32] == if i % 2 == 1 then r[i] else l[i + 1]
  {
    hide Blend, Or, Shl, Shr;
    BlendBits(Halves(l, Rol(r, 1)));
  }

  // The initial network is the permutation IP of FIPS 46-3, each half rotated left
  // by one: row y, column x of the table reads bit 58 + 2y - 8x for the left half
  // and the bit before it for the right half.
  lemma InitialIsPermutation(h: Halves, y: nat, x: nat)
    requires y < 4 && x < 8
    ensures Initial(h).l[(32 - 8 * y - x) % 32] == BlockBit(h, 58 + 2 * y - 8 * x)
    ensures Initial(h).r[(32 - 8 * y - x) % 32] == BlockBit(h, 57 + 2 * y - 8 * x)
  {
    hide Initial, Sent, Origin, SourceOf, Rotated, BlockBit, BitAt;
    Located(h, y, x);
    InitialSent(h);
    Fetched(Sent(h), y, x);
    SentFrom(h, SourceOf(true, y, x));
    SentFrom(h, SourceOf(false, y, x));
    OriginOfRow(true, y, x);
    OriginOfRow(false, y, x);
  }

  // The rotations and the last exchange, after the others
  function Rotated(h: Halves): Halves {
    var b := Blend(Halves(h.l, Rol(h.r, 1)));
    Halves(Rol(b.l, 1), b.r)
  }

  lemma InitialSent(h: Halves)
    ensures Initial(h) == Rotated(Sent(h))
  {
    hide Exchange, Blend, Rol;
  }

  lemma Fetched(h: Halves, y: nat, x: nat)
    requires y < 4 && x < 8
    ensures IsPosition(SourceOf(true, y, x)) && IsPosition(SourceOf(false, y, x))
    ensures Rotated(h).l[(32 - 8 * y - x) % 32] == BitAt(h, SourceOf(true, y, x))
    ensures Rotated(h).r[(32 - 8 * y - x) % 32] == BitAt(h, SourceOf(false, y, x))
  {
    hide Blend, Rol;
    Blended(h.l, h.r, 31 - 8 * y - x);
  }

  // The bit of the exchanged halves that the rotations put in row y, column x
  function SourceOf(left: bool, y: nat, x: nat): Position
    requires y < 4 && x < 8
  {
    if x % 2 == 0 then Position(false, 3 - y, if left then 6 - x else 7 - x)
    else Position(true, 3 - y, if left then 7 - x else 8 - x)
  }

  // Half way, after the exchanges of pairs and bytes
  function MiddleOf(left: bool, y: nat, x: nat): Position {
    Position(x % 4 >= 2, (if y < 2 then 2 else 0) + x % 2,
             (if x < 4 then 4 else 0) + (if y % 2 == 0 then 2 else 0) + if left then 0 else 1)
  }

  lemma MiddleOfRow(left: bool, y: nat, x: nat)
    requires y < 4 && x < 8
    ensures Before2(Before8(Across(SourceOf(left, y, x)))) == MiddleOf(left, y, x)
  {
  }

  lemma OriginOfRow(left: bool, y: nat, x: nat)
    requires y < 4 && x < 8
    ensures Origin(SourceOf(left, y, x)) == Position(x >= 4, x % 4, if left then 6 - 2 * y else 7 - 2 * y)
  {
    hide Before2, Before8, SourceOf;
    MiddleOfRow(left, y, x);
  }

  lemma Located(h: Halves, y: nat, x: nat)
    requires y < 4 && x < 8
    ensures BlockBit(h, 58 + 2 * y - 8 * x) == BitAt(h, Position(x >= 4, x % 4, 6 - 2 * y))
    ensures BlockBit(h, 57 + 2 * y - 8 * x) == BitAt(h, Position(x >= 4, x % 4, 7 - 2 * y))
  {
  }

  // ---- The rounds ----

  function Index(w: Word, n: nat): Word {
    And(Shr(w, n), Ones(32, 6))
  }

  function OddBoxes(sp: Boxes, w: Word): Word {
    Xor(Xor(Xor(sp(7, Index(w, 0)), sp(5, Index(w, 8))), sp(3, Index(w, 16))), sp(1, Index(w, 24)))
  }

  function EvenBoxes(sp: Boxes, w: Word): Word {
    Xor(Xor(Xor(sp(8, Index(w, 0)), sp(6, Index(w, 8))), sp(4, Index(w, 16))), sp(2, Index(w, 24)))
  }

  // x changed by the boxes of y under the round key k0, k1
  function Mix(sp: Boxes, x: Word, y: Word, k0: Word, k1: Word): Word {
    Xor(Xor(x, OddBoxes(sp, Xor(Ror(y, 4), k0))), EvenBoxes(sp, Xor(y, k1)))
  }

  lemma MixTwice(sp: Boxes, x: Word, y: Word, k0: Word, k1: Word)
    ensures Mix(sp, Mix(sp, x, y, k0, k1), y, k0, k1) == x
  {
    hide OddBoxes, EvenBoxes, Ror;
  }

  // i rounds of the Feistel network
  function Rounds(sp: Boxes, h: Halves, ks: seq<Word>, i: nat): Halves
    requires 2 * i <= |ks|
  {
    if i == 0 then h
    else
      var p := Rounds(sp, h, ks, i - 1);
      Halves(p.r, Mix(sp, p.l, p.r, ks[2 * i - 2], ks[2 * i - 1]))
  }

  function Cipher(sp: Boxes, block: Halves, ks: seq<Word>): Halves
    requires |ks| == 32
  {
    Final(Rounds(sp, Initial(block), ks, 16))
  }

  // The round keys of dk are those of ek, last first.
  predicate IsReversed(ek: seq<Word>, dk: seq<Word>) {
    && |ek| == 32 && |dk| == 32
    && (forall i :: 0 <= i < 16 ==> dk[2 * i] == ek[30 - 2 * i])
    && (forall i :: 0 <= i < 16 ==> dk[2 * i + 1] == ek[31 - 2 * i])
  }

  lemma ReversedBack(ek: seq<Word>, dk: seq<Word>)
    requires IsReversed(ek, dk)
    ensures IsReversed(dk, ek)
  {
    forall i | 0 <= i < 16
      ensures ek[2 * i] == dk[30 - 2 * i] && ek[2 * i + 1] == dk[31 - 2 * i]
    {
      assert dk[2 * (15 - i)] == ek[30 - 2 * (15 - i)];
      assert dk[2 * (15 - i) + 1] == ek[31 - 2 * (15 - i)];
    }
  }

  lemma {:induction false} RoundsReversed(sp: Boxes, h: Halves, ek: seq<Word>, dk: seq<Word>, i: nat)
    requires IsReversed(ek, dk) && i <= 16
    ensures Rounds(sp, Swap(Rounds(sp, h, ek, 16)), dk, i) == Swap(Rounds(sp, h, ek, 16 - i))
  {
    hide Mix;
    if i > 0 {
      RoundsReversed(sp, h, ek, dk, i - 1);
      var q := Rounds(sp, h, ek, 16 - i);
      MixTwice(sp, q.l, q.r, ek[32 - 2 * i], ek[33 - 2 * i]);
      assert dk[2 * (i - 1)] == ek[30 - 2 * (i - 1)];
      assert dk[2 * (i - 1) + 1] == ek[31 - 2 * (i - 1)];
    }
  }

  // The same network under the reversed keys undoes it.
  lemma CipherReversed(sp: Boxes, block: Halves, ek: seq<Word>, dk: seq<Word>)
    requires IsReversed(ek, dk)
    ensures Cipher(sp, Cipher(sp, block, ek), dk) == block
  {
    hide Rounds, Initial, Final;
    var h := Rounds(sp, Initial(block), ek, 16);
    InitialFinal(h);
    RoundsReversed(sp, Initial(block), ek, dk, 16);
    RoundsStart(sp, Initial(block), ek);
    FinalInitial(block);
  }

  lemma RoundsStart(sp: Boxes, h: Halves, ks: seq<Word>)
    ensures Rounds(sp, h, ks, 0) == h
  {
  }

  method InitialNetwork(l: Word, r: Word) returns (leftt: Word, right: Word)
    ensures Halves(leftt, right) == Initial(Halves(l, r))
  {
    hide Xor, And, Shl, Shr, Rol;
    leftt, right := l, r;
    var work: Word := And(Xor(Shr(leftt, 4), right), M4());
    right := Xor(right, work);
    leftt := Xor(leftt, Shl(work, 4));
    work := And(Xor(Shr(leftt, 16), right), M16());
    right := Xor(right, work);
    leftt := Xor(leftt, Shl(work, 16));
    work := And(Xor(Shr(right, 2), leftt), M2());
    leftt := Xor(leftt, work);
    right := Xor(right, Shl(work, 2));
    work := And(Xor(Shr(right, 8), leftt), M8());
    leftt := Xor(leftt, work);
    right := Xor(right, Shl(work, 8));
    right := Rol(right, 1);
    work := And(Xor(leftt, right), M1());
    leftt := Xor(leftt, work);
    right := Xor(right, work);
    leftt := Rol(leftt, 1);
  }

  method FinalNetwork(l: Word, r: Word) returns (leftt: Word, right: Word)
    ensures Halves(right, leftt) == Final(Halves(l, r))
  {
    hide Xor, And, Shl, Shr, Ror;
    leftt, right := l, Ror(r, 1);
    var work: Word := And(Xor(leftt, right), M1());
    leftt := Xor(leftt, work);
    right := Xor(right, work);
    leftt := Ror(leftt, 1);
    work := And(Xor(Shr(leftt, 8), right), M8());
    right := Xor(right, work);
    leftt := Xor(leftt, Shl(work, 8));
    work := And(Xor(Shr(leftt, 2), right), M2());
    right := Xor(right, work);
    leftt := Xor(leftt, Shl(work, 2));
    work := And(Xor(Shr(right, 16), leftt), M16());
    leftt := Xor(leftt, work);
    right := Xor(right, Shl(work, 16));
    work := And(Xor(Shr(right, 4), leftt), M4());
    leftt := Xor(leftt, work);
    right := Xor(right, Shl(work, 4));
  }

  method Desfunc(sp: Boxes, block: array<Word>, keys: array<Word>)
    requires block.Length == 2 && keys.Length == 32 && block != keys
    modifies block
    ensures Halves(block[0], block[1]) == Cipher(sp, old(Halves(block[0], block[1])), keys[..])
    ensures Enciphers(sp, old(Halves(block[0], block[1])), keys[..], Halves(block[0], block[1]))
  {
    hide Initial, Final, Mix, Enciphers;
    CipherIsFeistel(sp, Halves(block[0], block[1]), keys[..]);
    ghost var start := Initial(Halves(block[0], block[1]));
    var leftt, right := InitialNetwork(block[0], block[1]);
    for round := 0 to 8
      invariant Halves(leftt, right) == Rounds(sp, start, keys[..], 2 * round)
      modifies {}
    {
      leftt := Mix(sp, leftt, right, keys[4 * round], keys[4 * round + 1]);
      assert Halves(right, leftt) == Rounds(sp, start, keys[..], 2 * round + 1);
      right := Mix(sp, right, leftt, keys[4 * round + 2], keys[4 * round + 3]);
    }
    leftt, right := FinalNetwork(leftt, right);
    block[0], block[1] := right, leftt;
  }

  // ---- The key schedule ----

  type Choice = n: nat | n < 64
  type Place = n: nat | n < 56
  type Turns = n: nat | n <= 28

  // The key bit that permuted choice 1 puts at place j
  function Choice1(j: nat): Choice
    requires j < 56
  {
    if j < 28 then ChoiceC(j) else ChoiceD(j - 28)
  }

  function ChoiceC(j: nat): Choice
    requires j < 28
  {
    var table: seq<Choice> := [
      56, 48, 40, 32, 24, 16,  8,  0, 57, 49, 41, 33, 25, 17,
       9,  1, 58, 50, 42, 34, 26, 18, 10,  2, 59, 51, 43, 35];
    table[j]
  }

  function ChoiceD(j: nat): Choice
    requires j < 28
  {
    var table: seq<Choice> := [
      62, 54, 46, 38, 30, 22, 14,  6, 61, 53, 45, 37, 29, 21,
      13,  5, 60, 52, 44, 36, 28, 20, 12,  4, 27, 19, 11,  3];
    table[j]
  }

  // The rotations before the key of round j is taken
  function TotalTurns(j: nat): Turns
    requires j < 16
  {
    var table: seq<Turns> := [1, 2, 4, 6, 8, 10, 12, 14, 15, 17, 19, 21, 23, 25, 27, 28];
    table[j]
  }

  // The place from which permuted choice 2 takes bit j
  function Choice2(j: nat): Place
    requires j < 48
  {
    if j < 24 then Choice2C(j) else Choice2D(j - 24)
  }

  function Choice2C(j: nat): (p: Place)
    requires j < 24
    ensures p < 28
  {
    var table: seq<Place> := [
      13, 16, 10, 23,  0,  4,      2, 27, 14,  5, 20,  9,
      22, 18, 11,  3, 25,  7,     15,  6, 26, 19, 12,  1];
    table[j]
  }

  function Choice2D(j: nat): (p: Place)
    requires j < 24
    ensures p >= 28
  {
    var table: seq<Place> := [
      40, 51, 30, 36, 46, 54,     29, 39, 50, 44, 32, 47,
      43, 48, 38, 55, 33, 52,     45, 41, 49, 35, 28, 31];
    table[j]
  }

  // Permuted choice 1 reads the columns of the key bits from the last byte to the
  // first, leaving out the parity bits: columns 0 to 3 into C and columns 6 to 3 into D,
  // the last bytes' half of column 3 closing C and the first bytes' half closing D.
  lemma Choice1Columns(j: nat)
    requires j < 56
    ensures Choice1(j) == if j < 28 then 8 * (7 - j % 8) + j / 8
                          else if j < 52 then 8 * (7 - (j - 28) % 8) + 6 - (j - 28) / 8
                          else 8 * (55 - j) + 3
  {
    hide ChoiceC, ChoiceD;
    if j < 28 {
      ChoiceCColumns(j);
    } else {
      ChoiceDColumns(j - 28);
    }
  }

  lemma ChoiceCColumns(j: nat)
    requires j < 28
    ensures ChoiceC(j) == 8 * (7 - j % 8) + j / 8
  {
  }

  lemma ChoiceDColumns(j: nat)
    requires j < 28
    ensures ChoiceD(j) == if j < 24 then 8 * (7 - j % 8) + 6 - j / 8 else 8 * (27 - j) + 3
  {
  }

  // One place to the left before rounds 1, 2, 9 and 16 and two before the others: a
  // whole turn after the last.
  lemma TurnsByRound(j: nat)
    requires j < 16
    ensures TotalTurns(j) - (if j == 0 then 0 else TotalTurns(j - 1)) == if j in {0, 1, 8, 15} then 1 else 2
    ensures TotalTurns(15) == 28
  {
  }

  // Permuted choice 2 takes 24 of the 28 places of each half, no place twice.
  lemma Choice2Distinct(i: nat, j: nat)
    requires i < j < 48
    ensures Choice2(i) != Choice2(j)
    ensures Choice2(j) < 28 <==> j < 24
    ensures Choice2(j) !in {8, 17, 21, 24, 34, 37, 42, 53}
  {
    hide Choice2C, Choice2D;
    if j < 24 {
      DistinctC(i, j);
    } else if i >= 24 {
      DistinctD(i - 24, j - 24);
    } else {
      OmittedD(j - 24);
    }
  }

  lemma DistinctC(i: nat, j: nat)
    requires i < j < 24
    ensures Choice2C(i) != Choice2C(j) && Choice2C(j) !in {8, 17, 21, 24}
  {
  }

  lemma DistinctD(i: nat, j: nat)
    requires i < j < 24
    ensures Choice2D(i) != Choice2D(j) && Choice2D(j) !in {34, 37, 42, 53}
  {
  }

  lemma OmittedD(j: nat)
    requires j < 24
    ensures Choice2D(j) !in {34, 37, 42, 53}
  {
  }

  predicate IsDesKey(key: seq<Byte>) {
    |key| == 8
  }

  // Bit b of the key, counted from the most significant of its first byte
  function KeyBit(key: seq<Byte>, b: Choice): bool
    requires IsDesKey(key)
  {
    key[b / 8][7 - b % 8]
  }

  // Where place p of C or D stood t rotations to the left before
  function Turned(p: Place, t: Turns): Place {
    if p < 28 then (p + t) % 28 else 28 + (p - 28 + t) % 28
  }

  // Bit j, counted from the left, of the 48-bit key of round i
  function Selected(key: seq<Byte>, i: nat, j: nat): bool
    requires IsDesKey(key) && i < 16 && j < 48
  {
    KeyBit(key, Choice1(Turned(Choice2(j), TotalTurns(i))))
  }

  // The key of round i as two words: each byte holds the six bits for one box, the
  // odd-numbered boxes in word 0 and the others in word 1.
  function ScheduleWord(key: seq<Byte>, i: nat, o: nat): Word
    requires IsDesKey(key) && i < 16 && o < 2
  {
    seq(32, b requires 0 <= b < 32 => b % 8 < 6 && Selected(key, i, 6 * (2 * (3 - b / 8) + o) + 5 - b % 8))
  }

  // Bit t of the six that the expansion E of FIPS 46-3 gives to box s, both counted
  // from 0: row s of the table reads bits 4s to 4s + 5, cyclically, where the bits of a
  // half are counted from 1 at the left.
  function ExpandedBit(half: Word, s: nat, t: nat): bool
    requires s < 8 && t < 6
  {
    half[31 - (4 * s + t + 31) % 32]
  }

  // The indexes that boxes 1, 3, 5, 7 and then 2, 4, 6, 8 get, with the half turned left
  // by one as the initial network leaves it, are the expanded half under the selected
  // bits of the round.
  lemma OddBoxExpanded(half: Word, key: seq<Byte>, i: nat, q: nat, t: nat)
    requires IsDesKey(key) && i < 16 && q < 4 && t < 6
    ensures Index(Xor(Ror(Rol(half, 1), 4), ScheduleWord(key, i, 0)), 24 - 8 * q)[5 - t]
         == (ExpandedBit(half, 2 * q, t) != Selected(key, i, 6 * (2 * q) + t))
  {
    hide Selected, Rol, Ror, Index, Xor, ScheduleWord;
    var y, word := Rol(half, 1), ScheduleWord(key, i, 0);
    var b := 24 - 8 * q + 5 - t;
    XorBit(Ror(y, 4), word, b);
    IndexBit(Xor(Ror(y, 4), word), 24 - 8 * q, 5 - t);
    ScheduleBit(key, i, q, 0, t);
    RorBit(y, b);
    RolBit(half, (b + 4) % 32);
  }

  lemma EvenBoxExpanded(half: Word, key: seq<Byte>, i: nat, q: nat, t: nat)
    requires IsDesKey(key) && i < 16 && q < 4 && t < 6
    ensures Index(Xor(Rol(half, 1), ScheduleWord(key, i, 1)), 24 - 8 * q)[5 - t]
         == (ExpandedBit(half, 2 * q + 1, t) != Selected(key, i, 6 * (2 * q + 1) + t))
  {
    hide Selected, Rol, Index, Xor, ScheduleWord;
    var y, word := Rol(half, 1), ScheduleWord(key, i, 1);
    var b := 24 - 8 * q + 5 - t;
    XorBit(y, word, b);
    IndexBit(Xor(y, word), 24 - 8 * q, 5 - t);
    ScheduleBit(key, i, q, 1, t);
    RolBit(half, b);
  }

  lemma ScheduleBit(key: seq<Byte>, i: nat, q: nat, o: nat, t: nat)
    requires IsDesKey(key) && i < 16 && q < 4 && o < 2 && t < 6
    ensures ScheduleWord(key, i, o)[24 - 8 * q + 5 - t] == Selected(key, i, 6 * (2 * q + o) + t)
  {
    hide Selected;
    var b := 24 - 8 * q + 5 - t;
    assert b / 8 == 3 - q && b % 8 == 5 - t;
  }

  lemma XorBit(x: Word, y: Word, i: nat)
    requires i < 32
    ensures Xor(x, y)[i] == (x[i] != y[i])
  {
  }

  lemma IndexBit(w: Word, n: nat, j: nat)
    requires j < 6 && n + j < 32
    ensures Index(w, n)[j] == w[n + j]
  {
  }

  lemma RolBit(w: Word, i: nat)
    requires i < 32
    ensures Rol(w, 1)[i] == w[(i + 31) % 32]
  {
  }

  lemma RorBit(w: Word, i: nat)
    requires i < 32
    ensures Ror(w, 4)[i] == w[(i + 4) % 32]
  {
  }

  // The six bits for box s, counted from 1, the first of them most significant
  function BoxInput(half: Word, key: seq<Byte>, i: nat, s: nat): Word
    requires IsDesKey(key) && i < 16 && 1 <= s <= 8
  {
    seq(32, b requires 0 <= b < 32 =>
      b < 6 && ExpandedBit(half, s - 1, 5 - b) != Selected(key, i, 6 * (s - 1) + 5 - b))
  }

  lemma BoxIndexes(half: Word, key: seq<Byte>, i: nat, q: nat)
    requires IsDesKey(key) && i < 16 && q < 4
    ensures Index(Xor(Ror(Rol(half, 1), 4), ScheduleWord(key, i, 0)), 24 - 8 * q) == BoxInput(half, key, i, 2 * q + 1)
    ensures Index(Xor(Rol(half, 1), ScheduleWord(key, i, 1)), 24 - 8 * q) == BoxInput(half, key, i, 2 * q + 2)
  {
    hide Selected, ExpandedBit, Rol, Ror, Index, Xor, ScheduleWord;
    var odd := Xor(Ror(Rol(half, 1), 4), ScheduleWord(key, i, 0));
    var even := Xor(Rol(half, 1), ScheduleWord(key, i, 1));
    var indexes, inputs := (Index(odd, 24 - 8 * q), Index(even, 24 - 8 * q)),
                           (BoxInput(half, key, i, 2 * q + 1), BoxInput(half, key, i, 2 * q + 2));
    forall b | 0 <= b < 32
      ensures indexes.0[b] == inputs.0[b] && indexes.1[b] == inputs.1[b]
    {
      if b < 6 {
        OddBoxExpanded(half, key, i, q, 5 - b);
        EvenBoxExpanded(half, key, i, q, 5 - b);
      } else {
        IndexHigh(odd, 24 - 8 * q, b);
        IndexHigh(even, 24 - 8 * q, b);
      }
    }
  }

  lemma IndexHigh(w: Word, n: nat, j: nat)
    requires 6 <= j < 32
    ensures !Index(w, n)[j]
  {
  }

  // The function f of FIPS 46-3: the entries of the eight boxes together
  function Feistel(sp: Boxes, half: Word, key: seq<Byte>, i: nat): Word
    requires IsDesKey(key) && i < 16
  {
    Xor(Xor(Xor(Xor(sp(1, BoxInput(half, key, i, 1)), sp(2, BoxInput(half, key, i, 2))),
                Xor(sp(3, BoxInput(half, key, i, 3)), sp(4, BoxInput(half, key, i, 4)))),
            Xor(sp(5, BoxInput(half, key, i, 5)), sp(6, BoxInput(half, key, i, 6)))),
        Xor(sp(7, BoxInput(half, key, i, 7)), sp(8, BoxInput(half, key, i, 8))))
  }

  lemma Regrouped(x: Word, a: Word, b: Word, c: Word, d: Word, e: Word, f: Word, g: Word, h: Word)
    ensures Xor(Xor(x, Xor(Xor(Xor(g, e), c), a)), Xor(Xor(Xor(h, f), d), b))
         == Xor(x, Xor(Xor(Xor(Xor(a, b), Xor(c, d)), Xor(e, f)), Xor(g, h)))
  {
  }

  // A round takes the entry of each box at the expanded half under its selected bits.
  lemma MixIsFeistel(sp: Boxes, x: Word, half: Word, key: seq<Byte>, i: nat)
    requires IsDesKey(key) && i < 16
    ensures Mix(sp, x, Rol(half, 1), ScheduleWord(key, i, 0), ScheduleWord(key, i, 1))
         == Xor(x, Feistel(sp, half, key, i))
  {
    hide BoxInput, Rol, Ror, Index, Xor, ScheduleWord;
    BoxIndexes(half, key, i, 0);
    BoxIndexes(half, key, i, 1);
    BoxIndexes(half, key, i, 2);
    BoxIndexes(half, key, i, 3);
    Regrouped(x, sp(1, BoxInput(half, key, i, 1)), sp(2, BoxInput(half, key, i, 2)),
              sp(3, BoxInput(half, key, i, 3)), sp(4, BoxInput(half, key, i, 4)),
              sp(5, BoxInput(half, key, i, 5)), sp(6, BoxInput(half, key, i, 6)),
              sp(7, BoxInput(half, key, i, 7)), sp(8, BoxInput(half, key, i, 8)));
  }

  // n rounds of the Feistel network of FIPS 46-3 under the key, taken in one of the
  // directions, on halves that stand turned left by one
  function FeistelRounds(sp: Boxes, h: Halves, key: seq<Byte>, edf: Direction, n: nat): Halves
    requires IsDesKey(key) && n <= 16
  {
    if n == 0 then h
    else
      var p := FeistelRounds(sp, h, key, edf, n - 1);
      Halves(p.r, Xor(p.l, Feistel(sp, Ror(p.r, 1), key, RoundAt(edf, n - 1))))
  }

  lemma {:induction false} RoundsAreFeistel(sp: Boxes, h: Halves, key: seq<Byte>, edf: Direction, ks: seq<Word>, n: nat)
    requires IsDesKey(key) && IsSchedule(key, edf, ks) && n <= 16
    ensures Rounds(sp, h, ks, n) == FeistelRounds(sp, h, key, edf, n)
  {
    hide Mix, Rol, Ror, Feistel, ScheduleWord, Xor;
    if n > 0 {
      RoundsAreFeistel(sp, h, key, edf, ks, n - 1);
      var p := Rounds(sp, h, ks, n - 1);
      RolRor(p.r);
      MixIsFeistel(sp, p.l, Ror(p.r, 1), key, RoundAt(edf, n - 1));
      assert ks[2 * (n - 1)] == ScheduleWord(key, RoundAt(edf, n - 1), 0);
      assert ks[2 * (n - 1) + 1] == ScheduleWord(key, RoundAt(edf, n - 1), 1);
    }
  }

  // The cipher of a block: under a schedule of the key, sixteen such rounds
  ghost predicate Enciphers(sp: Boxes, block: Halves, ks: seq<Word>, result: Halves) {
    forall key: seq<Byte>, edf :: IsDesKey(key) && IsSchedule(key, edf, ks) ==>
      result == Final(FeistelRounds(sp, Initial(block), key, edf, 16))
  }

  lemma CipherIsFeistel(sp: Boxes, block: Halves, ks: seq<Word>)
    requires |ks| == 32
    ensures Enciphers(sp, block, ks, Cipher(sp, block, ks))
  {
    hide Initial, Final, Rounds, FeistelRounds, IsSchedule;
    forall key: seq<Byte>, edf | IsDesKey(key) && IsSchedule(key, edf, ks)
      ensures Rounds(sp, Initial(block), ks, 16) == FeistelRounds(sp, Initial(block), key, edf, 16)
    {
      RoundsAreFeistel(sp, Initial(block), key, edf, ks, 16);
    }
  }

  // The first n of 24 selected bits, from bit 23 of the word down
  function RawWord(key: seq<Byte>, i: nat, half: nat, n: nat): Word
    requires IsDesKey(key) && i < 16 && half < 2 && n <= 24
  {
    seq(32, b requires 0 <= b < 32 => 24 - n <= b < 24 && Selected(key, i, 24 * half + 23 - b))
  }

  function Field(low: nat, high: nat): Word {
    seq(32, b => low <= b < high)
  }

  function CookFirst(raw0: Word, raw1: Word): Word {
    Or(Or(Or(Shl(And(raw0, Field(18, 24)), 6), Shl(And(raw0, Field(6, 12)), 10)),
          Shr(And(raw1, Field(18, 24)), 10)), Shr(And(raw1, Field(6, 12)), 6))
  }

  function CookSecond(raw0: Word, raw1: Word): Word {
    Or(Or(Or(Shl(And(raw0, Field(12, 18)), 12), Shl(And(raw0, Field(0, 6)), 16)),
          Shr(And(raw1, Field(12, 18)), 4)), And(raw1, Field(0, 6)))
  }

  lemma CookFirstBit(raw0: Word, raw1: Word, b: nat)
    requires b < 32
    ensures CookFirst(raw0, raw1)[b]
         == (b % 8 < 6 && if b >= 24 then raw0[b - 6] else if b >= 16 then raw0[b - 10]
             else if b >= 8 then raw1[b + 10] else raw1[b + 6])
  {
  }

  lemma CookSecondBit(raw0: Word, raw1: Word, b: nat)
    requires b < 32
    ensures CookSecond(raw0, raw1)[b]
         == (b % 8 < 6 && if b >= 24 then raw0[b - 12] else if b >= 16 then raw0[b - 16]
             else if b >= 8 then raw1[b + 4] else raw1[b])
  {
  }

  lemma Cooked(key: seq<Byte>, i: nat)
    requires IsDesKey(key) && i < 16
    ensures CookFirst(RawWord(key, i, 0, 24), RawWord(key, i, 1, 24)) == ScheduleWord(key, i, 0)
    ensures CookSecond(RawWord(key, i, 0, 24), RawWord(key, i, 1, 24)) == ScheduleWord(key, i, 1)
  {
    hide Selected, CookFirst, CookSecond;
    var raw0, raw1 := RawWord(key, i, 0, 24), RawWord(key, i, 1, 24);
    forall b | 0 <= b < 32
      ensures CookFirst(raw0, raw1)[b] == ScheduleWord(key, i, 0)[b]
      ensures CookSecond(raw0, raw1)[b] == ScheduleWord(key, i, 1)[b]
    {
      CookFirstBit(raw0, raw1, b);
      CookSecondBit(raw0, raw1, b);
    }
  }

  // (w & (1 << i)) == 1 << i
  lemma TestMask(w: Bits, i: nat)
    requires i < |w|
    ensures And(w, Shl(One(|w|), i)) == Shl(One(|w|), i) <==> w[i]
  {
    assert Shl(One(|w|), i)[i];
    assert And(w, Shl(One(|w|), i))[i] == w[i];
    if w[i] {
      assert And(w, Shl(One(|w|), i)) == Shl(One(|w|), i);
    }
  }

  // The key bits in the order of the first permuted choice
  method Choose(key: seq<Byte>) returns (pc1m: array<bool>)
    requires IsDesKey(key)
    ensures fresh(pc1m) && pc1m.Length == 56
    ensures forall j :: 0 <= j < 56 ==> pc1m[j] == KeyBit(key, Choice1(j))
  {
    hide And, Shl, One, Choice1;
    pc1m := new bool[56];
    for j := 0 to 56
      invariant forall i :: 0 <= i < j ==> pc1m[i] == KeyBit(key, Choice1(i))
    {
      var l := Choice1(j);
      var m := l % 8;
      TestMask(key[l / 8], 7 - m);
      pc1m[j] := And(key[l / 8], Shl(One(8), 7 - m)) == Shl(One(8), 7 - m);
    }
  }

  // Both halves turned left
  method Turn(pc1m: array<bool>, pcr: array<bool>, t: Turns)
    requires pc1m.Length == 56 && pcr.Length == 56 && pc1m != pcr
    modifies pcr
    ensures forall j: Place :: pcr[j] == pc1m[Turned(j, t)]
  {
    for j := 0 to 28
      invariant forall i: Place :: i < j ==> pcr[i] == pc1m[Turned(i, t)]
    {
      var l := j + t;
      pcr[j] := pc1m[if l < 28 then l else l - 28];
    }
    for j := 28 to 56
      invariant forall i: Place :: i < j ==> pcr[i] == pc1m[Turned(i, t)]
    {
      var l := j + t;
      pcr[j] := pc1m[if l < 56 then l else l - 28];
    }
  }

  lemma RawNext(key: seq<Byte>, i: nat, half: nat, j: nat)
    requires IsDesKey(key) && i < 16 && half < 2 && j < 24
    ensures RawWord(key, i, half, j + 1)
         == if Selected(key, i, 24 * half + j) then Or(RawWord(key, i, half, j), Shl(One(32), 23 - j))
            else RawWord(key, i, half, j)
  {
    hide Selected;
  }

  // The second permuted choice of the turned bits, as the words m and m + 1
  method Pick(pcr: array<bool>, kn: array<Word>, m: nat, ghost key: seq<Byte>, ghost i: nat)
    requires pcr.Length == 56 && kn.Length == 32 && m + 1 < 32 && IsDesKey(key) && i < 16
    requires forall j: Place :: pcr[j] == KeyBit(key, Choice1(Turned(j, TotalTurns(i))))
    modifies kn
    ensures kn[m] == RawWord(key, i, 0, 24) && kn[m + 1] == RawWord(key, i, 1, 24)
    ensures forall j :: 0 <= j < 32 && j != m && j != m + 1 ==> kn[j] == old(kn[j])
  {
    hide RawWord, Or, Shl, One, Choice1, Choice2, KeyBit, TotalTurns;
    var n := m + 1;
    kn[m], kn[n] := Zeros(32), Zeros(32);
    RawNone(key, i);
    for j := 0 to 24
      invariant kn[m] == RawWord(key, i, 0, j) && kn[n] == RawWord(key, i, 1, j)
      invariant forall k :: 0 <= k < 32 && k != m && k != n ==> kn[k] == old(kn[k])
    {
      RawNext(key, i, 0, j);
      RawNext(key, i, 1, j);
      if pcr[Choice2(j)] {
        kn[m] := Or(kn[m], Shl(One(32), 23 - j));
      }
      if pcr[Choice2(j + 24)] {
        kn[n] := Or(kn[n], Shl(One(32), 23 - j));
      }
    }
  }

  lemma RawNone(key: seq<Byte>, i: nat)
    requires IsDesKey(key) && i < 16
    ensures RawWord(key, i, 0, 0) == Zeros(32) && RawWord(key, i, 1, 0) == Zeros(32)
  {
  }

  method Cookey(raw: array<Word>, keyout: array<Word>)
    requires raw.Length == 32 && keyout.Length == 32 && raw != keyout
    modifies keyout
    ensures forall i :: 0 <= i < 16 ==> keyout[2 * i] == CookFirst(raw[2 * i], raw[2 * i + 1])
    ensures forall i :: 0 <= i < 16 ==> keyout[2 * i + 1] == CookSecond(raw[2 * i], raw[2 * i + 1])
  {
    hide CookFirst, CookSecond;
    for i := 0 to 16
      invariant forall j :: 0 <= j < i ==> keyout[2 * j] == CookFirst(raw[2 * j], raw[2 * j + 1])
      invariant forall j :: 0 <= j < i ==> keyout[2 * j + 1] == CookSecond(raw[2 * j], raw[2 * j + 1])
    {
      keyout[2 * i] := CookFirst(raw[2 * i], raw[2 * i + 1]);
      keyout[2 * i + 1] := CookSecond(raw[2 * i], raw[2 * i + 1]);
    }
  }

  datatype Direction = EN0 | DE1

  // The round whose key stands at place i
  function RoundAt(edf: Direction, i: nat): nat
    requires i < 16
  {
    if edf == DE1 then 15 - i else i
  }

  ghost predicate IsSchedule(key: seq<Byte>, edf: Direction, k: seq<Word>)
    requires IsDesKey(key)
  {
    && |k| == 32
    && (forall i :: 0 <= i < 16 ==> k[2 * i] == ScheduleWord(key, RoundAt(edf, i), 0))
    && (forall i :: 0 <= i < 16 ==> k[2 * i + 1] == ScheduleWord(key, RoundAt(edf, i), 1))
  }

  // The two directions give each other's schedule reversed.
  lemma SchedulesReversed(key: seq<Byte>, ek: seq<Word>, dk: seq<Word>)
    requires IsDesKey(key) && IsSchedule(key, EN0, ek) && IsSchedule(key, DE1, dk)
    ensures IsReversed(ek, dk)
  {
    forall i | 0 <= i < 16
      ensures dk[2 * i] == ek[30 - 2 * i] && dk[2 * i + 1] == ek[31 - 2 * i]
    {
      assert ek[2 * (15 - i)] == ScheduleWord(key, 15 - i, 0);
      assert ek[2 * (15 - i) + 1] == ScheduleWord(key, 15 - i, 1);
    }
  }

  method Deskey(key: seq<Byte>, edf: Direction, keyout: array<Word>)
    requires IsDesKey(key) && keyout.Length == 32
    modifies keyout
    ensures IsSchedule(key, edf, keyout[..])
  {
    hide Choice1, TotalTurns, KeyBit, RawWord, CookFirst, CookSecond, KeyAt, IsSchedule;
    var pc1m := Choose(key);
    var pcr := new bool[56];
    var kn := new Word[32](_ => Zeros(32));
    for i := 0 to 16
      invariant forall j :: 0 <= j < 56 ==> pc1m[j] == KeyBit(key, Choice1(j))
      invariant forall j :: 0 <= j < i ==> KeyAt(key, kn[..], RoundAt(edf, j), j)
      modifies pcr, kn
    {
      var m := if edf == DE1 then 2 * (15 - i) else 2 * i;
      Turn(pc1m, pcr, TotalTurns(i));
      ghost var before := kn[..];
      Pick(pcr, kn, m, key, i);
      KeysKept(key, before, kn[..], m / 2, i);
    }
    Cookey(kn, keyout);
    CookedSchedule(key, edf, kn[..], keyout[..]);
  }

  lemma CookedSchedule(key: seq<Byte>, edf: Direction, kn: seq<Word>, k: seq<Word>)
    requires IsDesKey(key) && |kn| == 32 && |k| == 32
    requires forall j :: 0 <= j < 16 ==> KeyAt(key, kn, RoundAt(edf, j), j)
    requires forall i :: 0 <= i < 16 ==> k[2 * i] == CookFirst(kn[2 * i], kn[2 * i + 1])
    requires forall i :: 0 <= i < 16 ==> k[2 * i + 1] == CookSecond(kn[2 * i], kn[2 * i + 1])
    ensures IsSchedule(key, edf, k)
  {
    hide RawWord, CookFirst, CookSecond, ScheduleWord;
    forall i | 0 <= i < 16
      ensures k[2 * i] == ScheduleWord(key, RoundAt(edf, i), 0)
      ensures k[2 * i + 1] == ScheduleWord(key, RoundAt(edf, i), 1)
    {
      var r := RoundAt(edf, i);
      assert RoundAt(edf, r) == i && KeyAt(key, kn, RoundAt(edf, r), r);
      Cooked(key, r);
    }
  }

  // The raw words at place p hold the key of round i.
  ghost predicate KeyAt(key: seq<Byte>, kn: seq<Word>, p: nat, i: nat)
    requires IsDesKey(key)
  {
    && |kn| == 32 && p < 16 && i < 16
    && kn[2 * p] == RawWord(key, i, 0, 24) && kn[2 * p + 1] == RawWord(key, i, 1, 24)
  }

  lemma KeysKept(key: seq<Byte>, before: seq<Word>, kn: seq<Word>, p: nat, i: nat)
    requires IsDesKey(key) && |before| == 32 && |kn| == 32 && p < 16 && i < 16
    requires forall j :: 0 <= j < 32 && j != 2 * p && j != 2 * p + 1 ==> kn[j] == before[j]
    requires kn[2 * p] == RawWord(key, i, 0, 24) && kn[2 * p + 1] == RawWord(key, i, 1, 24)
    ensures KeyAt(key, kn, p, i)
    ensures forall q, r :: q != p && KeyAt(key, before, q, r) ==> KeyAt(key, kn, q, r)
  {
  }

  // ---- The ciphers on blocks of eight bytes ----

  function LoadWord(b: seq<Byte>, i: nat): Word
    requires i + 4 <= |b|
  {
    var b0: Bits, b1: Bits, b2: Bits, b3: Bits := b[i], b[i + 1], b[i + 2], b[i + 3];
    b3 + b2 + b1 + b0
  }

  // The first byte is the most significant.
  lemma LoadedValue(b: seq<Byte>, i: nat)
    requires i + 4 <= |b|
    ensures FromBits(LoadWord(b, i)) == ((FromBits(b[i]) * 0x100 + FromBits(b[i + 1])) * 0x100
                                         + FromBits(b[i + 2])) * 0x100 + FromBits(b[i + 3])
  {
    hide FromBits, Pow2;
    var b0: Bits, b1: Bits, b2: Bits, b3: Bits := b[i], b[i + 1], b[i + 2], b[i + 3];
    ByteFirst(b3, b2 + (b1 + b0));
    ByteFirst(b2, b1 + b0);
    ByteFirst(b1, b0);
    assert LoadWord(b, i) == b3 + (b2 + (b1 + b0));
  }

  function LoadBlock(b: seq<Byte>): Halves
    requires |b| >= 8
  {
    Halves(LoadWord(b, 0), LoadWord(b, 4))
  }

  method StoreWord(w: Word, b: array<Byte>, i: nat)
    requires i + 4 <= b.Length
    modifies b
    ensures LoadWord(b[..], i) == w
    ensures forall j :: 0 <= j < i || i + 4 <= j < b.Length ==> b[j] == old(b[j])
  {
    b[i], b[i + 1], b[i + 2], b[i + 3] := w[24..], w[16..24], w[8..16], w[..8];
    assert w == w[..8] + w[8..16] + w[16..24] + w[24..];
  }

  method StoreBlock(h: Halves, b: array<Byte>)
    requires b.Length >= 8
    modifies b
    ensures LoadBlock(b[..]) == h
    ensures forall j :: 8 <= j < b.Length ==> b[j] == old(b[j])
  {
    StoreWord(h.l, b, 0);
    ghost var first := b[..];
    StoreWord(h.r, b, 4);
    assert LoadWord(b[..], 0) == LoadWord(first, 0);
  }

  // One block through the network
  method Crypt(sp: Boxes, inp: array<Byte>, out: array<Byte>, keys: array<Word>)
    requires inp.Length >= 8 && out.Length >= 8 && keys.Length == 32
    modifies out
    ensures LoadBlock(out[..]) == Cipher(sp, old(LoadBlock(inp[..])), old(keys[..]))
    ensures Enciphers(sp, old(LoadBlock(inp[..])), old(keys[..]), LoadBlock(out[..]))
    ensures forall j :: 8 <= j < out.Length ==> out[j] == old(out[j])
  {
    hide Cipher, Enciphers;
    var work := new Word[2](_ => Zeros(32));
    work[0], work[1] := LoadWord(inp[..], 0), LoadWord(inp[..], 4);
    Desfunc(sp, work, keys);
    StoreBlock(Halves(work[0], work[1]), out);
  }

  class DesKey {
    const ek: array<Word>
    const dk: array<Word>

    ghost predicate Valid() {
      ek.Length == 32 && dk.Length == 32 && ek != dk
    }

    constructor ()
      ensures Valid() && fresh(ek) && fresh(dk)
    {
      ek := new Word[32](_ => Zeros(32));
      dk := new Word[32](_ => Zeros(32));
    }

    method Setup(key: seq<Byte>, numRounds: int) returns (res: Status)
      requires Valid()
      modifies ek, dk
      ensures res == if numRounds != 0 && numRounds != 16 then CryptInvalidRounds
                     else if |key| != 8 then CryptInvalidKeysize else CryptOk
      ensures res != CryptOk ==> ek[..] == old(ek[..]) && dk[..] == old(dk[..])
      ensures res == CryptOk ==> IsSchedule(key, EN0, ek[..]) && IsReversed(ek[..], dk[..])
    {
      hide IsSchedule, IsReversed;
      if numRounds != 0 && numRounds != 16 {
        return CryptInvalidRounds;
      }
      if |key| != 8 {
        return CryptInvalidKeysize;
      }
      Deskey(key, EN0, ek);
      Deskey(key, DE1, dk);
      SchedulesReversed(key, ek[..], dk[..]);
      return CryptOk;
    }

    // Encrypt into ct and decrypt into back: the block comes back, in one buffer
    // or in several.
    method EncryptThenDecrypt(sp: Boxes, pt: array<Byte>, ct: array<Byte>, back: array<Byte>)
      requires Valid() && IsReversed(ek[..], dk[..])
      requires pt.Length >= 8 && ct.Length >= 8 && back.Length >= 8
      modifies ct, back
      ensures LoadBlock(back[..]) == old(LoadBlock(pt[..]))
    {
      hide Cipher, IsReversed, LoadBlock;
      CipherReversed(sp, LoadBlock(pt[..]), ek[..], dk[..]);
      Crypt(sp, pt, ct, ek);
      Crypt(sp, ct, back, dk);
    }
  }

  // Three networks in a row
  function Cipher3(sp: Boxes, block: Halves, k0: seq<Word>, k1: seq<Word>, k2: seq<Word>): Halves
    requires |k0| == 32 && |k1| == 32 && |k2| == 32
  {
    Cipher(sp, Cipher(sp, Cipher(sp, block, k0), k1), k2)
  }

  lemma Cipher3Reversed(sp: Boxes, block: Halves, ek0: seq<Word>, ek1: seq<Word>, ek2: seq<Word>,
                        dk0: seq<Word>, dk1: seq<Word>, dk2: seq<Word>)
    requires IsReversed(ek2, dk0) && IsReversed(ek1, dk1) && IsReversed(ek0, dk2)
    ensures Cipher3(sp, Cipher3(sp, block, ek0, ek1, ek2), dk0, dk1, dk2) == block
  {
    hide Cipher;
    var b0 := Cipher(sp, block, ek0);
    var b1 := Cipher(sp, b0, ek1);
    CipherReversed(sp, b1, ek2, dk0);
    CipherReversed(sp, b0, ek1, dk1);
    CipherReversed(sp, block, ek0, dk2);
  }

  // Each block enciphers the one before it.
  ghost predicate InTurn(sp: Boxes, blocks: seq<Halves>, keys: seq<seq<Word>>) {
    |blocks| == |keys| + 1 && forall i :: 0 <= i < |keys| ==> Enciphers(sp, blocks[i], keys[i], blocks[i + 1])
  }

  // One block through three networks
  method Crypt3(sp: Boxes, inp: array<Byte>, out: array<Byte>, k0: array<Word>, k1: array<Word>, k2: array<Word>)
    requires inp.Length >= 8 && out.Length >= 8 && k0.Length == 32 && k1.Length == 32 && k2.Length == 32
    modifies out
    ensures LoadBlock(out[..])
         == Cipher3(sp, old(LoadBlock(inp[..])), old(k0[..]), old(k1[..]), old(k2[..]))
    ensures exists b0, b1 :: InTurn(sp, [old(LoadBlock(inp[..])), b0, b1, LoadBlock(out[..])],
                                    [old(k0[..]), old(k1[..]), old(k2[..])])
    ensures forall j :: 8 <= j < out.Length ==> out[j] == old(out[j])
  {
    hide Cipher, Enciphers;
    var work := new Word[2](_ => Zeros(32));
    work[0], work[1] := LoadWord(inp[..], 0), LoadWord(inp[..], 4);
    Desfunc(sp, work, k0);
    ghost var b0 := Halves(work[0], work[1]);
    Desfunc(sp, work, k1);
    ghost var b1 := Halves(work[0], work[1]);
    Desfunc(sp, work, k2);
    ghost var blocks := [LoadBlock(inp[..]), b0, b1, Halves(work[0], work[1])];
    assert InTurn(sp, blocks, [k0[..], k1[..], k2[..]]);
    StoreBlock(Halves(work[0], work[1]), out);
  }

  class Des3Key {
    const ek0: array<Word>
    const ek1: array<Word>
    const ek2: array<Word>
    const dk0: array<Word>
    const dk1: array<Word>
    const dk2: array<Word>

    ghost predicate Valid() {
      && ek0.Length == 32 && ek1.Length == 32 && ek2.Length == 32
      && dk0.Length == 32 && dk1.Length == 32 && dk2.Length == 32
      && ek0 !in {ek1, ek2, dk0, dk1, dk2} && ek1 !in {ek2, dk0, dk1, dk2}
      && ek2 !in {dk0, dk1, dk2} && dk0 !in {dk1, dk2} && dk1 != dk2
    }

    // The decryption schedules reverse those of encryption in the opposite order.
    ghost predicate Undoes()
      requires Valid()
      reads ek0, ek1, ek2, dk0, dk1, dk2
    {
      IsReversed(ek2[..], dk0[..]) && IsReversed(ek1[..], dk1[..]) && IsReversed(ek0[..], dk2[..])
    }

    // Encrypt, decrypt, encrypt, each with its own eight bytes of the key
    method Setup(key: seq<Byte>, numRounds: int) returns (res: Status)
      requires Valid()
      modifies ek0, ek1, ek2, dk0, dk1, dk2
      ensures res == if numRounds != 0 && numRounds != 16 then CryptInvalidRounds
                     else if |key| != 24 then CryptInvalidKeysize else CryptOk
      ensures res != CryptOk ==> unchanged(ek0, ek1, ek2, dk0, dk1, dk2)
      ensures res == CryptOk ==> Undoes()
      ensures res == CryptOk ==> && IsSchedule(key[..8], EN0, ek0[..])
                                 && IsSchedule(key[8..16], DE1, ek1[..])
                                 && IsSchedule(key[16..], EN0, ek2[..])
    {
      hide IsSchedule, IsReversed;
      if numRounds != 0 && numRounds != 16 {
        return CryptInvalidRounds;
      }
      if |key| != 24 {
        return CryptInvalidKeysize;
      }
      Deskey(key[..8], EN0, ek0);
      Deskey(key[8..16], DE1, ek1);
      Deskey(key[16..], EN0, ek2);
      Deskey(key[..8], DE1, dk2);
      Deskey(key[8..16], EN0, dk1);
      Deskey(key[16..], DE1, dk0);
      SchedulesReversed(key[..8], ek0[..], dk2[..]);
      SchedulesReversed(key[8..16], dk1[..], ek1[..]);
      ReversedBack(dk1[..], ek1[..]);
      SchedulesReversed(key[16..], ek2[..], dk0[..]);
      return CryptOk;
    }

    method EncryptThenDecrypt(sp: Boxes, pt: array<Byte>, ct: array<Byte>, back: array<Byte>)
      requires Valid() && Undoes()
      requires pt.Length >= 8 && ct.Length >= 8 && back.Length >= 8
      modifies ct, back
      ensures LoadBlock(back[..]) == old(LoadBlock(pt[..]))
    {
      hide Cipher3, IsReversed, LoadBlock;
      Cipher3Reversed(sp, LoadBlock(pt[..]), ek0[..], ek1[..], ek2[..], dk0[..], dk1[..], dk2[..]);
      Crypt3(sp, pt, ct, ek0, ek1, ek2);
      Crypt3(sp, ct, back, dk0, dk1, dk2);
    }
  }
}
