/** Hashing::Crc32 (Utilities/CRC32.cpp): the slicing-by-8 CRC-32, proved against the
    one-bit-at-a-time definition of section 8 of RFC 1952.

    The algebra is done on `Xor`, `Half`, `Odd` and `Up` with their bodies hidden; only the
    lemmas of the second section look at the bits of a word. */
module Crc32 {

  /** The reflected CRC-32 polynomial. */
  const POLYNOMIAL: bv32 := 0xEDB88320

  /** How the machine lays out the bytes of a 32-bit word. */
  datatype ByteOrder = LittleEndian | BigEndian

  // ----- The definition: one bit at a time

  function Xor(a: bv32, b: bv32): bv32 { a ^ b }

  function Not(a: bv32): bv32 { !a }

  function Half(a: bv32): bv32 { a >> 1 }

  predicate Odd(a: bv32) { a & 1 == 1 }

  /** One shift of the CRC register. */
  function Shift(c: bv32): bv32 {
    if Odd(c) then Xor(Half(c), POLYNOMIAL) else Half(c)
  }

  function Shifts(c: bv32, n: nat): bv32
    decreases n
  {
    if n == 0 then c else Shifts(Shift(c), n - 1)
  }

  /** One byte's worth of shifts. */
  function Shift8(c: bv32): bv32 { Shifts(c, 8) }

  /** The register after absorbing `data`, starting at `c`: each byte is folded into the low
      end of the register and shifted out bit by bit. */
  function Register(c: bv32, data: seq<bv8>): bv32
    decreases |data|
  {
    if data == [] then c else Register(Shift8(Xor(c, data[0] as bv32)), data[1..])
  }

  /** The CRC-32 of `data`, continuing from the CRC `previous` of what came before. */
  function Crc(data: seq<bv8>, previous: bv32): bv32 {
    Not(Register(Not(previous), data))
  }

  // ----- Words in memory, and the lookup tables by their recurrences

  function Byte0(w: bv32): bv8 { (w & 0xFF) as bv8 }
  function Byte1(w: bv32): bv8 { ((w >> 8) & 0xFF) as bv8 }
  function Byte2(w: bv32): bv8 { ((w >> 16) & 0xFF) as bv8 }
  function Byte3(w: bv32): bv8 { ((w >> 24) & 0xFF) as bv8 }

  function Down(w: bv32): bv32 { w >> 8 }

  function Up(w: bv32): bv32 { w << 8 }

  function Swap(x: bv32): bv32 {
    (x >> 24) | ((x >> 8) & 0x0000FF00) | ((x << 8) & 0x00FF0000) | (x << 24)
  }

  /** The word whose bytes, from the low end up, are `b0`, `b1`, `b2`, `b3`. */
  function Word(b0: bv8, b1: bv8, b2: bv8, b3: bv8): bv32 {
    (b0 as bv32) | ((b1 as bv32) << 8) | ((b2 as bv32) << 16) | ((b3 as bv32) << 24)
  }

  /** What a 32-bit read of the four bytes at `i` yields. */
  function Load(order: ByteOrder, data: seq<bv8>, i: nat): bv32
    requires i + 4 <= |data|
  {
    match order
    case LittleEndian => Word(data[i], data[i + 1], data[i + 2], data[i + 3])
    case BigEndian => Word(data[i + 3], data[i + 2], data[i + 1], data[i])
  }

  /** Row `k`, entry `i` of the lookup table: row 0 is eight shifts of the index, each later
      row pushes the entry above it through one more zero byte. */
  function Lookup(k: nat, i: bv8): bv32 {
    if k == 0 then Shift8(i as bv32)
    else Xor(Down(Lookup(k - 1, i)), Lookup(0, Byte0(Lookup(k - 1, i))))
  }

  // ----- Facts about the bits of single words

  lemma XorComm(x: bv32, y: bv32)
    ensures Xor(x, y) == Xor(y, x)
  {
  }

  lemma XorAssoc(x: bv32, y: bv32, u: bv32)
    ensures Xor(Xor(x, y), u) == Xor(x, Xor(y, u))
  {
  }

  lemma XorZero(x: bv32)
    ensures Xor(x, x) == 0 && Xor(x, 0) == x && Xor(0, x) == x
  {
  }

  lemma XorApart(x: bv32, y: bv32)
    ensures Xor(x, y) == 0 ==> x == y
  {
  }

  lemma XorHalf(a: bv32, b: bv32)
    ensures Half(Xor(a, b)) == Xor(Half(a), Half(b))
  {
  }

  lemma XorOdd(a: bv32, b: bv32)
    ensures Odd(Xor(a, b)) <==> Odd(a) != Odd(b)
  {
  }

  /** Nothing but zero shifts to zero, because the polynomial has its top bit set. */
  lemma ShiftLosesNothing(c: bv32)
    ensures Shift(c) == 0 ==> c == 0
    ensures Shift(0) == 0
  {
  }

  lemma ShiftsClearByte(c: bv32)
    requires c & 0xFF == 0
    ensures Shift(Shift(Shift(Shift(Shift(Shift(Shift(Shift(c)))))))) == Down(c)
  {
  }

  lemma EightShifts(c: bv32)
    ensures Shift8(c) == Shift(Shift(Shift(Shift(Shift(Shift(Shift(Shift(c))))))))
  {
    hide Shift;
    assert Shifts(c, 8) == Shifts(Shift(Shift(Shift(c))), 5);
    assert Shifts(c, 8) == Shifts(Shift(Shift(Shift(Shift(Shift(Shift(c)))))), 2);
  }

  lemma LowByte(w: bv32)
    ensures w == Xor(w & 0xFFFFFF00, Byte0(w) as bv32)
    ensures Down(w & 0xFFFFFF00) == Down(w) && (w & 0xFFFFFF00) & 0xFF == 0
  {
  }

  lemma HighBytes(w: bv32)
    ensures Byte0(Down(w)) == Byte1(w)
    ensures Byte0(Down(Down(w))) == Byte2(w)
    ensures Byte0(Down(Down(Down(w)))) == Byte3(w)
    ensures Down(Down(Down(Down(w)))) == 0
  {
  }

  lemma UpDown(w: bv32)
    requires w & 0xFF000000 == 0
    ensures Down(Up(w)) == w && Up(w) & 0xFF == 0
  {
  }

  lemma WordIsNested(b0: bv8, b1: bv8, b2: bv8, b3: bv8)
    ensures Word(b0, b1, b2, b3) == Xor(b0 as bv32, Up(Word(b1, b2, b3, 0)))
  {
  }

  lemma WordOfThree(b0: bv8, b1: bv8, b2: bv8)
    ensures Word(b0, b1, b2, 0) & 0xFF000000 == 0
  {
  }

  lemma WordOfOne(b: bv8)
    ensures Word(b, 0, 0, 0) == b as bv32
  {
  }

  lemma SwapXor(w: bv32, c: bv32)
    ensures Swap(Xor(w, c)) == Xor(Swap(w), Swap(c))
  {
  }

  lemma SwapBytes(w: bv32)
    ensures Byte0(Swap(w)) == Byte3(w) && Byte1(Swap(w)) == Byte2(w)
    ensures Byte2(Swap(w)) == Byte1(w) && Byte3(Swap(w)) == Byte0(w)
  {
  }

  lemma SwapWord(b0: bv8, b1: bv8, b2: bv8, b3: bv8)
    ensures Word(b3, b2, b1, b0) == Swap(Word(b0, b1, b2, b3))
  {
  }

  /** The index and the remainder of the bytewise step. */
  lemma ByteIndex(c: bv32, b: bv8)
    ensures Byte0(Xor(c, b as bv32)) == ((c & 0xFF) as bv8) ^ b
    ensures Down(Xor(c, b as bv32)) == c >> 8
  {
  }

  lemma NotNot(c: bv32)
    ensures Not(Not(c)) == c
  {
  }

  // ----- Shifting is linear over Xor

  lemma XorGroup(x: bv32, y: bv32, u: bv32, v: bv32)
    ensures Xor(Xor(x, y), Xor(u, v)) == Xor(Xor(x, u), Xor(y, v))
  {
    hide Xor;
    XorAssoc(x, y, Xor(u, v));
    XorAssoc(y, u, v);
    XorComm(y, u);
    XorAssoc(u, y, v);
    XorAssoc(x, u, Xor(y, v));
  }

  lemma ShiftXor(a: bv32, b: bv32)
    ensures Shift(Xor(a, b)) == Xor(Shift(a), Shift(b))
  {
    hide Xor, Half, Odd;
    XorHalf(a, b);
    XorOdd(a, b);
    var x, y := Half(a), Half(b);
    XorGroup(x, POLYNOMIAL, y, POLYNOMIAL);
    XorZero(POLYNOMIAL);
    XorZero(Xor(x, y));
    XorAssoc(x, y, POLYNOMIAL);
    XorAssoc(x, POLYNOMIAL, y);
    XorComm(POLYNOMIAL, y);
  }

  lemma {:induction false} ShiftsXor(a: bv32, b: bv32, n: nat)
    ensures Shifts(Xor(a, b), n) == Xor(Shifts(a, n), Shifts(b, n))
    decreases n
  {
    hide Shift, Xor;
    if n > 0 {
      ShiftXor(a, b);
      ShiftsXor(Shift(a), Shift(b), n - 1);
    }
  }

  lemma {:induction false} ShiftsAdd(c: bv32, m: nat, n: nat)
    ensures Shifts(Shifts(c, m), n) == Shifts(c, m + n)
    decreases m
  {
    hide Shift;
    if m > 0 {
      ShiftsAdd(Shift(c), m - 1, n);
    }
  }

  lemma {:induction false} ShiftsOfZero(n: nat)
    ensures Shifts(0, n) == 0
  {
    hide Shift;
    ShiftLosesNothing(0);
    if n > 0 {
      ShiftsOfZero(n - 1);
    }
  }

  // ----- The tables

  /** The table step: the low byte is looked up, the rest moves down. */
  lemma ShiftsByte(w: bv32)
    ensures Shift8(w) == Xor(Down(w), Lookup(0, Byte0(w)))
  {
    LowByte(w);
    EightShifts(w & 0xFFFFFF00);
    ShiftsClearByte(w & 0xFFFFFF00);
    SplitByte(w, w & 0xFFFFFF00);
  }

  lemma SplitByte(w: bv32, high: bv32)
    requires w == Xor(high, Byte0(w) as bv32)
    ensures Shift8(w) == Xor(Shift8(high), Lookup(0, Byte0(w)))
  {
    hide Shift, Xor, Byte0;
    ShiftsXor(high, Byte0(w) as bv32, 8);
  }

  lemma Shift8Is(c: bv32)
    ensures Shift8(c) == Shifts(c, 8)
  {
  }

  /** Row `k` of the table holds what an index byte becomes after `k + 1` bytes. */
  lemma {:induction false} LookupMeaning(k: nat, i: bv8)
    ensures Lookup(k, i) == Shifts(i as bv32, 8 * (k + 1))
  {
    hide Shift, Xor, Byte0, Down, Shift8;
    Shift8Is(i as bv32);
    if k > 0 {
      LookupMeaning(k - 1, i);
      Shift8Is(Lookup(k - 1, i));
      ShiftsByte(Lookup(k - 1, i));
      ShiftsAdd(i as bv32, 8 * k, 8);
    }
  }

  /** Pushing a word through `k + 1` bytes looks its low byte up in row `k` and leaves the
      other bytes to the rows below. */
  lemma SliceOff(w: bv32, k: nat)
    ensures Shifts(w, 8 * (k + 1)) == Xor(Lookup(k, Byte0(w)), Shifts(Down(w), 8 * k))
  {
    hide Shift, Xor, Byte0, Down, Shift8, Shifts, Lookup;
    ShiftsByte(w);
    Shift8Is(w);
    ShiftsAdd(w, 8, 8 * k);
    ShiftsXor(Down(w), Lookup(0, Byte0(w)), 8 * k);
    LookupMeaning(0, Byte0(w));
    ShiftsAdd(Byte0(w) as bv32, 8, 8 * k);
    LookupMeaning(k, Byte0(w));
    XorComm(Shifts(Down(w), 8 * k), Lookup(k, Byte0(w)));
  }

  /** The four lookups that rows `k` down to `k - 3` make for one word. */
  function Slice(w: bv32, k: nat): bv32
    requires k >= 3
  {
    Xor(Lookup(k, Byte0(w)), Xor(Lookup(k - 1, Byte1(w)),
        Xor(Lookup(k - 2, Byte2(w)), Lookup(k - 3, Byte3(w)))))
  }

  lemma SliceMeaning(w: bv32, k: nat)
    requires k >= 3
    ensures Slice(w, k) == Shifts(w, 8 * (k + 1))
  {
    hide Shift, Xor, Byte0, Byte1, Byte2, Byte3, Down, Shift8, Shifts, Lookup;
    HighBytes(w);
    SliceOff(w, k);
    SliceOff(Down(w), k - 1);
    SliceOff(Down(Down(w)), k - 2);
    SliceOff(Down(Down(Down(w))), k - 3);
    ShiftsOfZero(8 * (k - 3));
    XorZero(Lookup(k - 3, Byte3(w)));
  }

  // ----- Four bytes at a time

  /** Folding `w` in after a byte is folding it in before that byte, one byte higher. */
  lemma FoldEarlier(x: bv32, w: bv32, n: nat)
    requires w & 0xFF000000 == 0
    ensures Shifts(Xor(Shift8(x), w), n) == Shifts(Xor(x, Up(w)), n + 8)
  {
    UpDown(w);
    EightShifts(Up(w));
    ShiftsClearByte(Up(w));
    FoldUp(x, w, n);
  }

  lemma FoldUp(x: bv32, w: bv32, n: nat)
    requires Shift8(Up(w)) == w
    ensures Shifts(Xor(Shift8(x), w), n) == Shifts(Xor(x, Up(w)), n + 8)
  {
    hide Shift, Xor, Up, Shift8, Shifts;
    Shift8Is(x);
    Shift8Is(Up(w));
    ShiftsXor(x, Up(w), 8);
    ShiftsAdd(Xor(x, Up(w)), 8, n);
  }

  lemma RegisterStep(c: bv32, data: seq<bv8>)
    requires data != []
    ensures Register(c, data) == Register(Shift8(Xor(c, data[0] as bv32)), data[1..])
  {
    hide Shift8, Xor;
  }

  /** Absorbing four bytes is folding in their word and shifting 32 times. */
  lemma RegisterWord(c: bv32, data: seq<bv8>)
    requires |data| >= 4
    ensures Register(c, data) ==
            Register(Shifts(Xor(c, Word(data[0], data[1], data[2], data[3])), 32), data[4..])
  {
    hide Shift, Xor, Up, Shift8, Shifts, Word, Register;
    var b0, b1, b2, b3 := data[0], data[1], data[2], data[3];
    var c1 := Shift8(Xor(c, b0 as bv32));
    var c2 := Shift8(Xor(c1, b1 as bv32));
    var c3 := Shift8(Xor(c2, b2 as bv32));
    var c4 := Shift8(Xor(c3, b3 as bv32));
    assert data[3..][1..] == data[4..];
    assert data[2..][1..] == data[3..];
    assert data[1..][1..] == data[2..];
    RegisterStep(c, data);
    RegisterStep(c1, data[1..]);
    RegisterStep(c2, data[2..]);
    RegisterStep(c3, data[3..]);
    WordShifts(c, b0, b1, b2, b3);
  }

  lemma WordShifts(c: bv32, b0: bv8, b1: bv8, b2: bv8, b3: bv8)
    ensures Shift8(Xor(Shift8(Xor(Shift8(Xor(Shift8(Xor(c, b0 as bv32)), b1 as bv32)), b2 as bv32)), b3 as bv32))
         == Shifts(Xor(c, Word(b0, b1, b2, b3)), 32)
  {
    hide Shift, Xor, Up, Shift8, Shifts, Word;
    var c1 := Shift8(Xor(c, b0 as bv32));
    var c2 := Shift8(Xor(c1, b1 as bv32));
    var c3 := Shift8(Xor(c2, b2 as bv32));
    Shift8Is(Xor(c3, b3 as bv32));
    WordOfOne(b3);
    Nest(c2, b2, b3, 0, 0, 8);
    Nest(c1, b1, b2, b3, 0, 16);
    Nest(c, b0, b1, b2, b3, 24);
  }

  lemma Nest(c: bv32, b0: bv8, b1: bv8, b2: bv8, b3: bv8, n: nat)
    ensures Shifts(Xor(Shift8(Xor(c, b0 as bv32)), Word(b1, b2, b3, 0)), n) ==
            Shifts(Xor(c, Word(b0, b1, b2, b3)), n + 8)
  {
    hide Shift, Xor, Up, Shift8, Shifts, Word;
    var rest := Word(b1, b2, b3, 0);
    WordOfThree(b1, b2, b3);
    FoldEarlier(Xor(c, b0 as bv32), rest, n);
    WordIsNested(b0, b1, b2, b3);
    XorAssoc(c, b0 as bv32, Up(rest));
  }

  // ----- The loops

  /** The eight lookups of one round of the sliced loop, exactly as either byte order makes them. */
  function Round(order: ByteOrder, crc: bv32, data: seq<bv8>, i: nat): bv32
    requires i + 8 <= |data|
  {
    match order
    case BigEndian =>
      var one := Xor(Load(order, data, i), Swap(crc));
      var two := Load(order, data, i + 4);
      Xor(Xor(Xor(Xor(Xor(Xor(Xor(Lookup(0, Byte0(two)), Lookup(1, Byte1(two))),
          Lookup(2, Byte2(two))), Lookup(3, Byte3(two))), Lookup(4, Byte0(one))),
          Lookup(5, Byte1(one))), Lookup(6, Byte2(one))), Lookup(7, Byte3(one)))
    case LittleEndian =>
      var one := Xor(Load(order, data, i), crc);
      var two := Load(order, data, i + 4);
      Xor(Xor(Xor(Xor(Xor(Xor(Xor(Lookup(0, Byte3(two)), Lookup(1, Byte2(two))),
          Lookup(2, Byte1(two))), Lookup(3, Byte0(two))), Lookup(4, Byte3(one))),
          Lookup(5, Byte2(one))), Lookup(6, Byte1(one))), Lookup(7, Byte0(one)))
  }

  lemma RoundOrder(a: bv32, b: bv32, c: bv32, d: bv32, e: bv32, f: bv32, g: bv32, h: bv32)
    ensures Xor(Xor(Xor(Xor(Xor(Xor(Xor(a, b), c), d), e), f), g), h) ==
            Xor(Xor(h, Xor(g, Xor(f, e))), Xor(d, Xor(c, Xor(b, a))))
  {
    hide Xor;
    var abcd := Xor(d, Xor(c, Xor(b, a)));
    XorComm(a, b);
    XorComm(Xor(b, a), c);
    XorComm(Xor(c, Xor(b, a)), d);
    XorComm(abcd, e);
    XorAssoc(e, abcd, f);
    XorComm(abcd, f);
    XorAssoc(e, f, abcd);
    XorComm(e, f);
    XorAssoc(Xor(f, e), abcd, g);
    XorComm(abcd, g);
    XorAssoc(Xor(f, e), g, abcd);
    XorComm(Xor(f, e), g);
    XorAssoc(Xor(g, Xor(f, e)), abcd, h);
    XorComm(abcd, h);
    XorAssoc(Xor(g, Xor(f, e)), h, abcd);
    XorComm(Xor(g, Xor(f, e)), h);
  }

  /** One round absorbs eight bytes, whatever the byte order of the machine. */
  lemma RoundMeaning(order: ByteOrder, crc: bv32, data: seq<bv8>, i: nat)
    requires i + 8 <= |data|
    ensures Register(Round(order, crc, data, i), data[i + 8..]) == Register(crc, data[i..])
  {
    hide Shift, Xor, Byte0, Byte1, Byte2, Byte3, Shift8, Shifts, Word, Swap, Lookup, Register;
    var w1 := Word(data[i], data[i + 1], data[i + 2], data[i + 3]);
    var w2 := Word(data[i + 4], data[i + 5], data[i + 6], data[i + 7]);
    var one := Xor(w1, crc);
    RoundIsSlices(order, crc, data, i);
    SliceMeaning(one, 7);
    SliceMeaning(w2, 3);
    XorComm(w1, crc);
    var mid := Shifts(one, 32);
    RegisterWord(crc, data[i..]);
    assert data[i..][4..] == data[i + 4..];
    RegisterWord(mid, data[i + 4..]);
    assert data[i + 4..][4..] == data[i + 8..];
    ShiftsXor(mid, w2, 32);
    ShiftsAdd(one, 32, 32);
  }

  lemma RoundIsSlices(order: ByteOrder, crc: bv32, data: seq<bv8>, i: nat)
    requires i + 8 <= |data|
    ensures var w1 := Word(data[i], data[i + 1], data[i + 2], data[i + 3]);
            var w2 := Word(data[i + 4], data[i + 5], data[i + 6], data[i + 7]);
            Round(order, crc, data, i) == Xor(Slice(Xor(w1, crc), 7), Slice(w2, 3))
  {
    hide Shift, Xor, Byte0, Byte1, Byte2, Byte3, Shift8, Shifts, Word, Swap, Lookup, Register;
    var w1 := Word(data[i], data[i + 1], data[i + 2], data[i + 3]);
    var w2 := Word(data[i + 4], data[i + 5], data[i + 6], data[i + 7]);
    var one := Xor(w1, crc);
    RoundOrder(Lookup(0, Byte3(w2)), Lookup(1, Byte2(w2)), Lookup(2, Byte1(w2)), Lookup(3, Byte0(w2)),
               Lookup(4, Byte3(one)), Lookup(5, Byte2(one)), Lookup(6, Byte1(one)), Lookup(7, Byte0(one)));
    if order.BigEndian? {
      SwapWord(data[i], data[i + 1], data[i + 2], data[i + 3]);
      SwapWord(data[i + 4], data[i + 5], data[i + 6], data[i + 7]);
      SwapXor(w1, crc);
      SwapBytes(one);
      SwapBytes(w2);
    }
  }

  /** One round of the bytewise tail. */
  function TailRound(crc: bv32, b: bv8): bv32 {
    Xor(crc >> 8, Lookup(0, ((crc & 0xFF) as bv8) ^ b))
  }

  lemma TailMeaning(crc: bv32, data: seq<bv8>, i: nat)
    requires i < |data|
    ensures Register(TailRound(crc, data[i]), data[i + 1..]) == Register(crc, data[i..])
  {
    hide Shift, Xor, Byte0, Down, Shift8, Shifts, Lookup, Register, TailRound;
    TailIsByteStep(crc, data[i]);
    RegisterStep(crc, data[i..]);
    assert data[i..][1..] == data[i + 1..];
  }

  lemma TailIsByteStep(crc: bv32, b: bv8)
    ensures TailRound(crc, b) == Shift8(Xor(crc, b as bv32))
  {
    hide Shift, Xor, Byte0, Down, Shift8, Shifts, Lookup;
    ByteIndex(crc, b);
    ShiftsByte(Xor(crc, b as bv32));
  }

  /** The whole function: eight bytes a round, then the last few one at a time. */
  method Crc32(order: ByteOrder, data: seq<bv8>, previous: bv32) returns (r: bv32)
    ensures r == Crc(data, previous)
  {
    hide Shift, Xor, Byte0, Shift8, Shifts, Lookup, Register, Round, TailRound, Not;
    var crc := Not(previous);
    var current := 0;
    var length := |data|;
    assert data[0..] == data;
    while length >= 8
      invariant 0 <= current && 0 <= length && current + length == |data|
      invariant Register(crc, data[current..]) == Register(Not(previous), data)
    {
      RoundMeaning(order, crc, data, current);
      crc := Round(order, crc, data, current);
      current := current + 8;
      length := length - 8;
    }
    while length > 0
      invariant 0 <= current && 0 <= length && current + length == |data|
      invariant Register(crc, data[current..]) == Register(Not(previous), data)
    {
      TailMeaning(crc, data, current);
      crc := TailRound(crc, data[current]);
      current := current + 1;
      length := length - 1;
    }
    assert data[current..] == [];
    RegisterDone(crc);
    return Not(crc);
  }

  lemma RegisterDone(c: bv32)
    ensures Register(c, []) == c
  {
  }
}
