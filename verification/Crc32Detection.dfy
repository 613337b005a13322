/** What the CRC of Crc32.dfy is good for: it can be computed in pieces, and it notices every
    corruption confined to 32 consecutive bits. */
module Crc32Detection {
  import opened Crc32

  // ----- Piecewise computation

  lemma {:induction false} RegisterAppend(c: bv32, a: seq<bv8>, b: seq<bv8>)
    ensures Register(c, a + b) == Register(Register(c, a), b)
    decreases |a|
  {
    hide Shift8, Xor;
    if a == [] {
      assert a + b == b;
    } else {
      assert (a + b)[0] == a[0] && (a + b)[1..] == a[1..] + b;
      RegisterAppend(Shift8(Xor(c, a[0] as bv32)), a[1..], b);
    }
  }

  /** The documented use of `previous`: the CRC of a message is the CRC of its second part,
      continued from the CRC of its first part, wherever the cut falls. */
  lemma CrcInPieces(a: seq<bv8>, b: seq<bv8>, previous: bv32)
    ensures Crc(a + b, previous) == Crc(b, Crc(a, previous))
  {
    hide Register, Not;
    RegisterAppend(Not(previous), a, b);
    NotNot(Register(Not(previous), a));
  }

  // ----- Messages as bits, in the order the register takes them

  function Bit(b: bool): bv32 { if b then 1 else 0 }

  /** The low `n` bits of `w`, lowest first. */
  function LowBits(w: bv32, n: nat): (bits: seq<bool>)
    ensures |bits| == n
    decreases n
  {
    if n == 0 then [] else [Odd(w)] + LowBits(Half(w), n - 1)
  }

  function Bits(data: seq<bv8>): (bits: seq<bool>)
    ensures |bits| == 8 * |data|
  {
    if data == [] then [] else LowBits(data[0] as bv32, 8) + Bits(data[1..])
  }

  function Absorb(c: bv32, bits: seq<bool>): bv32
    decreases |bits|
  {
    if bits == [] then c else Absorb(Shift(Xor(c, Bit(bits[0]))), bits[1..])
  }

  function Halves(w: bv32, n: nat): bv32
    decreases n
  {
    if n == 0 then w else Halves(Half(w), n - 1)
  }

  lemma ByteIsShort(b: bv8)
    ensures Halves(b as bv32, 8) == 0
  {
    assert Halves(b as bv32, 8) == Half(Half(Half(Half(Half(Half(Half(Half(b as bv32)))))))) by {
      hide Half;
      assert Halves(b as bv32, 8) == Halves(Half(Half(Half(b as bv32))), 5);
    }
  }

  lemma SplitOffBit(w: bv32)
    ensures w == Xor(Bit(Odd(w)), w & 0xFFFFFFFE)
    ensures Shift(w & 0xFFFFFFFE) == Half(w)
  {
  }

  /** Absorbing the bits of `w` one by one is folding all of `w` in at once. */
  lemma {:induction false} AbsorbBits(c: bv32, w: bv32, n: nat)
    requires Halves(w, n) == 0
    ensures Absorb(c, LowBits(w, n)) == Shifts(Xor(c, w), n)
    decreases n
  {
    hide Shift, Xor, Half, Odd, Bit;
    if n == 0 {
      XorZero(c);
    } else {
      SplitOffBit(w);
      var low, rest := Bit(Odd(w)), Xor(w, Bit(Odd(w)));
      AbsorbBits(Shift(Xor(c, low)), Half(w), n - 1);
      assert LowBits(w, n)[1..] == LowBits(Half(w), n - 1);
      ShiftPastBit(c, w);
    }
  }

  lemma ShiftPastBit(c: bv32, w: bv32)
    ensures Xor(Shift(Xor(c, Bit(Odd(w)))), Half(w)) == Shift(Xor(c, w))
  {
    SplitOffBit(w);
    ShiftPast(c, Bit(Odd(w)), w & 0xFFFFFFFE, w);
  }

  lemma ShiftPast(c: bv32, low: bv32, high: bv32, w: bv32)
    requires w == Xor(low, high) && Shift(high) == Half(w)
    ensures Xor(Shift(Xor(c, low)), Half(w)) == Shift(Xor(c, w))
  {
    hide Shift, Xor, Half;
    XorAssoc(c, low, high);
    ShiftXor(Xor(c, low), high);
  }

  lemma {:induction false} AbsorbAppend(c: bv32, a: seq<bool>, b: seq<bool>)
    ensures Absorb(c, a + b) == Absorb(Absorb(c, a), b)
    decreases |a|
  {
    hide Shift, Xor, Bit;
    if a == [] {
      assert a + b == b;
    } else {
      assert (a + b)[0] == a[0] && (a + b)[1..] == a[1..] + b;
      AbsorbAppend(Shift(Xor(c, Bit(a[0]))), a[1..], b);
    }
  }

  lemma {:induction false} RegisterIsAbsorb(c: bv32, data: seq<bv8>)
    ensures Register(c, data) == Absorb(c, Bits(data))
    decreases |data|
  {
    hide Shift, Xor, Shift8, Bit, Halves, LowBits;
    if data != [] {
      var b := data[0] as bv32;
      ByteIsShort(data[0]);
      AbsorbBits(c, b, 8);
      Shift8Is(Xor(c, b));
      AbsorbAppend(c, LowBits(b, 8), Bits(data[1..]));
      RegisterIsAbsorb(Shift8(Xor(c, b)), data[1..]);
    }
  }

  // ----- Bursts

  /** Where two bit strings of the same length differ. */
  function Difference(u: seq<bool>, v: seq<bool>): (d: seq<bool>)
    requires |u| == |v|
    ensures |d| == |u| && forall k :: 0 <= k < |d| ==> (d[k] <==> u[k] != v[k])
  {
    if u == [] then [] else [u[0] != v[0]] + Difference(u[1..], v[1..])
  }

  lemma BitXor(a: bool, b: bool)
    ensures Xor(Bit(a), Bit(b)) == Bit(a != b)
  {
  }

  /** The registers of two runs differ exactly by the register of the difference. */
  lemma {:induction false} AbsorbDifference(c: bv32, d: bv32, u: seq<bool>, v: seq<bool>)
    requires |u| == |v|
    ensures Xor(Absorb(c, u), Absorb(d, v)) == Absorb(Xor(c, d), Difference(u, v))
    decreases |u|
  {
    hide Shift, Xor, Bit;
    if u != [] {
      var a, b := Bit(u[0]), Bit(v[0]);
      BitXor(u[0], v[0]);
      AbsorbDifference(Shift(Xor(c, a)), Shift(Xor(d, b)), u[1..], v[1..]);
      ShiftXor(Xor(c, a), Xor(d, b));
      XorGroup(c, a, d, b);
      assert Difference(u, v)[1..] == Difference(u[1..], v[1..]);
    }
  }

  /** All bits but the lowest `n`. */
  function Above(n: nat): bv32 {
    if n == 0 then 0xFFFFFFFF else Above(n - 1) << 1
  }

  predicate Within(w: bv32, mask: bv32) { w & mask == 0 }

  function Double(mask: bv32): bv32 { mask << 1 }

  /** Taking a bit in and shifting to a register whose top bit is clear: the polynomial cannot
      have been used, since its top bit is set, so the step was a plain halving. */
  lemma PlainHalving(e: bv32, b: bool, mask: bv32)
    requires mask & 0x80000000 != 0
    requires Within(Shift(Xor(e, Bit(b))), mask)
    ensures !Odd(Xor(e, Bit(b)))
    ensures Within(e, Double(mask))
  {
  }

  lemma {:induction false} AboveShrinks(n: nat)
    ensures Above(n + 1) == Double(Above(n)) && Within(Above(n + 1), !Above(n))
  {
    if n > 0 {
      AboveShrinks(n - 1);
      ShrinksAgain(Above(n - 1), Above(n));
    }
  }

  lemma ShrinksAgain(x: bv32, y: bv32)
    requires y == Double(x) && Within(y, !x)
    ensures Within(Double(y), !y)
  {
  }

  lemma Above31()
    ensures Above(31) == 0x80000000
  {
    assert Above(6) == 0xFFFFFFC0;
    assert Above(12) == 0xFFFFF000;
    assert Above(18) == 0xFFFC0000;
    assert Above(24) == 0xFF000000;
    assert Above(30) == 0xC0000000;
  }

  lemma {:induction false} AboveKeepsTopBit(n: nat)
    requires n <= 31
    ensures Above(n) & 0x80000000 != 0
    decreases 31 - n
  {
    if n == 31 {
      Above31();
    } else {
      AboveKeepsTopBit(n + 1);
      AboveShrinks(n);
      TopBitKept(Above(n + 1), Above(n));
    }
  }

  lemma TopBitKept(x: bv32, y: bv32)
    requires Within(x, !y) && x & 0x80000000 != 0
    ensures y & 0x80000000 != 0
  {
  }

  /** A register that at most 32 bits bring to zero fits below them. */
  lemma {:induction false} ZeroedFits(e: bv32, bits: seq<bool>)
    requires |bits| <= 32 && Absorb(e, bits) == 0
    ensures Within(e, Above(|bits|))
    decreases |bits|
  {
    hide Shift, Xor, Odd, Bit, Double;
    if bits == [] {
      ZeroFits(e);
    } else {
      var n := |bits| - 1;
      ZeroedFits(Shift(Xor(e, Bit(bits[0]))), bits[1..]);
      AboveKeepsTopBit(n);
      PlainHalving(e, bits[0], Above(n));
      AboveShrinks(n);
    }
  }

  lemma ZeroFits(e: bv32)
    requires e == 0
    ensures Within(e, Above(0))
  {
  }

  /** At most 32 bits, not all zero, never bring a zero register back to zero. */
  lemma {:induction false} ShortRunsAreSeen(bits: seq<bool>)
    requires |bits| <= 32 && Absorb(0, bits) == 0
    ensures forall k :: 0 <= k < |bits| ==> !bits[k]
  {
    hide Shift, Xor, Odd, Bit, Double, Above, Within;
    if bits != [] {
      var e := Shift(Xor(0, Bit(bits[0])));
      ZeroedFits(e, bits[1..]);
      AboveKeepsTopBit(|bits| - 1);
      PlainHalving(0, bits[0], Above(|bits| - 1));
      ZeroOdd(bits[0]);
      ShortRunsAreSeen(bits[1..]);
    }
  }

  lemma ZeroOdd(b: bool)
    requires !Odd(Xor(0, Bit(b)))
    ensures !b && Shift(Xor(0, Bit(b))) == 0
  {
  }

  /** Equal bits keep different registers different, however many follow. */
  lemma {:induction false} DifferenceSurvives(c: bv32, d: bv32, bits: seq<bool>)
    requires c != d
    ensures Absorb(c, bits) != Absorb(d, bits)
    decreases |bits|
  {
    hide Shift, Xor, Bit;
    if bits != [] {
      var b := Bit(bits[0]);
      XorGroup(c, b, d, b);
      XorZero(b);
      XorZero(Xor(c, d));
      XorApart(c, d);
      ShiftXor(Xor(c, b), Xor(d, b));
      ShiftLosesNothing(Xor(c, d));
      XorZero(Shift(Xor(c, b)));
      DifferenceSurvives(Shift(Xor(c, b)), Shift(Xor(d, b)), bits[1..]);
    }
  }

  /** Runs of at most 32 bits that take one register to the same place are the same. */
  lemma ShortRunsTell(c: bv32, u: seq<bool>, v: seq<bool>)
    requires |u| == |v| <= 32 && Absorb(c, u) == Absorb(c, v)
    ensures u == v
  {
    hide Shift, Xor, Bit;
    AbsorbDifference(c, c, u, v);
    XorZero(c);
    XorZero(Absorb(c, u));
    ShortRunsAreSeen(Difference(u, v));
    forall k | 0 <= k < |u| ensures u[k] == v[k] {
      assert !Difference(u, v)[k];
    }
  }

  lemma {:induction false} LowBitsTell(a: bv32, b: bv32, n: nat)
    requires Halves(a, n) == Halves(b, n) == 0 && LowBits(a, n) == LowBits(b, n)
    ensures a == b
    decreases n
  {
    hide Half, Odd;
    if n > 0 {
      assert LowBits(a, n)[0] == LowBits(b, n)[0];
      assert LowBits(a, n)[1..] == LowBits(b, n)[1..];
      LowBitsTell(Half(a), Half(b), n - 1);
      HalfAndOdd(a, b);
    }
  }

  lemma HalfAndOdd(a: bv32, b: bv32)
    requires Half(a) == Half(b) && Odd(a) == Odd(b)
    ensures a == b
  {
  }

  lemma WideBytes(a: bv8, b: bv8)
    requires a as bv32 == b as bv32
    ensures a == b
  {
  }

  lemma {:induction false} BitsTell(x: seq<bv8>, y: seq<bv8>)
    requires |x| == |y| && Bits(x) == Bits(y)
    ensures x == y
  {
    hide LowBits, Halves;
    if x != [] {
      var a, b := x[0] as bv32, y[0] as bv32;
      assert LowBits(a, 8) == Bits(x)[..8] == LowBits(b, 8);
      assert Bits(x[1..]) == Bits(x)[8..] == Bits(y[1..]);
      BitsTell(x[1..], y[1..]);
      ByteIsShort(x[0]);
      ByteIsShort(y[0]);
      LowBitsTell(a, b, 8);
      WideBytes(x[0], y[0]);
    }
  }

  /** Burst detection: two different messages of one length that agree outside some 32
      consecutive bits never have the same CRC. */
  lemma BurstsAreDetected(x: seq<bv8>, y: seq<bv8>, start: nat, previous: bv32)
    requires |x| == |y| && x != y
    requires forall k :: 0 <= k < |Bits(x)| && !(start <= k < start + 32) ==> Bits(x)[k] == Bits(y)[k]
    ensures Crc(x, previous) != Crc(y, previous)
  {
    hide Register, Not, Absorb, Bits;
    var u, v := Bits(x), Bits(y);
    var from := if start < |u| then start else |u|;
    var to := if start + 32 < |u| then start + 32 else |u|;
    var c := Absorb(Not(previous), u[..from]);
    assert u[..from] == v[..from];
    assert u[to..] == v[to..];
    assert u == u[..from] + u[from..to] + u[to..];
    assert v == v[..from] + v[from..to] + v[to..];
    if u == v {
      BitsTell(x, y);
    }
    if Absorb(c, u[from..to]) == Absorb(c, v[from..to]) {
      ShortRunsTell(c, u[from..to], v[from..to]);
    }
    DifferenceSurvives(Absorb(c, u[from..to]), Absorb(c, v[from..to]), u[to..]);
    AbsorbThree(Not(previous), u[..from], u[from..to], u[to..]);
    AbsorbThree(Not(previous), v[..from], v[from..to], v[to..]);
    RegisterIsAbsorb(Not(previous), x);
    RegisterIsAbsorb(Not(previous), y);
    NotNot(Register(Not(previous), x));
    NotNot(Register(Not(previous), y));
  }

  lemma AbsorbThree(c: bv32, p: seq<bool>, m: seq<bool>, s: seq<bool>)
    ensures Absorb(c, p + m + s) == Absorb(Absorb(Absorb(c, p), m), s)
  {
    AbsorbAppend(c, p + m, s);
    AbsorbAppend(c, p, m);
  }

  lemma {:induction false} BitsAppend(a: seq<bv8>, b: seq<bv8>)
    ensures Bits(a + b) == Bits(a) + Bits(b)
  {
    hide LowBits;
    if a == [] {
      assert a + b == b;
    } else {
      assert (a + b)[1..] == a[1..] + b;
      BitsAppend(a[1..], b);
    }
  }

  /** In bytes: replacing up to four consecutive bytes by different ones changes the CRC. */
  lemma FourByteBurstsAreDetected(p: seq<bv8>, x: seq<bv8>, y: seq<bv8>, s: seq<bv8>, previous: bv32)
    requires |x| == |y| <= 4 && x != y
    ensures Crc(p + x + s, previous) != Crc(p + y + s, previous)
  {
    hide Crc, Bits;
    BitsAppend(p + x, s);
    BitsAppend(p, x);
    BitsAppend(p + y, s);
    BitsAppend(p, y);
    assert (p + x + s)[|p|..|p| + |x|] == x && (p + y + s)[|p|..|p| + |y|] == y;
    BurstsAreDetected(p + x + s, p + y + s, 8 * |p|, previous);
  }
}
