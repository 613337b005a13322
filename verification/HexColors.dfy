/** Colors in hexadecimal notation: #RGB, #ARGB, #RRGGBB and #AARRGGBB
    (nShared/ColorParser.cpp). */
module HexColors {
  import opened Text
  import opened Colors

  function DigitValue(c: char): Option<bv32> {
    if c == '0' then Some(0) else if c == '1' then Some(1) else if c == '2' then Some(2) else if c == '3' then Some(3)
    else if c == '4' then Some(4) else if c == '5' then Some(5) else if c == '6' then Some(6) else if c == '7' then Some(7)
    else if c == '8' then Some(8) else if c == '9' then Some(9)
    else if c == 'a' || c == 'A' then Some(10) else if c == 'b' || c == 'B' then Some(11)
    else if c == 'c' || c == 'C' then Some(12) else if c == 'd' || c == 'D' then Some(13)
    else if c == 'e' || c == 'E' then Some(14) else if c == 'f' || c == 'F' then Some(15)
    else None
  }

  function Digit(n: bv32): char {
    if n == 0 then '0' else if n == 1 then '1' else if n == 2 then '2' else if n == 3 then '3'
    else if n == 4 then '4' else if n == 5 then '5' else if n == 6 then '6' else if n == 7 then '7'
    else if n == 8 then '8' else if n == 9 then '9' else if n == 10 then 'a' else if n == 11 then 'b'
    else if n == 12 then 'c' else if n == 13 then 'd' else if n == 14 then 'e' else 'f'
  }

  predicate IsHex(s: string) {
    forall i :: 0 <= i < |s| ==> DigitValue(s[i]).Some?
  }

  function Shifted(high: bv32, digit: bv32): bv32 { (high << 4) | digit }

  /** The number written by hexadecimal digits, modulo 2^32. */
  function HexValue(s: string): bv32
    requires IsHex(s)
  {
    if s == [] then 0
    else Shifted(HexValue(s[..|s| - 1]), DigitValue(s[|s| - 1]).value)
  }

  function AlphaOf(hexValue: bv32): bv32 { ((0xF000 & hexValue) << 16) | ((0xF000 & hexValue) << 12) }
  function RedOf(hexValue: bv32): bv32 { ((0xF00 & hexValue) << 12) | ((0xF00 & hexValue) << 8) }
  function GreenOf(hexValue: bv32): bv32 { ((0xF0 & hexValue) << 8) | ((0xF0 & hexValue) << 4) }
  function BlueOf(hexValue: bv32): bv32 { ((0xF & hexValue) << 4) | (0xF & hexValue) }

  function Combine(alpha: bv32, red: bv32, green: bv32, blue: bv32): bv32 { alpha | red | green | blue }

  /** The color a parsed number stands for, given the length of the whole string. */
  function Expand(length: nat, hexValue: bv32): Option<Argb> {
    if length == 4 then Some(Combine(0xFF000000, RedOf(hexValue), GreenOf(hexValue), BlueOf(hexValue)))
    else if length == 5 then Some(Combine(AlphaOf(hexValue), RedOf(hexValue), GreenOf(hexValue), BlueOf(hexValue)))
    else if length == 7 then Some(0xFF000000 | hexValue)
    else if length == 9 then Some(hexValue)
    else None
  }

  /** The C library reads more than plain digits (blanks, a sign, 0x); that part is opaque. */
  function HexNumber(lib: Lib, s: string): Option<Argb> {
    if IsHex(s) then Some(HexValue(s)) else lib.oddHex(s)
  }

  function ParseHex(lib: Lib, color: string): Option<Argb>
    requires color != []
  {
    match HexNumber(lib, color[1..])
    case None => None
    case Some(hexValue) => Expand(|color|, hexValue)
  }

  // ----- Printing and reading back

  function Nibble(v: bv32, shift: bv6): bv32
    requires shift <= 28
  {
    (v >> shift) & 0xF
  }

  function PrintHex(v: Argb): (s: string)
    ensures |s| == 9 && s[0] == '#'
  {
    ['#', Digit(Nibble(v, 28)), Digit(Nibble(v, 24)), Digit(Nibble(v, 20)), Digit(Nibble(v, 16)),
     Digit(Nibble(v, 12)), Digit(Nibble(v, 8)), Digit(Nibble(v, 4)), Digit(Nibble(v, 0))]
  }

  lemma DigitReadsBack(v: bv32, shift: bv6)
    requires shift <= 28
    ensures DigitValue(Digit(Nibble(v, shift))) == Some(Nibble(v, shift))
    ensures Digit(Nibble(v, shift)) !in {'(', ')', ',', ' ', '\t'}
  {
  }

  lemma NibblesAddUp(v: bv32)
    ensures Shifted(Shifted(Shifted(Shifted(Shifted(Shifted(Shifted(Shifted(0, Nibble(v, 28)), Nibble(v, 24)), Nibble(v, 20)),
              Nibble(v, 16)), Nibble(v, 12)), Nibble(v, 8)), Nibble(v, 4)), Nibble(v, 0)) == v
  {
  }

  /** One more digit at the end. */
  lemma HexValueStep(s: string, c: char)
    requires IsHex(s) && DigitValue(c).Some?
    ensures IsHex(s + [c]) && HexValue(s + [c]) == Shifted(HexValue(s), DigitValue(c).value)
  {
    assert (s + [c])[..|s|] == s;
  }

  lemma HexValueOfEight(d: string)
    requires |d| == 8 && IsHex(d)
    ensures HexValue(d) ==
      Shifted(Shifted(Shifted(Shifted(Shifted(Shifted(Shifted(Shifted(0, DigitValue(d[0]).value), DigitValue(d[1]).value),
        DigitValue(d[2]).value), DigitValue(d[3]).value), DigitValue(d[4]).value), DigitValue(d[5]).value),
        DigitValue(d[6]).value), DigitValue(d[7]).value)
  {
    hide Shifted, DigitValue, HexValue;
    assert d[..8] == d;
    HexValuePrefix(d, 7);
    HexValuePrefix(d, 6);
    HexValuePrefix(d, 5);
    HexValuePrefix(d, 4);
    HexValuePrefix(d, 3);
    HexValuePrefix(d, 2);
    HexValuePrefix(d, 1);
    HexValuePrefix(d, 0);
  }

  lemma HexValuePrefix(d: string, k: nat)
    requires k < |d| && IsHex(d)
    ensures IsHex(d[..k]) && IsHex(d[..k + 1])
    ensures HexValue(d[..k + 1]) == Shifted(HexValue(d[..k]), DigitValue(d[k]).value)
    ensures HexValue(d[..0]) == 0
  {
    hide Shifted, DigitValue;
    assert d[..0] == [];
    assert d[..k + 1] == d[..k] + [d[k]];
    HexValueStep(d[..k], d[k]);
  }

  /** Every color can be written in hexadecimal and read back. */
  lemma HexRoundTrip(lib: Lib, v: Argb)
    ensures ParseHex(lib, PrintHex(v)) == Some(v)
  {
    hide Shifted, DigitValue, Digit, Nibble, HexValue, Expand;
    var s := PrintHex(v);
    var d := s[1..];
    DigitReadsBack(v, 28); DigitReadsBack(v, 24); DigitReadsBack(v, 20); DigitReadsBack(v, 16);
    DigitReadsBack(v, 12); DigitReadsBack(v, 8); DigitReadsBack(v, 4); DigitReadsBack(v, 0);
    Printed(v, d);
    NineMeansAll(v);
  }

  lemma NineMeansAll(v: bv32)
    ensures Expand(9, v) == Some(v)
  {
  }

  lemma Printed(v: bv32, d: string)
    requires d == PrintHex(v)[1..] && IsHex(d)
    requires DigitValue(d[0]).value == Nibble(v, 28) && DigitValue(d[1]).value == Nibble(v, 24)
    requires DigitValue(d[2]).value == Nibble(v, 20) && DigitValue(d[3]).value == Nibble(v, 16)
    requires DigitValue(d[4]).value == Nibble(v, 12) && DigitValue(d[5]).value == Nibble(v, 8)
    requires DigitValue(d[6]).value == Nibble(v, 4) && DigitValue(d[7]).value == Nibble(v, 0)
    ensures HexValue(d) == v
  {
    hide Shifted, DigitValue, Digit, Nibble, HexValue, PrintHex;
    HexValueOfEight(d);
    NibblesAddUp(v);
  }

  function Twice(d: bv32): bv32 { (d << 4) | d }

  function Or(x: bv32, y: bv32): bv32 { x | y }

  function Up(x: bv32): bv32 { x << 8 }

  lemma UpOr(x: bv32, y: bv32)
    ensures Up(Or(x, y)) == Or(Up(x), Up(y))
  {
  }

  lemma FirstByte(x: bv32)
    ensures Or(Up(0), x) == x
  {
  }

  function NextByte(h: bv32, x: bv32): bv32 { (h << 8) | x }

  lemma NextByteIsOr(x: bv32, y: bv32)
    ensures NextByte(x, y) == Or(Up(x), y)
  {
  }

  lemma TwoDigitsAreByte(h: bv32, d: bv32)
    ensures Shifted(Shifted(h, d), d) == NextByte(h, Twice(d))
  {
  }

  lemma TwoDigits(h: bv32, d: bv32)
    ensures Shifted(Shifted(h, d), d) == Or(Up(h), Twice(d))
  {
    hide *;
    TwoDigitsAreByte(h, d);
    NextByteIsOr(h, Twice(d));
  }

  lemma CombineIsOr(a: bv32, r: bv32, g: bv32, b: bv32)
    ensures Combine(a << 24, r << 16, g << 8, b) == Or(Or(Or(Up(Up(Up(a))), Up(Up(r))), Up(g)), b)
  {
  }

  lemma EightDigits(a: bv32, r: bv32, g: bv32, b: bv32)
    ensures Shifted(Shifted(Shifted(Shifted(Shifted(Shifted(Shifted(Shifted(0, a), a), r), r), g), g), b), b) ==
            Combine(Twice(a) << 24, Twice(r) << 16, Twice(g) << 8, Twice(b))
  {
    hide Shifted, Combine, Twice, Or, Up;
    var a2, r2, g2, b2 := Twice(a), Twice(r), Twice(g), Twice(b);
    FirstByte(a2);
    TwoDigits(0, a);
    TwoDigits(a2, r);
    TwoDigits(Or(Up(a2), r2), g);
    TwoDigits(Or(Up(Or(Up(a2), r2)), g2), b);
    UpOr(Up(a2), r2);
    UpOr(Or(Up(Up(a2)), Up(r2)), g2);
    UpOr(Up(Up(a2)), Up(r2));
    CombineIsOr(a2, r2, g2, b2);
  }

  lemma AlphaDigit(a: bv32, r: bv32, g: bv32, b: bv32)
    requires a < 16 && r < 16 && g < 16 && b < 16
    ensures AlphaOf(Shifted(Shifted(Shifted(Shifted(0, a), r), g), b)) == Twice(a) << 24
  {
  }

  lemma RedDigit(h: bv32, r: bv32, g: bv32, b: bv32)
    requires r < 16 && g < 16 && b < 16
    ensures RedOf(Shifted(Shifted(Shifted(h, r), g), b)) == Twice(r) << 16
  {
  }

  lemma GreenDigit(h: bv32, g: bv32, b: bv32)
    requires g < 16 && b < 16
    ensures GreenOf(Shifted(Shifted(h, g), b)) == Twice(g) << 8
  {
  }

  lemma BlueDigit(h: bv32, b: bv32)
    requires b < 16
    ensures BlueOf(Shifted(h, b)) == Twice(b)
  {
  }

  lemma OpaqueAlpha()
    ensures Twice(15) << 24 == 0xFF000000
  {
  }

  /** Doubling the digits is what the short forms do. */
  lemma ExpandDoubles(a: bv32, r: bv32, g: bv32, b: bv32)
    requires a < 16 && r < 16 && g < 16 && b < 16
    ensures Expand(5, Shifted(Shifted(Shifted(Shifted(0, a), r), g), b)) ==
            Some(Shifted(Shifted(Shifted(Shifted(Shifted(Shifted(Shifted(Shifted(0, a), a), r), r), g), g), b), b))
    ensures Expand(4, Shifted(Shifted(Shifted(0, r), g), b)) ==
            Some(Shifted(Shifted(Shifted(Shifted(Shifted(Shifted(Shifted(Shifted(0, 15), 15), r), r), g), g), b), b))
  {
    hide Shifted, Combine, Twice, AlphaOf, RedOf, GreenOf, BlueOf;
    EightDigits(a, r, g, b);
    EightDigits(15, r, g, b);
    OpaqueAlpha();
    AlphaDigit(a, r, g, b);
    RedDigit(Shifted(0, a), r, g, b);
    GreenDigit(Shifted(Shifted(0, a), r), g, b);
    BlueDigit(Shifted(Shifted(Shifted(0, a), r), g), b);
    RedDigit(0, r, g, b);
    GreenDigit(Shifted(0, r), g, b);
    BlueDigit(Shifted(Shifted(0, r), g), b);
  }

  /** The short notation without alpha doubles every digit of an opaque color. */
  lemma ShortHex(lib: Lib, r: char, g: char, b: char)
    requires IsHex([r, g, b])
    ensures ParseHex(lib, ['#', r, g, b]) == ParseHex(lib, ['#', 'f', 'f', r, r, g, g, b, b])
  {
    hide Shifted, HexValue, Expand, DigitValue;
    DigitsOf(['f', r, g, b]);
    var long := ['f', 'f', r, r, g, g, b, b];
    assert DigitValue('f') == Some(15) by { DigitF(); }
    assert [r, g, b][0] == r && [r, g, b][1] == g && [r, g, b][2] == b;
    assert IsHex(['f', r, g, b]) && IsHex(long);
    DigitIsSmall(r); DigitIsSmall(g); DigitIsSmall(b);
    Short('f', r, g, b);
    HexValueOfEight(long);
    NineMeansAll(HexValue(long));
    ExpandDoubles(0, DigitValue(r).value, DigitValue(g).value, DigitValue(b).value);
    assert ['#', r, g, b][1..] == [r, g, b] && ['#', 'f', 'f', r, r, g, g, b, b][1..] == long;
  }

  /** The short notation with alpha doubles every digit. */
  lemma ShortHexWithAlpha(lib: Lib, a: char, r: char, g: char, b: char)
    requires IsHex([a, r, g, b])
    ensures ParseHex(lib, ['#', a, r, g, b]) == ParseHex(lib, ['#', a, a, r, r, g, g, b, b])
  {
    hide Shifted, HexValue, Expand, DigitValue;
    DigitsOf([a, r, g, b]);
    var long := [a, a, r, r, g, g, b, b];
    assert IsHex([r, g, b]) && IsHex(long);
    DigitIsSmall(a); DigitIsSmall(r); DigitIsSmall(g); DigitIsSmall(b);
    Short(a, r, g, b);
    HexValueOfEight(long);
    NineMeansAll(HexValue(long));
    ExpandDoubles(DigitValue(a).value, DigitValue(r).value, DigitValue(g).value, DigitValue(b).value);
    assert ['#', a, r, g, b][1..] == [a, r, g, b] && ['#', a, a, r, r, g, g, b, b][1..] == long;
  }

  lemma DigitF()
    ensures DigitValue('f') == Some(15)
  {
  }

  lemma DigitsOf(s: string)
    requires |s| == 4
    ensures IsHex(s) ==> DigitValue(s[0]).Some? && DigitValue(s[1]).Some? && DigitValue(s[2]).Some? && DigitValue(s[3]).Some?
  {
    hide DigitValue;
  }

  lemma DigitIsSmall(c: char)
    requires DigitValue(c).Some?
    ensures DigitValue(c).value < 16
  {
  }

  lemma Short(a: char, r: char, g: char, b: char)
    requires IsHex([a, r, g, b]) && IsHex([r, g, b])
    requires DigitValue(a).Some? && DigitValue(r).Some? && DigitValue(g).Some? && DigitValue(b).Some?
    ensures HexValue([a, r, g, b]) ==
            Shifted(Shifted(Shifted(Shifted(0, DigitValue(a).value), DigitValue(r).value), DigitValue(g).value), DigitValue(b).value)
    ensures HexValue([r, g, b]) == Shifted(Shifted(Shifted(0, DigitValue(r).value), DigitValue(g).value), DigitValue(b).value)
  {
    hide Shifted, DigitValue;
    var s, t := [a, r, g, b], [r, g, b];
    assert s[..4] == s && t[..3] == t;
    HexValuePrefix(s, 3); HexValuePrefix(s, 2); HexValuePrefix(s, 1); HexValuePrefix(s, 0);
    HexValuePrefix(t, 2); HexValuePrefix(t, 1); HexValuePrefix(t, 0);
  }

  // ----- What the notation says, digit by digit

  /** Six digits mean the same as the opaque color with those digits. */
  lemma SixDigits(lib: Lib, a: char, b: char, c: char, d: char, e: char, f: char)
    requires IsHex([a, b, c, d, e, f])
    ensures ParseHex(lib, ['#', a, b, c, d, e, f]) == ParseHex(lib, ['#', 'f', 'f', a, b, c, d, e, f])
  {
    hide Shifted, HexValue, Expand, DigitValue;
    var s, long := [a, b, c, d, e, f], ['f', 'f', a, b, c, d, e, f];
    DigitF();
    assert IsHex(long) by {
      forall i | 0 <= i < 8
        ensures DigitValue(long[i]).Some?
      {
        if i >= 2 {
          assert long[i] == s[i - 2];
        }
      }
    }
    HexValueOfSix(s);
    HexValueOfEight(long);
    assert s[0] == a && s[1] == b && s[2] == c && s[3] == d && s[4] == e && s[5] == f;
    DigitIsSmall(a); DigitIsSmall(b); DigitIsSmall(c); DigitIsSmall(d); DigitIsSmall(e); DigitIsSmall(f);
    SixAreOpaque(DigitValue(a).value, DigitValue(b).value, DigitValue(c).value,
                 DigitValue(d).value, DigitValue(e).value, DigitValue(f).value);
    NineMeansAll(HexValue(long));
    assert ['#', a, b, c, d, e, f][1..] == s && ['#', 'f', 'f', a, b, c, d, e, f][1..] == long;
  }

  lemma HexValueOfSix(s: string)
    requires |s| == 6 && IsHex(s)
    ensures HexValue(s) ==
            Shifted(Shifted(Shifted(Shifted(Shifted(Shifted(0, DigitValue(s[0]).value), DigitValue(s[1]).value),
              DigitValue(s[2]).value), DigitValue(s[3]).value), DigitValue(s[4]).value), DigitValue(s[5]).value)
  {
    hide Shifted, DigitValue;
    assert s[..6] == s;
    HexValuePrefix(s, 5); HexValuePrefix(s, 4); HexValuePrefix(s, 3);
    HexValuePrefix(s, 2); HexValuePrefix(s, 1); HexValuePrefix(s, 0);
  }

  lemma SixAreOpaque(a: bv32, b: bv32, c: bv32, d: bv32, e: bv32, f: bv32)
    requires a < 16 && b < 16 && c < 16 && d < 16 && e < 16 && f < 16
    ensures Expand(7, Shifted(Shifted(Shifted(Shifted(Shifted(Shifted(0, a), b), c), d), e), f)) ==
            Some(Shifted(Shifted(Shifted(Shifted(Shifted(Shifted(Shifted(Shifted(0, 15), 15), a), b), c), d), e), f))
  {
  }

  /** No other length is a color. */
  lemma OtherLengths(lib: Lib, color: string)
    requires color != "" && |color| !in {4, 5, 7, 9}
    ensures ParseHex(lib, color) == None
  {
    hide HexValue, IsHex;
  }

  /** What the digits stand for. */
  lemma DigitsByPlace(k: nat)
    requires k < 16
    ensures DigitValue("0123456789abcdef"[k]) == Some(k as bv32) && DigitValue("0123456789ABCDEF"[k]) == Some(k as bv32)
  {
    if k < 4 {
      assert k == 0 || k == 1 || k == 2 || k == 3;
    } else if k < 8 {
      assert k == 4 || k == 5 || k == 6 || k == 7;
    } else if k < 12 {
      assert k == 8 || k == 9 || k == 10 || k == 11;
    } else {
      assert k == 12 || k == 13 || k == 14 || k == 15;
    }
  }

  lemma NoOtherDigits(c: char)
    ensures DigitValue(c).Some? <==> '0' <= c <= '9' || 'a' <= c <= 'f' || 'A' <= c <= 'F'
  {
  }

  /** Eight digits are the eight nibbles of the color, highest first. */
  lemma EightNibbles(lib: Lib, s: string)
    requires |s| == 8 && IsHex(s)
    ensures ParseHex(lib, ['#'] + s).Some?
    ensures var v := ParseHex(lib, ['#'] + s).value;
            && (v >> 28) & 0xF == DigitValue(s[0]).value && (v >> 24) & 0xF == DigitValue(s[1]).value
            && (v >> 20) & 0xF == DigitValue(s[2]).value && (v >> 16) & 0xF == DigitValue(s[3]).value
            && (v >> 12) & 0xF == DigitValue(s[4]).value && (v >> 8) & 0xF == DigitValue(s[5]).value
            && (v >> 4) & 0xF == DigitValue(s[6]).value && v & 0xF == DigitValue(s[7]).value
  {
    hide Shifted, HexValue, Expand, DigitValue;
    assert (['#'] + s)[1..] == s;
    HexValueOfEight(s);
    NineMeansAll(HexValue(s));
    DigitIsSmall(s[0]); DigitIsSmall(s[1]); DigitIsSmall(s[2]); DigitIsSmall(s[3]);
    DigitIsSmall(s[4]); DigitIsSmall(s[5]); DigitIsSmall(s[6]); DigitIsSmall(s[7]);
    NibblesOf(DigitValue(s[0]).value, DigitValue(s[1]).value, DigitValue(s[2]).value, DigitValue(s[3]).value,
              DigitValue(s[4]).value, DigitValue(s[5]).value, DigitValue(s[6]).value, DigitValue(s[7]).value);
  }

  lemma NibblesOf(a: bv32, b: bv32, c: bv32, d: bv32, e: bv32, f: bv32, g: bv32, h: bv32)
    requires a < 16 && b < 16 && c < 16 && d < 16 && e < 16 && f < 16 && g < 16 && h < 16
    ensures var v := Shifted(Shifted(Shifted(Shifted(Shifted(Shifted(Shifted(Shifted(0, a), b), c), d), e), f), g), h);
            && (v >> 28) & 0xF == a && (v >> 24) & 0xF == b && (v >> 20) & 0xF == c && (v >> 16) & 0xF == d
            && (v >> 12) & 0xF == e && (v >> 8) & 0xF == f && (v >> 4) & 0xF == g && v & 0xF == h
  {
  }
}
