/** Parsing what was written: color expressions nested to any depth are read back. */
module ColorPrinting {
  import opened Text
  import opened Colors
  import opened HexColors
  import opened ColorParser

  /** A color expression as a user writes it. Names may be written in any case. Amounts and
      weights are written as tokens; any blanks may follow a comma. */
  datatype Written =
    | Hex(value: Argb)
    | DwmName(name: string)
    | Named(name: string)
    | ThreeCall(func: string, name: string, p: string, gap1: string, q: string, gap2: string, r: string)
    | FourCall(func: string, name: string, p: string, gap1: string, q: string, gap2: string, r: string, gap3: string, t: string)
    | Call(func: string, name: string, arg: Written, gap: string, amount: string)
    | MixCall(name: string, arg1: Written, gap1: string, arg2: Written, gap2: string, weight: string)

  predicate ThreeName(name: string) { name in {"RGB", "HSL", "HSV"} }

  predicate FourName(name: string) { name in {"RGBA", "HSLA", "HSVA", "ARGB", "AHSL", "AHSV"} }

  predicate UnaryName(name: string) {
    name in {"Lighten", "Darken", "SetLightness", "Saturate", "Desaturate", "SetSaturation", "Fadein", "FadeOut", "SetAlpha",
             "Spin", "SetHue"}
  }

  predicate IsBlank(c: char) { c == ' ' || c == '\t' }

  predicate Blanks(s: string) {
    forall i :: 0 <= i < |s| ==> IsBlank(s[i])
  }

  predicate Plain(s: string) {
    forall i :: 0 <= i < |s| ==> s[i] != '(' && s[i] != ')' && s[i] != ','
  }

  predicate Token(s: string) {
    s != "" && !IsBlank(s[0]) && Plain(s)
  }

  predicate Valid(lib: Lib, w: Written) {
    match w
    case Hex(_) => true
    case DwmName(name) => SameName(name, "DWMColor")
    case Named(name) => Token(name) && name[0] != '#' && !SameName(name, "DWMColor") && lib.named(name).Some?
    case ThreeCall(func, name, p, gap1, q, gap2, r) =>
      && ThreeName(func) && SameName(name, func) && Blanks(gap1) && Blanks(gap2) && Token(p) && Token(q) && Token(r)
      && lib.literal(func, [p, q, r]).Some?
    case FourCall(func, name, p, gap1, q, gap2, r, gap3, t) =>
      && FourName(func) && SameName(name, func) && Blanks(gap1) && Blanks(gap2) && Blanks(gap3)
      && Token(p) && Token(q) && Token(r) && Token(t) && lib.literal(func, [p, q, r, t]).Some?
    case Call(func, name, arg, gap, amount) =>
      && UnaryName(func) && SameName(name, func) && Valid(lib, arg) && Blanks(gap) && Token(amount) && lib.amount(amount).Some?
    case MixCall(name, arg1, gap1, arg2, gap2, weight) =>
      && SameName(name, "Mix") && Valid(lib, arg1) && Valid(lib, arg2) && Blanks(gap1) && Blanks(gap2)
      && Token(weight) && lib.weight(weight).Some?
  }

  /** The pieces of a call: its opening, a parameter with what follows it, the last parameter. */
  function Opening(name: string, rest: string): string { name + "(" + rest }

  function Parameter(p: string, gap: string, rest: string): string { p + "," + gap + rest }

  function Closing(token: string): string { token + ")" }

  /** Three parameters, the last one with the closing parenthesis. */
  function Three(p: string, gap1: string, q: string, gap2: string, r: string): string {
    Parameter(p, gap1, Parameter(q, gap2, Closing(r)))
  }

  function Print(lib: Lib, w: Written): string
    requires Valid(lib, w)
  {
    match w
    case Hex(value) => PrintHex(value)
    case DwmName(name) => name
    case Named(name) => name
    case ThreeCall(_, name, p, gap1, q, gap2, r) => Opening(name, Three(p, gap1, q, gap2, r))
    case FourCall(_, name, p, gap1, q, gap2, r, gap3, t) => Opening(name, Parameter(p, gap1, Three(q, gap2, r, gap3, t)))
    case Call(_, name, arg, gap, amount) => Opening(name, Parameter(Print(lib, arg), gap, Closing(amount)))
    case MixCall(name, arg1, gap1, arg2, gap2, weight) => Opening(name, Three(Print(lib, arg1), gap1, Print(lib, arg2), gap2, weight))
  }

  function Tree(lib: Lib, w: Written): Expr
    requires Valid(lib, w)
  {
    match w
    case Hex(value) => Const(value)
    case DwmName(_) => DwmColor
    case Named(name) => Const(lib.named(name).value)
    case ThreeCall(func, _, p, _, q, _, r) => Const(lib.literal(func, [p, q, r]).value)
    case FourCall(func, _, p, _, q, _, r, _, t) => Const(lib.literal(func, [p, q, r, t]).value)
    case Call(func, _, arg, _, amount) => Apply(func, Tree(lib, arg), lib.amount(amount).value)
    case MixCall(_, arg1, _, arg2, _, weight) => Mix(Tree(lib, arg1), Tree(lib, arg2), lib.weight(weight).value)
  }

  // ----- Scanning text that keeps its parentheses balanced

  /** The depth after scanning `t`, unless a parameter ends on the way. */
  function Scan(t: string, depth: nat): Option<nat> {
    if t == "" then Some(depth)
    else if t[0] == '(' then Scan(t[1..], depth + 1)
    else if t[0] == ')' then (if depth == 0 then None else Scan(t[1..], depth - 1))
    else if t[0] == ',' && depth == 0 then None
    else Scan(t[1..], depth)
  }

  lemma {:induction false} ScanAppend(a: string, b: string, depth: nat)
    requires Scan(a, depth).Some?
    ensures Scan(a + b, depth) == Scan(b, Scan(a, depth).value)
    decreases |a|
  {
    if a == "" {
      assert a + b == b;
    } else {
      assert (a + b)[0] == a[0] && (a + b)[1..] == a[1..] + b;
      ScanAppend(a[1..], b, if a[0] == '(' then depth + 1 else if a[0] == ')' then depth - 1 else depth);
    }
  }

  lemma {:induction false} PlainScans(s: string, depth: nat)
    requires Plain(s)
    ensures Scan(s, depth) == Some(depth)
  {
    if s != "" {
      assert s[0] != '(' && s[0] != ')' && s[0] != ',';
      assert forall i :: 0 <= i < |s| - 1 ==> s[1..][i] == s[i + 1];
      PlainScans(s[1..], depth);
    }
  }

  lemma BlanksArePlain(s: string)
    requires Blanks(s)
    ensures Plain(s)
  {
    forall i | 0 <= i < |s| ensures s[i] != '(' && s[i] != ')' && s[i] != ',' {
      assert IsBlank(s[i]);
    }
  }

  /** Scanning a comma inside parentheses, or either parenthesis. */
  lemma ScanSigns(depth: nat)
    ensures Scan("(", depth) == Some(depth + 1)
    ensures Scan(",", depth + 1) == Some(depth + 1)
    ensures Scan(")", depth + 1) == Some(depth)
  {
  }

  lemma LiteralNameIsPlain(name: string)
    ensures ThreeName(name) || FourName(name) ==> Plain(name)
  {
  }

  lemma ShortNameIsPlain(name: string)
    requires name in {"Lighten", "Darken", "Saturate", "Fadein", "FadeOut", "SetAlpha", "Spin", "SetHue"}
    ensures Plain(name)
  {
  }

  lemma UnaryNameIsPlain(name: string)
    ensures UnaryName(name) ==> Plain(name)
  {
    if name !in {"SetLightness", "Desaturate", "SetSaturation"} && UnaryName(name) {
      hide Plain;
      ShortNameIsPlain(name);
    }
  }

  lemma NamesArePlain()
    ensures forall name :: UnaryName(name) || ThreeName(name) || FourName(name) ==> Plain(name)
    ensures Plain("Mix") && Plain("DWMColor")
  {
    hide UnaryName, ThreeName, FourName;
    forall name | UnaryName(name) || ThreeName(name) || FourName(name) ensures Plain(name) {
      LiteralNameIsPlain(name);
      UnaryNameIsPlain(name);
    }
  }

  /** Case does not matter for that. */
  lemma SamePlain(a: string, b: string)
    requires SameName(a, b) && Plain(b)
    ensures Plain(a)
  {
    assert |Lower(a)| == |Lower(b)|;
    forall i | 0 <= i < |a|
      ensures a[i] != '(' && a[i] != ')' && a[i] != ','
    {
      assert Lower(a)[i] == Lower(b)[i] && LowerChar(a[i]) == LowerChar(b[i]);
    }
  }

  lemma HexIsPlain(v: Argb)
    ensures Plain(PrintHex(v))
  {
    hide Digit, Nibble, DigitValue;
    DigitReadsBack(v, 28); DigitReadsBack(v, 24); DigitReadsBack(v, 20); DigitReadsBack(v, 16);
    DigitReadsBack(v, 12); DigitReadsBack(v, 8); DigitReadsBack(v, 4); DigitReadsBack(v, 0);
  }

  lemma OpeningScans(name: string, rest: string, depth: nat)
    requires Plain(name)
    ensures Scan(Opening(name, rest), depth) == Scan(rest, depth + 1)
  {
    hide Scan, Plain;
    PlainScans(name, depth);
    ScanSigns(depth);
    ScanAppend(name, "(", depth);
    ScanAppend(name + "(", rest, depth);
  }

  lemma ParameterScans(p: string, gap: string, rest: string, depth: nat)
    requires Scan(p, depth + 1) == Some(depth + 1) && Blanks(gap)
    ensures Scan(Parameter(p, gap, rest), depth + 1) == Scan(rest, depth + 1)
  {
    hide Scan, Plain, Blanks;
    BlanksArePlain(gap);
    PlainScans(gap, depth + 1);
    ScanSigns(depth);
    ScanAppend(p, ",", depth + 1);
    ScanAppend(p + ",", gap, depth + 1);
    ScanAppend(p + "," + gap, rest, depth + 1);
  }

  lemma ClosingScans(token: string, depth: nat)
    requires Plain(token)
    ensures Scan(Closing(token), depth + 1) == Some(depth)
  {
    hide Scan, Plain;
    PlainScans(token, depth + 1);
    ScanSigns(depth);
    ScanAppend(token, ")", depth + 1);
  }

  lemma ThreeScan(p: string, gap1: string, q: string, gap2: string, r: string, depth: nat)
    requires Scan(p, depth + 1) == Some(depth + 1) && Scan(q, depth + 1) == Some(depth + 1)
    requires Blanks(gap1) && Blanks(gap2) && Plain(r)
    ensures Scan(Three(p, gap1, q, gap2, r), depth + 1) == Some(depth)
  {
    hide Scan, Plain, Blanks, Parameter, Closing;
    ClosingScans(r, depth);
    ParameterScans(q, gap2, Closing(r), depth);
    ParameterScans(p, gap1, Parameter(q, gap2, Closing(r)), depth);
  }

  /** A written expression closes every parenthesis it opens. */
  lemma {:induction false} PrintScans(lib: Lib, w: Written, depth: nat)
    requires Valid(lib, w)
    ensures Scan(Print(lib, w), depth) == Some(depth)
    decreases w
  {
    hide Scan, Plain, Blanks, PrintHex, IsBlank, SameName, UnaryName, ThreeName, FourName, Opening, Parameter, Closing, Three;
    NamesArePlain();
    match w
    case Hex(value) =>
      HexIsPlain(value);
      PlainScans(Print(lib, w), depth);
    case DwmName(name) =>
      SamePlain(name, "DWMColor");
      PlainScans(name, depth);
    case Named(name) =>
      PlainScans(name, depth);
    case ThreeCall(func, name, p, gap1, q, gap2, r) =>
      SamePlain(name, func);
      PlainScans(p, depth + 1);
      PlainScans(q, depth + 1);
      ThreeScan(p, gap1, q, gap2, r, depth);
      OpeningScans(name, Three(p, gap1, q, gap2, r), depth);
    case FourCall(func, name, p, gap1, q, gap2, r, gap3, t) =>
      SamePlain(name, func);
      PlainScans(p, depth + 1);
      PlainScans(q, depth + 1);
      PlainScans(r, depth + 1);
      ThreeScan(q, gap2, r, gap3, t, depth);
      ParameterScans(p, gap1, Three(q, gap2, r, gap3, t), depth);
      OpeningScans(name, Parameter(p, gap1, Three(q, gap2, r, gap3, t)), depth);
    case Call(func, name, arg, gap, amount) =>
      SamePlain(name, func);
      PrintScans(lib, arg, depth + 1);
      ClosingScans(amount, depth);
      ParameterScans(Print(lib, arg), gap, Closing(amount), depth);
      OpeningScans(name, Parameter(Print(lib, arg), gap, Closing(amount)), depth);
    case MixCall(name, arg1, gap1, arg2, gap2, weight) =>
      SamePlain(name, "Mix");
      PrintScans(lib, arg1, depth + 1);
      PrintScans(lib, arg2, depth + 1);
      ThreeScan(Print(lib, arg1), gap1, Print(lib, arg2), gap2, weight, depth);
      OpeningScans(name, Three(Print(lib, arg1), gap1, Print(lib, arg2), gap2, weight), depth);
  }

  // ----- Getting the parameters back

  lemma {:induction false} SkipGap(s: string, pos: nat, gap: string)
    requires pos + |gap| < |s| && s[pos..pos + |gap|] == gap && Blanks(gap) && !IsBlank(s[pos + |gap|])
    ensures SkipBlanks(s, pos) == pos + |gap|
    decreases |gap|
  {
    if gap != "" {
      assert s[pos] == s[pos..pos + |gap|][0] == gap[0] && IsBlank(gap[0]);
      assert s[pos + 1..pos + 1 + |gap[1..]|] == s[pos..pos + |gap|][1..] == gap[1..];
      assert forall i :: 0 <= i < |gap| - 1 ==> gap[1..][i] == gap[i + 1];
      SkipGap(s, pos + 1, gap[1..]);
    }
  }

  /** Balanced text is scanned over without ending the parameter. */
  lemma {:induction false} ParamsSkip(s: string, start: nat, pos: nat, t: string, depth: nat, left: nat)
    requires start <= pos && pos + |t| <= |s| && s[pos..pos + |t|] == t && left > 0
    requires Scan(t, depth).Some?
    ensures Params(s, start, pos, depth, left) == Params(s, start, pos + |t|, Scan(t, depth).value, left)
    decreases |t|
  {
    if t != "" {
      assert s[pos] == s[pos..pos + |t|][0] == t[0];
      assert s[pos + 1..pos + 1 + |t[1..]|] == s[pos..pos + |t|][1..] == t[1..];
      ParamsSkip(s, start, pos + 1, t[1..], if t[0] == '(' then depth + 1 else if t[0] == ')' then depth - 1 else depth, left);
    }
  }

  lemma Pieces(s: string, start: nat, p: string, gap: string, rest: string)
    requires start <= |s| && s[start..] == Parameter(p, gap, rest)
    ensures var comma := start + |p|; var next := comma + 1 + |gap|;
            && next <= |s| && s[start..comma] == p && s[comma] == ',' && s[comma + 1..next] == gap && s[next..] == rest
  {
    var comma := start + |p|;
    var next := comma + 1 + |gap|;
    var t := Parameter(p, gap, rest);
    assert s[start..comma] == t[..|p|] == p;
    assert s[comma] == t[|p|] == ',';
    assert s[comma + 1..next] == t[|p| + 1..|p| + 1 + |gap|] == gap;
    assert s[next..] == t[|p| + 1 + |gap|..] == rest;
  }

  /** A parameter ended by a comma; blanks behind it belong to no parameter. */
  lemma NextParam(s: string, start: nat, p: string, gap: string, rest: string, left: nat)
    requires start <= |s| && s[start..] == Parameter(p, gap, rest) && left > 0
    requires Scan(p, 0) == Some(0) && Blanks(gap) && rest != "" && !IsBlank(rest[0])
    ensures var next := start + |p| + 1 + |gap|;
            && next <= |s| && s[next..] == rest
            && Params(s, start, start, 0, left) == [p] + Params(s, next, next, 0, left - 1)
  {
    hide Scan, Blanks, SkipBlanks, IsBlank, Parameter;
    Pieces(s, start, p, gap, rest);
    var comma := start + |p|;
    assert s[comma + 1 + |gap|] == s[comma + 1 + |gap|..][0];
    ParamsSkip(s, start, start, p, 0, left);
    SkipGap(s, comma + 1, gap);
  }

  /** The last parameter, ended by the closing parenthesis. */
  lemma LastParam(s: string, start: nat, token: string, left: nat)
    requires start <= |s| && s[start..] == Closing(token) && left > 0 && Plain(token)
    ensures Params(s, start, start, 0, left) == [token]
  {
    hide Scan, Plain;
    var close := start + |token|;
    assert s[start..close] == Closing(token)[..|token|] == token;
    assert s[close] == Closing(token)[|token|];
    PlainScans(token, 0);
    ParamsSkip(s, start, start, token, 0, left);
  }

  lemma ClosingStarts(token: string)
    requires Token(token)
    ensures Closing(token) != "" && !IsBlank(Closing(token)[0])
  {
  }

  /** The last two parameters. */
  lemma LastTwoParams(s: string, start: nat, p: string, gap: string, token: string, left: nat)
    requires start <= |s| && s[start..] == Parameter(p, gap, Closing(token)) && left > 1
    requires Scan(p, 0) == Some(0) && Blanks(gap) && Token(token)
    ensures Params(s, start, start, 0, left) == [p, token]
  {
    hide Scan, Blanks, Plain, IsBlank, Params, Parameter, Closing;
    ClosingStarts(token);
    NextParam(s, start, p, gap, Closing(token), left);
    LastParam(s, start + |p| + 1 + |gap|, token, left - 1);
  }

  lemma {:induction false} FirstParenAfter(name: string, s: string)
    requires |name| < |s| && s[..|name|] == name && s[|name|] == '(' && Plain(name)
    ensures FirstParen(s) == |name|
    decreases |name|
  {
    if name != "" {
      assert s[0] == s[..|name|][0] == name[0] && name[0] != '(';
      assert s[1..][..|name[1..]|] == s[..|name|][1..] == name[1..];
      assert forall i :: 0 <= i < |name| - 1 ==> name[1..][i] == name[i + 1];
      FirstParenAfter(name[1..], s[1..]);
    }
  }

  /** The parameters of a call are what stands after its opening parenthesis. */
  lemma AfterParen(name: string, rest: string, max: nat)
    requires Plain(name)
    ensures var s := Opening(name, rest); var start := |name| + 1;
            && '(' in s && start <= |s| && s[start..] == rest
            && ParametersOf(s, max) == Params(s, start, start, 0, max)
  {
    hide Plain, Params;
    var s := Opening(name, rest);
    assert s[|name|] == '(' && s[..|name|] == name;
    FirstParenAfter(name, s);
  }

  lemma TwoParams(name: string, p: string, gap: string, amount: string)
    requires Plain(name) && Scan(p, 0) == Some(0) && Blanks(gap) && Token(amount)
    ensures var s := Opening(name, Parameter(p, gap, Closing(amount)));
            '(' in s && ParametersOf(s, 2) == [p, amount]
  {
    hide *;
    var rest := Parameter(p, gap, Closing(amount));
    AfterParen(name, rest, 2);
    LastTwoParams(Opening(name, rest), |name| + 1, p, gap, amount, 2);
  }

  lemma ParameterStarts(p: string, gap: string, rest: string)
    requires p != ""
    ensures Parameter(p, gap, rest) != "" && Parameter(p, gap, rest)[0] == p[0]
  {
  }

  /** The last three parameters. */
  lemma LastThreeParams(s: string, start: nat, p: string, gap1: string, q: string, gap2: string, r: string, left: nat)
    requires start <= |s| && s[start..] == Three(p, gap1, q, gap2, r) && left > 2
    requires Scan(p, 0) == Some(0) && Blanks(gap1) && q != "" && !IsBlank(q[0])
    requires Scan(q, 0) == Some(0) && Blanks(gap2) && Token(r)
    ensures Params(s, start, start, 0, left) == [p, q, r]
  {
    hide *;
    var last := Parameter(q, gap2, Closing(r));
    ThreeIs(p, gap1, q, gap2, r);
    ParameterStarts(q, gap2, Closing(r));
    NextParam(s, start, p, gap1, last, left);
    LastTwoParams(s, start + |p| + 1 + |gap1|, q, gap2, r, left - 1);
  }

  lemma ThreeIs(p: string, gap1: string, q: string, gap2: string, r: string)
    ensures Three(p, gap1, q, gap2, r) == Parameter(p, gap1, Parameter(q, gap2, Closing(r)))
  {
  }

  lemma ThreeParams(name: string, p: string, gap1: string, q: string, gap2: string, r: string)
    requires Plain(name) && Scan(p, 0) == Some(0) && Blanks(gap1) && q != "" && !IsBlank(q[0])
    requires Scan(q, 0) == Some(0) && Blanks(gap2) && Token(r)
    ensures var s := Opening(name, Three(p, gap1, q, gap2, r));
            '(' in s && ParametersOf(s, 3) == [p, q, r]
  {
    hide *;
    var rest := Three(p, gap1, q, gap2, r);
    AfterParen(name, rest, 3);
    LastThreeParams(Opening(name, rest), |name| + 1, p, gap1, q, gap2, r, 3);
  }

  lemma FourParams(name: string, p: string, gap1: string, q: string, gap2: string, r: string, gap3: string, t: string)
    requires Plain(name) && Scan(p, 0) == Some(0) && Blanks(gap1) && q != "" && !IsBlank(q[0])
    requires Scan(q, 0) == Some(0) && Blanks(gap2) && r != "" && !IsBlank(r[0])
    requires Scan(r, 0) == Some(0) && Blanks(gap3) && Token(t)
    ensures var s := Opening(name, Parameter(p, gap1, Three(q, gap2, r, gap3, t)));
            '(' in s && ParametersOf(s, 4) == [p, q, r, t]
  {
    hide *;
    var last := Three(q, gap2, r, gap3, t);
    var s := Opening(name, Parameter(p, gap1, last));
    var start := |name| + 1;
    AfterParen(name, Parameter(p, gap1, last), 4);
    ThreeIs(q, gap2, r, gap3, t);
    ParameterStarts(q, gap2, Parameter(r, gap3, Closing(t)));
    NextParam(s, start, p, gap1, last, 4);
    LastThreeParams(s, start + |p| + 1 + |gap1|, q, gap2, r, gap3, t, 3);
  }

  // ----- Finding the function

  /** A string is a call of two plain names only if they are the same name. */
  lemma CallTellsName(s: string, name: string, other: string)
    requires IsFunctionOf(s, name) && Plain(name) && Plain(other)
    ensures IsFunctionOf(s, other) ==> SameName(other, name)
  {
    if IsFunctionOf(s, other) {
      if |name| < |other| {
        ParenInside(s, name, other);
      } else if |other| < |name| {
        ParenInside(s, other, name);
      }
    }
  }

  lemma ParenInside(s: string, name: string, other: string)
    requires IsFunctionOf(s, name) && IsFunctionOf(s, other) && |name| < |other|
    ensures other[|name|] == '('
  {
    assert s[..|other|][|name|] == '(';
    assert |Lower(s[..|other|])| == |other|;
    assert Lower(s[..|other|])[|name|] == Lower(other)[|name|] == LowerChar(other[|name|]);
  }

  /** Names are told apart by their length and first two letters. */
  lemma SameNameLooks(a: string, b: string)
    requires SameName(a, b)
    ensures |a| == |b|
    ensures |a| > 1 ==> LowerChar(a[0]) == LowerChar(b[0]) && LowerChar(a[1]) == LowerChar(b[1])
  {
    assert |Lower(a)| == |Lower(b)|;
    assert |a| > 1 ==> Lower(a)[0] == Lower(b)[0] && Lower(a)[1] == Lower(b)[1];
  }

  lemma {:induction false} NotFound(names: seq<string>, s: string)
    requires forall i :: 0 <= i < |names| ==> !IsFunctionOf(s, names[i])
    ensures FindFunction(names, s) == None
  {
    hide IsFunctionOf;
    if names != [] {
      assert forall i :: 0 <= i < |names| - 1 ==> names[1..][i] == names[i + 1];
      NotFound(names[1..], s);
    }
  }

  lemma {:induction false} FoundAt(names: seq<string>, s: string, k: nat)
    requires k < |names| && IsFunctionOf(s, names[k])
    requires forall i :: 0 <= i < k ==> !IsFunctionOf(s, names[i])
    ensures FindFunction(names, s) == Some(k)
  {
    hide IsFunctionOf;
    if k > 0 {
      assert forall i :: 0 <= i < |names| - 1 ==> names[1..][i] == names[i + 1];
      FoundAt(names[1..], s, k - 1);
    }
  }

  /** The tables of the parser hold these names and no others. */
  lemma LiteralTable()
    ensures forall k :: 0 <= k < |LITERAL_FUNCTIONS| ==> (if k < 3 then ThreeName(LITERAL_FUNCTIONS[k]) else FourName(LITERAL_FUNCTIONS[k]))
  {
  }

  lemma UnaryTable()
    ensures forall k :: 0 <= k < |UNARY_FUNCTIONS| ==> UnaryName(UNARY_FUNCTIONS[k])
  {
  }

  lemma LiteralPlace(name: string) returns (k: nat)
    requires ThreeName(name) || FourName(name)
    ensures k < |LITERAL_FUNCTIONS| && LITERAL_FUNCTIONS[k] == name && (k < 3 <==> ThreeName(name))
  {
    k := if name == "RGB" then 0 else if name == "HSL" then 1 else if name == "HSV" then 2 else if name == "RGBA" then 3
         else if name == "HSLA" then 4 else if name == "HSVA" then 5 else if name == "ARGB" then 6 else if name == "AHSL" then 7 else 8;
  }

  lemma UnaryPlace(name: string) returns (k: nat)
    requires UnaryName(name)
    ensures k < |UNARY_FUNCTIONS| && UNARY_FUNCTIONS[k] == name
  {
    k := if name == "Lighten" then 0 else if name == "Darken" then 1 else if name == "SetLightness" then 2
         else if name == "Saturate" then 3 else if name == "Desaturate" then 4 else if name == "SetSaturation" then 5
         else if name == "Fadein" then 6 else if name == "FadeOut" then 7 else if name == "SetAlpha" then 8
         else if name == "Spin" then 9 else 10;
  }

  lemma LiteralDiffer(i: nat, k: nat)
    requires i < k < |LITERAL_FUNCTIONS|
    ensures !SameName(LITERAL_FUNCTIONS[i], LITERAL_FUNCTIONS[k])
  {
    var a, b := LITERAL_FUNCTIONS[i], LITERAL_FUNCTIONS[k];
    if SameName(a, b) {
      SameNameLooks(a, b);
      SameNameAt(a, b, 2);
      SameNameAt(a, b, |a| - 1);
    }
  }

  lemma SameNameAt(a: string, b: string, i: nat)
    requires SameName(a, b) && i < |a| && i < |b|
    ensures LowerChar(a[i]) == LowerChar(b[i])
  {
    assert Lower(a)[i] == Lower(b)[i];
  }

  lemma LiteralIsNotUnary(i: nat, k: nat)
    requires i < |LITERAL_FUNCTIONS| && k < |UNARY_FUNCTIONS|
    ensures !SameName(LITERAL_FUNCTIONS[i], UNARY_FUNCTIONS[k])
  {
    if SameName(LITERAL_FUNCTIONS[i], UNARY_FUNCTIONS[k]) {
      SameNameLooks(LITERAL_FUNCTIONS[i], UNARY_FUNCTIONS[k]);
    }
  }

  lemma UnaryDiffer(i: nat, k: nat)
    requires i < k < |UNARY_FUNCTIONS|
    ensures !SameName(UNARY_FUNCTIONS[i], UNARY_FUNCTIONS[k])
  {
    if SameName(UNARY_FUNCTIONS[i], UNARY_FUNCTIONS[k]) {
      SameNameLooks(UNARY_FUNCTIONS[i], UNARY_FUNCTIONS[k]);
    }
  }

  lemma MixIsNeither(name: string)
    requires ThreeName(name) || FourName(name) || UnaryName(name)
    ensures !SameName(name, "Mix")
  {
    if SameName(name, "Mix") {
      SameNameLooks(name, "Mix");
    }
  }

  lemma LiteralCallFound(s: string, k: nat)
    requires k < |LITERAL_FUNCTIONS| && IsFunctionOf(s, LITERAL_FUNCTIONS[k])
    ensures FindFunction(LITERAL_FUNCTIONS, s) == Some(k)
  {
    hide *;
    NamesArePlain();
    LiteralTable();
    forall i | 0 <= i < k ensures !IsFunctionOf(s, LITERAL_FUNCTIONS[i]) {
      CallTellsName(s, LITERAL_FUNCTIONS[k], LITERAL_FUNCTIONS[i]);
      LiteralDiffer(i, k);
    }
    FoundAt(LITERAL_FUNCTIONS, s, k);
  }

  lemma UnaryCallFound(s: string, k: nat)
    requires k < |UNARY_FUNCTIONS| && IsFunctionOf(s, UNARY_FUNCTIONS[k])
    ensures FindFunction(LITERAL_FUNCTIONS, s) == None && FindFunction(UNARY_FUNCTIONS, s) == Some(k)
  {
    hide *;
    NamesArePlain();
    LiteralTable();
    UnaryTable();
    forall i | 0 <= i < |LITERAL_FUNCTIONS| ensures !IsFunctionOf(s, LITERAL_FUNCTIONS[i]) {
      CallTellsName(s, UNARY_FUNCTIONS[k], LITERAL_FUNCTIONS[i]);
      LiteralIsNotUnary(i, k);
    }
    forall i | 0 <= i < k ensures !IsFunctionOf(s, UNARY_FUNCTIONS[i]) {
      CallTellsName(s, UNARY_FUNCTIONS[k], UNARY_FUNCTIONS[i]);
      UnaryDiffer(i, k);
    }
    NotFound(LITERAL_FUNCTIONS, s);
    FoundAt(UNARY_FUNCTIONS, s, k);
  }

  lemma MixCallFound(s: string)
    requires IsFunctionOf(s, "Mix")
    ensures FindFunction(LITERAL_FUNCTIONS, s) == None && FindFunction(UNARY_FUNCTIONS, s) == None
  {
    hide *;
    NamesArePlain();
    LiteralTable();
    UnaryTable();
    forall i | 0 <= i < |LITERAL_FUNCTIONS| ensures !IsFunctionOf(s, LITERAL_FUNCTIONS[i]) {
      CallTellsName(s, "Mix", LITERAL_FUNCTIONS[i]);
      MixIsNeither(LITERAL_FUNCTIONS[i]);
    }
    forall i | 0 <= i < |UNARY_FUNCTIONS| ensures !IsFunctionOf(s, UNARY_FUNCTIONS[i]) {
      CallTellsName(s, "Mix", UNARY_FUNCTIONS[i]);
      MixIsNeither(UNARY_FUNCTIONS[i]);
    }
    NotFound(LITERAL_FUNCTIONS, s);
    NotFound(UNARY_FUNCTIONS, s);
  }

  // ----- What a string stands for, by the name in front of it

  lemma NamesStartWithLetters(name: string)
    requires ThreeName(name) || FourName(name) || UnaryName(name) || name == "Mix" || name == "DWMColor"
    ensures |name| > 1 && 'A' <= name[0] <= 'Z'
  {
  }

  /** A call of a name that starts with a letter starts with a letter, too. */
  lemma CallStarts(s: string, name: string)
    requires IsFunctionOf(s, name) && |name| > 1 && 'A' <= name[0] <= 'Z'
    ensures s != "" && s[0] != '#' && '(' in s
  {
    CallHasParen(s, name);
    SameNameLooks(s[..|name|], name);
  }

  /** A call of a literal function is a color exactly if it has the right number of parameters,
      three or four, and the function takes them. */
  lemma LiteralCalls(lib: Lib, s: string, func: string)
    requires (ThreeName(func) || FourName(func)) && IsFunctionOf(s, func)
    ensures s != "" && '(' in s
    ensures var n := if ThreeName(func) then 3 else 4; var params := ParametersOf(s, n);
            ParseTree(lib, s) == if |params| == n && lib.literal(func, params).Some? then Some(Const(lib.literal(func, params).value)) else None
  {
    hide ThreeName, FourName, LITERAL_FUNCTIONS, UNARY_FUNCTIONS, FindFunction, IsFunctionOf, ParametersOf, ParseHex;
    NamesStartWithLetters(func);
    CallStarts(s, func);
    var k := LiteralPlace(func);
    LiteralCallFound(s, k);
  }

  lemma UnaryCallForm(lib: Lib, s: string, func: string)
    requires UnaryName(func) && IsFunctionOf(s, func)
    ensures s != "" && '(' in s
    ensures var params := ParametersOf(s, 2);
            FormOf(lib, s) == if |params| == 2 && params[1] != "" && lib.amount(params[1]).Some?
                              then UnaryForm(func, params[0], lib.amount(params[1]).value) else NoColor
  {
    hide UnaryName, LITERAL_FUNCTIONS, UNARY_FUNCTIONS, FindFunction, IsFunctionOf, ParametersOf, ParseHex;
    NamesStartWithLetters(func);
    CallStarts(s, func);
    var k := UnaryPlace(func);
    UnaryCallFound(s, k);
  }

  /** A call of a unary function is a color exactly if it has two parameters, a color and an amount. */
  lemma UnaryCalls(lib: Lib, s: string, func: string)
    requires UnaryName(func) && IsFunctionOf(s, func)
    ensures s != "" && '(' in s
    ensures var params := ParametersOf(s, 2);
            ParseTree(lib, s) ==
              if |params| == 2 && ParseTree(lib, params[0]).Some? && params[1] != "" && lib.amount(params[1]).Some?
              then Some(Apply(func, ParseTree(lib, params[0]).value, lib.amount(params[1]).value)) else None
  {
    hide FormOf, IsFunctionOf, ParametersOf, UnaryName;
    UnaryCallForm(lib, s, func);
  }

  lemma MixCallForm(lib: Lib, s: string)
    requires IsFunctionOf(s, "Mix")
    ensures s != "" && '(' in s
    ensures var params := ParametersOf(s, 3);
            FormOf(lib, s) == if |params| == 3 && lib.weight(params[2]).Some? then MixForm(params[0], params[1], lib.weight(params[2]).value) else NoColor
  {
    hide LITERAL_FUNCTIONS, UNARY_FUNCTIONS, FindFunction, IsFunctionOf, ParametersOf, ParseHex;
    NamesStartWithLetters("Mix");
    CallStarts(s, "Mix");
    MixCallFound(s);
  }

  /** A call of Mix is a color exactly if it has three parameters, two colors and a weight. */
  lemma MixCalls(lib: Lib, s: string)
    requires IsFunctionOf(s, "Mix")
    ensures s != "" && '(' in s
    ensures var params := ParametersOf(s, 3);
            ParseTree(lib, s) ==
              if |params| == 3 && ParseTree(lib, params[0]).Some? && ParseTree(lib, params[1]).Some? && lib.weight(params[2]).Some?
              then Some(Mix(ParseTree(lib, params[0]).value, ParseTree(lib, params[1]).value, lib.weight(params[2]).value)) else None
  {
    hide FormOf, IsFunctionOf, ParametersOf;
    MixCallForm(lib, s);
  }

  /** Any other string that is not in hexadecimal notation is the DWM color or a named color, or
      no color. */
  lemma OtherStrings(lib: Lib, s: string)
    requires s != "" && s[0] != '#' && !IsFunctionOf(s, "Mix")
    requires forall name :: ThreeName(name) || FourName(name) || UnaryName(name) ==> !IsFunctionOf(s, name)
    ensures ParseTree(lib, s) ==
              if SameName(s, "DWMColor") then Some(DwmColor)
              else if lib.named(s).Some? then Some(Const(lib.named(s).value)) else None
  {
    hide ThreeName, FourName, UnaryName, LITERAL_FUNCTIONS, UNARY_FUNCTIONS, FindFunction, IsFunctionOf, ParametersOf, ParseHex, SameName;
    LiteralTable();
    UnaryTable();
    NotFound(LITERAL_FUNCTIONS, s);
    NotFound(UNARY_FUNCTIONS, s);
  }

  // ----- The round trip

  /** What a written expression starts with. */
  lemma PrintLooks(lib: Lib, w: Written)
    requires Valid(lib, w)
    ensures Print(lib, w) != "" && !IsBlank(Print(lib, w)[0]) && (Print(lib, w)[0] == '#' <==> w.Hex?)
  {
    hide ThreeName, FourName, UnaryName, SameName, Plain, Blanks, Parameter, Closing, Three, PrintHex, Tree;
    match w
    case Hex(value) => var _ := PrintHex(value);
    case DwmName(name) => NameLooks(name, "DWMColor");
    case Named(_) =>
    case ThreeCall(func, name, _, _, _, _, _) => NameLooks(name, func);
    case FourCall(func, name, _, _, _, _, _, _, _) => NameLooks(name, func);
    case Call(func, name, _, _, _) => NameLooks(name, func);
    case MixCall(name, _, _, _, _, _) => NameLooks(name, "Mix");
  }

  lemma NameLooks(name: string, func: string)
    requires ThreeName(func) || FourName(func) || UnaryName(func) || func == "Mix" || func == "DWMColor"
    requires SameName(name, func)
    ensures Plain(name) && name != "" && name[0] != '#' && !IsBlank(name[0])
  {
    hide ThreeName, FourName, UnaryName, Plain, SameName;
    NamesArePlain();
    NamesStartWithLetters(func);
    SamePlain(name, func);
    SameNameLooks(name, func);
  }

  lemma CallIsFunctionOf(name: string, func: string, rest: string)
    requires rest != "" && rest[|rest| - 1] == ')' && SameName(name, func)
    ensures IsFunctionOf(Opening(name, rest), func)
  {
    var s := Opening(name, rest);
    assert |Lower(name)| == |Lower(func)|;
    assert s[..|name|] == name;
  }

  lemma CallEnds(p: string, gap: string, token: string)
    ensures var rest := Parameter(p, gap, Closing(token)); rest != "" && rest[|rest| - 1] == ')'
  {
  }

  lemma LongerCallEnds(p: string, gap: string, rest: string)
    requires rest != "" && rest[|rest| - 1] == ')'
    ensures var longer := Parameter(p, gap, rest); longer != "" && longer[|longer| - 1] == ')'
  {
  }

  lemma ThreeEnds(p: string, gap1: string, q: string, gap2: string, r: string)
    ensures var rest := Three(p, gap1, q, gap2, r); rest != "" && rest[|rest| - 1] == ')'
  {
    hide Parameter, Closing;
    CallEnds(q, gap2, r);
    LongerCallEnds(p, gap1, Parameter(q, gap2, Closing(r)));
  }

  lemma UnaryParses(lib: Lib, func: string, name: string, p: string, arg: Expr, gap: string, amount: string)
    requires UnaryName(func) && SameName(name, func)
    requires Blanks(gap) && Token(amount) && lib.amount(amount).Some? && Scan(p, 0) == Some(0)
    ensures ParseTree(lib, p) == Some(arg) ==>
              ParseTree(lib, Opening(name, Parameter(p, gap, Closing(amount)))) == Some(Apply(func, arg, lib.amount(amount).value))
  {
    hide ParseTree, ParametersOf, Scan, Plain, IsFunctionOf, IsBlank, Blanks, UnaryName, SameName, Opening, Parameter, Closing;
    NameLooks(name, func);
    TwoParams(name, p, gap, amount);
    CallEnds(p, gap, amount);
    CallIsFunctionOf(name, func, Parameter(p, gap, Closing(amount)));
    UnaryCalls(lib, Opening(name, Parameter(p, gap, Closing(amount))), func);
  }

  lemma MixParses(lib: Lib, name: string, p: string, arg1: Expr, gap1: string, q: string, arg2: Expr, gap2: string, weight: string)
    requires SameName(name, "Mix")
    requires Blanks(gap1) && Blanks(gap2) && Token(weight) && lib.weight(weight).Some? && q != "" && !IsBlank(q[0])
    requires Scan(p, 0) == Some(0) && Scan(q, 0) == Some(0)
    ensures ParseTree(lib, p) == Some(arg1) && ParseTree(lib, q) == Some(arg2) ==>
              ParseTree(lib, Opening(name, Three(p, gap1, q, gap2, weight))) == Some(Mix(arg1, arg2, lib.weight(weight).value))
  {
    hide ParseTree, ParametersOf, Scan, Plain, IsFunctionOf, IsBlank, Blanks, SameName, Opening, Three;
    NameLooks(name, "Mix");
    ThreeParams(name, p, gap1, q, gap2, weight);
    ThreeEnds(p, gap1, q, gap2, weight);
    CallIsFunctionOf(name, "Mix", Three(p, gap1, q, gap2, weight));
    MixCalls(lib, Opening(name, Three(p, gap1, q, gap2, weight)));
  }

  lemma ThreeParses(lib: Lib, func: string, name: string, p: string, gap1: string, q: string, gap2: string, r: string)
    requires ThreeName(func) && SameName(name, func) && Blanks(gap1) && Blanks(gap2) && Token(p) && Token(q) && Token(r)
    requires lib.literal(func, [p, q, r]).Some?
    ensures ParseTree(lib, Opening(name, Three(p, gap1, q, gap2, r))) == Some(Const(lib.literal(func, [p, q, r]).value))
  {
    hide ParseTree, ParametersOf, Scan, Plain, IsFunctionOf, IsBlank, Blanks, ThreeName, FourName, SameName, Opening, Three;
    NameLooks(name, func);
    PlainScans(p, 0);
    PlainScans(q, 0);
    ThreeParams(name, p, gap1, q, gap2, r);
    ThreeEnds(p, gap1, q, gap2, r);
    CallIsFunctionOf(name, func, Three(p, gap1, q, gap2, r));
    LiteralCalls(lib, Opening(name, Three(p, gap1, q, gap2, r)), func);
  }

  lemma FourParses(lib: Lib, func: string, name: string, p: string, gap1: string, q: string, gap2: string, r: string, gap3: string, t: string)
    requires FourName(func) && SameName(name, func) && Blanks(gap1) && Blanks(gap2) && Blanks(gap3)
    requires Token(p) && Token(q) && Token(r) && Token(t) && lib.literal(func, [p, q, r, t]).Some?
    ensures ParseTree(lib, Opening(name, Parameter(p, gap1, Three(q, gap2, r, gap3, t)))) == Some(Const(lib.literal(func, [p, q, r, t]).value))
  {
    hide ParseTree, ParametersOf, Scan, Plain, IsFunctionOf, IsBlank, Blanks, ThreeName, FourName, SameName, Opening, Parameter, Three;
    var rest := Three(q, gap2, r, gap3, t);
    NameLooks(name, func);
    NotBoth(func);
    PlainScans(p, 0);
    PlainScans(q, 0);
    PlainScans(r, 0);
    FourParams(name, p, gap1, q, gap2, r, gap3, t);
    ThreeEnds(q, gap2, r, gap3, t);
    LongerCallEnds(p, gap1, rest);
    CallIsFunctionOf(name, func, Parameter(p, gap1, rest));
    LiteralCalls(lib, Opening(name, Parameter(p, gap1, rest)), func);
  }

  lemma NotBoth(func: string)
    ensures FourName(func) ==> !ThreeName(func)
  {
  }

  lemma PlainParses(lib: Lib, s: string)
    requires s != "" && s[0] != '#' && Plain(s)
    ensures ParseTree(lib, s) ==
              if SameName(s, "DWMColor") then Some(DwmColor)
              else if lib.named(s).Some? then Some(Const(lib.named(s).value)) else None
  {
    hide ParseTree, SameName, ThreeName, FourName, UnaryName;
    OtherStrings(lib, s);
  }

  /** Every written expression, nested to any depth, parses to exactly its tree. */
  lemma {:induction false} WrittenParses(lib: Lib, w: Written)
    requires Valid(lib, w)
    ensures ParseTree(lib, Print(lib, w)) == Some(Tree(lib, w))
    decreases w
  {
    hide ParseTree, Scan, Blanks, Plain, IsBlank, ThreeName, FourName, UnaryName, SameName, Opening, Parameter, Closing, Three, PrintHex;
    match w
    case Hex(value) => HexParses(lib, value);
    case DwmName(name) =>
      NameLooks(name, "DWMColor");
      PlainParses(lib, name);
    case Named(name) => PlainParses(lib, name);
    case ThreeCall(func, name, p, gap1, q, gap2, r) => ThreeParses(lib, func, name, p, gap1, q, gap2, r);
    case FourCall(func, name, p, gap1, q, gap2, r, gap3, t) => FourParses(lib, func, name, p, gap1, q, gap2, r, gap3, t);
    case Call(func, name, arg, gap, amount) =>
      WrittenParses(lib, arg);
      PrintScans(lib, arg, 0);
      UnaryParses(lib, func, name, Print(lib, arg), Tree(lib, arg), gap, amount);
    case MixCall(name, arg1, gap1, arg2, gap2, weight) =>
      WrittenParses(lib, arg1);
      WrittenParses(lib, arg2);
      PrintScans(lib, arg1, 0);
      PrintScans(lib, arg2, 0);
      PrintLooks(lib, arg2);
      MixParses(lib, name, Print(lib, arg1), Tree(lib, arg1), gap1, Print(lib, arg2), Tree(lib, arg2), gap2, weight);
  }

  lemma HexParses(lib: Lib, value: Argb)
    ensures ParseTree(lib, PrintHex(value)) == Some(Const(value))
  {
    hide ParseHex, PrintHex;
    HexRoundTrip(lib, value);
  }

  /** Parsing a written expression gives a value that has, for every DWM color, the color of the
      expression as written, and that is constant exactly when the DWM color is not in it. */
  lemma WrittenColors(lib: Lib, w: Written, dwmColor: Argb)
    requires Valid(lib, w)
    ensures ParseColor(lib, Print(lib, w)).Some?
    ensures ParseColor(lib, Print(lib, w)).value.Evaluate(lib, dwmColor) == Tree(lib, w).Meaning(lib, dwmColor)
    ensures ParseColor(lib, Print(lib, w)).value.IsConstant() <==> !Tree(lib, w).MentionsDwm()
  {
    hide ParseColor, ParseTree;
    WrittenParses(lib, w);
    ParsedValue(lib, Print(lib, w), dwmColor);
  }

  /** The colors are mixed in the order they are written in. */
  lemma MixedInOrder(lib: Lib, a: Argb, gap1: string, gap2: string, weight: string, dwmColor: Argb)
    requires Blanks(gap1) && Blanks(gap2) && Token(weight) && lib.weight(weight).Some?
    ensures var color := ParseColor(lib, "Mix(" + PrintHex(a) + "," + gap1 + "DWMColor," + gap2 + weight + ")");
            color.Some? && color.value.Evaluate(lib, dwmColor) == lib.mix(a, dwmColor, lib.weight(weight).value)
  {
    hide ParseColor, Blanks, Token, PrintHex, SameName;
    assert SameName("Mix", "Mix") && SameName("DWMColor", "DWMColor") by { SameAsItself("Mix"); SameAsItself("DWMColor"); }
    var w := MixCall("Mix", Hex(a), gap1, DwmName("DWMColor"), gap2, weight);
    WrittenColors(lib, w, dwmColor);
    MixIsWritten(PrintHex(a), gap1, gap2, weight);
  }

  /** A unary function is applied to its color, with its amount. */
  lemma AppliedByName(lib: Lib, func: string, gap: string, amount: string, dwmColor: Argb)
    requires UnaryName(func) && Blanks(gap) && Token(amount) && lib.amount(amount).Some?
    ensures var color := ParseColor(lib, func + "(" + "DWMColor," + gap + amount + ")");
            color.Some? && color.value.Evaluate(lib, dwmColor) == lib.unary(func, dwmColor, lib.amount(amount).value)
  {
    hide ParseColor, Blanks, Token, SameName, UnaryName;
    SameAsItself(func);
    SameAsItself("DWMColor");
    WrittenColors(lib, Call(func, func, DwmName("DWMColor"), gap, amount), dwmColor);
    CallIsWritten(func, gap, amount);
  }

  lemma CallIsWritten(func: string, gap: string, amount: string)
    ensures func + "(" + "DWMColor," + gap + amount + ")" == Opening(func, Parameter("DWMColor", gap, Closing(amount)))
  {
    assert "DWMColor" + "," + gap + (amount + ")") == "DWMColor," + gap + amount + ")";
    assert func + "(" + ("DWMColor," + gap + amount + ")") == func + "(" + "DWMColor," + gap + amount + ")";
  }

  lemma SameAsItself(name: string)
    ensures SameName(name, name)
  {
  }

  lemma MixIsWritten(p: string, gap1: string, gap2: string, weight: string)
    ensures "Mix(" + p + "," + gap1 + "DWMColor," + gap2 + weight + ")" == Opening("Mix", Three(p, gap1, "DWMColor", gap2, weight))
  {
    var s := "Mix(" + p + "," + gap1;
    assert s + "DWMColor," + gap2 + weight + ")" == s + ("DWMColor" + "," + gap2 + (weight + ")"));
    assert s + ("DWMColor" + "," + gap2 + (weight + ")")) == "Mix" + "(" + (p + "," + gap1 + ("DWMColor" + "," + gap2 + (weight + ")")));
  }
}
