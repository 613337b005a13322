/** The color parser (nShared/ColorParser.cpp). */
module ColorParser {
  import opened Text
  import opened Colors
  import opened HexColors

  const LITERAL_FUNCTIONS: seq<string> := ["RGB", "HSL", "HSV", "RGBA", "HSLA", "HSVA", "ARGB", "AHSL", "AHSV"]

  const UNARY_FUNCTIONS: seq<string> := ["Lighten", "Darken", "SetLightness", "Saturate", "Desaturate",
    "SetSaturation", "Fadein", "FadeOut", "SetAlpha", "Spin", "SetHue"]

  const MIX := "Mix"

  const DWM_COLOR := "DWMColor"

  function NumParams(literal: nat): nat {
    if literal < 3 then 3 else 4
  }

  // ----- Function calls in strings

  predicate IsFunctionOf(source: string, name: string) {
    && |name| < |source|
    && SameName(source[..|name|], name)
    && source[|name|] == '('
    && source[|source| - 1] == ')'
  }

  /** The first of `names` that `source` is a call of. */
  function FindFunction(names: seq<string>, source: string): (r: Option<nat>)
    ensures r.Some? ==> r.value < |names| && IsFunctionOf(source, names[r.value])
  {
    if names == [] then None
    else if IsFunctionOf(source, names[0]) then Some(0)
    else
      match FindFunction(names[1..], source)
      case None => None
      case Some(k) => Some(k + 1)
  }

  function SkipBlanks(s: string, pos: nat): (r: nat)
    requires pos <= |s|
    ensures pos <= r <= |s|
    decreases |s| - pos
  {
    if pos < |s| && (s[pos] == ' ' || s[pos] == '\t') then SkipBlanks(s, pos + 1) else pos
  }

  lemma SkipOne(s: string, pos: nat)
    requires pos <= |s|
    ensures if pos < |s| && (s[pos] == ' ' || s[pos] == '\t') then SkipBlanks(s, pos) == SkipBlanks(s, pos + 1)
            else SkipBlanks(s, pos) == pos
  {
  }

  /** At most `left` parameters, scanning on from `pos` in the parameter that starts at `start`,
      `depth` parentheses deep. Only commas and closing parentheses at depth zero end one. */
  function Params(s: string, start: nat, pos: nat, depth: nat, left: nat): (r: seq<string>)
    requires start <= pos <= |s|
    ensures |r| <= left
    ensures start > 0 ==> forall p :: p in r ==> |p| < |s|
    decreases |s| - pos
  {
    if left == 0 || pos == |s| then []
    else if s[pos] == '(' then Params(s, start, pos + 1, depth + 1, left)
    else if s[pos] == ',' && depth == 0 then
      var next := SkipBlanks(s, pos + 1);
      [s[start..pos]] + Params(s, next, next, 0, left - 1)
    else if s[pos] == ')' then
      if depth == 0 then [s[start..pos]] else Params(s, start, pos + 1, depth - 1, left)
    else Params(s, start, pos + 1, depth, left)
  }

  function FirstParen(s: string): (r: nat)
    ensures r <= |s| && (r < |s| ==> s[r] == '(') && forall i :: 0 <= i < r ==> s[i] != '('
  {
    if s == [] || s[0] == '(' then 0 else 1 + FirstParen(s[1..])
  }

  function ParametersOf(source: string, max: nat): (r: seq<string>)
    requires '(' in source
    ensures |r| <= max && forall p :: p in r ==> |p| < |source|
  {
    var open := FirstParen(source);
    Params(source, open + 1, open + 1, 0, max)
  }

  /** One step of `Params`, seen from the parameters already found. */
  lemma ParamsStep(found: seq<string>, s: string, start: nat, pos: nat, depth: nat, left: nat)
    requires start <= pos <= |s|
    ensures left == 0 || pos == |s| ==> found + Params(s, start, pos, depth, left) == found
    ensures left > 0 && pos < |s| ==>
              found + Params(s, start, pos, depth, left) ==
                if s[pos] == '(' then found + Params(s, start, pos + 1, depth + 1, left)
                else if s[pos] == ',' && depth == 0 then
                  var next := SkipBlanks(s, pos + 1);
                  (found + [s[start..pos]]) + Params(s, next, next, 0, left - 1)
                else if s[pos] == ')' && depth == 0 then found + [s[start..pos]]
                else if s[pos] == ')' then found + Params(s, start, pos + 1, depth - 1, left)
                else found + Params(s, start, pos + 1, depth, left)
  {
  }

  /** The whitespace loop behind a comma. */
  method DropBlanks(source: string, start: nat) returns (pos: nat)
    requires start <= |source|
    ensures pos == SkipBlanks(source, start)
  {
    hide SkipBlanks;
    pos := start;
    SkipOne(source, pos);
    while pos < |source| && (source[pos] == ' ' || source[pos] == '\t')
      invariant start <= pos <= |source|
      invariant SkipBlanks(source, pos) == SkipBlanks(source, start)
    {
      SkipOne(source, pos);
      pos := pos + 1;
    }
    SkipOne(source, pos);
  }

  /** Grabs the first `maxParams` parameters of a call. */
  method GetParameters(source: string, maxParams: nat) returns (dests: seq<string>)
    requires '(' in source
    ensures dests == ParametersOf(source, maxParams)
  {
    hide Params, SkipBlanks;
    dests := [];
    var parenDepth := 0;
    var pos := FirstParen(source);
    var paramStart := pos + 1;
    ghost var whole := ParametersOf(source, maxParams);
    var done := false;
    assert dests + whole == whole;
    hide ParametersOf, FirstParen;
    while !done && |dests| < maxParams
      invariant 0 < paramStart <= pos + 1 <= |source| || done
      invariant |dests| <= maxParams && 0 <= parenDepth
      invariant done ==> whole == dests
      invariant !done ==> whole == dests + Params(source, paramStart, pos + 1, parenDepth, maxParams - |dests|)
      decreases !done, |source| - pos
    {
      pos := pos + 1;
      ParamsStep(dests, source, paramStart, pos, parenDepth, maxParams - |dests|);
      if pos == |source| {
        done := true;
      } else if source[pos] == '(' {
        parenDepth := parenDepth + 1;
      } else if source[pos] == ',' {
        if parenDepth == 0 {
          dests := dests + [source[paramStart..pos]];
          paramStart := DropBlanks(source, pos + 1);
          pos := paramStart - 1;
        }
      } else if source[pos] == ')' {
        if parenDepth == 0 {
          dests := dests + [source[paramStart..pos]];
          done := true;
        } else {
          parenDepth := parenDepth - 1;
        }
      }
    }
    if !done {
      ParamsStep(dests, source, paramStart, pos + 1, parenDepth, 0);
    }
  }

  // ----- The parser

  lemma CallHasParen(source: string, name: string)
    requires IsFunctionOf(source, name)
    ensures '(' in source
  {
    assert source[|name|] in source;
  }

  /** What a string is at first sight: a constant, the DWM color, or a call whose arguments are
      strings still to be read. */
  datatype Form =
    | NoColor
    | ConstantForm(value: Argb)
    | DwmForm
    | UnaryForm(func: string, color: string, amount: int)
    | MixForm(color1: string, color2: string, weight: int)

  function FormOf(lib: Lib, color: string): (r: Form)
    ensures r.UnaryForm? ==> |r.color| < |color|
    ensures r.MixForm? ==> |r.color1| < |color| && |r.color2| < |color|
  {
    if color == "" then NoColor
    else if color[0] == '#' then Constant(ParseHex(lib, color))
    else
      match FindFunction(LITERAL_FUNCTIONS, color)
      case Some(k) =>
        CallHasParen(color, LITERAL_FUNCTIONS[k]);
        var params := ParametersOf(color, NumParams(k));
        if |params| == NumParams(k) then Constant(lib.literal(LITERAL_FUNCTIONS[k], params)) else NoColor
      case None =>
      match FindFunction(UNARY_FUNCTIONS, color)
      case Some(k) =>
        CallHasParen(color, UNARY_FUNCTIONS[k]);
        var params := ParametersOf(color, 2);
        if |params| != 2 || params[1] == "" || lib.amount(params[1]).None? then NoColor
        else
          assert params[0] in params;
          UnaryForm(UNARY_FUNCTIONS[k], params[0], lib.amount(params[1]).value)
      case None =>
      if IsFunctionOf(color, MIX) then
        CallHasParen(color, MIX);
        var params := ParametersOf(color, 3);
        if |params| != 3 || lib.weight(params[2]).None? then NoColor
        else
          assert params[0] in params && params[1] in params;
          MixForm(params[0], params[1], lib.weight(params[2]).value)
      else if SameName(color, DWM_COLOR) then DwmForm
      else Constant(lib.named(color))
  }

  function Constant(value: Option<Argb>): Form {
    if value.None? then NoColor else ConstantForm(value.value)
  }

  /** A string as a color value; calls with constant arguments are computed on the spot. */
  function ParseColor(lib: Lib, color: string): Option<ColorVal>
    decreases |color|
  {
    match FormOf(lib, color)
    case NoColor => None
    case ConstantForm(value) => Some(LiteralColorVal(value))
    case DwmForm => Some(DwmColorVal)
    case UnaryForm(func, inner, amount) =>
      (match ParseColor(lib, inner)
       case None => None
       case Some(value) => Some(FoldUnary(lib, func, value, amount)))
    case MixForm(inner1, inner2, weight) =>
      (match (ParseColor(lib, inner1), ParseColor(lib, inner2))
       case (Some(value1), Some(value2)) => Some(FoldBinary(lib, value1, value2, weight))
       case _ => None)
  }

  /** The expression a string stands for, with nothing computed. What it is good for is said by
      the expressions as written: they are read back as they are (ColorPrinting.WrittenParses). */
  function ParseTree(lib: Lib, color: string): Option<Expr>
    decreases |color|
  {
    match FormOf(lib, color)
    case NoColor => None
    case ConstantForm(value) => Some(Const(value))
    case DwmForm => Some(DwmColor)
    case UnaryForm(func, inner, amount) =>
      (match ParseTree(lib, inner)
       case None => None
       case Some(arg) => Some(Apply(func, arg, amount)))
    case MixForm(inner1, inner2, weight) =>
      (match (ParseTree(lib, inner1), ParseTree(lib, inner2))
       case (Some(arg1), Some(arg2)) => Some(Mix(arg1, arg2, weight))
       case _ => None)
  }

  /** Computing on the spot is folding the expression afterwards, and fails for the same strings. */
  lemma {:induction false} ParseIsFoldedTree(lib: Lib, color: string)
    ensures ParseColor(lib, color) ==
            match ParseTree(lib, color) case None => None case Some(e) => Some(Fold(lib, e))
    decreases |color|
  {
    hide FormOf, FoldUnary, FoldBinary;
    match FormOf(lib, color)
    case UnaryForm(_, inner, _) => ParseIsFoldedTree(lib, inner);
    case MixForm(inner1, inner2, _) =>
      ParseIsFoldedTree(lib, inner1);
      ParseIsFoldedTree(lib, inner2);
    case _ =>
  }

  /** What the caller sees: the parsed value has, for every DWM color, the color the string
      denotes, and it is constant exactly when the string does not mention the DWM color. */
  lemma ParsedValue(lib: Lib, color: string, dwmColor: Argb)
    ensures ParseColor(lib, color).Some? <==> ParseTree(lib, color).Some?
    ensures ParseColor(lib, color).Some? ==>
              var value, e := ParseColor(lib, color).value, ParseTree(lib, color).value;
              && value.Evaluate(lib, dwmColor) == e.Meaning(lib, dwmColor)
              && (value.IsConstant() <==> !e.MentionsDwm())
  {
    hide ParseColor, ParseTree;
    ParseIsFoldedTree(lib, color);
    if ParseTree(lib, color).Some? {
      FoldPreserves(lib, ParseTree(lib, color).value, dwmColor);
    }
  }
}
