/** Color values (the ColorVal classes of nShared): constants, the DWM color, and functions of
    colors. */
module Colors {
  import opened Text

  type Argb = bv32

  /** What is taken from outside: the color functions themselves (by their names), the
      number parsers of the C library, and the named colors. */
  datatype Lib = Lib(
    literal: (string, seq<string>) -> Option<Argb>,
    unary: (string, Argb, int) -> Argb,
    mix: (Argb, Argb, int) -> Argb,
    amount: string -> Option<int>,
    weight: string -> Option<int>,
    oddHex: string -> Option<Argb>,
    named: string -> Option<Argb>
  )

  datatype ColorVal =
    | LiteralColorVal(value: Argb)
    | DwmColorVal
    | UnaryColorVal(func: string, color: ColorVal, amount: int)
    | BinaryColorVal(color1: ColorVal, color2: ColorVal, weight: int)
  {
    predicate IsConstant() {
      LiteralColorVal?
    }

    function Evaluate(lib: Lib, dwmColor: Argb): Argb {
      match this
      case LiteralColorVal(value) => value
      case DwmColorVal => dwmColor
      case UnaryColorVal(func, color, amount) => lib.unary(func, color.Evaluate(lib, dwmColor), amount)
      case BinaryColorVal(color1, color2, weight) =>
        lib.mix(color1.Evaluate(lib, dwmColor), color2.Evaluate(lib, dwmColor), weight)
    }

    /** Evaluation against the color the system reports. When the intensity is very high the
        system drops the alpha to zero. */
    function EvaluateNow(lib: Lib, reported: Argb): Argb {
      match this
      case LiteralColorVal(value) => value
      case DwmColorVal => if reported >> 24 == 0 && reported != 0 then reported | 0xFF000000 else reported
      case UnaryColorVal(func, color, amount) => lib.unary(func, color.EvaluateNow(lib, reported), amount)
      case BinaryColorVal(color1, color2, weight) =>
        lib.mix(color1.EvaluateNow(lib, reported), color2.EvaluateNow(lib, reported), weight)
    }

    function Copy(): ColorVal {
      match this
      case LiteralColorVal(value) => LiteralColorVal(value)
      case DwmColorVal => DwmColorVal
      case UnaryColorVal(func, color, amount) => UnaryColorVal(func, color.Copy(), amount)
      case BinaryColorVal(color1, color2, weight) => BinaryColorVal(color1.Copy(), color2.Copy(), weight)
    }
  }

  lemma {:induction false} CopyIsSame(v: ColorVal)
    ensures v.Copy() == v
  {
    match v
    case LiteralColorVal(_) =>
    case DwmColorVal =>
    case UnaryColorVal(_, color, _) => CopyIsSame(color);
    case BinaryColorVal(color1, color2, _) => CopyIsSame(color1); CopyIsSame(color2);
  }

  /** The two ways of evaluating agree on the corrected system color. */
  lemma {:induction false} EvaluateNowCorrects(v: ColorVal, lib: Lib, reported: Argb)
    ensures v.EvaluateNow(lib, reported) == v.Evaluate(lib, ColorVal.DwmColorVal.EvaluateNow(lib, reported))
  {
    match v
    case LiteralColorVal(_) =>
    case DwmColorVal =>
    case UnaryColorVal(_, color, _) => EvaluateNowCorrects(color, lib, reported);
    case BinaryColorVal(color1, color2, _) =>
      EvaluateNowCorrects(color1, lib, reported);
      EvaluateNowCorrects(color2, lib, reported);
  }

  /** The corrected color keeps the lower 24 bits. */
  lemma CorrectedColor(lib: Lib, reported: Argb)
    ensures ColorVal.DwmColorVal.EvaluateNow(lib, reported) & 0x00FFFFFF == reported & 0x00FFFFFF
  {
  }

  /** It is opaque instead of fully transparent, and otherwise as reported; zero stays zero. */
  lemma CorrectedAlpha(lib: Lib, reported: Argb)
    ensures var alpha := ColorVal.DwmColorVal.EvaluateNow(lib, reported) >> 24;
            if reported == 0 then alpha == 0 else if reported >> 24 == 0 then alpha == 0xFF else alpha == reported >> 24
  {
  }

  // ----- Color expressions, and what folding constants makes of them

  datatype Expr =
    | Const(value: Argb)
    | DwmColor
    | Apply(func: string, arg: Expr, amount: int)
    | Mix(arg1: Expr, arg2: Expr, weight: int)
  {
    function Meaning(lib: Lib, dwmColor: Argb): Argb {
      match this
      case Const(value) => value
      case DwmColor => dwmColor
      case Apply(func, arg, amount) => lib.unary(func, arg.Meaning(lib, dwmColor), amount)
      case Mix(arg1, arg2, weight) => lib.mix(arg1.Meaning(lib, dwmColor), arg2.Meaning(lib, dwmColor), weight)
    }

    predicate MentionsDwm() {
      match this
      case Const(_) => false
      case DwmColor => true
      case Apply(_, arg, _) => arg.MentionsDwm()
      case Mix(arg1, arg2, _) => arg1.MentionsDwm() || arg2.MentionsDwm()
    }
  }

  /** The value of a unary function call: computed at once when its argument is constant. */
  function FoldUnary(lib: Lib, func: string, color: ColorVal, amount: int): ColorVal {
    if color.IsConstant() then LiteralColorVal(lib.unary(func, color.value, amount))
    else UnaryColorVal(func, color, amount)
  }

  function FoldBinary(lib: Lib, color1: ColorVal, color2: ColorVal, weight: int): ColorVal {
    if color1.IsConstant() && color2.IsConstant() then LiteralColorVal(lib.mix(color1.value, color2.value, weight))
    else BinaryColorVal(color1, color2, weight)
  }

  function Fold(lib: Lib, e: Expr): ColorVal {
    match e
    case Const(value) => LiteralColorVal(value)
    case DwmColor => DwmColorVal
    case Apply(func, arg, amount) => FoldUnary(lib, func, Fold(lib, arg), amount)
    case Mix(arg1, arg2, weight) => FoldBinary(lib, Fold(lib, arg1), Fold(lib, arg2), weight)
  }

  /** Folding changes no color, and leaves a constant exactly where nothing depends on the DWM
      color. */
  lemma {:induction false} FoldPreserves(lib: Lib, e: Expr, dwmColor: Argb)
    ensures Fold(lib, e).Evaluate(lib, dwmColor) == e.Meaning(lib, dwmColor)
    ensures Fold(lib, e).IsConstant() <==> !e.MentionsDwm()
  {
    match e
    case Const(_) =>
    case DwmColor =>
    case Apply(_, arg, _) => FoldPreserves(lib, arg, dwmColor);
    case Mix(arg1, arg2, _) =>
      FoldPreserves(lib, arg1, dwmColor);
      FoldPreserves(lib, arg2, dwmColor);
  }
}
