/** The tokens of a dynamic text (nCore/ParsedText.cpp): what the parser finds in a string, and
    what evaluating the tokens gives. */
module DynamicText {
  /** A function is known by its name and its number of arguments. */
  datatype FunctionId = FunctionId(name: string, numArgs: nat)

  datatype Token =
    | TextToken(text: string)
    | ExpressionToken(func: FunctionId, text: string, args: seq<string>)

  /** Which characters are letters or digits depends on the locale; the signs of the syntax are
      neither. */
  type Alnum = p: char -> bool | !p('[') && !p(']') && !p('(') && !p('\'')
    witness c => false

  /** The first occurrence of `c` at or after `from`; `|text|` if there is none. */
  function Find(text: string, c: char, from: nat): (r: nat)
    requires from <= |text|
    ensures from <= r <= |text| && (r < |text| ==> text[r] == c)
    ensures forall i :: from <= i < r ==> text[i] != c
    decreases |text| - from
  {
    if from == |text| || text[from] == c then from else Find(text, c, from + 1)
  }

  predicate IsAt(text: string, i: nat, c: char) {
    i < |text| && text[i] == c
  }

  // ----- Reading one expression

  /** The outcome of reading an expression: its parts and its closing bracket, the position where
      reading failed, or an argument that is never closed. */
  datatype Attempt = Success(name: string, args: seq<string>, close: nat) | Failure(at: nat) | Unclosed

  /** An expression that starts at `open`, read from behind its opening bracket. The character
      right behind the bracket belongs to the name whatever it is; `pos` is the last one read. */
  function ReadName(alnum: Alnum, text: string, open: nat, pos: nat): (r: Attempt)
    requires open < pos <= |text|
    ensures r.Success? ==> open + 1 < r.close < |text| && text[r.close] == ']'
    ensures r.Failure? ==> open + 2 <= r.at <= |text| || r.at == |text|
    decreases |text| - pos
  {
    if pos == |text| then Failure(pos)
    else if IsAt(text, pos + 1, ']') then Success(text[open + 1..pos + 1], [], pos + 1)
    else if IsAt(text, pos + 1, '(') then
      if IsAt(text, pos + 2, '\'') then ReadArgs(text, open, text[open + 1..pos + 1], [], pos + 2)
      else Failure(pos + 2)
    else if pos + 1 == |text| || !alnum(text[pos + 1]) then Failure(pos + 1)
    else ReadName(alnum, text, open, pos + 1)
  }

  /** The arguments from the opening quote at `quote` on. */
  function ReadArgs(text: string, open: nat, name: string, args: seq<string>, quote: nat): (r: Attempt)
    requires open + 2 < quote < |text|
    ensures r.Success? ==> open + 2 < r.close < |text| && text[r.close] == ']'
    ensures r.Failure? ==> open + 2 <= r.at <= |text|
    decreases |text| - quote
  {
    var end := Find(text, '\'', quote + 1);
    if end == |text| then Unclosed
    else
      var more := args + [text[quote + 1..end]];
      if IsAt(text, end + 1, ',') then
        if !IsAt(text, end + 2, ' ') then Failure(end + 1)
        else if !IsAt(text, end + 3, '\'') then Failure(end + 2)
        else ReadArgs(text, open, name, more, end + 3)
      else if IsAt(text, end + 1, ')') then
        if IsAt(text, end + 2, ']') then Success(name, more, end + 2) else Failure(end + 2)
      else Failure(end + 1)
  }

  /** One step of `ReadArgs`. */
  lemma ReadArgsStep(text: string, open: nat, name: string, args: seq<string>, quote: nat, end: nat)
    requires open + 2 < quote < |text| && end == Find(text, '\'', quote + 1)
    ensures end == |text| ==> ReadArgs(text, open, name, args, quote) == Unclosed
    ensures IsAt(text, end + 1, ',') && IsAt(text, end + 2, ' ') && IsAt(text, end + 3, '\'') ==>
              ReadArgs(text, open, name, args, quote) == ReadArgs(text, open, name, args + [text[quote + 1..end]], end + 3)
    ensures IsAt(text, end + 1, ')') && IsAt(text, end + 2, ']') ==>
              ReadArgs(text, open, name, args, quote) == Success(name, args + [text[quote + 1..end]], end + 2)
    ensures IsAt(text, end + 1, ',') && IsAt(text, end + 2, ' ') && !IsAt(text, end + 3, '\'') ==>
              ReadArgs(text, open, name, args, quote) == Failure(end + 2)
    ensures IsAt(text, end + 1, ',') && !IsAt(text, end + 2, ' ') ==> ReadArgs(text, open, name, args, quote) == Failure(end + 1)
    ensures IsAt(text, end + 1, ')') && !IsAt(text, end + 2, ']') ==> ReadArgs(text, open, name, args, quote) == Failure(end + 2)
    ensures end < |text| && !IsAt(text, end + 1, ',') && !IsAt(text, end + 1, ')') ==>
              ReadArgs(text, open, name, args, quote) == Failure(end + 1)
  {
    hide Find;
  }

  /** One step of `ReadName`. */
  lemma ReadNameStep(alnum: Alnum, text: string, open: nat, pos: nat)
    requires open < pos <= |text|
    ensures pos == |text| ==> ReadName(alnum, text, open, pos) == Failure(pos)
    ensures IsAt(text, pos + 1, ']') ==> ReadName(alnum, text, open, pos) == Success(text[open + 1..pos + 1], [], pos + 1)
    ensures IsAt(text, pos + 1, '(') && IsAt(text, pos + 2, '\'') ==>
              ReadName(alnum, text, open, pos) == ReadArgs(text, open, text[open + 1..pos + 1], [], pos + 2)
    ensures IsAt(text, pos + 1, '(') && !IsAt(text, pos + 2, '\'') ==> ReadName(alnum, text, open, pos) == Failure(pos + 2)
    ensures pos + 1 == |text| ==> ReadName(alnum, text, open, pos) == Failure(pos + 1)
    ensures pos + 1 < |text| && text[pos + 1] != ']' && text[pos + 1] != '(' ==>
              ReadName(alnum, text, open, pos) == if alnum(text[pos + 1]) then ReadName(alnum, text, open, pos + 1) else Failure(pos + 1)
  {
    hide ReadArgs;
  }

  // ----- The tokens of a text

  function Tail(text: string, pos: nat): seq<Token>
    requires pos <= |text|
  {
    if pos < |text| then [TextToken(text[pos..])] else []
  }

  /** The tokens from `pos` on, when the next bracket is to be looked for from `from` on. */
  function Tokens(alnum: Alnum, text: string, pos: nat, from: nat): seq<Token>
    requires pos <= from <= |text|
    decreases |text| - from, 1
  {
    var open := Find(text, '[', from);
    if open == |text| then Tail(text, pos)
    else Resume(alnum, text, pos, open, ReadName(alnum, text, open, open + 1))
  }

  /** How the parser goes on after an expression at `open` was read, or failed to be read. A
      failed attempt is resumed one character before the place where it failed. */
  function Resume(alnum: Alnum, text: string, pos: nat, open: nat, attempt: Attempt): seq<Token>
    requires pos <= open < |text|
    requires attempt.Success? ==> open + 1 < attempt.close < |text|
    requires attempt.Failure? ==> open + 2 <= attempt.at <= |text| || attempt.at == |text|
    decreases |text| - open, 0
  {
    match attempt
    case Success(name, args, close) =>
      [TextToken(text[pos..open]), ExpressionToken(FunctionId(name, |args|), text[open + 1..close], args)]
      + Tokens(alnum, text, close + 1, close + 1)
    case Failure(at) => if at == |text| then Tail(text, pos) else Tokens(alnum, text, pos, at - 1)
    case Unclosed => Tail(text, pos)
  }

  function Parse(alnum: Alnum, text: string): seq<Token> {
    Tokens(alnum, text, 0, 0)
  }

  // ----- Well-formed expressions

  predicate Quotable(arg: string) {
    '\'' !in arg
  }

  predicate GoodName(alnum: Alnum, name: string) {
    name != "" && forall i :: 1 <= i < |name| ==> alnum(name[i])
  }

  function QuotedArgs(args: seq<string>): string {
    if args == [] then ""
    else "'" + args[0] + "'" + (if |args| == 1 then "" else ", " + QuotedArgs(args[1..]))
  }

  /** How a call is written between its brackets. */
  function CallText(name: string, args: seq<string>): string {
    if args == [] then name else name + "(" + QuotedArgs(args) + ")"
  }

  predicate GoodToken(alnum: Alnum, token: Token) {
    match token
    case TextToken(_) => true
    case ExpressionToken(func, text, args) =>
      && GoodName(alnum, func.name) && func.numArgs == |args| && (forall a :: a in args ==> Quotable(a))
      && text == CallText(func.name, args)
  }

  lemma {:induction false} QuotedArgsSnoc(args: seq<string>, last: string)
    ensures QuotedArgs(args + [last]) == (if args == [] then "" else QuotedArgs(args) + ", ") + "'" + last + "'"
    decreases |args|
  {
    var all := args + [last];
    if args == [] {
      assert all == [last];
    } else {
      var first := "'" + args[0] + "'";
      assert all[0] == args[0] && all[1..] == args[1..] + [last];
      QuotedArgsSnoc(args[1..], last);
      var quoted := "'" + last + "'";
      assert QuotedArgs(all) == first + (", " + QuotedArgs(args[1..] + [last]));
      if |args| == 1 {
        assert args[1..] + [last] == [last];
        assert first + (", " + quoted) == first + ", " + quoted;
      } else {
        JoinThree(first, QuotedArgs(args[1..]), last);
      }
    }
  }

  lemma JoinThree(first: string, middle: string, last: string)
    ensures first + (", " + (middle + ", " + "'" + last + "'")) == first + (", " + middle) + ", " + "'" + last + "'"
  {
  }

  // ----- What the tokens stand for

  /** The source text of tokens. */
  function Source(tokens: seq<Token>): string {
    if tokens == [] then ""
    else
      (match tokens[0]
       case TextToken(text) => text
       case ExpressionToken(_, text, _) => "[" + text + "]")
      + Source(tokens[1..])
  }

  lemma {:induction false} SourceAppend(a: seq<Token>, b: seq<Token>)
    ensures Source(a + b) == Source(a) + Source(b)
  {
    if a == [] {
      assert a + b == b;
    } else {
      assert (a + b)[1..] == a[1..] + b;
      SourceAppend(a[1..], b);
    }
  }

  lemma SourceOfTail(text: string, pos: nat)
    requires pos <= |text|
    ensures Source(Tail(text, pos)) == text[pos..]
  {
    if pos < |text| {
      assert Tail(text, pos)[1..] == [];
    }
  }

  /** Nothing of a text is lost or changed: its tokens spell it out, whatever was attempted. */
  lemma {:induction false} TokensSpellText(alnum: Alnum, text: string, pos: nat, from: nat)
    requires pos <= from <= |text|
    ensures Source(Tokens(alnum, text, pos, from)) == text[pos..]
    decreases |text| - from, 1
  {
    hide ReadName, Source, Tail;
    var open := Find(text, '[', from);
    if open == |text| {
      SourceOfTail(text, pos);
    } else {
      ResumeSpellsText(alnum, text, pos, open, ReadName(alnum, text, open, open + 1));
    }
  }

  lemma SplitAtExpression(text: string, pos: nat, open: nat, close: nat)
    requires pos <= open && open + 1 < close < |text| && text[open] == '[' && text[close] == ']'
    ensures text[pos..] == text[pos..open] + "[" + text[open + 1..close] + "]" + text[close + 1..]
  {
  }

  lemma SuccessSpells(text: string, pos: nat, open: nat, close: nat, func: FunctionId, args: seq<string>, rest: seq<Token>)
    requires pos <= open && open + 1 < close < |text| && text[open] == '[' && text[close] == ']'
    requires Source(rest) == text[close + 1..]
    ensures Source([TextToken(text[pos..open]), ExpressionToken(func, text[open + 1..close], args)] + rest) == text[pos..]
  {
    hide Source;
    SourceOfTwo(text[pos..open], func, text[open + 1..close], args);
    SourceAppend([TextToken(text[pos..open]), ExpressionToken(func, text[open + 1..close], args)], rest);
    SplitAtExpression(text, pos, open, close);
  }

  lemma {:induction false} ResumeSpellsText(alnum: Alnum, text: string, pos: nat, open: nat, attempt: Attempt)
    requires pos <= open < |text| && text[open] == '['
    requires attempt.Success? ==> open + 1 < attempt.close < |text| && text[attempt.close] == ']'
    requires attempt.Failure? ==> open + 2 <= attempt.at <= |text| || attempt.at == |text|
    ensures Source(Resume(alnum, text, pos, open, attempt)) == text[pos..]
    decreases |text| - open, 0
  {
    hide ReadName, Tail, Tokens, Source;
    match attempt
    case Success(name, args, close) =>
      TokensSpellText(alnum, text, close + 1, close + 1);
      SuccessSpells(text, pos, open, close, FunctionId(name, |args|), args, Tokens(alnum, text, close + 1, close + 1));
    case Failure(at) =>
      if at == |text| { SourceOfTail(text, pos); } else { TokensSpellText(alnum, text, pos, at - 1); }
    case Unclosed => SourceOfTail(text, pos);
  }

  lemma SourceOfTwo(text: string, func: FunctionId, expression: string, args: seq<string>)
    ensures Source([TextToken(text), ExpressionToken(func, expression, args)]) == text + "[" + expression + "]"
  {
    var tokens := [TextToken(text), ExpressionToken(func, expression, args)];
    assert tokens[1..] == [ExpressionToken(func, expression, args)];
    assert tokens[1..][1..] == [];
    assert Source(tokens[1..]) == "[" + expression + "]";
    assert text + ("[" + expression + "]") == text + "[" + expression + "]";
  }

  // ----- Every expression found is one as documented

  lemma NameIsGood(alnum: Alnum, text: string, open: nat, pos: nat)
    requires open < pos < |text| && forall i :: open + 2 <= i <= pos ==> alnum(text[i])
    ensures GoodName(alnum, text[open + 1..pos + 1])
  {
    var name := text[open + 1..pos + 1];
    forall i | 1 <= i < |name| ensures alnum(name[i]) {
      assert name[i] == text[open + 1 + i];
    }
  }

  lemma BareCallIsGood(alnum: Alnum, name: string)
    requires GoodName(alnum, name)
    ensures GoodToken(alnum, ExpressionToken(FunctionId(name, 0), name, []))
  {
    hide GoodName;
  }

  lemma {:induction false} ReadNameIsGood(alnum: Alnum, text: string, open: nat, pos: nat)
    requires open < pos <= |text| && forall i :: open + 2 <= i < pos + 1 && i < |text| ==> alnum(text[i])
    ensures var r := ReadName(alnum, text, open, pos);
            r.Success? ==> GoodToken(alnum, ExpressionToken(FunctionId(r.name, |r.args|), text[open + 1..r.close], r.args))
    decreases |text| - pos
  {
    hide GoodName, GoodToken, ReadName, ReadArgs, QuotedArgs;
    ReadNameStep(alnum, text, open, pos);
    if pos < |text| {
      var name := text[open + 1..pos + 1];
      NameIsGood(alnum, text, open, pos);
      if IsAt(text, pos + 1, ']') {
        BareCallIsGood(alnum, name);
      } else if IsAt(text, pos + 1, '(') {
        if IsAt(text, pos + 2, '\'') {
          assert text[open + 1..pos + 2] == name + "(";
          assert name + "(" + "" == name + "(";
          ReadArgsIsGood(alnum, text, open, name, [], pos + 2);
        }
      } else if pos + 1 < |text| && alnum(text[pos + 1]) {
        ReadNameIsGood(alnum, text, open, pos + 1);
      }
    }
  }

  lemma {:induction false} ReadArgsIsGood(alnum: Alnum, text: string, open: nat, name: string, args: seq<string>, quote: nat)
    requires open + 2 < quote < |text| && text[quote] == '\'' && GoodName(alnum, name)
    requires forall a :: a in args ==> Quotable(a)
    requires text[open + 1..quote] == name + "(" + (if args == [] then "" else QuotedArgs(args) + ", ")
    ensures var r := ReadArgs(text, open, name, args, quote);
            r.Success? ==> GoodToken(alnum, ExpressionToken(FunctionId(r.name, |r.args|), text[open + 1..r.close], r.args))
    decreases |text| - quote
  {
    hide GoodName, QuotedArgs, Find, Quotable;
    var end := Find(text, '\'', quote + 1);
    if end < |text| {
      var more := args + [text[quote + 1..end]];
      OneMoreArg(text, open, name, args, quote, end);
      if IsAt(text, end + 1, ',') && IsAt(text, end + 2, ' ') && IsAt(text, end + 3, '\'') {
        TwoBehind(text, open, end, ',', ' ');
        Reassoc(name, "(", QuotedArgs(more), ", ");
        ReadArgsIsGood(alnum, text, open, name, more, end + 3);
      } else if IsAt(text, end + 1, ')') && IsAt(text, end + 2, ']') {
        assert text[open + 1..end + 2] == text[open + 1..end + 1] + ")";
      }
    }
  }

  lemma Reassoc(p: string, q: string, r: string, b: string)
    ensures (p + q + r) + b == p + q + (r + b)
  {
  }

  lemma TwoBehind(text: string, open: nat, end: nat, c: char, d: char)
    requires open < end && IsAt(text, end + 1, c) && IsAt(text, end + 2, d)
    ensures text[open + 1..end + 3] == text[open + 1..end + 1] + [c, d]
  {
  }

  /** Reading one more argument. */
  lemma OneMoreArg(text: string, open: nat, name: string, args: seq<string>, quote: nat, end: nat)
    requires open + 2 < quote < end < |text| && text[quote] == '\'' && text[end] == '\''
    requires forall i :: quote < i < end ==> text[i] != '\''
    requires forall a :: a in args ==> Quotable(a)
    requires text[open + 1..quote] == name + "(" + (if args == [] then "" else QuotedArgs(args) + ", ")
    ensures var more := args + [text[quote + 1..end]];
            && text[open + 1..end + 1] == name + "(" + QuotedArgs(more)
            && forall a :: a in more ==> Quotable(a)
  {
    hide QuotedArgs;
    var arg := text[quote + 1..end];
    QuotedArgsSnoc(args, arg);
    assert text[open + 1..end + 1] == text[open + 1..quote] + ("'" + arg + "'");
    var before := if args == [] then "" else QuotedArgs(args) + ", ";
    assert name + "(" + before + ("'" + arg + "'") == name + "(" + (before + "'" + arg + "'");
  }

  ghost predicate AllGood(alnum: Alnum, tokens: seq<Token>) {
    forall t :: t in tokens ==> GoodToken(alnum, t)
  }

  lemma TailIsGood(alnum: Alnum, text: string, pos: nat)
    requires pos <= |text|
    ensures AllGood(alnum, Tail(text, pos))
  {
    if pos < |text| { TextIsGood(alnum, text[pos..]); }
  }

  lemma CallIsGood(alnum: Alnum, words: string, call: Token, rest: seq<Token>)
    requires GoodToken(alnum, call) && AllGood(alnum, rest)
    ensures AllGood(alnum, [TextToken(words), call] + rest)
  {
    hide GoodToken;
    TextIsGood(alnum, words);
  }

  /** In every text, each expression the parser finds is written as documented: a name, letters
      and digits behind its first character, and quoted arguments that it takes apart. */
  lemma {:induction false} TokensAreGood(alnum: Alnum, text: string, pos: nat, from: nat)
    requires pos <= from <= |text|
    ensures AllGood(alnum, Tokens(alnum, text, pos, from))
    decreases |text| - from
  {
    hide ReadName, GoodToken, Find, Tail, AllGood;
    var open := Find(text, '[', from);
    TailIsGood(alnum, text, pos);
    if open < |text| {
      ReadNameIsGood(alnum, text, open, open + 1);
      match ReadName(alnum, text, open, open + 1)
      case Success(name, args, close) =>
        TokensAreGood(alnum, text, close + 1, close + 1);
        CallIsGood(alnum, text[pos..open], ExpressionToken(FunctionId(name, |args|), text[open + 1..close], args),
                   Tokens(alnum, text, close + 1, close + 1));
      case Failure(at) => if at < |text| { TokensAreGood(alnum, text, pos, at - 1); }
      case Unclosed =>
    }
  }

  lemma TextIsGood(alnum: Alnum, text: string)
    ensures GoodToken(alnum, TextToken(text))
  {
  }
}
