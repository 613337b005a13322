/** Dynamic texts written as documented are parsed into exactly what was written. */
module DynamicTextPrinting {
  import opened DynamicText

  /** A stretch of plain text followed by a call. */
  datatype Piece = Piece(words: string, name: string, args: seq<string>)

  /** Words, with the bracket of a call behind them, in which the parser comes to that bracket: what
      it takes for a call before that fails within the words, and it backs up and goes on. */
  predicate Harmless(alnum: Alnum, t: string, from: nat)
    requires from < |t| && t[|t| - 1] == '['
    decreases |t| - from
  {
    var open := Find(t, '[', from);
    open >= |t| - 1 ||
    var attempt := ReadName(alnum, t, open, open + 1);
    attempt.Failure? && attempt.at < |t| && Harmless(alnum, t, attempt.at - 1)
  }

  predicate GoodWords(alnum: Alnum, words: string) {
    Harmless(alnum, words + "[", 0)
  }

  /** Text in which no call is found. */
  predicate Quiet(alnum: Alnum, text: string) {
    Parse(alnum, text) == Tail(text, 0)
  }

  predicate GoodPiece(alnum: Alnum, p: Piece) {
    GoodWords(alnum, p.words) && GoodName(alnum, p.name) && forall a :: a in p.args ==> Quotable(a)
  }

  function Print(pieces: seq<Piece>, last: string): string {
    if pieces == [] then last
    else pieces[0].words + "[" + CallText(pieces[0].name, pieces[0].args) + "]" + Print(pieces[1..], last)
  }

  function Written(pieces: seq<Piece>, last: string): seq<Token> {
    if pieces == [] then (if last == "" then [] else [TextToken(last)])
    else
      var p := pieces[0];
      [TextToken(p.words), ExpressionToken(FunctionId(p.name, |p.args|), CallText(p.name, p.args), p.args)]
      + Written(pieces[1..], last)
  }

  predicate StartsAt(text: string, pos: nat, s: string) {
    pos + |s| <= |text| && text[pos..pos + |s|] == s
  }

  lemma StartsParts(text: string, pos: nat, a: string, b: string)
    ensures StartsAt(text, pos, a + b) <==> StartsAt(text, pos, a) && StartsAt(text, pos + |a|, b)
  {
    if pos + |a + b| <= |text| {
      var t := text[pos..pos + |a + b|];
      assert t[..|a|] == text[pos..pos + |a|] && t[|a|..] == text[pos + |a|..pos + |a| + |b|];
      assert (a + b)[..|a|] == a && (a + b)[|a|..] == b;
      assert t == t[..|a|] + t[|a|..];
    }
  }

  lemma CharAt(text: string, pos: nat, s: string, i: nat)
    requires StartsAt(text, pos, s) && i < |s|
    ensures IsAt(text, pos + i, s[i])
  {
    assert text[pos..pos + |s|][i] == text[pos + i];
  }

  lemma FindIs(text: string, c: char, from: nat, at: nat)
    requires from <= at < |text| && text[at] == c && forall i :: from <= i < at ==> text[i] != c
    ensures Find(text, c, from) == at
  {
  }

  /** Quoted arguments are taken apart again. */
  lemma {:induction false} ReadArgsReads(text: string, open: nat, name: string, done: seq<string>, args: seq<string>, quote: nat)
    requires open + 2 < quote < |text| && args != [] && forall a :: a in args ==> Quotable(a)
    requires StartsAt(text, quote, QuotedArgs(args) + ")]")
    ensures ReadArgs(text, open, name, done, quote) == Success(name, done + args, quote + |QuotedArgs(args)| + 1)
    decreases |args|
  {
    hide QuotedArgs, Quotable, StartsAt, Find;
    var a := args[0];
    var end := quote + 1 + |a|;
    ArgEnds(text, args, quote);
    if |args| == 1 {
      assert done + [text[quote + 1..end]] == done + args;
    } else {
      assert done + [a] + args[1..] == done + args;
      ReadArgsReads(text, open, name, done + [a], args[1..], end + 3);
    }
  }

  /** Where the first argument ends, and what follows. */
  lemma ArgEnds(text: string, args: seq<string>, quote: nat)
    requires args != [] && Quotable(args[0]) && StartsAt(text, quote, QuotedArgs(args) + ")]")
    ensures var end := quote + 1 + |args[0]|;
            && end < |text| && Find(text, '\'', quote + 1) == end && text[quote + 1..end] == args[0]
            && (|args| == 1 ==> IsAt(text, end + 1, ')') && IsAt(text, end + 2, ']') && |QuotedArgs(args)| == |args[0]| + 2)
            && (|args| > 1 ==> IsAt(text, end + 1, ',') && IsAt(text, end + 2, ' ') && IsAt(text, end + 3, '\'')
                               && StartsAt(text, end + 3, QuotedArgs(args[1..]) + ")]")
                               && |QuotedArgs(args)| == |args[0]| + 4 + |QuotedArgs(args[1..])|)
  {
    hide StartsAt;
    var a := args[0];
    var end := quote + 1 + |a|;
    var behind := if |args| == 1 then ")]" else ", " + (QuotedArgs(args[1..]) + ")]");
    assert QuotedArgs(args) + ")]" == "'" + (a + ("'" + behind));
    StartsParts(text, quote, "'", a + ("'" + behind));
    StartsParts(text, quote + 1, a, "'" + behind);
    StartsParts(text, end, "'", behind);
    CharAt(text, end, "'", 0);
    ArgIsFound(text, a, quote);
    if |args| == 1 {
      CharAt(text, end + 1, behind, 0);
      CharAt(text, end + 1, behind, 1);
    } else {
      var rest := QuotedArgs(args[1..]) + ")]";
      StartsParts(text, end + 1, ", ", rest);
      CharAt(text, end + 1, ", ", 0);
      CharAt(text, end + 1, ", ", 1);
      assert rest[0] == '\'';
      CharAt(text, end + 3, rest, 0);
    }
  }

  lemma ArgIsFound(text: string, a: string, quote: nat)
    requires Quotable(a) && StartsAt(text, quote + 1, a) && IsAt(text, quote + 1 + |a|, '\'')
    ensures Find(text, '\'', quote + 1) == quote + 1 + |a| && text[quote + 1..quote + 1 + |a|] == a
  {
    forall i | quote + 1 <= i < quote + 1 + |a| ensures text[i] != '\'' {
      CharAt(text, quote + 1, a, i - quote - 1);
    }
    FindIs(text, '\'', quote + 1, quote + 1 + |a|);
  }

  /** A name is read to its end. */
  lemma {:induction false} ReadNameReads(alnum: Alnum, text: string, open: nat, name: string, k: nat)
    requires GoodName(alnum, name) && 1 <= k <= |name| && StartsAt(text, open + 1, name)
    requires IsAt(text, open + 1 + |name|, ']') || IsAt(text, open + 1 + |name|, '(')
    ensures ReadName(alnum, text, open, open + k) == ReadName(alnum, text, open, open + |name|)
    decreases |name| - k
  {
    hide ReadArgs, StartsAt;
    if k < |name| {
      CharAt(text, open + 1, name, k);
      ReadNameReads(alnum, text, open, name, k + 1);
    }
  }

  /** A call is read back: its name, its arguments and its closing bracket. */
  lemma ReadCall(alnum: Alnum, text: string, open: nat, name: string, args: seq<string>)
    requires GoodName(alnum, name) && (forall a :: a in args ==> Quotable(a))
    requires StartsAt(text, open + 1, CallText(name, args) + "]")
    ensures open + 1 <= |text| && ReadName(alnum, text, open, open + 1) == Success(name, args, open + 1 + |CallText(name, args)|)
  {
    hide StartsAt, QuotedArgs, Quotable, GoodName, ReadName;
    StartsIn(text, open + 1, CallText(name, args) + "]");
    if args == [] {
      StartsParts(text, open + 1, name, "]");
      CharAt(text, open + 1 + |name|, "]", 0);
      NameIsRead(alnum, text, open, name);
      EndsAfterName(alnum, text, open, name);
    } else {
      CallTextShape(name, QuotedArgs(args));
      ReadCallWithArgs(alnum, text, open, name, args);
    }
  }

  lemma CallTextShape(name: string, quoted: string)
    ensures name + "(" + quoted + ")" + "]" == name + ("(" + (quoted + ")]"))
    ensures |name + "(" + quoted + ")"| == |name| + |quoted| + 2
  {
  }

  lemma ReadCallWithArgs(alnum: Alnum, text: string, open: nat, name: string, args: seq<string>)
    requires GoodName(alnum, name) && args != [] && (forall a :: a in args ==> Quotable(a))
    requires StartsAt(text, open + 1, name + ("(" + (QuotedArgs(args) + ")]")))
    ensures open + 1 <= |text| && ReadName(alnum, text, open, open + 1) == Success(name, args, open + 3 + |name| + |QuotedArgs(args)|)
  {
    hide StartsAt, QuotedArgs, Quotable, GoodName, ReadName;
    var inner := QuotedArgs(args) + ")]";
    StartsParts(text, open + 1, name, "(" + inner);
    StartsParts(text, open + 1 + |name|, "(", inner);
    CharAt(text, open + 1 + |name|, "(", 0);
    NameIsRead(alnum, text, open, name);
    QuotedStarts(args);
    CharAt(text, open + 2 + |name|, inner, 0);
    ReadArgsReads(text, open, name, [], args, open + 2 + |name|);
    assert [] + args == args;
    ArgsAfterName(alnum, text, open, name);
  }

  lemma EndsAfterName(alnum: Alnum, text: string, open: nat, name: string)
    requires name != "" && IsAt(text, open + 1 + |name|, ']') && text[open + 1..open + |name| + 1] == name
    ensures ReadName(alnum, text, open, open + |name|) == Success(name, [], open + 1 + |name|)
  {
    hide ReadArgs;
  }

  lemma ArgsAfterName(alnum: Alnum, text: string, open: nat, name: string)
    requires name != "" && IsAt(text, open + 1 + |name|, '(') && IsAt(text, open + 2 + |name|, '\'')
    requires text[open + 1..open + |name| + 1] == name
    ensures ReadName(alnum, text, open, open + |name|) == ReadArgs(text, open, name, [], open + 2 + |name|)
  {
    hide ReadArgs;
  }

  lemma StartsIn(text: string, pos: nat, s: string)
    requires StartsAt(text, pos, s)
    ensures pos + |s| <= |text|
  {
  }

  lemma QuotedStarts(args: seq<string>)
    requires args != []
    ensures QuotedArgs(args) != "" && QuotedArgs(args)[0] == '\''
  {
  }

  lemma NameIsRead(alnum: Alnum, text: string, open: nat, name: string)
    requires GoodName(alnum, name) && StartsAt(text, open + 1, name)
    requires IsAt(text, open + 1 + |name|, ']') || IsAt(text, open + 1 + |name|, '(')
    ensures name != "" && text[open + 1..open + |name| + 1] == name
    ensures ReadName(alnum, text, open, open + 1) == ReadName(alnum, text, open, open + |name|)
  {
    ReadNameReads(alnum, text, open, name, 1);
  }

  // ----- Looking at a part of a text

  /** What reading gives, seen from a text that starts `base` characters earlier. */
  function Moved(attempt: Attempt, base: nat): Attempt {
    match attempt
    case Success(name, args, close) => Success(name, args, close + base)
    case Failure(at) => Failure(at + base)
    case Unclosed => Unclosed
  }

  /** Reading the part settles what reading the whole gives: the part reaches to the end, or it
      ends in a bracket and reading it failed before its end. */
  predicate Settles(text: string, base: nat, t: string, attempt: Attempt) {
    base + |t| == |text| || (t != "" && t[|t| - 1] == '[' && attempt.Failure? && attempt.at < |t|)
  }

  lemma CharsAgree(text: string, base: nat, t: string)
    requires StartsAt(text, base, t)
    ensures base + |t| <= |text| && forall i :: 0 <= i < |t| ==> text[base + i] == t[i]
  {
    forall i | 0 <= i < |t| ensures text[base + i] == t[i] {
      assert text[base..base + |t|][i] == t[i];
    }
  }

  lemma SliceAgrees(text: string, base: nat, t: string, a: nat, b: nat)
    requires StartsAt(text, base, t) && a <= b <= |t|
    ensures base + |t| <= |text| && text[base + a..base + b] == t[a..b]
  {
    CharsAgree(text, base, t);
  }

  lemma CharAgrees(text: string, base: nat, t: string, i: nat)
    requires StartsAt(text, base, t) && i < |t|
    ensures base + i < |text| && text[base + i] == t[i]
  {
    CharsAgree(text, base, t);
  }

  lemma {:induction false} FindAt(text: string, base: nat, t: string, c: char, from: nat)
    requires StartsAt(text, base, t) && from <= |t|
    requires base + |t| == |text| || Find(t, c, from) < |t|
    ensures Find(text, c, base + from) == base + Find(t, c, from)
    decreases |t| - from
  {
    CharsAgree(text, base, t);
    if from < |t| && t[from] != c {
      FindAt(text, base, t, c, from + 1);
    }
  }

  lemma {:induction false} ReadArgsAt(text: string, base: nat, t: string, open: nat, name: string, args: seq<string>, quote: nat)
    requires StartsAt(text, base, t) && open + 2 < quote < |t| && Settles(text, base, t, ReadArgs(t, open, name, args, quote))
    ensures ReadArgs(text, base + open, name, args, base + quote) == Moved(ReadArgs(t, open, name, args, quote), base)
    decreases |t| - quote
  {
    hide Find, StartsAt, ReadArgs;
    StartsIn(text, base, t);
    var read, moved := ReadArgs(t, open, name, args, quote), ReadArgs(text, base + open, name, args, base + quote);
    var end := Find(t, '\'', quote + 1);
    ReadArgsStep(t, open, name, args, quote, end);
    FindAt(text, base, t, '\'', quote + 1);
    ReadArgsStep(text, base + open, name, args, base + quote, base + end);
    if end < |t| {
      SliceAgrees(text, base, t, quote + 1, end);
      if end + 1 < |t| {
        CharAgrees(text, base, t, end + 1);
        if end + 2 < |t| {
          CharAgrees(text, base, t, end + 2);
          if end + 3 < |t| {
            CharAgrees(text, base, t, end + 3);
            if t[end + 1] == ',' && t[end + 2] == ' ' && t[end + 3] == '\'' {
              ReadArgsAt(text, base, t, open, name, args + [t[quote + 1..end]], end + 3);
              assert moved == Moved(read, base);
            } else {
              assert moved == Moved(read, base);
            }
          } else {
            assert moved == Moved(read, base);
          }
        } else {
          assert moved == Moved(read, base);
        }
      } else {
        assert moved == Moved(read, base);
      }
    }
  }

  lemma {:induction false} ReadNameAt(alnum: Alnum, text: string, base: nat, t: string, open: nat, pos: nat)
    requires StartsAt(text, base, t) && open < pos <= |t| && Settles(text, base, t, ReadName(alnum, t, open, pos))
    ensures ReadName(alnum, text, base + open, base + pos) == Moved(ReadName(alnum, t, open, pos), base)
    decreases |t| - pos
  {
    hide ReadArgs, ReadName, StartsAt;
    StartsIn(text, base, t);
    var read, moved := ReadName(alnum, t, open, pos), ReadName(alnum, text, base + open, base + pos);
    ReadNameStep(alnum, t, open, pos);
    ReadNameStep(alnum, text, base + open, base + pos);
    if pos + 1 < |t| {
      SliceAgrees(text, base, t, open + 1, pos + 1);
      CharAgrees(text, base, t, pos + 1);
      if t[pos + 1] == '(' {
        if pos + 2 < |t| {
          CharAgrees(text, base, t, pos + 2);
          if t[pos + 2] == '\'' {
            ReadArgsAt(text, base, t, open, t[open + 1..pos + 1], [], pos + 2);
          }
          assert moved == Moved(read, base);
        } else {
          assert moved == Moved(read, base);
        }
      } else if t[pos + 1] != ']' && alnum(t[pos + 1]) {
        ReadNameAt(alnum, text, base, t, open, pos + 1);
        assert moved == Moved(read, base);
      } else {
        assert moved == Moved(read, base);
      }
    }
  }

  /** One step of `Tokens`. */
  lemma TokensStep(alnum: Alnum, text: string, pos: nat, from: nat)
    requires pos <= from <= |text|
    ensures var open := Find(text, '[', from);
            && (open == |text| ==> Tokens(alnum, text, pos, from) == Tail(text, pos))
            && (open < |text| ==> Tokens(alnum, text, pos, from) == Resume(alnum, text, pos, open, ReadName(alnum, text, open, open + 1)))
  {
    hide Resume, ReadName, Tail;
  }

  lemma TailAt(text: string, base: nat, t: string, pos: nat)
    requires StartsAt(text, base, t) && base + |t| == |text| && pos <= |t|
    ensures Tail(text, base + pos) == Tail(t, pos)
  {
    hide StartsAt;
    SliceAgrees(text, base, t, pos, |t|);
    assert text[base + pos..] == text[base + pos..base + |t|] && t[pos..] == t[pos..|t|];
  }

  /** The tokens of the end of a text are those of that end by itself. */
  lemma {:induction false} TokensAt(alnum: Alnum, text: string, base: nat, t: string, pos: nat, from: nat)
    requires StartsAt(text, base, t) && base + |t| == |text| && pos <= from <= |t|
    ensures Tokens(alnum, text, base + pos, base + from) == Tokens(alnum, t, pos, from)
    decreases |t| - from, 1
  {
    hide ReadName, StartsAt, Find, Tokens, Resume, Tail;
    TokensStep(alnum, text, base + pos, base + from);
    TokensStep(alnum, t, pos, from);
    FindAt(text, base, t, '[', from);
    var open := Find(t, '[', from);
    if open < |t| {
      ReadNameAt(alnum, text, base, t, open, open + 1);
      ResumeAt(alnum, text, base, t, pos, open, ReadName(alnum, t, open, open + 1));
    } else {
      TailAt(text, base, t, pos);
    }
  }

  lemma {:induction false} ResumeAt(alnum: Alnum, text: string, base: nat, t: string, pos: nat, open: nat, attempt: Attempt)
    requires StartsAt(text, base, t) && base + |t| == |text| && pos <= open < |t|
    requires attempt.Success? ==> open + 1 < attempt.close < |t|
    requires attempt.Failure? ==> open + 2 <= attempt.at <= |t| || attempt.at == |t|
    ensures Resume(alnum, text, base + pos, base + open, Moved(attempt, base)) == Resume(alnum, t, pos, open, attempt)
    decreases |t| - open, 0
  {
    hide StartsAt, Tokens, Tail;
    StartsIn(text, base, t);
    TailAt(text, base, t, pos);
    match attempt
    case Success(name, args, close) =>
      SliceAgrees(text, base, t, pos, open);
      SliceAgrees(text, base, t, open + 1, close);
      TokensAt(alnum, text, base, t, close + 1, close + 1);
    case Failure(at) => if at < |t| { TokensAt(alnum, text, base, t, pos, at - 1); }
    case Unclosed =>
  }

  /** The parser backs up from every bracket in harmless words, and comes to the call behind. */
  lemma {:induction false} WordsSkipped(alnum: Alnum, text: string, pos: nat, t: string, from: nat)
    requires from < |t| && t[|t| - 1] == '[' && Harmless(alnum, t, from) && StartsAt(text, pos, t)
    ensures pos + |t| <= |text|
    ensures var open := pos + |t| - 1;
            Tokens(alnum, text, pos, pos + from) == Resume(alnum, text, pos, open, ReadName(alnum, text, open, open + 1))
    decreases |t| - from
  {
    hide ReadName, StartsAt, Find, Tokens, Resume;
    StartsIn(text, pos, t);
    FindReaches(t, from);
    FindAt(text, pos, t, '[', from);
    TokensStep(alnum, text, pos, pos + from);
    var open := Find(t, '[', from);
    if open < |t| - 1 {
      var attempt := ReadName(alnum, t, open, open + 1);
      ReadNameAt(alnum, text, pos, t, open, open + 1);
      WordsSkipped(alnum, text, pos, t, attempt.at - 1);
      FailureBacksUp(alnum, text, pos, pos + open, pos + attempt.at);
    }
  }

  lemma FindReaches(t: string, from: nat)
    requires from < |t| && t[|t| - 1] == '['
    ensures Find(t, '[', from) < |t|
  {
  }

  lemma FailureBacksUp(alnum: Alnum, text: string, pos: nat, open: nat, at: nat)
    requires pos <= open < |text| && open + 2 <= at < |text|
    ensures Resume(alnum, text, pos, open, Failure(at)) == Tokens(alnum, text, pos, at - 1)
  {
    hide Tokens;
  }

  /** A bracket right in front of a call is not harmless: it becomes part of the call's name. */
  lemma BracketJoinsCall(alnum: Alnum, name: string, args: seq<string>)
    requires GoodName(alnum, name) && alnum(name[0]) && forall a :: a in args ==> Quotable(a)
    ensures Parse(alnum, "[[" + CallText(name, args) + "]")
         == [TextToken(""), ExpressionToken(FunctionId("[" + name, |args|), CallText("[" + name, args), args)]
  {
    hide ReadName, CallText, Quotable, Find, Tokens, Tail;
    var long := CallText("[" + name, args);
    var text := "[[" + CallText(name, args) + "]";
    LongerName(name, args);
    assert text == "[" + (long + "]");
    StartsParts(text, 0, "[", long + "]");
    assert text[0..|text|] == text;
    ReadCall(alnum, text, 0, "[" + name, args);
    FindIs(text, '[', 0, 0);
    CallParsed(alnum, text, 0, 0, "[" + name, args, 1 + |long|);
    assert text[1..1 + |long|] == long;
    NothingBehind(alnum, text);
  }

  lemma LongerName(name: string, args: seq<string>)
    ensures CallText("[" + name, args) == "[" + CallText(name, args)
  {
    if args != [] {
      assert ("[" + name) + "(" + QuotedArgs(args) + ")" == "[" + (name + "(" + QuotedArgs(args) + ")");
    }
  }

  lemma NothingBehind(alnum: Alnum, text: string)
    ensures Tokens(alnum, text, |text|, |text|) == []
  {
  }

  // ----- Whole texts

  /** Every text written as documented, with any calls, any harmless words in front of them and
      anything behind in which no call is found, parses into what was written. */
  lemma {:induction false} ParsePrinted(alnum: Alnum, text: string, pos: nat, pieces: seq<Piece>, last: string)
    requires (forall p :: p in pieces ==> GoodPiece(alnum, p)) && Quiet(alnum, last)
    requires pos <= |text| && text[pos..] == Print(pieces, last)
    ensures Tokens(alnum, text, pos, pos) == Written(pieces, last)
    decreases |pieces|
  {
    hide StartsAt, CallText, ReadName, Find, Tokens, Resume, Quotable, GoodName, Tail, GoodWords, Quiet, Print, Written;
    OneStep(pieces, last);
    if pieces == [] {
      LastTokens(alnum, text, pos, last);
    } else {
      var p := pieces[0];
      var call := CallText(p.name, p.args);
      var open := pos + |p.words|;
      var close := open + 1 + |call|;
      assert GoodPiece(alnum, p);
      PieceAt(text, pos, p, Print(pieces[1..], last));
      WordsAreSkipped(alnum, text, pos, p.words);
      ReadCall(alnum, text, open, p.name, p.args);
      CallFound(alnum, text, pos, open, p.name, p.args, close);
      ParsePrinted(alnum, text, close + 1, pieces[1..], last);
    }
  }

  lemma OneStep(pieces: seq<Piece>, last: string)
    ensures pieces == [] ==> Print(pieces, last) == last && Written(pieces, last) == if last == "" then [] else [TextToken(last)]
    ensures pieces != [] ==>
              var p := pieces[0];
              && Print(pieces, last) == p.words + "[" + CallText(p.name, p.args) + "]" + Print(pieces[1..], last)
              && Written(pieces, last)
              == [TextToken(p.words), ExpressionToken(FunctionId(p.name, |p.args|), CallText(p.name, p.args), p.args)]
                 + Written(pieces[1..], last)
  {
    hide CallText;
  }

  lemma LastTokens(alnum: Alnum, text: string, pos: nat, last: string)
    requires Quiet(alnum, last) && pos <= |text| && text[pos..] == last
    ensures Tokens(alnum, text, pos, pos) == if last == "" then [] else [TextToken(last)]
  {
    hide Tokens;
    TokensAt(alnum, text, pos, last, 0, 0);
    assert last[0..] == last;
  }

  lemma WordsAreSkipped(alnum: Alnum, text: string, pos: nat, words: string)
    requires GoodWords(alnum, words) && StartsAt(text, pos, words + "[")
    ensures pos + |words| < |text|
    ensures var open := pos + |words|;
            Tokens(alnum, text, pos, pos) == Resume(alnum, text, pos, open, ReadName(alnum, text, open, open + 1))
  {
    hide Tokens, Resume, ReadName, StartsAt, Harmless;
    WordsSkipped(alnum, text, pos, words + "[", 0);
  }

  lemma CallFound(alnum: Alnum, text: string, pos: nat, open: nat, name: string, args: seq<string>, close: nat)
    requires pos <= open && open + 1 < close < |text|
    ensures Resume(alnum, text, pos, open, Success(name, args, close)) ==
            [TextToken(text[pos..open]), ExpressionToken(FunctionId(name, |args|), text[open + 1..close], args)]
            + Tokens(alnum, text, close + 1, close + 1)
  {
    hide Tokens;
  }

  lemma CallParsed(alnum: Alnum, text: string, pos: nat, open: nat, name: string, args: seq<string>, close: nat)
    requires pos <= open && open + 1 < close < |text| && Find(text, '[', pos) == open
    requires ReadName(alnum, text, open, open + 1) == Success(name, args, close)
    ensures Tokens(alnum, text, pos, pos) ==
            [TextToken(text[pos..open]), ExpressionToken(FunctionId(name, |args|), text[open + 1..close], args)]
            + Tokens(alnum, text, close + 1, close + 1)
  {
    hide ReadName, Find;
  }

  lemma PieceAt(text: string, pos: nat, p: Piece, rest: string)
    requires pos <= |text| && text[pos..] == p.words + "[" + CallText(p.name, p.args) + "]" + rest
    ensures var open := pos + |p.words|; var close := open + 1 + |CallText(p.name, p.args)|;
            && close < |text| && text[pos..open] == p.words && text[open + 1..close] == CallText(p.name, p.args)
            && StartsAt(text, pos, p.words + "[") && StartsAt(text, open + 1, CallText(p.name, p.args) + "]")
            && text[close + 1..] == rest
  {
    hide CallText, StartsAt;
    var call := CallText(p.name, p.args);
    var open := pos + |p.words|;
    var close := open + 1 + |call|;
    Pieces(p.words, call, rest);
    StartsWith(text, pos);
    StartsParts(text, pos, p.words + "[", (call + "]") + rest);
    StartsParts(text, open + 1, call + "]", rest);
    StartsParts(text, pos, p.words, "[");
    StartsParts(text, open + 1, call, "]");
    StartsIs(text, pos, p.words);
    StartsIs(text, open + 1, call);
    StartsIs(text, close + 1, rest);
    assert close + 1 + |rest| == |text|;
    assert text[close + 1..] == text[close + 1..close + 1 + |rest|];
  }

  lemma Pieces(words: string, call: string, rest: string)
    ensures words + "[" + call + "]" + rest == (words + "[") + ((call + "]") + rest)
  {
  }

  lemma StartsWith(text: string, pos: nat)
    requires pos <= |text|
    ensures StartsAt(text, pos, text[pos..])
  {
    assert text[pos..pos + |text[pos..]|] == text[pos..];
  }

  lemma StartsIs(text: string, pos: nat, s: string)
    requires StartsAt(text, pos, s)
    ensures pos + |s| <= |text| && text[pos..pos + |s|] == s
  {
  }

  // ----- Texts without brackets between the calls

  /** Words without a bracket are harmless. */
  lemma PlainWordsAreGood(alnum: Alnum, words: string)
    requires '[' !in words
    ensures GoodWords(alnum, words)
  {
    hide ReadName;
    FindIs(words + "[", '[', 0, |words|);
  }

  lemma PlainTextIsQuiet(alnum: Alnum, text: string)
    requires '[' !in text
    ensures Quiet(alnum, text)
  {
    hide ReadName;
    assert Find(text, '[', 0) == |text|;
  }

  /** The common case: no bracket in the words and none behind the last call. */
  lemma PlainTextsParse(alnum: Alnum, pieces: seq<Piece>, last: string)
    requires forall p :: p in pieces ==> '[' !in p.words && GoodName(alnum, p.name) && forall a :: a in p.args ==> Quotable(a)
    requires '[' !in last
    ensures Parse(alnum, Print(pieces, last)) == Written(pieces, last)
  {
    hide Print, Written, GoodWords, Quiet, GoodName, Tokens;
    forall p | p in pieces
      ensures GoodPiece(alnum, p)
    {
      PlainWordsAreGood(alnum, p.words);
    }
    PlainTextIsQuiet(alnum, last);
    var text := Print(pieces, last);
    assert text[0..] == text;
    ParsePrinted(alnum, text, 0, pieces, last);
  }

  lemma SampleCalls()
    ensures CallText("f", ["x", "y z"]) == "f('x', 'y z')" && CallText("g", []) == "g"
  {
    assert ["x", "y z"][1..] == ["y z"] && QuotedArgs(["y z"]) == "'y z'";
    assert QuotedArgs(["x", "y z"]) == "'x', 'y z'";
  }

  lemma SampleText(first: Piece, second: Piece)
    requires first == Piece("a ", "f", ["x", "y z"]) && second == Piece(" ", "g", [])
    ensures Print([first, second], "b") == "a [f('x', 'y z')] [g]b"
  {
    hide CallText, QuotedArgs;
    SampleCalls();
    assert [first, second][1..] == [second] && [second][1..] == [];
    assert Print([second], "b") == " [g]b" by { assert Print([], "b") == "b"; }
  }

  lemma SampleTokens(first: Piece, second: Piece)
    requires first == Piece("a ", "f", ["x", "y z"]) && second == Piece(" ", "g", [])
    ensures Written([first, second], "b") ==
            [TextToken("a "), ExpressionToken(FunctionId("f", 2), "f('x', 'y z')", ["x", "y z"]),
             TextToken(" "), ExpressionToken(FunctionId("g", 0), "g", []), TextToken("b")]
  {
    hide CallText, QuotedArgs;
    SampleCalls();
    assert [first, second][1..] == [second] && [second][1..] == [];
    assert Written([], "b") == [TextToken("b")];
  }

  lemma SampleIsGood(alnum: Alnum, first: Piece, second: Piece)
    requires first == Piece("a ", "f", ["x", "y z"]) && second == Piece(" ", "g", [])
    ensures forall p :: p in [first, second] ==> '[' !in p.words && GoodName(alnum, p.name) && forall a :: a in p.args ==> Quotable(a)
    ensures '[' !in "b"
  {
    assert forall p :: p in [first, second] ==> p == first || p == second;
  }

  /** What that looks like: a call with two arguments, and one without. */
  lemma Sample(alnum: Alnum)
    ensures Parse(alnum, "a [f('x', 'y z')] [g]b") ==
            [TextToken("a "), ExpressionToken(FunctionId("f", 2), "f('x', 'y z')", ["x", "y z"]),
             TextToken(" "), ExpressionToken(FunctionId("g", 0), "g", []), TextToken("b")]
  {
    hide *;
    var first, second := Piece("a ", "f", ["x", "y z"]), Piece(" ", "g", []);
    SampleText(first, second);
    SampleTokens(first, second);
    SampleIsGood(alnum, first, second);
    PlainTextsParse(alnum, [first, second], "b");
  }

  // ----- Words that are not harmless

  /** Reading in the beginning `t` of a text, the words with the bracket behind them, either settles
      what reading the text gives, or reading the text fails only behind that bracket, if at all. */
  predicate Prefixed(t: string, read: Attempt, whole: Attempt) {
    || (whole == read && (read.Success? || (read.Failure? && read.at < |t|)))
    || ((read.Unclosed? || read == Failure(|t|)) && (whole.Failure? ==> whole.at > |t|))
  }

  lemma {:induction false} FindInPrefix(text: string, t: string, c: char, from: nat)
    requires StartsAt(text, 0, t) && from <= |t|
    ensures |t| <= |text|
    ensures if Find(t, c, from) < |t| then Find(text, c, from) == Find(t, c, from) else Find(text, c, from) >= |t|
    decreases |t| - from
  {
    CharsAgree(text, 0, t);
    if from < |t| && t[from] != c {
      FindInPrefix(text, t, c, from + 1);
    }
  }

  /** Reading arguments fails behind the quote that ends the first of them. */
  lemma {:induction false} ReadArgsFailsLate(text: string, open: nat, name: string, args: seq<string>, quote: nat)
    requires open + 2 < quote < |text|
    ensures var r := ReadArgs(text, open, name, args, quote); r.Failure? ==> r.at > Find(text, '\'', quote + 1)
    decreases |text| - quote
  {
    hide Find, ReadArgs;
    var end := Find(text, '\'', quote + 1);
    ReadArgsStep(text, open, name, args, quote, end);
    if IsAt(text, end + 1, ',') && IsAt(text, end + 2, ' ') && IsAt(text, end + 3, '\'') {
      ReadArgsFailsLate(text, open, name, args + [text[quote + 1..end]], end + 3);
    }
  }

  lemma {:induction false} ReadNameFailsLate(alnum: Alnum, text: string, open: nat, pos: nat)
    requires open < pos < |text|
    ensures var r := ReadName(alnum, text, open, pos); r.Failure? ==> r.at > pos
    decreases |text| - pos
  {
    hide ReadName, ReadArgs, Find;
    ReadNameStep(alnum, text, open, pos);
    if IsAt(text, pos + 1, '(') && IsAt(text, pos + 2, '\'') {
      ReadArgsFailsLate(text, open, text[open + 1..pos + 1], [], pos + 2);
    } else if pos + 1 < |text| && text[pos + 1] != ']' && text[pos + 1] != '(' && alnum(text[pos + 1]) {
      ReadNameFailsLate(alnum, text, open, pos + 1);
    }
  }

  lemma {:induction false} ReadArgsInPrefix(text: string, t: string, open: nat, name: string, args: seq<string>, quote: nat)
    requires StartsAt(text, 0, t) && open + 2 < quote < |t| && t[|t| - 1] == '['
    ensures |t| <= |text|
    ensures Prefixed(t, ReadArgs(t, open, name, args, quote), ReadArgs(text, open, name, args, quote))
    decreases |t| - quote
  {
    hide Find, StartsAt, ReadArgs;
    StartsIn(text, 0, t);
    var end := Find(t, '\'', quote + 1);
    var read, whole := ReadArgs(t, open, name, args, quote), ReadArgs(text, open, name, args, quote);
    FindInPrefix(text, t, '\'', quote + 1);
    ReadArgsStep(t, open, name, args, quote, end);
    if end == |t| {
      ReadArgsFailsLate(text, open, name, args, quote);
      assert Prefixed(t, read, whole);
    } else {
      ReadArgsStep(text, open, name, args, quote, end);
      SliceAgrees(text, 0, t, quote + 1, end);
      assert end + 1 < |t|;
      CharAgrees(text, 0, t, end + 1);
      if t[end + 1] != ',' && t[end + 1] != ')' {
        assert Prefixed(t, read, whole);
      } else {
        assert end + 2 < |t|;
        CharAgrees(text, 0, t, end + 2);
        if t[end + 1] == ',' && t[end + 2] == ' ' {
          assert end + 3 < |t|;
          CharAgrees(text, 0, t, end + 3);
          if t[end + 3] == '\'' {
            ReadArgsInPrefix(text, t, open, name, args + [t[quote + 1..end]], end + 3);
          }
          assert Prefixed(t, read, whole);
        } else {
          assert Prefixed(t, read, whole);
        }
      }
    }
  }

  lemma {:induction false} ReadNameInPrefix(alnum: Alnum, text: string, t: string, open: nat, pos: nat)
    requires StartsAt(text, 0, t) && open < pos < |t| < |text| && t[|t| - 1] == '[' && alnum(text[|t|])
    ensures Prefixed(t, ReadName(alnum, t, open, pos), ReadName(alnum, text, open, pos))
    decreases |t| - pos
  {
    hide StartsAt, ReadName, ReadArgs;
    var read, whole := ReadName(alnum, t, open, pos), ReadName(alnum, text, open, pos);
    ReadNameStep(alnum, t, open, pos);
    ReadNameStep(alnum, text, open, pos);
    if pos + 1 == |t| {
      ReadNameFailsLate(alnum, text, open, pos + 1);
      assert Prefixed(t, read, whole);
    } else {
      CharAgrees(text, 0, t, pos + 1);
      SliceAgrees(text, 0, t, open + 1, pos + 1);
      if t[pos + 1] == '(' {
        assert pos + 2 < |t|;
        CharAgrees(text, 0, t, pos + 2);
        if t[pos + 2] == '\'' {
          ReadArgsInPrefix(text, t, open, t[open + 1..pos + 1], [], pos + 2);
        }
        assert Prefixed(t, read, whole);
      } else if t[pos + 1] != ']' && alnum(t[pos + 1]) {
        assert pos + 1 < |t| - 1;
        ReadNameInPrefix(alnum, text, t, open, pos + 1);
        assert Prefixed(t, read, whole);
      } else {
        assert Prefixed(t, read, whole);
      }
    }
  }

  /** Tokens that cannot start with the words: they start with a text of another length. */
  predicate Misses(tokens: seq<Token>, length: nat) {
    tokens == [] || |tokens| == 1 || (tokens[0].TextToken? && |tokens[0].text| != length)
  }

  /** What is found behind some position starts with a text that reaches beyond it. */
  lemma {:induction false} TokensReach(alnum: Alnum, text: string, from: nat)
    requires from <= |text|
    ensures var tokens := Tokens(alnum, text, 0, from);
            |tokens| <= 1 || (tokens[0].TextToken? && |tokens[0].text| >= from)
    decreases |text| - from
  {
    hide ReadName, Find, Tokens, Tail;
    TokensStep(alnum, text, 0, from);
    AtMostOne(text);
    var open := Find(text, '[', from);
    if open < |text| {
      match ReadName(alnum, text, open, open + 1)
      case Success(name, args, close) =>
        CallFound(alnum, text, 0, open, name, args, close);
      case Failure(at) =>
        if at < |text| { TokensReach(alnum, text, at - 1); }
      case Unclosed =>
    }
  }

  lemma AtMostOne(text: string)
    ensures |Tail(text, 0)| <= 1
  {
  }

  /** In words that are not harmless, the parser finds a call, or passes over the bracket behind. */
  lemma {:induction false} HarmfulMisses(alnum: Alnum, text: string, t: string, from: nat)
    requires StartsAt(text, 0, t) && from < |t| < |text| && t[|t| - 1] == '[' && alnum(text[|t|])
    requires !Harmless(alnum, t, from)
    ensures Misses(Tokens(alnum, text, 0, from), |t| - 1)
    decreases |t| - from
  {
    hide ReadName, StartsAt, Find, Tokens, Tail, Resume, Harmless, Misses;
    HarmfulStep(alnum, t, from);
    FindInPrefix(text, t, '[', from);
    TokensStep(alnum, text, 0, from);
    var open := Find(t, '[', from);
    var whole := ReadName(alnum, text, open, open + 1);
    ReadNameInPrefix(alnum, text, t, open, open + 1);
    match whole
    case Success(name, args, close) =>
      CallFound(alnum, text, 0, open, name, args, close);
      FoundTooEarly(text[0..open], ExpressionToken(FunctionId(name, |args|), text[open + 1..close], args),
                    Tokens(alnum, text, close + 1, close + 1), |t| - 1);
    case Failure(at) =>
      if at == |text| {
        ResumeEnds(alnum, text, open, whole, |t| - 1);
      } else {
        FailureBacksUp(alnum, text, 0, open, at);
        if at < |t| {
          HarmfulMisses(alnum, text, t, at - 1);
        } else {
          TokensReach(alnum, text, at - 1);
          ReachMisses(Tokens(alnum, text, 0, at - 1), at - 1, |t| - 1);
        }
      }
    case Unclosed => ResumeEnds(alnum, text, open, whole, |t| - 1);
  }

  lemma HarmfulStep(alnum: Alnum, t: string, from: nat)
    requires from < |t| && t[|t| - 1] == '[' && !Harmless(alnum, t, from)
    ensures var open := Find(t, '[', from);
            && open < |t| - 1
            && var read := ReadName(alnum, t, open, open + 1);
            read.Failure? && read.at < |t| ==> !Harmless(alnum, t, read.at - 1)
  {
    hide ReadName;
    FindReaches(t, from);
  }

  lemma FoundTooEarly(words: string, call: Token, rest: seq<Token>, length: nat)
    requires |words| < length
    ensures Misses([TextToken(words), call] + rest, length)
  {
  }

  lemma ReachMisses(tokens: seq<Token>, from: nat, length: nat)
    requires length < from && (|tokens| <= 1 || (tokens[0].TextToken? && |tokens[0].text| >= from))
    ensures Misses(tokens, length)
  {
  }

  lemma ResumeEnds(alnum: Alnum, text: string, open: nat, attempt: Attempt, length: nat)
    requires open < |text| && (attempt.Unclosed? || attempt == Failure(|text|))
    ensures Misses(Resume(alnum, text, 0, open, attempt), length)
  {
    hide Tokens;
  }

  /** A call as documented is found behind some words exactly if the words are harmless. */
  lemma FoundIffHarmless(alnum: Alnum, words: string, name: string, args: seq<string>, rest: string)
    requires GoodName(alnum, name) && alnum(name[0]) && forall a :: a in args ==> Quotable(a)
    ensures [TextToken(words), ExpressionToken(FunctionId(name, |args|), CallText(name, args), args)]
            <= Parse(alnum, words + "[" + CallText(name, args) + "]" + rest)
       <==> GoodWords(alnum, words)
    ensures GoodWords(alnum, words) ==>
              Parse(alnum, words + "[" + CallText(name, args) + "]" + rest)
              == [TextToken(words), ExpressionToken(FunctionId(name, |args|), CallText(name, args), args)] + Parse(alnum, rest)
  {
    hide StartsAt, CallText, ReadName, Find, Tokens, Resume, Quotable, GoodName, Tail, GoodWords;
    var call := CallText(name, args);
    var text := words + "[" + call + "]" + rest;
    var close := |words| + 1 + |call|;
    assert text[0..] == text;
    PieceAt(text, 0, Piece(words, name, args), rest);
    if GoodWords(alnum, words) {
      WordsAreSkipped(alnum, text, 0, words);
      ReadCall(alnum, text, |words|, name, args);
      CallFound(alnum, text, 0, |words|, name, args, close);
      StartsWith(text, close + 1);
      TokensAt(alnum, text, close + 1, rest, 0, 0);
    } else {
      FirstOfCall(alnum, name, args);
      assert text[|words| + 1] == call[0];
      NotHarmless(alnum, words);
      HarmfulMisses(alnum, text, words + "[", 0);
    }
  }

  lemma NotHarmless(alnum: Alnum, words: string)
    ensures GoodWords(alnum, words) <==> Harmless(alnum, words + "[", 0)
  {
    hide Harmless;
  }

  lemma FirstOfCall(alnum: Alnum, name: string, args: seq<string>)
    requires GoodName(alnum, name)
    ensures CallText(name, args) != "" && CallText(name, args)[0] == name[0]
  {
    hide QuotedArgs;
  }

  /** The round trip is exact: a text written with documented calls is parsed into what was written
      exactly if all words in it are harmless and no call is found behind the last one. */
  lemma {:induction false} ParsedIffHarmless(alnum: Alnum, pieces: seq<Piece>, last: string)
    requires forall p :: p in pieces ==> GoodName(alnum, p.name) && alnum(p.name[0]) && forall a :: a in p.args ==> Quotable(a)
    ensures Parse(alnum, Print(pieces, last)) == Written(pieces, last)
       <==> (forall p :: p in pieces ==> GoodWords(alnum, p.words)) && Quiet(alnum, last)
    decreases |pieces|
  {
    hide Print, Written, GoodWords, GoodName, CallText, Quotable, Parse;
    OneStep(pieces, last);
    if pieces == [] {
      LastOne(last);
    } else {
      var p := pieces[0];
      assert p in pieces;
      FoundIffHarmless(alnum, p.words, p.name, p.args, Print(pieces[1..], last));
      ParsedIffHarmless(alnum, pieces[1..], last);
      assert forall q :: q in pieces <==> q == p || q in pieces[1..];
      var first := [TextToken(p.words), ExpressionToken(FunctionId(p.name, |p.args|), CallText(p.name, p.args), p.args)];
      SameFirst(first, Parse(alnum, Print(pieces[1..], last)), Written(pieces[1..], last));
    }
  }

  lemma SameFirst(first: seq<Token>, a: seq<Token>, b: seq<Token>)
    ensures first + a == first + b <==> a == b
    ensures first <= first + b
  {
    if first + a == first + b {
      assert a == (first + a)[|first|..] && b == (first + b)[|first|..];
    }
  }

  lemma LastOne(last: string)
    ensures Tail(last, 0) == if last == "" then [] else [TextToken(last)]
  {
    assert last[0..] == last;
  }
}
