/** Parsed texts and the table of dynamic text functions (nCore/ParsedText.cpp): parsing by a
    mode machine, evaluation into a bounded buffer, and change notifications. */
module ParsedTexts {
  import opened Text
  import opened DynamicText
  import DynamicTextPrinting

  // ----- Rendering

  /** A function writes a string, and the terminator behind it, into a buffer with room for
      `cch` characters. */
  type Formatter = p: (seq<string>, nat) -> string | forall args, cch: nat :: cch > 0 ==> |p(args, cch)| < cch
    witness (args, cch) => ""

  datatype FormatterData = FormatterData(proc: Option<Formatter>, dynamic: bool, users: set<ParsedText>)

  /** What is left of a string in a buffer with room for `cch` characters. */
  function Clip(s: string, cch: nat): (r: string)
    requires cch > 0
    ensures |r| < cch
  {
    if |s| < cch then s else s[..cch - 1]
  }

  /** It is a beginning of the string: all of it, or as much as leaves room for the terminator. */
  lemma ClipIsPrefix(s: string, cch: nat)
    requires cch > 0
    ensures Clip(s, cch) <= s && |Clip(s, cch)| == if |s| < cch then |s| else cch - 1
  {
  }

  lemma ClipAppend(a: string, b: string, cch: nat)
    requires cch > 0
    ensures Clip(a, cch) + Clip(b, cch - |Clip(a, cch)|) == Clip(a + b, cch)
  {
  }

  predicate Registered(functions: map<FunctionId, FormatterData>, f: FunctionId) {
    f in functions && functions[f].proc.Some?
  }

  function RenderedToken(token: Token, functions: map<FunctionId, FormatterData>, cch: nat): (r: string)
    requires cch > 0
    ensures |r| < cch
  {
    match token
    case TextToken(text) => Clip(text, cch)
    case ExpressionToken(func, text, args) =>
      if Registered(functions, func) then functions[func].proc.value(args, cch) else Clip("[" + text + "]", cch)
  }

  /** What evaluating tokens leaves in a buffer with room for `cch` characters. */
  function Rendered(tokens: seq<Token>, functions: map<FunctionId, FormatterData>, cch: nat): (r: string)
    requires cch > 0
    ensures |r| < cch
  {
    if tokens == [] then ""
    else
      var first := RenderedToken(tokens[0], functions, cch);
      first + Rendered(tokens[1..], functions, cch - |first|)
  }

  lemma RenderedFirst(tokens: seq<Token>, functions: map<FunctionId, FormatterData>, cch: nat)
    requires cch > 0 && tokens != []
    ensures var first := RenderedToken(tokens[0], functions, cch);
            Rendered(tokens, functions, cch) == first + Rendered(tokens[1..], functions, cch - |first|)
  {
  }

  lemma RenderedNothing(functions: map<FunctionId, FormatterData>, cch: nat)
    requires cch > 0
    ensures Rendered([], functions, cch) == ""
  {
  }

  lemma ClipShort(s: string, cch: nat)
    requires |s| < cch
    ensures Clip(s, cch) == s
  {
  }

  method EvaluateToken(token: Token, functions: map<FunctionId, FormatterData>, dest: array<char>, at: nat) returns (end: nat)
    requires at < dest.Length
    modifies dest
    ensures end == at + |RenderedToken(token, functions, dest.Length - at)|
    ensures dest[..end] == old(dest[..at]) + RenderedToken(token, functions, dest.Length - at) && dest[end] == '\0'
  {
    hide Clip;
    var cch := dest.Length - at;
    match token
    case TextToken(text) => end := CopyString(dest, at, text);
    case ExpressionToken(func, text, args) =>
      if Registered(functions, func) {
        var value := functions[func].proc.value(args, cch);
        ClipShort(value, cch);
        end := CopyString(dest, at, value);
      } else {
        ClipAppend("[", text, cch);
        ClipAppend("[" + text, "]", cch);
        end := CopyString(dest, at, "[");
        end := CopyString(dest, end, text);
        end := CopyString(dest, end, "]");
      }
  }

  /** Copies as much of a string as fits behind the first `at` characters of a buffer. */
  method CopyString(dest: array<char>, at: nat, src: string) returns (end: nat)
    requires at < dest.Length
    modifies dest
    ensures end == at + |Clip(src, dest.Length - at)|
    ensures dest[..end] == old(dest[..at]) + Clip(src, dest.Length - at) && dest[end] == '\0'
  {
    var copied := Clip(src, dest.Length - at);
    end := at + |copied|;
    forall i | 0 <= i < |copied| {
      dest[at + i] := copied[i];
    }
    dest[end] := '\0';
    assert dest[..at] == old(dest[..at]) && dest[at..end] == copied;
    assert dest[..end] == dest[..at] + dest[at..end];
  }

  ghost function TokenMeaning(token: Token, functions: map<FunctionId, FormatterData>, full: (FunctionId, seq<string>) -> string): string {
    match token
    case TextToken(text) => text
    case ExpressionToken(func, text, args) => if Registered(functions, func) then full(func, args) else "[" + text + "]"
  }

  /** The full text of tokens, `full` being what the registered functions stand for. */
  ghost function Meaning(tokens: seq<Token>, functions: map<FunctionId, FormatterData>, full: (FunctionId, seq<string>) -> string): string {
    if tokens == [] then "" else TokenMeaning(tokens[0], functions, full) + Meaning(tokens[1..], functions, full)
  }

  /** Evaluating gives the text of the tokens with each call replaced by its value, cut off where
      the buffer ends, if the functions cut their own values off in that way. */
  lemma {:induction false} RenderedIsMeaning(tokens: seq<Token>, functions: map<FunctionId, FormatterData>,
      full: (FunctionId, seq<string>) -> string, cch: nat)
    requires cch > 0
    requires forall f, args, n: nat :: Registered(functions, f) && n > 0 ==> functions[f].proc.value(args, n) == Clip(full(f, args), n)
    ensures Rendered(tokens, functions, cch) == Clip(Meaning(tokens, functions, full), cch)
  {
    hide Clip;
    if tokens == [] {
      ClipEmpty(cch);
    } else {
      var first := RenderedToken(tokens[0], functions, cch);
      RenderedIsMeaning(tokens[1..], functions, full, cch - |first|);
      var whole := TokenMeaning(tokens[0], functions, full);
      assert first == Clip(whole, cch);
      ClipAppend(whole, Meaning(tokens[1..], functions, full), cch);
    }
  }

  /** What that looks like: a call of a registered function, and one of a function that is not. */
  lemma SampleMeaning(alnum: Alnum, functions: map<FunctionId, FormatterData>, full: (FunctionId, seq<string>) -> string)
    requires Registered(functions, FunctionId("f", 2)) && !Registered(functions, FunctionId("g", 0))
    ensures Meaning(Parse(alnum, "a [f('x', 'y z')] [g]b"), functions, full) == "a " + full(FunctionId("f", 2), ["x", "y z"]) + " [g]b"
  {
    hide Parse, Registered;
    DynamicTextPrinting.Sample(alnum);
    var last := [TextToken("b")];
    var bare := [ExpressionToken(FunctionId("g", 0), "g", [])] + last;
    var middle := [TextToken(" ")] + bare;
    var call := [ExpressionToken(FunctionId("f", 2), "f('x', 'y z')", ["x", "y z"])] + middle;
    assert Parse(alnum, "a [f('x', 'y z')] [g]b") == [TextToken("a ")] + call;
    assert last[1..] == [] && bare[1..] == last && middle[1..] == bare && call[1..] == middle && ([TextToken("a ")] + call)[1..] == call;
    assert Meaning(last, functions, full) == "b";
    assert Meaning(bare, functions, full) == "[g]b";
    assert Meaning(middle, functions, full) == " [g]b";
    assert Meaning(call, functions, full) == full(FunctionId("f", 2), ["x", "y z"]) + " [g]b";
  }

  lemma ClipEmpty(cch: nat)
    requires cch > 0
    ensures Clip("", cch) == ""
  {
  }

  lemma {:induction false} UnregisteredRendered(tokens: seq<Token>, functions: map<FunctionId, FormatterData>, cch: nat)
    requires cch > 0
    requires forall t :: t in tokens && t.ExpressionToken? ==> !Registered(functions, t.func)
    ensures Rendered(tokens, functions, cch) == Clip(Source(tokens), cch)
  {
    hide Clip, Registered;
    if tokens == [] {
      ClipEmpty(cch);
    } else {
      var first := RenderedToken(tokens[0], functions, cch);
      UnregisteredRendered(tokens[1..], functions, cch - |first|);
      var whole := if tokens[0].TextToken? then tokens[0].text else "[" + tokens[0].text + "]";
      assert tokens[0] in tokens;
      assert first == Clip(whole, cch);
      ClipAppend(whole, Source(tokens[1..]), cch);
    }
  }

  /** While none of its functions is registered, a text evaluates to itself, character for
      character, cut off where the buffer ends. */
  lemma UnregisteredReproduces(alnum: Alnum, text: string, functions: map<FunctionId, FormatterData>, cch: nat)
    requires cch > 0
    requires forall t :: t in Parse(alnum, text) && t.ExpressionToken? ==> !Registered(functions, t.func)
    ensures Rendered(Parse(alnum, text), functions, cch) == Clip(text, cch)
    ensures cch > |text| ==> Rendered(Parse(alnum, text), functions, cch) == text
  {
    UnregisteredRendered(Parse(alnum, text), functions, cch);
    TokensSpellText(alnum, text, 0, 0);
  }

  // ----- The table of functions

  ghost predicate Uses(tokens: seq<Token>, f: FunctionId) {
    exists t :: t in tokens && t.ExpressionToken? && t.func == f
  }

  /** Nothing but users and functions nobody has registered were added. */
  ghost predicate Extends(after: map<FunctionId, FormatterData>, before: map<FunctionId, FormatterData>) {
    forall f :: f in before || f in after ==>
      && f in after
      && after[f].proc == (if f in before then before[f].proc else None)
      && after[f].dynamic == (if f in before then before[f].dynamic else true)
  }

  lemma ExtendsTransitive(c: map<FunctionId, FormatterData>, b: map<FunctionId, FormatterData>, a: map<FunctionId, FormatterData>)
    requires Extends(c, b) && Extends(b, a)
    ensures Extends(c, a)
  {
  }

  lemma ExtendsUsers(functions: map<FunctionId, FormatterData>, f: FunctionId, users: set<ParsedText>)
    requires f in functions
    ensures Extends(functions[f := functions[f].(users := users)], functions)
  {
  }

  lemma ExtendsSame(functions: map<FunctionId, FormatterData>)
    ensures Extends(functions, functions)
  {
  }

  /** All functions that are registered or used in some text. */
  class FunctionTable {
    var functions: map<FunctionId, FormatterData>
    ghost var live: set<ParsedText>

    constructor ()
      ensures Valid() && functions == map[] && live == {}
    {
      functions, live := map[], {};
    }

    ghost function Users(f: FunctionId): set<ParsedText>
      reads this`functions
    {
      if f in functions then functions[f].users else {}
    }

    /** A text is known as a user of a function exactly if it is alive and calls it. */
    ghost predicate Valid()
      reads this, live
    {
      && (forall f, t :: t in Users(f) ==> t in live)
      && (forall f, t :: t in live ==> (t in Users(f) <==> Uses(t.tokens, f)))
    }

    method FindDynamicTextFunction(f: FunctionId)
      requires Valid()
      modifies this`functions
      ensures Valid() && f in functions && Extends(functions, old(functions))
      ensures functions.Keys == old(functions.Keys) + {f}
      ensures forall g :: Users(g) == old(Users(g))
    {
      hide Uses;
      if f !in functions {
        functions := functions[f := FormatterData(None, true, {})];
      }
      assert forall g :: Users(g) == old(Users(g));
    }

    method Register(f: FunctionId, formatter: Option<Formatter>, dynamic: bool)
      requires Valid()
      modifies this`functions
      ensures Valid() && f in functions
      ensures functions[f].proc == formatter && functions[f].dynamic == dynamic
      ensures Extends(functions - {f}, old(functions) - {f}) && functions.Keys == old(functions.Keys) + {f}
      ensures forall g :: Users(g) == old(Users(g))
    {
      hide Uses;
      FindDynamicTextFunction(f);
      functions := functions[f := functions[f].(proc := formatter, dynamic := dynamic)];
      assert forall g :: Users(g) == old(Users(g));
    }

    /** The function is gone, and every text that calls it is told so. */
    method UnRegister(f: FunctionId)
      requires Valid()
      modifies this`functions, live`changes
      ensures Valid()
      ensures !Registered(functions, f)
      ensures Extends(functions - {f}, old(functions) - {f}) && functions.Keys == old(functions.Keys) + {f}
      ensures Notified(f)
    {
      Register(f, None, true);
      DynamicTextChangeNotification(f);
    }

    /** Exactly the living texts that call `f` and have a handler were notified, once each. */
    twostate predicate Notified(f: FunctionId)
      reads this, live
    {
      && live == old(live)
      && forall t :: t in live ==> t.changes == old(t.changes) + (if Uses(t.tokens, f) && t.hasHandler then 1 else 0)
    }

    method DynamicTextChangeNotification(f: FunctionId)
      requires Valid()
      modifies this`functions, live`changes
      ensures Valid() && Extends(functions, old(functions))
      ensures functions.Keys == old(functions.Keys) + {f}
      ensures forall g :: Users(g) == old(Users(g))
      ensures Notified(f)
    {
      hide Extends, Uses;
      FindDynamicTextFunction(f);
      var todo := functions[f].users;
      while todo != {}
        invariant todo <= Users(f)
        invariant forall t :: t in live ==> t.changes == old(t.changes) + (if t in Users(f) - todo && t.hasHandler then 1 else 0)
        decreases |todo|
        modifies live`changes
      {
        var user :| user in todo;
        user.DataChanged();
        todo := todo - {user};
      }
    }
  }

  // ----- Texts

  datatype Mode = Begin | Name | Arguments | Failed | Done

  class ParsedText {
    var tokens: seq<Token>
    var hasHandler: bool
    // How often the handler was called.
    var changes: nat

    constructor (alnum: Alnum, text: string, table: FunctionTable)
      requires table.Valid()
      modifies table
      ensures table.Valid() && table.live == old(table.live) + {this} && Extends(table.functions, old(table.functions))
      ensures tokens == DynamicText.Parse(alnum, text) && !hasHandler
    {
      tokens, hasHandler, changes := [], false, 0;
      new;
      hide Uses;
      NoUses();
      table.live := table.live + {this};
      ghost var starts := Parse(alnum, text, table);
    }

    method SetChangeHandler(handler: bool)
      modifies this`hasHandler
      ensures hasHandler == handler
    {
      hasHandler := handler;
    }

    method DataChanged()
      modifies this`changes
      ensures changes == old(changes) + (if hasHandler then 1 else 0)
    {
      if hasHandler {
        changes := changes + 1;
      }
    }

    /** Releases this text; no function knows it any more. */
    method Release(table: FunctionTable)
      requires table.Valid() && this in table.live
      modifies this`tokens, table
      ensures table.Valid() && table.live == old(table.live) - {this}
      ensures Extends(table.functions, old(table.functions)) && table.functions.Keys == old(table.functions.Keys)
    {
      hide Extends, Uses;
      ExtendsSame(table.functions);
      NoUses();
      var i := 0;
      while i < |tokens|
        invariant 0 <= i <= |tokens| && unchanged(this) && table.live == old(table.live)
        invariant Extends(table.functions, old(table.functions)) && table.functions.Keys == old(table.functions.Keys)
        invariant forall f :: table.Users(f) == old(table.Users(f)) - (if Uses(tokens[..i], f) then {this} else {})
        modifies table`functions
      {
        if tokens[i].ExpressionToken? {
          var f := tokens[i].func;
          TokenIsUsed(tokens, i);
          assert this in old(table.Users(f));
          var entry := table.functions[f];
          ExtendsUsers(table.functions, f, entry.users - {this});
          ExtendsTransitive(table.functions[f := entry.(users := entry.users - {this})], table.functions, old(table.functions));
          table.functions := table.functions[f := entry.(users := entry.users - {this})];
        }
        UsesSnoc(tokens[..i], tokens[i]);
        assert tokens[..i + 1] == tokens[..i] + [tokens[i]];
        i := i + 1;
      }
      assert tokens[..i] == tokens;
      tokens := [];
      table.live := table.live - {this};
    }

    method AddToken(token: Token, table: FunctionTable)
      requires table.Valid() && this in table.live
      requires token.ExpressionToken? ==> token.func in table.functions
      modifies this`tokens, table`functions
      ensures tokens == old(tokens) + [token] && table.Valid()
      ensures Extends(table.functions, old(table.functions)) && table.functions.Keys == old(table.functions.Keys)
    {
      hide Extends, Uses;
      ExtendsSame(table.functions);
      tokens := tokens + [token];
      UsesSnoc(old(tokens), token);
      if token.ExpressionToken? {
        var entry := table.functions[token.func];
        ExtendsUsers(table.functions, token.func, entry.users + {this});
        table.functions := table.functions[token.func := entry.(users := entry.users + {this})];
      }
      assert forall f :: table.Users(f) == old(table.Users(f)) + (if token.ExpressionToken? && token.func == f then {this} else {});
    }

    /** Fills the buffer with what the tokens evaluate to, cut off where the buffer ends. */
    method Evaluate(dest: array<char>, table: FunctionTable) returns (ok: bool)
      requires dest.Length > 0
      modifies dest
      ensures ok
      ensures var r := Rendered(tokens, table.functions, dest.Length); dest[..|r|] == r && dest[|r|] == '\0'
    {
      hide Clip, Rendered;
      ghost var whole := Rendered(tokens, table.functions, dest.Length);
      dest[0] := '\0';
      var end: nat, i: nat := 0, 0;
      assert tokens[0..] == tokens && dest[..0] == "";
      while i < |tokens|
        invariant 0 <= i <= |tokens| && end < dest.Length && dest[end] == '\0'
        invariant dest[..end] + Rendered(tokens[i..], table.functions, dest.Length - end) == whole
      {
        RenderedFirst(tokens[i..], table.functions, dest.Length - end);
        assert tokens[i..][1..] == tokens[i + 1..];
        end := EvaluateToken(tokens[i], table.functions, dest, end);
        i := i + 1;
      }
      assert tokens[i..] == [];
      RenderedNothing(table.functions, dest.Length - end);
      return true;
    }

    /** Pushes the words in front of a call, and the call. */
    method AddCall(words: string, f: FunctionId, call: string, args: seq<string>, table: FunctionTable)
      requires table.Valid() && this in table.live
      modifies this`tokens, table`functions
      ensures tokens == old(tokens) + ([TextToken(words)] + [ExpressionToken(f, call, args)])
      ensures table.Valid() && Extends(table.functions, old(table.functions))
    {
      hide Uses, Extends;
      AddToken(TextToken(words), table);
      ghost var before := table.functions;
      table.FindDynamicTextFunction(f);
      ExtendsTransitive(table.functions, before, old(table.functions));
      before := table.functions;
      AddToken(ExpressionToken(f, call, args), table);
      ExtendsTransitive(table.functions, before, old(table.functions));
    }

    /** The mode machine finds the tokens of the text. Its cursor never leaves the text, and each
        attempt starts at a later bracket than the one before: `starts` are those brackets. */
    method Parse(alnum: Alnum, text: string, table: FunctionTable) returns (ghost starts: seq<nat>)
      requires table.Valid() && this in table.live && tokens == []
      modifies this`tokens, table`functions
      ensures tokens == DynamicText.Parse(alnum, text)
      ensures table.Valid() && Extends(table.functions, old(table.functions))
      ensures LaterBrackets(text, starts, |text|)
    {
      hide Uses, Extends, LaterBrackets, Rest, Tokens, Resume, ReadName, ReadArgs, Tail, DynamicText.Parse;
      hide FunctionTable.Valid, FunctionTable.Users;
      starts := [];
      NoBrackets(text);
      ExtendsSame(table.functions);
      RestAtStart(alnum, text);
      var pos: nat, searchPos: nat, found := 0, 0, true;
      var mode := Begin;
      var expressionStart: nat, argumentStart: nat := 0, 0;
      var functionName: string, arguments: seq<string> := "", [];
      while found && searchPos < |text|
        invariant InText(text, mode, pos, expressionStart, argumentStart, searchPos)
        invariant tokens + Rest(alnum, text, found, mode, pos, expressionStart, functionName, arguments, searchPos) == DynamicText.Parse(alnum, text)
        invariant mode == Begin || mode == Name ==> arguments == []
        invariant table.Valid() && this in table.live && Extends(table.functions, old(table.functions))
        invariant LaterBrackets(text, starts, if mode == Begin then searchPos else expressionStart + 1)
        decreases found, |text| - (if mode == Begin then searchPos else expressionStart + 1), Phase(mode), |text| - searchPos
      {
        match mode
        case Begin =>
          RestFromBegin(alnum, text, pos, expressionStart, functionName, searchPos);
          OneMoreBracket(text, starts, searchPos, Find(text, '[', searchPos));
          searchPos := Find(text, '[', searchPos);
          if searchPos < |text| {
            starts := starts + [searchPos];
            expressionStart := searchPos;
            searchPos := searchPos + 1;
            mode := Name;
          } else {
            found := false;
          }
        case Name =>
          mode, searchPos, argumentStart, functionName := NameStep(alnum, text, pos, expressionStart, functionName, searchPos);
        case Arguments =>
          found, mode, searchPos, arguments := ArgumentsStep(alnum, text, pos, expressionStart, functionName, arguments, searchPos);
          argumentStart := searchPos;
        case Failed =>
          NoEarlierBracket(text, starts, expressionStart + 1, searchPos - 1);
          RestFromFailed(alnum, text, pos, expressionStart, functionName, arguments, searchPos);
          functionName, arguments := "", [];
          mode := Begin;
          searchPos := searchPos - 1;
        case Done =>
          RestFromDone(alnum, text, pos, expressionStart, functionName, arguments, searchPos);
          NoEarlierBracket(text, starts, expressionStart + 1, searchPos + 1);
          ghost var before := table.functions;
          AddCall(text[pos..expressionStart], FunctionId(functionName, |arguments|), text[expressionStart + 1..searchPos], arguments, table);
          ExtendsTransitive(table.functions, before, old(table.functions));
          searchPos := searchPos + 1;
          pos := searchPos;
          mode := Begin;
          functionName, arguments := "", [];
      }
      NoEarlierBracket(text, starts, if mode == Begin then searchPos else expressionStart + 1, |text|);
      AtTheEnd(alnum, text, found, mode, pos, expressionStart, functionName, arguments, searchPos);
      if pos < |text| {
        ghost var before := table.functions;
        AddToken(TextToken(text[pos..]), table);
        ExtendsTransitive(table.functions, before, old(table.functions));
      }
    }
  }

  lemma TokenIsUsed(tokens: seq<Token>, i: nat)
    requires i < |tokens| && tokens[i].ExpressionToken?
    ensures Uses(tokens, tokens[i].func)
  {
    assert tokens[i] in tokens;
  }

  lemma NoUses()
    ensures forall f :: !Uses([], f)
  {
  }

  lemma UsesSnoc(tokens: seq<Token>, token: Token)
    ensures forall f :: Uses(tokens + [token], f) <==> Uses(tokens, f) || (token.ExpressionToken? && token.func == f)
  {
  }

  /** Brackets of the text, each behind the one before, all of them in front of `bound`. */
  ghost predicate LaterBrackets(text: string, starts: seq<nat>, bound: nat) {
    && (forall i :: 0 <= i < |starts| ==> starts[i] < bound && IsAt(text, starts[i], '['))
    && (forall i, j :: 0 <= i < j < |starts| ==> starts[i] < starts[j])
  }

  lemma NoBrackets(text: string)
    ensures LaterBrackets(text, [], 0)
  {
  }

  lemma OneMoreBracket(text: string, starts: seq<nat>, bound: nat, at: nat)
    requires LaterBrackets(text, starts, bound) && bound <= at
    ensures IsAt(text, at, '[') ==> LaterBrackets(text, starts + [at], at + 1)
    ensures LaterBrackets(text, starts, at)
  {
  }

  lemma NoEarlierBracket(text: string, starts: seq<nat>, bound: nat, further: nat)
    requires LaterBrackets(text, starts, bound) && bound <= further
    ensures LaterBrackets(text, starts, further)
  {
  }

  /** One step of reading a name. */
  method NameStep(alnum: Alnum, text: string, ghost pos: nat, expressionStart: nat, name: string, cursor: nat)
    returns (mode: Mode, searchPos: nat, argumentStart: nat, functionName: string)
    requires pos <= expressionStart < cursor < |text|
    ensures mode.Name? || mode.Arguments? || mode.Failed? || mode.Done?
    ensures InText(text, mode, pos, expressionStart, argumentStart, searchPos) && cursor < searchPos
    ensures Rest(alnum, text, true, mode, pos, expressionStart, functionName, [], searchPos)
         == Rest(alnum, text, true, Name, pos, expressionStart, name, [], cursor)
  {
    hide Rest;
    RestFromName(alnum, text, pos, expressionStart, name, cursor);
    mode, searchPos, argumentStart, functionName := Name, cursor + 1, 0, name;
    if IsAt(text, searchPos, ']') {
      functionName := text[expressionStart + 1..searchPos];
      mode := Done;
    } else if IsAt(text, searchPos, '(') {
      searchPos := searchPos + 1;
      if IsAt(text, searchPos, '\'') {
        argumentStart := searchPos;
        functionName := text[expressionStart + 1..searchPos - 1];
        mode := Arguments;
      } else {
        mode := Failed;
      }
    } else if searchPos == |text| || !alnum(text[searchPos]) {
      mode := Failed;
    }
  }

  /** One step of reading arguments: one argument and what follows it. */
  method ArgumentsStep(alnum: Alnum, text: string, ghost pos: nat, ghost expressionStart: nat, ghost name: string, args: seq<string>, cursor: nat)
    returns (found: bool, mode: Mode, searchPos: nat, arguments: seq<string>)
    requires pos <= expressionStart && expressionStart + 2 < cursor < |text|
    ensures mode.Arguments? || mode.Failed? || mode.Done?
    ensures InText(text, mode, pos, expressionStart, searchPos, searchPos) && (mode.Arguments? ==> cursor < searchPos)
    ensures Rest(alnum, text, found, mode, pos, expressionStart, name, arguments, searchPos)
         == Rest(alnum, text, true, Arguments, pos, expressionStart, name, args, cursor)
  {
    hide Rest;
    RestFromArguments(alnum, text, pos, expressionStart, name, args, cursor);
    found, mode, arguments := true, Arguments, args;
    searchPos := Find(text, '\'', cursor + 1);
    if searchPos < |text| {
      arguments := arguments + [text[cursor + 1..searchPos]];
      searchPos := searchPos + 1;
      if IsAt(text, searchPos, ',') {
        searchPos := searchPos + 1;
        if IsAt(text, searchPos, ' ') && IsAt(text, searchPos + 1, '\'') {
          searchPos := searchPos + 1;
        } else {
          if IsAt(text, searchPos, ' ') {
            searchPos := searchPos + 1;
          }
          searchPos := searchPos - 1;
          mode := Failed;
        }
      } else if IsAt(text, searchPos, ')') {
        searchPos := searchPos + 1;
        mode := if IsAt(text, searchPos, ']') then Done else Failed;
      } else {
        mode := Failed;
      }
    } else {
      found := false;
      mode := Failed;
    }
  }

  ghost function Phase(mode: Mode): nat {
    match mode
    case Begin => 0
    case Failed => 1
    case Done => 1
    case _ => 2
  }

  /** Where the cursor can be in each mode. */
  ghost predicate InText(text: string, mode: Mode, pos: nat, open: nat, quote: nat, searchPos: nat) {
    && pos <= |text| && searchPos <= |text|
    && match mode
       case Begin => pos <= searchPos
       case Name => pos <= open < searchPos
       case Arguments => pos <= open && open + 2 < searchPos < |text| && quote == searchPos
       case Failed => pos <= open < |text| && (open + 2 <= searchPos || searchPos == |text|)
       case Done => pos <= open && open + 1 < searchPos < |text|
  }

  /** The tokens still to be found. */
  ghost function Rest(alnum: Alnum, text: string, found: bool, mode: Mode, pos: nat, open: nat, name: string, args: seq<string>, searchPos: nat): seq<Token>
    requires InText(text, mode, pos, open, searchPos, searchPos)
  {
    if !found then Tail(text, pos)
    else match mode
      case Begin => Tokens(alnum, text, pos, searchPos)
      case Name => Resume(alnum, text, pos, open, ReadName(alnum, text, open, searchPos))
      case Arguments => Resume(alnum, text, pos, open, ReadArgs(text, open, name, args, searchPos))
      case Failed => Resume(alnum, text, pos, open, Failure(searchPos))
      case Done => Resume(alnum, text, pos, open, Success(name, args, searchPos))
  }

  lemma RestAtStart(alnum: Alnum, text: string)
    ensures Rest(alnum, text, true, Begin, 0, 0, "", [], 0) == Parse(alnum, text)
  {
  }

  lemma RestFromBegin(alnum: Alnum, text: string, pos: nat, before: nat, name: string, from: nat)
    requires pos <= from <= |text|
    ensures Rest(alnum, text, true, Begin, pos, before, name, [], from)
         == (var open := Find(text, '[', from);
             if open == |text| then Rest(alnum, text, false, Begin, pos, before, name, [], open)
             else Rest(alnum, text, true, Name, pos, open, name, [], open + 1))
  {
    hide Resume, Tail, ReadName;
  }

  lemma RestFromName(alnum: Alnum, text: string, pos: nat, open: nat, name: string, searchPos: nat)
    requires pos <= open < searchPos < |text|
    ensures Rest(alnum, text, true, Name, pos, open, name, [], searchPos)
         == (var next := searchPos + 1;
             if IsAt(text, next, ']') then Rest(alnum, text, true, Done, pos, open, text[open + 1..next], [], next)
             else if IsAt(text, next, '(') then
               if IsAt(text, next + 1, '\'') then Rest(alnum, text, true, Arguments, pos, open, text[open + 1..next], [], next + 1)
               else Rest(alnum, text, true, Failed, pos, open, name, [], next + 1)
             else if next == |text| || !alnum(text[next]) then Rest(alnum, text, true, Failed, pos, open, name, [], next)
             else Rest(alnum, text, true, Name, pos, open, name, [], next))
  {
    hide Resume, ReadArgs;
  }

  lemma RestFromArguments(alnum: Alnum, text: string, pos: nat, open: nat, name: string, args: seq<string>, quote: nat)
    requires pos <= open && open + 2 < quote < |text|
    ensures Rest(alnum, text, true, Arguments, pos, open, name, args, quote)
         == (var end := Find(text, '\'', quote + 1);
             if end == |text| then Rest(alnum, text, false, Failed, pos, open, name, args, end)
             else
               var more := args + [text[quote + 1..end]];
               if IsAt(text, end + 1, ',') then
                 if !IsAt(text, end + 2, ' ') then Rest(alnum, text, true, Failed, pos, open, name, more, end + 1)
                 else if !IsAt(text, end + 3, '\'') then Rest(alnum, text, true, Failed, pos, open, name, more, end + 2)
                 else Rest(alnum, text, true, Arguments, pos, open, name, more, end + 3)
               else if IsAt(text, end + 1, ')') then
                 Rest(alnum, text, true, if IsAt(text, end + 2, ']') then Done else Failed, pos, open, name, more, end + 2)
               else Rest(alnum, text, true, Failed, pos, open, name, more, end + 1))
  {
    hide Tail, Tokens;
  }

  lemma RestFromFailed(alnum: Alnum, text: string, pos: nat, open: nat, name: string, args: seq<string>, at: nat)
    requires pos <= open < |text| && open + 2 <= at < |text|
    ensures Rest(alnum, text, true, Failed, pos, open, name, args, at) == Rest(alnum, text, true, Begin, pos, open, "", [], at - 1)
  {
    hide Tokens;
  }

  lemma RestFromDone(alnum: Alnum, text: string, pos: nat, open: nat, name: string, args: seq<string>, close: nat)
    requires pos <= open && open + 1 < close < |text|
    ensures Rest(alnum, text, true, Done, pos, open, name, args, close)
         == ([TextToken(text[pos..open])] + [ExpressionToken(FunctionId(name, |args|), text[open + 1..close], args)])
            + Rest(alnum, text, true, Begin, close + 1, open, "", [], close + 1)
  {
    hide Tokens;
  }

  /** When the search is over, the rest of the text is one piece. */
  lemma AtTheEnd(alnum: Alnum, text: string, found: bool, mode: Mode, pos: nat, open: nat, name: string, args: seq<string>, searchPos: nat)
    requires InText(text, mode, pos, open, searchPos, searchPos) && (found ==> searchPos == |text|)
    ensures Rest(alnum, text, found, mode, pos, open, name, args, searchPos) == if pos < |text| then [TextToken(text[pos..])] else []
  {
  }
}
