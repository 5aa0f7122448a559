/**
 Splitting a compilation command without a shell (crates/adapter-clang/src/command.rs,
 `CommandTokenizer` and `tokenize_command`). Unlike in the POSIX Shell Command Language, a backslash
 inside double quotes escapes any character and an escaped newline is kept; PosixQuoting says when
 that matters.
 */
module Tokenizer {
  import opened Wrappers

  datatype Error = Nul | UnterminatedSingle | UnterminatedDouble | IncompleteEscape | ShellSyntax(token: char) | Empty

  datatype Quote = Unquoted | Single | Double

  const NUL: char := '\0'

  predicate IsShellSyntax(c: char) {
    c in ['\n', '\r', '|', '&', ';', '<', '>', '$', '`', '(', ')']
  }

  // ----- specification: one transition per character -----

  datatype State = State(tokens: seq<string>, token: string, quote: Quote, escaped: bool, started: bool)

  const START := State([], "", Unquoted, false, false)

  function PushLiteral(s: State, c: char): State {
    s.(token := s.token + [c], started := true)
  }

  function FinishToken(s: State): State {
    if s.started then s.(tokens := s.tokens + [s.token], token := "", started := false) else s
  }

  function PushChecked(s: State, c: char): Result<State, Error> {
    if IsShellSyntax(c) then Failure(ShellSyntax(c)) else Success(PushLiteral(s, c))
  }

  function Step(s: State, c: char): Result<State, Error> {
    if s.escaped then
      Success(PushLiteral(s, c).(escaped := false))
    else
      match s.quote
      case Single =>
        Success(if c == '\'' then s.(quote := Unquoted, started := true) else PushLiteral(s, c))
      case Double =>
        if c == '"' then Success(s.(quote := Unquoted, started := true))
        else if c == '\\' then Success(s.(escaped := true, started := true))
        else PushChecked(s, c)
      case Unquoted =>
        if c == '\'' then Success(s.(quote := Single, started := true))
        else if c == '"' then Success(s.(quote := Double, started := true))
        else if c == '\\' then Success(s.(escaped := true, started := true))
        else if c == ' ' || c == '\t' then Success(FinishToken(s))
        else PushChecked(s, c)
  }

  function Run(s: State, text: string): Result<State, Error>
    decreases |text|
  {
    if text == "" then
      Success(s)
    else
      match Step(s, text[0])
      case Failure(e) => Failure(e)
      case Success(next) => Run(next, text[1..])
  }

  function Finish(s: State): Result<seq<string>, Error> {
    if s.escaped then Failure(IncompleteEscape)
    else if s.quote == Single then Failure(UnterminatedSingle)
    else if s.quote == Double then Failure(UnterminatedDouble)
    else
      var tokens := FinishToken(s).tokens;
      if tokens == [] then Failure(Empty) else Success(tokens)
  }

  function Tokenize(command: string): Result<seq<string>, Error> {
    if NUL in command then
      Failure(Nul)
    else
      match Run(START, command)
      case Failure(e) => Failure(e)
      case Success(s) => Finish(s)
  }

  // ----- the program -----

  class CommandTokenizer {
    var tokens: seq<string>
    var token: string
    var quote: Quote
    var escaped: bool
    var started: bool

    ghost function View(): State
      reads this
    {
      State(tokens, token, quote, escaped, started)
    }

    constructor ()
      ensures View() == START
    {
      tokens, token, quote, escaped, started := [], "", Unquoted, false, false;
    }

    method Consume(c: char) returns (r: Result<(), Error>)
      modifies this
      ensures r.Success? <==> Step(old(View()), c).Success?
      ensures r.Success? ==> View() == Step(old(View()), c).value
      ensures r.Failure? ==> r.error == Step(old(View()), c).error && View() == old(View())
    {
      if escaped {
        AddLiteral(c);
        escaped := false;
        return Success(());
      }
      match quote
      case Single =>
        if c == '\'' {
          quote := Unquoted;
        } else {
          token := token + [c];
        }
        started := true;
        r := Success(());
      case Double =>
        if c == '"' {
          quote := Unquoted;
          started := true;
          r := Success(());
        } else if c == '\\' {
          BeginEscape();
          r := Success(());
        } else {
          r := AddChecked(c);
        }
      case Unquoted =>
        r := Success(());
        if c == '\'' {
          quote, started := Single, true;
        } else if c == '"' {
          quote, started := Double, true;
        } else if c == '\\' {
          BeginEscape();
        } else if c == ' ' || c == '\t' {
          EndToken();
        } else {
          r := AddChecked(c);
        }
    }

    method AddLiteral(c: char)
      modifies this`token, this`started
      ensures View() == PushLiteral(old(View()), c)
    {
      token := token + [c];
      started := true;
    }

    method AddChecked(c: char) returns (r: Result<(), Error>)
      modifies this`token, this`started
      ensures r == if IsShellSyntax(c) then Failure(ShellSyntax(c)) else Success(())
      ensures View() == if IsShellSyntax(c) then old(View()) else PushLiteral(old(View()), c)
    {
      if IsShellSyntax(c) {
        return Failure(ShellSyntax(c));
      }
      AddLiteral(c);
      return Success(());
    }

    method BeginEscape()
      modifies this`escaped, this`started
      ensures View() == old(View()).(escaped := true, started := true)
    {
      escaped := true;
      started := true;
    }

    method EndToken()
      modifies this`tokens, this`token, this`started
      ensures View() == FinishToken(old(View()))
    {
      if started {
        tokens := tokens + [token];
        token := "";
        started := false;
      }
    }

    method Complete() returns (r: Result<seq<string>, Error>)
      modifies this`tokens, this`token, this`started
      ensures r == Finish(old(View()))
    {
      if escaped {
        return Failure(IncompleteEscape);
      }
      if quote == Single {
        return Failure(UnterminatedSingle);
      }
      if quote == Double {
        return Failure(UnterminatedDouble);
      }
      EndToken();
      if tokens == [] {
        return Failure(Empty);
      }
      return Success(tokens);
    }
  }

  method TokenizeCommand(command: string) returns (r: Result<seq<string>, Error>)
    ensures r == Tokenize(command)
  {
    if NUL in command {
      return Failure(Nul);
    }
    var tokenizer := new CommandTokenizer();
    for i := 0 to |command|
      invariant Run(START, command) == Run(tokenizer.View(), command[i..])
    {
      assert command[i..][0] == command[i] && command[i..][1..] == command[i + 1..];
      var _ :- tokenizer.Consume(command[i]);
    }
    r := tokenizer.Complete();
  }

  // ----- composition -----

  lemma {:induction false} RunConcat(s: State, a: string, b: string)
    ensures Run(s, a + b) == match Run(s, a) case Failure(e) => Failure(e) case Success(t) => Run(t, b)
    decreases |a|
  {
    if a == "" {
      assert a + b == b;
    } else {
      assert (a + b)[0] == a[0] && (a + b)[1..] == a[1..] + b;
      match Step(s, a[0])
      case Failure(e) =>
      case Success(next) => RunConcat(next, a[1..], b);
    }
  }

  /** Finished tokens never influence later transitions. */
  lemma {:induction false} RunShift(prefix: seq<string>, s: State, text: string)
    ensures Run(s.(tokens := prefix + s.tokens), text)
         == match Run(s, text) case Failure(e) => Failure(e) case Success(t) => Success(t.(tokens := prefix + t.tokens))
    decreases |text|
  {
    if text != "" {
      assert prefix + (s.tokens + [s.token]) == prefix + s.tokens + [s.token];
      match Step(s, text[0])
      case Failure(e) =>
      case Success(next) => RunShift(prefix, next, text[1..]);
    }
  }

  /** Two accepted commands joined by a space are accepted and give both token lists. */
  lemma TokenizeJoined(a: string, b: string)
    requires Tokenize(a).Success? && Tokenize(b).Success?
    ensures Tokenize(a + " " + b) == Success(Tokenize(a).value + Tokenize(b).value)
  {
    var s := Run(START, a).value;
    var x := Tokenize(a).value;
    RunConcat(START, a + " ", b);
    RunConcat(START, a, " ");
    RunSingle(s, ' ');
    RunClean(START, a);
    assert Run(START, a + " ") == Success(START.(tokens := x + START.tokens)) by {
      assert x + [] == x;
    }
    RunShift(x, START, b);
    var t := Run(START, b).value;
    assert x + (t.tokens + [t.token]) == x + t.tokens + [t.token];
  }

  lemma RunSingle(s: State, c: char)
    ensures Run(s, [c]) == Step(s, c)
  {
  }

  /** A token that has not started is empty. */
  ghost predicate Clean(s: State) {
    !s.started ==> s.token == "" && s.quote == Unquoted && !s.escaped
  }

  lemma {:induction false} RunClean(s: State, text: string)
    requires Clean(s) && Run(s, text).Success?
    ensures Clean(Run(s, text).value)
    decreases |text|
  {
    if text != "" {
      RunClean(Step(s, text[0]).value, text[1..]);
    }
  }

  // ----- printing and reading back -----

  /** Every character behind a backslash. */
  function Escaped(argument: string): string {
    if argument == "" then "" else ['\\', argument[0]] + Escaped(argument[1..])
  }

  function Printed(argument: string): string {
    if argument == "" then "''" else Escaped(argument)
  }

  function PrintedCommand(arguments: seq<string>): string
    requires arguments != []
  {
    if |arguments| == 1 then
      Printed(arguments[0])
    else
      Printed(arguments[0]) + " " + PrintedCommand(arguments[1..])
  }

  lemma {:induction false} RunEscaped(s: State, argument: string)
    requires s.quote == Unquoted && !s.escaped
    ensures Run(s, Escaped(argument))
         == Success(if argument == "" then s else s.(token := s.token + argument, started := true))
    decreases |argument|
  {
    if argument != "" {
      var c, rest := argument[0], argument[1..];
      var text := Escaped(argument);
      assert text[0] == '\\' && text[1..] == [c] + Escaped(rest);
      assert text[1..][0] == c && text[1..][1..] == Escaped(rest);
      var middle := s.(escaped := true, started := true);
      var next := s.(token := s.token + [c], started := true);
      assert Step(s, '\\') == Success(middle) && Step(middle, c) == Success(next);
      assert Run(middle, text[1..]) == Run(next, text[1..][1..]);
      RunEscaped(next, rest);
      assert s.token + [c] + rest == s.token + argument;
      assert rest == "" ==> s.token + [c] == s.token + argument;
    }
  }

  lemma PrintedTokenizes(argument: string)
    requires NUL !in argument
    ensures Tokenize(Printed(argument)) == Success([argument])
  {
    if argument == "" {
      assert "''"[1..] == "'" && "'"[1..] == "";
    } else {
      RunEscaped(START, argument);
      EscapedHasNoNul(argument);
      assert "" + argument == argument && START.tokens + [argument] == [argument];
    }
  }

  lemma {:induction false} EscapedHasNoNul(argument: string)
    requires NUL !in argument
    ensures NUL !in Escaped(argument)
  {
    if argument != "" {
      assert argument == [argument[0]] + argument[1..];
      EscapedHasNoNul(argument[1..]);
    }
  }

  /** Reading back a printed command gives the arguments, whatever characters they hold. */
  lemma {:induction false} TokenizePrinted(arguments: seq<string>)
    requires arguments != [] && forall a :: a in arguments ==> NUL !in a
    ensures Tokenize(PrintedCommand(arguments)) == Success(arguments)
    decreases |arguments|
  {
    PrintedTokenizes(arguments[0]);
    if |arguments| > 1 {
      TokenizePrinted(arguments[1..]);
      TokenizeJoined(Printed(arguments[0]), PrintedCommand(arguments[1..]));
      assert arguments == [arguments[0]] + arguments[1..];
    } else {
      assert arguments == [arguments[0]];
    }
  }

  // ----- exactly which commands are accepted -----

  /** The quoting context alone, which never fails. */
  datatype Context = Context(quote: Quote, escaped: bool)

  function Advance(x: Context, c: char): Context {
    if x.escaped then x.(escaped := false)
    else if x.quote == Single then (if c == '\'' then x.(quote := Unquoted) else x)
    else if c == '\\' then x.(escaped := true)
    else if x.quote == Double then (if c == '"' then x.(quote := Unquoted) else x)
    else if c == '\'' then x.(quote := Single)
    else if c == '"' then x.(quote := Double)
    else x
  }

  /** The context just before position `i`. */
  function ContextAt(x: Context, text: string, i: nat): Context
    requires i <= |text|
  {
    if i == 0 then x else Advance(ContextAt(x, text, i - 1), text[i - 1])
  }

  /** Every shell metacharacter is escaped or single-quoted. */
  ghost predicate MetacharactersQuoted(x: Context, text: string) {
    forall i :: 0 <= i < |text| && IsShellSyntax(text[i]) ==>
      ContextAt(x, text, i).escaped || ContextAt(x, text, i).quote == Single
  }

  lemma {:induction false} ContextTail(x: Context, text: string, i: nat)
    requires text != "" && i < |text|
    ensures ContextAt(x, text, i + 1) == ContextAt(Advance(x, text[0]), text[1..], i)
  {
    if i > 0 {
      ContextTail(x, text, i - 1);
    }
  }

  lemma QuotedTail(x: Context, text: string)
    requires text != ""
    ensures MetacharactersQuoted(x, text) <==>
      && (IsShellSyntax(text[0]) ==> x.escaped || x.quote == Single)
      && MetacharactersQuoted(Advance(x, text[0]), text[1..])
  {
    var next, rest := Advance(x, text[0]), text[1..];
    forall i | 0 <= i < |rest|
      ensures ContextAt(x, text, i + 1) == ContextAt(next, rest, i) && text[i + 1] == rest[i]
    {
      ContextTail(x, text, i);
    }
    if MetacharactersQuoted(x, text) {
      forall i | 0 <= i < |rest| && IsShellSyntax(rest[i])
        ensures ContextAt(next, rest, i).escaped || ContextAt(next, rest, i).quote == Single
      {
        assert IsShellSyntax(text[i + 1]);
      }
      assert ContextAt(x, text, 0) == x;
    }
    if (IsShellSyntax(text[0]) ==> x.escaped || x.quote == Single) && MetacharactersQuoted(next, rest) {
      forall i | 0 <= i < |text| && IsShellSyntax(text[i])
        ensures ContextAt(x, text, i).escaped || ContextAt(x, text, i).quote == Single
      {
        if i > 0 {
          assert IsShellSyntax(rest[i - 1]);
        }
      }
    }
  }

  /** The run fails only on an unquoted metacharacter, and otherwise ends in the quoting context of the text. */
  lemma {:induction false} RunAccepts(s: State, text: string)
    ensures var x := Context(s.quote, s.escaped);
            && (Run(s, text).Success? <==> MetacharactersQuoted(x, text))
            && (Run(s, text).Success? ==>
                  Context(Run(s, text).value.quote, Run(s, text).value.escaped) == ContextAt(x, text, |text|))
    decreases |text|
  {
    if text != "" {
      var x := Context(s.quote, s.escaped);
      QuotedTail(x, text);
      ContextTail(x, text, |text| - 1);
      StepAccepts(s, text[0]);
      if Step(s, text[0]).Success? {
        RunAccepts(Step(s, text[0]).value, text[1..]);
      }
    }
  }

  /** One step refuses exactly an unquoted metacharacter, and otherwise moves the context. */
  lemma StepAccepts(s: State, c: char)
    ensures var x := Context(s.quote, s.escaped);
            && (Step(s, c).Success? <==> (IsShellSyntax(c) ==> x.escaped || x.quote == Single))
            && (Step(s, c).Success? ==> Context(Step(s, c).value.quote, Step(s, c).value.escaped) == Advance(x, c))
  {
  }

  ghost predicate Blank(text: string) {
    forall c :: c in text ==> c == ' ' || c == '\t'
  }

  lemma BlankTail(text: string)
    requires text != ""
    ensures Blank(text) <==> (text[0] == ' ' || text[0] == '\t') && Blank(text[1..])
  {
    assert text[0] in text;
    forall c
      ensures c in text <==> c == text[0] || c in text[1..]
    {
      assert c in [text[0]] + text[1..] <==> c == text[0] || c in text[1..];
      assert text == [text[0]] + text[1..];
    }
  }

  lemma {:induction false} BlankRun(s: State, text: string)
    requires Clean(s)
    ensures (Run(s, text).Success? && FinishToken(Run(s, text).value).tokens == []) <==>
      !s.started && s.tokens == [] && Blank(text)
    decreases |text|
  {
    if text != "" {
      BlankTail(text);
      match Step(s, text[0])
      case Failure(e) =>
      case Success(next) => BlankRun(next, text[1..]);
    }
  }

  /**
   A command is accepted exactly when it has no NUL byte, its quotes and escapes are complete, every shell
   metacharacter is escaped or single-quoted, and it is not blank.
   */
  lemma AcceptedExactly(command: string)
    ensures var x := Context(Unquoted, false);
            Tokenize(command).Success? <==>
              && NUL !in command
              && ContextAt(x, command, |command|) == x
              && MetacharactersQuoted(x, command)
              && !Blank(command)
  {
    RunAccepts(START, command);
    BlankRun(START, command);
  }
}
