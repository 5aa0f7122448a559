/**
 The tokenizer (crates/adapter-clang/src/command.rs) against the quoting rules of sections 2.2.1 to 2.2.3 of the POSIX
 Shell Command Language. Only backslashes differ: the shell drops an escaped newline, and inside double quotes keeps
 the backslash unless it escapes one of a few characters. Operators and expansions, which the tokenizer refuses
 unless they are escaped or single-quoted, are refused here too.
 */
module PosixQuoting {
  import opened Wrappers
  import opened Tokenizer

  const NEWLINE: char := '\n'
  const BACKSLASH: char := '\\'

  /** What a backslash inside double quotes escapes, a newline apart. */
  predicate EscapableInDouble(c: char) {
    c in ['$', '`', '"', '\\']
  }

  function PosixEscaped(s: State, c: char): State {
    if c == NEWLINE then s.(escaped := false)
    else if s.quote == Double && !EscapableInDouble(c) then
      PushLiteral(PushLiteral(s, BACKSLASH), c).(escaped := false)
    else PushLiteral(s, c).(escaped := false)
  }

  /** A backslash starts a token only once the character behind it is known not to be a newline. */
  function PosixStep(s: State, c: char): Result<State, Error> {
    if s.escaped then
      Success(PosixEscaped(s, c))
    else
      match s.quote
      case Single =>
        Success(if c == '\'' then s.(quote := Unquoted) else PushLiteral(s, c))
      case Double =>
        if c == '"' then Success(s.(quote := Unquoted))
        else if c == BACKSLASH then Success(s.(escaped := true))
        else PushChecked(s, c)
      case Unquoted =>
        if c == '\'' then Success(s.(quote := Single, started := true))
        else if c == '"' then Success(s.(quote := Double, started := true))
        else if c == BACKSLASH then Success(s.(escaped := true))
        else if c == ' ' || c == '\t' then Success(FinishToken(s))
        else PushChecked(s, c)
  }

  function PosixRun(s: State, text: string): Result<State, Error>
    decreases |text|
  {
    if text == "" then
      Success(s)
    else
      match PosixStep(s, text[0])
      case Failure(e) => Failure(e)
      case Success(next) => PosixRun(next, text[1..])
  }

  function PosixTokenize(command: string): Result<seq<string>, Error> {
    if NUL in command then
      Failure(Nul)
    else
      match PosixRun(START, command)
      case Failure(e) => Failure(e)
      case Success(s) => Finish(s)
  }

  // ----- where the two can differ -----

  /** An escaped newline, or a backslash in double quotes before a character it does not escape there. */
  predicate Differs(x: Context, c: char) {
    DropsNewline(x, c) || KeepsBackslash(x, c)
  }

  predicate DropsNewline(x: Context, c: char) {
    x.escaped && c == NEWLINE
  }

  predicate KeepsBackslash(x: Context, c: char) {
    x.escaped && x.quote == Double && c != NEWLINE && !EscapableInDouble(c)
  }

  ghost predicate Portable(x: Context, text: string) {
    forall i :: 0 <= i < |text| ==> !Differs(ContextAt(x, text, i), text[i])
  }

  lemma PortableTail(x: Context, text: string)
    requires text != ""
    ensures Portable(x, text) <==> !Differs(x, text[0]) && Portable(Advance(x, text[0]), text[1..])
  {
    var next, rest := Advance(x, text[0]), text[1..];
    forall i: nat | i < |rest|
      ensures ContextAt(x, text, i + 1) == ContextAt(next, rest, i) && text[i + 1] == rest[i]
    {
      ContextTail(x, text, i);
    }
    assert ContextAt(x, text, 0) == x;
    if !Differs(x, text[0]) && Portable(next, rest) {
      forall i: nat | i < |text|
        ensures !Differs(ContextAt(x, text, i), text[i])
      {
        assert i > 0 ==> !Differs(ContextAt(next, rest, i - 1), rest[i - 1]);
      }
    }
    if Portable(x, text) {
      forall i: nat | i < |rest|
        ensures !Differs(ContextAt(next, rest, i), rest[i])
      {
        assert !Differs(ContextAt(x, text, i + 1), text[i + 1]);
      }
    }
  }

  // ----- counting characters along both runs -----

  ghost function Occurrences(tokens: seq<string>, c: char): nat {
    if tokens == [] then
      0
    else
      Occurrences(tokens[..|tokens| - 1], c) + multiset(tokens[|tokens| - 1])[c]
  }

  lemma OccurrencesAppend(tokens: seq<string>, token: string, c: char)
    ensures Occurrences(tokens + [token], c) == Occurrences(tokens, c) + multiset(token)[c]
  {
    assert (tokens + [token])[..|tokens|] == tokens;
  }

  /** All occurrences so far, in finished tokens and the current one. */
  ghost function Total(s: State, c: char): nat {
    Occurrences(s.tokens, c) + multiset(s.token)[c]
  }

  lemma FinishKeepsTotal(s: State, c: char)
    requires !s.started ==> s.token == ""
    ensures Total(FinishToken(s), c) == Total(s, c)
  {
    OccurrencesAppend(s.tokens, s.token, c);
  }

  /** The two runs are in the same quoting context and neither holds text in a token that has not started. */
  ghost predicate InStep(s: State, t: State) {
    && s.quote == t.quote && s.escaped == t.escaped
    && (!s.started ==> s.token == "") && (!t.started ==> t.token == "")
    && (s.quote != Unquoted ==> s.started && t.started)
  }

  ghost predicate SameSoFar(s: State, t: State) {
    InStep(s, t) && s.tokens == t.tokens && s.token == t.token && (!s.escaped ==> s.started == t.started)
  }

  /** The character a step adds to the current token, if any. */
  function Emitted(x: Context, c: char): string {
    if x.escaped then [c]
    else if x.quote == Single then (if c == '\'' then "" else [c])
    else if x.quote == Double then (if c == '"' || c == BACKSLASH then "" else [c])
    else if c in ['\'', '"', BACKSLASH, ' ', '\t'] then ""
    else [c]
  }

  function PosixEmitted(x: Context, c: char): string {
    if DropsNewline(x, c) then ""
    else if KeepsBackslash(x, c) then [BACKSLASH, c]
    else Emitted(x, c)
  }

  /** `t` adds `text` to the current token of `s`, or ends it. */
  ghost predicate Emits(s: State, text: string, t: State) {
    || (t.tokens == s.tokens && t.token == s.token + text)
    || (text == "" && t == FinishToken(s))
  }

  lemma EmitsTotal(s: State, text: string, t: State, d: char)
    requires (!s.started ==> s.token == "") && Emits(s, text, t)
    ensures Total(t, d) == Total(s, d) + multiset(text)[d]
  {
    if t.tokens == s.tokens && t.token == s.token + text {
      assert multiset(t.token) == multiset(s.token) + multiset(text);
    } else {
      FinishKeepsTotal(s, d);
    }
  }

  lemma StepEmits(s: State, c: char)
    requires Step(s, c).Success?
    ensures Emits(s, Emitted(Context(s.quote, s.escaped), c), Step(s, c).value)
  {
    assert s.token + "" == s.token;
  }

  lemma PosixStepEmits(s: State, c: char)
    requires PosixStep(s, c).Success?
    ensures Emits(s, PosixEmitted(Context(s.quote, s.escaped), c), PosixStep(s, c).value)
  {
    assert s.token + "" == s.token;
    assert s.token + [BACKSLASH] + [c] == s.token + [BACKSLASH, c];
  }

  lemma StepTogether(s: State, t: State, c: char)
    requires InStep(s, t) && Step(s, c).Success?
    ensures PosixStep(t, c).Success? && InStep(Step(s, c).value, PosixStep(t, c).value)
    ensures SameSoFar(s, t) && !Differs(Context(s.quote, s.escaped), c) ==>
      SameSoFar(Step(s, c).value, PosixStep(t, c).value)
  {
  }

  lemma StepTotals(s: State, t: State, c: char, d: char)
    requires InStep(s, t) && Step(s, c).Success? && PosixStep(t, c).Success?
    ensures Total(Step(s, c).value, d) == Total(s, d) + multiset(Emitted(Context(s.quote, s.escaped), c))[d]
    ensures Total(PosixStep(t, c).value, d) == Total(t, d) + multiset(PosixEmitted(Context(t.quote, t.escaped), c))[d]
  {
    StepEmits(s, c);
    PosixStepEmits(t, c);
    EmitsTotal(s, Emitted(Context(s.quote, s.escaped), c), Step(s, c).value, d);
    EmitsTotal(t, PosixEmitted(Context(t.quote, t.escaped), c), PosixStep(t, c).value, d);
  }

  /** One step keeps the runs in step; a dropped newline and a kept backslash are all that changes the counts. */
  lemma StepCounts(s: State, t: State, c: char)
    requires InStep(s, t) && Step(s, c).Success?
    ensures PosixStep(t, c).Success?
    ensures var x, u, v := Context(s.quote, s.escaped), Step(s, c).value, PosixStep(t, c).value;
            && (Total(u, NEWLINE) - Total(s, NEWLINE)
             == Total(v, NEWLINE) - Total(t, NEWLINE) + if DropsNewline(x, c) then 1 else 0)
            && (Total(v, BACKSLASH) - Total(t, BACKSLASH)
             == Total(u, BACKSLASH) - Total(s, BACKSLASH) + if KeepsBackslash(x, c) then 1 else 0)
  {
    StepTogether(s, t, c);
    StepTotals(s, t, c, NEWLINE);
    StepTotals(s, t, c, BACKSLASH);
    var x := Context(s.quote, s.escaped);
    assert KeepsBackslash(x, c) ==> Emitted(x, c) == [c] && c != NEWLINE && c != BACKSLASH;
  }

  /** Along a whole run the counts agree exactly on portable text, and then so do the states. */
  lemma {:induction false} RunCounts(s: State, t: State, text: string)
    requires InStep(s, t) && Run(s, text).Success?
    requires Total(s, NEWLINE) >= Total(t, NEWLINE) && Total(t, BACKSLASH) >= Total(s, BACKSLASH)
    ensures PosixRun(t, text).Success? && InStep(Run(s, text).value, PosixRun(t, text).value)
    ensures var u, v := Run(s, text).value, PosixRun(t, text).value;
            && Total(u, NEWLINE) - Total(v, NEWLINE) >= Total(s, NEWLINE) - Total(t, NEWLINE)
            && Total(v, BACKSLASH) - Total(u, BACKSLASH) >= Total(t, BACKSLASH) - Total(s, BACKSLASH)
    ensures !Portable(Context(s.quote, s.escaped), text) ==>
      var u, v := Run(s, text).value, PosixRun(t, text).value;
      Total(u, NEWLINE) > Total(v, NEWLINE) || Total(v, BACKSLASH) > Total(u, BACKSLASH)
    ensures Portable(Context(s.quote, s.escaped), text) && SameSoFar(s, t) ==>
      SameSoFar(Run(s, text).value, PosixRun(t, text).value)
    decreases |text|
  {
    if text != "" {
      StepTogether(s, t, text[0]);
      StepCounts(s, t, text[0]);
      StepAccepts(s, text[0]);
      PortableTail(Context(s.quote, s.escaped), text);
      RunCounts(Step(s, text[0]).value, PosixStep(t, text[0]).value, text[1..]);
    }
  }

  /**
   An accepted command has the tokens a shell would give it exactly when no newline is escaped and every backslash
   inside double quotes stands before a character it escapes there.
   */
  lemma PosixExactly(command: string)
    requires Tokenize(command).Success?
    ensures PosixTokenize(command) == Tokenize(command) <==> Portable(Context(Unquoted, false), command)
  {
    RunCounts(START, START, command);
    var s, t := Run(START, command).value, PosixRun(START, command).value;
    FinishKeepsTotal(s, NEWLINE);
    FinishKeepsTotal(t, NEWLINE);
    FinishKeepsTotal(s, BACKSLASH);
    FinishKeepsTotal(t, BACKSLASH);
  }

  /** Both runs over a four-character command, from the state after each character. */
  lemma FourSteps(command: string, ours: seq<State>, theirs: seq<State>)
    requires |command| == 4 && |ours| == 5 && |theirs| == 5 && NUL !in command
    requires forall i :: 0 <= i < 4 ==> Step(ours[i], command[i]) == Success(ours[i + 1])
    requires forall i :: 0 <= i < 4 ==> PosixStep(theirs[i], command[i]) == Success(theirs[i + 1])
    requires ours[0] == START && theirs[0] == START
    ensures Tokenize(command) == Finish(ours[4]) && PosixTokenize(command) == Finish(theirs[4])
  {
    var three, two, one := command[1..], command[2..], command[3..];
    assert three[1..] == two && two[1..] == one && one[1..] == "";
    assert Run(ours[3], one) == Success(ours[4]) && PosixRun(theirs[3], one) == Success(theirs[4]);
    assert Run(ours[2], two) == Run(ours[3], one) && PosixRun(theirs[2], two) == PosixRun(theirs[3], one);
    assert Run(ours[1], three) == Run(ours[2], two) && PosixRun(theirs[1], three) == PosixRun(theirs[2], two);
  }

  /** Inside double quotes `\a` gives `a`, where a shell keeps both characters. */
  lemma PosixKeepsBackslash()
    ensures Tokenize(['"', '\\', 'a', '"']) == Success([['a']])
    ensures PosixTokenize(['"', '\\', 'a', '"']) == Success([['\\', 'a']])
  {
    var open := State([], [], Double, false, true);
    var pending := open.(escaped := true);
    var read, kept := PushLiteral(open, 'a'), PushLiteral(PushLiteral(open, BACKSLASH), 'a');
    FourSteps(['"', '\\', 'a', '"'], [START, open, pending, read, read.(quote := Unquoted)],
              [START, open, pending, kept, kept.(quote := Unquoted)]);
    assert read.token == ['a'] && kept.token == ['\\', 'a'];
    assert FinishToken(read.(quote := Unquoted)).tokens == [read.token];
    assert FinishToken(kept.(quote := Unquoted)).tokens == [kept.token];
  }

  /** An escaped newline is kept, where a shell joins the lines. */
  lemma PosixDropsNewline()
    ensures Tokenize(['a', '\\', '\n', 'b']) == Success([['a', '\n', 'b']])
    ensures PosixTokenize(['a', '\\', '\n', 'b']) == Success([['a', 'b']])
  {
    var one := PushLiteral(START, 'a');
    var pending, read := one.(escaped := true), PushLiteral(one, '\n');
    var ours, theirs := PushLiteral(read, 'b'), PushLiteral(one, 'b');
    FourSteps(['a', '\\', '\n', 'b'], [START, one, pending, read, ours], [START, one, pending, one, theirs]);
    assert ours.token == ['a', '\n', 'b'] && theirs.token == ['a', 'b'];
    assert FinishToken(ours).tokens == [ours.token] && FinishToken(theirs).tokens == [theirs.token];
  }
}
