/**
 Rewriting a compile command into a non-writing syntax check (crates/adapter-clang/src/command.rs),
 and the language it selects (crates/adapter-clang/src/database.rs).
 The rewriting is proved for every flag classification; `SourceFlags` is the program's own.
 */
module Sanitizer {
  import opened Wrappers
  import ClangFlags

  type Arguments = seq<string>

  /** How single arguments are classified. */
  datatype Flags = Flags(separate: string -> bool, removable: string -> bool, isUnsafe: string -> bool)

  function SourceFlags(): Flags {
    Flags(
      a => ClangFlags.FlagTakesSeparateValue(a),
      a => ClangFlags.IsRemovableOutputFlag(a),
      a => ClangFlags.IsUnsafeCompilerArgument(a))
  }

  // ----- subsequences -----

  ghost predicate IsSubsequence(a: Arguments, b: Arguments)
    decreases |b|
  {
    || a == []
    || (b != [] && ((a[0] == b[0] && IsSubsequence(a[1..], b[1..])) || IsSubsequence(a, b[1..])))
  }

  lemma {:induction false} SubsequenceDrop(a: Arguments, b: Arguments, n: nat)
    requires n <= |b| && IsSubsequence(a, b[n..])
    ensures IsSubsequence(a, b)
    decreases |b|
  {
    if n > 0 {
      assert b[n..] == b[1..][n - 1..];
      SubsequenceDrop(a, b[1..], n - 1);
    } else {
      assert b[n..] == b;
    }
  }

  lemma {:induction false} SubsequenceTail(a: Arguments, b: Arguments)
    requires a != [] && IsSubsequence(a, b)
    ensures IsSubsequence(a[1..], b)
    decreases |b|
  {
    if a[0] == b[0] && IsSubsequence(a[1..], b[1..]) {
      SubsequenceDrop(a[1..], b, 1);
    } else {
      SubsequenceTail(a, b[1..]);
      SubsequenceDrop(a[1..], b, 1);
    }
  }

  lemma {:induction false} SubsequenceTransitive(a: Arguments, b: Arguments, c: Arguments)
    requires IsSubsequence(a, b) && IsSubsequence(b, c)
    ensures IsSubsequence(a, c)
    decreases |b| + |c|
  {
    if a != [] {
      if b[0] == c[0] && IsSubsequence(b[1..], c[1..]) {
        if a[0] == b[0] && IsSubsequence(a[1..], b[1..]) {
          SubsequenceTransitive(a[1..], b[1..], c[1..]);
        } else {
          SubsequenceTransitive(a, b[1..], c[1..]);
        }
      } else {
        SubsequenceTransitive(a, b, c[1..]);
      }
    }
  }

  lemma {:induction false} SubsequenceMembers(a: Arguments, b: Arguments)
    requires IsSubsequence(a, b)
    ensures forall x :: x in a ==> x in b
    decreases |b|
  {
    if a != [] {
      assert a == [a[0]] + a[1..] && b == [b[0]] + b[1..];
      if a[0] == b[0] && IsSubsequence(a[1..], b[1..]) {
        SubsequenceMembers(a[1..], b[1..]);
      } else {
        SubsequenceMembers(a, b[1..]);
      }
    }
  }

  // ----- stripping output and dependency flags -----

  function Drop(arguments: Arguments, n: nat): Arguments {
    if n <= |arguments| then arguments[n..] else []
  }

  function ForwardedValueSpan(tail: Arguments): nat {
    if |tail| >= 2 && tail[0] == "-Xclang" then 4
    else if tail != [] then 3
    else 2
  }

  /** The length of a forwarded output flag at `index`. */
  function ForwardedOutputSpan(flags: Flags, arguments: Arguments, index: nat): Option<nat>
    requires index < |arguments|
  {
    if arguments[index] != "-Xclang" || index + 1 == |arguments| then None
    else if flags.separate(arguments[index + 1]) then Some(ForwardedValueSpan(arguments[index + 2..]))
    else if flags.removable(arguments[index + 1]) then Some(2)
    else None
  }

  /** The argument at `index` survives. */
  predicate Kept(flags: Flags, arguments: Arguments, index: nat)
    requires index < |arguments|
  {
    && !flags.separate(arguments[index]) && !flags.removable(arguments[index])
    && ForwardedOutputSpan(flags, arguments, index).None?
  }

  /** How many arguments are consumed at `index`. */
  function Span(flags: Flags, arguments: Arguments, index: nat): (n: nat)
    requires index < |arguments|
    ensures n >= 1
  {
    if flags.separate(arguments[index]) then 2
    else if flags.removable(arguments[index]) then 1
    else
      match ForwardedOutputSpan(flags, arguments, index)
      case Some(span) => span
      case None => 1
  }

  function StripFrom(flags: Flags, arguments: Arguments, index: nat): Arguments
    decreases |arguments| - index
  {
    if index >= |arguments| then
      []
    else
      var rest := StripFrom(flags, arguments, index + Span(flags, arguments, index));
      if Kept(flags, arguments, index) then [arguments[index]] + rest else rest
  }

  function Strip(flags: Flags, arguments: Arguments): Arguments {
    StripFrom(flags, arguments, 0)
  }

  method StripArgument(flags: Flags, arguments: Arguments, index: nat, result: Arguments) returns (span: nat, result': Arguments)
    requires index < |arguments|
    ensures span == Span(flags, arguments, index)
    ensures result' == if Kept(flags, arguments, index) then result + [arguments[index]] else result
  {
    var argument := arguments[index];
    if flags.separate(argument) {
      return 2, result;
    }
    if flags.removable(argument) {
      return 1, result;
    }
    var forwarded := ForwardedOutputSpan(flags, arguments, index);
    if forwarded.Some? {
      return forwarded.value, result;
    }
    return 1, result + [argument];
  }

  method StripOutputAndDependencyFlags(flags: Flags, arguments: Arguments) returns (result: Arguments)
    ensures result == Strip(flags, arguments)
  {
    result := [];
    var index := 0;
    while index < |arguments|
      invariant result + StripFrom(flags, arguments, index) == Strip(flags, arguments)
    {
      ghost var rest := StripFrom(flags, arguments, index + Span(flags, arguments, index));
      assert result + ([arguments[index]] + rest) == result + [arguments[index]] + rest;
      var span;
      span, result := StripArgument(flags, arguments, index, result);
      index := index + span;
    }
  }

  ghost predicate Clean(flags: Flags, arguments: Arguments) {
    forall x :: x in arguments ==> !flags.separate(x) && !flags.removable(x)
  }

  lemma {:induction false} StripClean(flags: Flags, arguments: Arguments, index: nat)
    requires index <= |arguments|
    ensures Clean(flags, StripFrom(flags, arguments, index))
    ensures IsSubsequence(StripFrom(flags, arguments, index), arguments[index..])
    decreases |arguments| - index
  {
    if index < |arguments| {
      var next := index + Span(flags, arguments, index);
      var rest := StripFrom(flags, arguments, next);
      if next > |arguments| {
        assert rest == [];
      } else {
        StripClean(flags, arguments, next);
        assert arguments[index..][next - index..] == arguments[next..];
        SubsequenceDrop(rest, arguments[index..], next - index);
        if Kept(flags, arguments, index) {
          var result := [arguments[index]] + rest;
          assert result[1..] == rest && arguments[index..][1..] == arguments[next..];
        }
      }
    }
  }

  lemma {:induction false} CleanUnchanged(flags: Flags, arguments: Arguments, index: nat)
    requires index <= |arguments| && Clean(flags, arguments)
    ensures StripFrom(flags, arguments, index) == arguments[index..]
    decreases |arguments| - index
  {
    if index < |arguments| {
      assert arguments[index] in arguments && (index + 1 < |arguments| ==> arguments[index + 1] in arguments);
      CleanUnchanged(flags, arguments, index + 1);
    }
  }

  /** Stripping is idempotent, and leaves a list alone exactly when it holds no listed flag. */
  lemma StripIdempotent(flags: Flags, arguments: Arguments)
    ensures Strip(flags, Strip(flags, arguments)) == Strip(flags, arguments)
    ensures Strip(flags, arguments) == arguments <==> Clean(flags, arguments)
  {
    StripClean(flags, arguments, 0);
    CleanUnchanged(flags, Strip(flags, arguments), 0);
    if Clean(flags, arguments) {
      CleanUnchanged(flags, arguments, 0);
    }
  }

  lemma {:induction false} StripShift(flags: Flags, a: Arguments, b: Arguments, i: nat)
    ensures StripFrom(flags, a + b, |a| + i) == StripFrom(flags, b, i)
    decreases |b| - i
  {
    if i < |b| {
      assert (a + b)[|a| + i] == b[i];
      assert i + 1 < |b| ==> (a + b)[|a| + i + 1] == b[i + 1] && (a + b)[|a| + i + 2..] == b[i + 2..];
      StripShift(flags, a, b, i + Span(flags, b, i));
    }
  }

  /** Arguments that are neither listed nor forwarding markers are kept in front of whatever follows. */
  lemma {:induction false} StripKeepsPrefix(flags: Flags, pre: Arguments, rest: Arguments)
    requires Clean(flags, pre) && "-Xclang" !in pre
    ensures Strip(flags, pre + rest) == pre + Strip(flags, rest)
    decreases |pre|
  {
    if pre == [] {
      assert pre + rest == rest;
    } else {
      assert pre[0] in pre && pre == [pre[0]] + pre[1..];
      var all := pre + rest;
      assert all == [pre[0]] + (pre[1..] + rest);
      StripShift(flags, [pre[0]], pre[1..] + rest, 0);
      StripKeepsPrefix(flags, pre[1..], rest);
    }
  }

  /** A listed flag is removed together with its value, and nothing else is. */
  lemma StripRemovesExactly(flags: Flags, pre: Arguments, flag: string, value: string, post: Arguments)
    requires Clean(flags, pre) && "-Xclang" !in pre
    ensures flags.separate(flag) ==> Strip(flags, pre + ([flag, value] + post)) == pre + Strip(flags, post)
    ensures !flags.separate(flag) && flags.removable(flag) ==>
      Strip(flags, pre + ([flag] + post)) == pre + Strip(flags, post)
    ensures flags.separate(flag) ==> Strip(flags, pre + [flag]) == pre
  {
    StripKeepsPrefix(flags, pre, [flag]);
    assert flags.separate(flag) ==> StripFrom(flags, [flag], 0) == StripFrom(flags, [flag], 2);
    assert pre + [] == pre;
    StripKeepsPrefix(flags, pre, [flag, value] + post);
    StripKeepsPrefix(flags, pre, [flag] + post);
    StripShift(flags, [flag, value], post, 0);
    StripShift(flags, [flag], post, 0);
  }

  /** A forwarded output flag is removed with its markers and its value, forwarded or not. */
  lemma StripRemovesForwarded(flags: Flags, pre: Arguments, flag: string, value: string, post: Arguments)
    requires Clean(flags, pre) && "-Xclang" !in pre
    requires !flags.separate("-Xclang") && !flags.removable("-Xclang")
    ensures flags.separate(flag) ==>
      Strip(flags, pre + (["-Xclang", flag, "-Xclang", value] + post)) == pre + Strip(flags, post)
    ensures flags.separate(flag) && value != "-Xclang" ==>
      Strip(flags, pre + (["-Xclang", flag, value] + post)) == pre + Strip(flags, post)
    ensures !flags.separate(flag) && flags.removable(flag) ==>
      Strip(flags, pre + (["-Xclang", flag] + post)) == pre + Strip(flags, post)
  {
    var four, three, two := ["-Xclang", flag, "-Xclang", value], ["-Xclang", flag, value], ["-Xclang", flag];
    StripKeepsPrefix(flags, pre, four + post);
    StripKeepsPrefix(flags, pre, three + post);
    StripKeepsPrefix(flags, pre, two + post);
    StripShift(flags, four, post, 0);
    StripShift(flags, three, post, 0);
    StripShift(flags, two, post, 0);
    assert (four + post)[2..][0] == "-Xclang" && (three + post)[2..][0] == value;
  }

  /** A marker goes with an output flag whose value is missing, and stays in front of anything else. */
  lemma StripKeepsMarker(flags: Flags, pre: Arguments, flag: string, post: Arguments)
    requires Clean(flags, pre) && "-Xclang" !in pre
    requires !flags.separate("-Xclang") && !flags.removable("-Xclang")
    ensures Strip(flags, pre + ["-Xclang"]) == pre + ["-Xclang"]
    ensures flags.separate(flag) ==> Strip(flags, pre + ["-Xclang", flag]) == pre
    ensures !flags.separate(flag) && !flags.removable(flag) ==>
      Strip(flags, pre + (["-Xclang", flag] + post)) == pre + (["-Xclang"] + Strip(flags, [flag] + post))
  {
    var two := ["-Xclang", flag];
    StripKeepsPrefix(flags, pre, ["-Xclang"]);
    StripKeepsPrefix(flags, pre, two);
    assert two[2..] == [] && pre + [] == pre;
    assert flags.separate(flag) ==> StripFrom(flags, two, 0) == StripFrom(flags, two, 2);
    StripKeepsPrefix(flags, pre, two + post);
    assert two + post == ["-Xclang"] + ([flag] + post);
    StripShift(flags, ["-Xclang"], [flag] + post, 0);
  }

  // ----- language flags -----

  predicate IsLanguageFlag(argument: string) {
    "-x" <= argument
  }

  function WithoutLanguage(arguments: Arguments): Arguments
    decreases |arguments|
  {
    if arguments == [] then []
    else if arguments[0] == "-x" then WithoutLanguage(Drop(arguments, 2))
    else if "-x" <= arguments[0] && |arguments[0]| > 2 then WithoutLanguage(arguments[1..])
    else [arguments[0]] + WithoutLanguage(arguments[1..])
  }

  function Removed(arguments: Arguments, index: nat): (r: Arguments)
    requires index < |arguments|
    ensures |r| == |arguments| - 1 && r[..index] == arguments[..index] && r[index..] == arguments[index + 1..]
  {
    arguments[..index] + arguments[index + 1..]
  }

  method RemoveLanguageFlags(original: Arguments) returns (arguments: Arguments)
    ensures arguments == WithoutLanguage(original)
  {
    arguments := original;
    var index := 0;
    while index < |arguments|
      invariant index <= |arguments|
      invariant arguments[..index] + WithoutLanguage(arguments[index..]) == WithoutLanguage(original)
      decreases |arguments| - index
    {
      ghost var rest := arguments[index..];
      if arguments[index] == "-x" {
        arguments := Removed(arguments, index);
        assert arguments[index..] == rest[1..];
        if index < |arguments| {
          arguments := Removed(arguments, index);
        }
        assert arguments[index..] == Drop(rest, 2);
      } else if "-x" <= arguments[index] && |arguments[index]| > 2 {
        arguments := Removed(arguments, index);
        assert arguments[index..] == rest[1..];
      } else {
        assert arguments[..index + 1] == arguments[..index] + [arguments[index]];
        index := index + 1;
        assert arguments[index..] == rest[1..];
      }
    }
    assert arguments[..index] == arguments;
  }

  ghost predicate NoLanguageFlag(arguments: Arguments) {
    forall x :: x in arguments ==> !IsLanguageFlag(x)
  }

  lemma BareFlag(argument: string)
    ensures IsLanguageFlag(argument) ==> argument == "-x" || |argument| > 2
  {
  }

  lemma {:induction false} WithoutLanguageClean(arguments: Arguments)
    ensures NoLanguageFlag(WithoutLanguage(arguments))
    ensures IsSubsequence(WithoutLanguage(arguments), arguments)
    decreases |arguments|
  {
    if arguments != [] {
      if arguments[0] == "-x" {
        var rest := Drop(arguments, 2);
        WithoutLanguageClean(rest);
        SubsequenceDrop(WithoutLanguage(rest), arguments, if |arguments| >= 2 then 2 else 1);
      } else {
        WithoutLanguageClean(arguments[1..]);
        BareFlag(arguments[0]);
        if IsLanguageFlag(arguments[0]) {
          SubsequenceDrop(WithoutLanguage(arguments[1..]), arguments, 1);
        } else {
          assert WithoutLanguage(arguments)[1..] == WithoutLanguage(arguments[1..]);
        }
      }
    }
  }

  /** Exactly the `-x` modes and their values go; everything around them stays in order. */
  lemma {:induction false} WithoutLanguageConcat(pre: Arguments, rest: Arguments)
    requires NoLanguageFlag(pre)
    ensures WithoutLanguage(pre + rest) == pre + WithoutLanguage(rest)
    decreases |pre|
  {
    if pre == [] {
      assert pre + rest == rest;
    } else {
      assert pre[0] in pre && (pre + rest)[1..] == pre[1..] + rest;
      WithoutLanguageConcat(pre[1..], rest);
    }
  }

  lemma WithoutLanguageRemovesExactly(pre: Arguments, value: string, mode: string, post: Arguments)
    requires NoLanguageFlag(pre) && mode != ""
    ensures WithoutLanguage(pre + (["-x", value] + post)) == pre + WithoutLanguage(post)
    ensures WithoutLanguage(pre + (["-x" + mode] + post)) == pre + WithoutLanguage(post)
    ensures WithoutLanguage(pre + ["-x"]) == pre
  {
    WithoutLanguageConcat(pre, ["-x"]);
    WithoutLanguageConcat(pre, ["-x", value] + post);
    WithoutLanguageConcat(pre, ["-x" + mode] + post);
    assert (["-x", value] + post)[2..] == post && (["-x" + mode] + post)[1..] == post;
  }

  datatype Language = C | Cpp | ObjectiveC | ObjectiveCpp

  function ClangName(language: Language): string {
    match language
    case C => "c"
    case Cpp => "c++"
    case ObjectiveC => "objective-c"
    case ObjectiveCpp => "objective-c++"
  }

  function ParseLanguageName(value: string): Option<Language> {
    var name := ClangFlags.AsciiLower(value);
    if name in ["c", "cpp-output", "c-header"] then Some(C)
    else if name in ["c++", "c++-cpp-output", "c++-header"] then Some(Cpp)
    else if name in ["objective-c", "objective-c-cpp-output", "objective-c-header"] then Some(ObjectiveC)
    else if name in ["objective-c++", "objective-c++-cpp-output", "objective-c++-header"] then Some(ObjectiveCpp)
    else None
  }

  lemma ParseClangName(language: Language)
    ensures ParseLanguageName(ClangName(language)) == Some(language)
    ensures ClangName(language) != "none"
  {
    var name := ClangName(language);
    assert ClangFlags.AsciiLower(name) == name;
    assert |"c"| == 1 && |"c++"| == 3 && |"objective-c"| == 11 && |"objective-c++"| == 13;
    assert |"cpp-output"| == 10 && |"c-header"| == 8 && |"c++-cpp-output"| == 14 && |"c++-header"| == 10;
    assert |"objective-c-cpp-output"| == 22 && |"objective-c-header"| == 18;
  }

  datatype ExplicitLanguage = NotSpecified | Supported(language: Language) | Unsupported

  function Select(value: string): ExplicitLanguage {
    if value == "none" then
      NotSpecified
    else
      match ParseLanguageName(value)
      case Some(language) => Supported(language)
      case None => Unsupported
  }

  /** The last `-x` mode wins; a trailing `-x` without a value is unsupported. */
  function Explicit(arguments: Arguments, selected: ExplicitLanguage): ExplicitLanguage
    decreases |arguments|
  {
    if arguments == [] then selected
    else if arguments[0] == "-x" then
      if |arguments| == 1 then Unsupported else Explicit(arguments[2..], Select(arguments[1]))
    else if "-x" <= arguments[0] && |arguments[0]| > 2 then
      Explicit(arguments[1..], Select(arguments[0][2..]))
    else
      Explicit(arguments[1..], selected)
  }

  method FindExplicitLanguage(arguments: Arguments) returns (selected: ExplicitLanguage)
    ensures selected == Explicit(arguments, NotSpecified)
  {
    selected := NotSpecified;
    var index := 0;
    while index < |arguments|
      invariant index <= |arguments|
      invariant Explicit(arguments[index..], selected) == Explicit(arguments, NotSpecified)
    {
      ghost var rest := arguments[index..];
      if arguments[index] == "-x" {
        index := index + 1;
        if index == |arguments| {
          return Unsupported;
        }
        selected := Select(arguments[index]);
      } else if "-x" <= arguments[index] && |arguments[index]| > 2 {
        selected := Select(arguments[index][2..]);
      }
      index := index + 1;
      assert arguments[index..] == rest[1..] || arguments[index..] == rest[2..];
    }
  }

  lemma {:induction false} ExplicitUnchanged(arguments: Arguments, selected: ExplicitLanguage)
    requires NoLanguageFlag(arguments)
    ensures Explicit(arguments, selected) == selected
    decreases |arguments|
  {
    if arguments != [] {
      assert arguments[0] in arguments;
      ExplicitUnchanged(arguments[1..], selected);
    }
  }

  /** No trailing `-x` waits for its value. */
  predicate Complete(arguments: Arguments)
    decreases |arguments|
  {
    if arguments == [] then true
    else if arguments[0] == "-x" then |arguments| > 1 && Complete(arguments[2..])
    else Complete(arguments[1..])
  }

  lemma {:induction false} ExplicitConcat(pre: Arguments, rest: Arguments, selected: ExplicitLanguage)
    requires Complete(pre)
    ensures Explicit(pre + rest, selected) == Explicit(rest, Explicit(pre, selected))
    decreases |pre|
  {
    if pre == [] {
      assert pre + rest == rest;
    } else if pre[0] == "-x" {
      assert (pre + rest)[2..] == pre[2..] + rest;
      ExplicitConcat(pre[2..], rest, Select(pre[1]));
    } else {
      assert (pre + rest)[1..] == pre[1..] + rest;
      ExplicitConcat(pre[1..], rest, if IsLanguageFlag(pre[0]) then Select(pre[0][2..]) else selected);
    }
  }

  /** Whatever comes before, the last language flag decides; a trailing `-x` is unsupported. */
  lemma LastLanguageWins(pre: Arguments, value: string, mode: string, post: Arguments, selected: ExplicitLanguage)
    requires Complete(pre) && NoLanguageFlag(post) && mode != ""
    ensures Explicit(pre + (["-x", value] + post), selected) == Select(value)
    ensures Explicit(pre + (["-x" + mode] + post), selected) == Select(mode)
    ensures Explicit(pre + ["-x"], selected) == Unsupported
  {
    var separate, joined := ["-x", value] + post, ["-x" + mode] + post;
    ExplicitConcat(pre, separate, selected);
    ExplicitConcat(pre, joined, selected);
    ExplicitConcat(pre, ["-x"], selected);
    assert separate[2..] == post && joined[1..] == post && ("-x" + mode)[2..] == mode;
    ExplicitUnchanged(post, Select(value));
    ExplicitUnchanged(post, Select(mode));
  }

  /** A language flag, with its value where that is separate. */
  predicate LanguageArguments(flag: Arguments) {
    || (|flag| == 2 && flag[0] == "-x")
    || (|flag| == 1 && "-x" <= flag[0] && |flag[0]| > 2)
  }

  /** Every list holds no language flag, ends in a bare `-x`, or is decided by a last one. */
  lemma {:induction false} LastLanguageFlag(arguments: Arguments) returns (pre: Arguments, flag: Arguments, post: Arguments)
    ensures arguments == pre + (flag + post) && Complete(pre)
    ensures || (flag == [] && pre == [] && NoLanguageFlag(post))
            || (flag == ["-x"] && post == [])
            || (LanguageArguments(flag) && NoLanguageFlag(post))
    decreases |arguments|
  {
    if arguments == [] {
      return [], [], [];
    }
    var n := if arguments[0] == "-x" then 2 else 1;
    if n > |arguments| {
      return [], ["-x"], [];
    }
    var head, tail := arguments[..n], arguments[n..];
    pre, flag, post := LastLanguageFlag(tail);
    assert arguments == head + tail;
    if flag != [] {
      assert (head + pre)[n..] == pre;
      assert head + (pre + (flag + post)) == (head + pre) + (flag + post);
      pre := head + pre;
    } else if IsLanguageFlag(arguments[0]) {
      BareFlag(arguments[0]);
      flag := head;
    } else {
      post := arguments;
    }
  }

  // ----- the sanitizer -----

  datatype SanitizeError = MissingExecutable | UnsafeArgument(argument: string)

  /** The compiler arguments: those behind the first driver, or behind the first argument if there is no driver. */
  ghost predicate IsOriginal(isDriver: string -> bool, command: Arguments, original: Arguments) {
    || (command != [] && original == command[1..] && forall x :: x in command ==> !isDriver(x))
    || exists i ::
         && 0 <= i < |command| && isDriver(command[i]) && original == command[i + 1..]
         && forall x :: x in command[..i] ==> !isDriver(x)
  }

  /** They are determined by the command. */
  lemma OneOriginal(isDriver: string -> bool, command: Arguments, a: Arguments, b: Arguments)
    requires IsOriginal(isDriver, command, a) && IsOriginal(isDriver, command, b)
    ensures a == b
  {
    forall i, j | 0 <= i < j < |command|
      ensures command[i] in command[..j] && command[i] in command
    {
      assert command[..j][i] == command[i];
    }
  }

  method CompilerStart(isDriver: string -> bool, arguments: Arguments) returns (n: nat)
    requires arguments != []
    ensures 1 <= n <= |arguments| && IsOriginal(isDriver, arguments, arguments[n..])
  {
    for i := 0 to |arguments|
      invariant forall x :: x in arguments[..i] ==> !isDriver(x)
    {
      if isDriver(arguments[i]) {
        return i + 1;
      }
      assert arguments[..i + 1] == arguments[..i] + [arguments[i]];
    }
    assert arguments[..|arguments|] == arguments;
    return 1;
  }

  method RejectUnsafe(flags: Flags, arguments: Arguments) returns (r: Result<(), SanitizeError>)
    ensures r.Success? <==> forall x :: x in arguments ==> !flags.isUnsafe(x)
    ensures r.Failure? ==> r.error.UnsafeArgument? && r.error.argument in arguments && flags.isUnsafe(r.error.argument)
  {
    for i := 0 to |arguments|
      invariant forall k :: 0 <= k < i ==> !flags.isUnsafe(arguments[k])
    {
      if flags.isUnsafe(arguments[i]) {
        return Failure(UnsafeArgument(arguments[i]));
      }
    }
    return Success(());
  }

  function Inserted(arguments: Arguments, index: nat, value: string): Arguments
    requires index <= |arguments|
  {
    arguments[..index] + [value] + arguments[index..]
  }

  lemma InsertedInOrder(rest: Arguments, a: string, b: string, c: string, d: string, e: string, f: string)
    ensures Inserted(Inserted(Inserted(Inserted(Inserted(Inserted(rest, 0, b), 0, a), 2, c), 3, d), 4, e), 5, f)
         == [a, b, c, d, e, f] + rest
  {
    assert Inserted(rest, 0, b) == [b] + rest;
    assert Inserted([b] + rest, 0, a) == [a, b] + rest;
    assert Inserted([a, b] + rest, 2, c) == [a, b, c] + rest;
    assert Inserted([a, b, c] + rest, 3, d) == [a, b, c, d] + rest;
    assert Inserted([a, b, c, d] + rest, 4, e) == [a, b, c, d, e] + rest;
    assert Inserted([a, b, c, d, e] + rest, 5, f) == [a, b, c, d, e, f] + rest;
  }

  function FixedEntries(language: Language, moduleCache: string): Arguments {
    ["-x", ClangName(language), "-fsyntax-only", "--no-default-config", "-fno-crash-diagnostics",
     "-fmodules-cache-path=" + moduleCache]
  }

  /** What a successful sanitization promises about its result. */
  ghost predicate Sanitized(flags: Flags, original: Arguments, language: Language, moduleCache: string, result: Arguments) {
    && |result| >= 6 && result[..6] == FixedEntries(language, moduleCache)
    && var rest := result[6..];
    && rest == WithoutLanguage(Strip(flags, original))
    && IsSubsequence(rest, original)
    && Clean(flags, rest) && NoLanguageFlag(rest) && (forall x :: x in rest ==> !flags.isUnsafe(x))
    && Explicit(result, NotSpecified) == Supported(language)
  }

  /** Sanitization succeeds exactly on nonempty commands without a rejected compiler argument. */
  method SanitizeCompileCommand(flags: Flags, isDriver: string -> bool, command: Arguments, language: Language,
                                moduleCache: string)
    returns (r: Result<Arguments, SanitizeError>, ghost original: Arguments)
    ensures command != [] ==> IsOriginal(isDriver, command, original)
    ensures r.Success? <==> command != [] && forall x :: x in original ==> !flags.isUnsafe(x)
    ensures r.Success? ==> Sanitized(flags, original, language, moduleCache, r.value)
    ensures command == [] ==> r == Failure(MissingExecutable)
    ensures command != [] && r.Failure? ==>
      r.error.UnsafeArgument? && r.error.argument in original && flags.isUnsafe(r.error.argument)
  {
    original := [];
    if command == [] {
      return Failure(MissingExecutable), original;
    }
    var start := CompilerStart(isDriver, command);
    var compiled := command[start..];
    original := compiled;
    var checked := RejectUnsafe(flags, compiled);
    if checked.Failure? {
      return Failure(checked.error), original;
    }
    var arguments := StripOutputAndDependencyFlags(flags, compiled);
    StripClean(flags, original, 0);
    SubsequenceMembers(arguments, original);
    var again := RejectUnsafe(flags, arguments);
    if again.Failure? {
      // Stripping only drops arguments, so the second check repeats the first.
      assert false;
    }
    ghost var stripped := arguments;
    arguments := RemoveLanguageFlags(arguments);
    ghost var rest := arguments;
    InsertedInOrder(rest, "-x", ClangName(language), "-fsyntax-only", "--no-default-config", "-fno-crash-diagnostics",
                    "-fmodules-cache-path=" + moduleCache);
    arguments := Inserted(arguments, 0, ClangName(language));
    arguments := Inserted(arguments, 0, "-x");
    arguments := Inserted(arguments, 2, "-fsyntax-only");
    arguments := Inserted(arguments, 3, "--no-default-config");
    arguments := Inserted(arguments, 4, "-fno-crash-diagnostics");
    arguments := Inserted(arguments, 5, "-fmodules-cache-path=" + moduleCache);
    SanitizedResult(flags, original, stripped, language, moduleCache, rest);
    return Success(arguments), original;
  }

  lemma SanitizedResult(flags: Flags, original: Arguments, stripped: Arguments, language: Language, moduleCache: string,
                        rest: Arguments)
    requires stripped == Strip(flags, original) && rest == WithoutLanguage(stripped)
    requires forall x :: x in original ==> !flags.isUnsafe(x)
    ensures Sanitized(flags, original, language, moduleCache, FixedEntries(language, moduleCache) + rest)
  {
    StripClean(flags, original, 0);
    WithoutLanguageClean(stripped);
    SubsequenceMembers(rest, stripped);
    SubsequenceTransitive(rest, stripped, original);
    SubsequenceMembers(rest, original);
    var result := FixedEntries(language, moduleCache) + rest;
    assert result[6..] == rest;
    ForcedLanguage(language, moduleCache, rest);
  }

  lemma ForcedLanguage(language: Language, moduleCache: string, rest: Arguments)
    requires NoLanguageFlag(rest)
    ensures Explicit(FixedEntries(language, moduleCache) + rest, NotSpecified) == Supported(language)
  {
    var result := FixedEntries(language, moduleCache) + rest;
    var cache := "-fmodules-cache-path=" + moduleCache;
    var tail := ["-fsyntax-only", "--no-default-config", "-fno-crash-diagnostics", cache] + rest;
    assert result[0] == "-x" && result[1] == ClangName(language) && result[2..] == tail;
    ParseClangName(language);
    assert cache[1] == 'f' && "-fsyntax-only"[1] == 'f' && "--no-default-config"[1] == '-';
    assert "-fno-crash-diagnostics"[1] == 'f' && "-x"[1] == 'x';
    forall x | x in tail
      ensures !IsLanguageFlag(x)
    {
    }
    ExplicitUnchanged(tail, Supported(language));
  }

  /** Behind the inserted entries, sanitizing again changes nothing. */
  lemma SanitizedStable(flags: Flags, original: Arguments, language: Language, moduleCache: string, result: Arguments)
    requires Sanitized(flags, original, language, moduleCache, result)
    ensures Strip(flags, result[6..]) == result[6..] && WithoutLanguage(result[6..]) == result[6..]
  {
    CleanUnchanged(flags, result[6..], 0);
    NoLanguageUnchanged(result[6..]);
  }

  lemma {:induction false} NoLanguageUnchanged(arguments: Arguments)
    requires NoLanguageFlag(arguments)
    ensures WithoutLanguage(arguments) == arguments
    decreases |arguments|
  {
    if arguments != [] {
      assert arguments[0] in arguments;
      NoLanguageUnchanged(arguments[1..]);
    }
  }

  // ----- sanitizing a sanitized command -----

  const MODES: Arguments := ["-fsyntax-only", "--no-default-config"]

  /** Of the six inserted entries, the flags remove the last two and no other. */
  ghost predicate EntriesClassified(flags: Flags, language: Language, moduleCache: string) {
    && Clean(flags, ["-x", ClangName(language)] + MODES)
    && !flags.separate("-fno-crash-diagnostics") && flags.removable("-fno-crash-diagnostics")
    && !flags.separate("-fmodules-cache-path=" + moduleCache) && flags.removable("-fmodules-cache-path=" + moduleCache)
  }

  lemma LastTwoStripped(flags: Flags, a: string, b: string, rest: Arguments)
    requires !flags.separate(a) && flags.removable(a) && !flags.separate(b) && flags.removable(b)
    ensures Strip(flags, [a, b] + rest) == Strip(flags, rest)
  {
    StripShift(flags, [a, b], rest, 0);
    var all := [a, b] + rest;
    assert all[0] == a && StripFrom(flags, all, 0) == StripFrom(flags, all, 1);
    assert all[1] == b && StripFrom(flags, all, 1) == StripFrom(flags, all, 2);
  }

  lemma EntriesStripped(flags: Flags, language: Language, moduleCache: string, rest: Arguments)
    requires EntriesClassified(flags, language, moduleCache) && Clean(flags, rest)
    ensures Strip(flags, FixedEntries(language, moduleCache) + rest) == ["-x", ClangName(language)] + (MODES + rest)
  {
    var pre, cache := ["-x", ClangName(language)] + MODES, "-fmodules-cache-path=" + moduleCache;
    var crash := "-fno-crash-diagnostics";
    NotTheMarker(language);
    StripKeepsPrefix(flags, pre, [crash, cache] + rest);
    LastTwoStripped(flags, crash, cache, rest);
    CleanUnchanged(flags, rest, 0);
    assert FixedEntries(language, moduleCache) == pre + [crash, cache];
    assert pre + [crash, cache] + rest == pre + ([crash, cache] + rest);
    assert pre + rest == ["-x", ClangName(language)] + (MODES + rest);
  }

  lemma EntriesWithoutLanguage(language: Language, rest: Arguments)
    requires NoLanguageFlag(rest)
    ensures WithoutLanguage(["-x", ClangName(language)] + (MODES + rest)) == MODES + rest
  {
    var kept := MODES + rest;
    assert (["-x", ClangName(language)] + kept)[2..] == kept;
    assert "-fsyntax-only"[1] == 'f' && "--no-default-config"[1] == '-' && "-x"[1] == 'x';
    NoLanguageUnchanged(kept);
  }

  lemma NotTheMarker(language: Language)
    ensures "-Xclang" !in ["-x", ClangName(language)] + MODES
  {
    assert |"-Xclang"| == 7 && "-Xclang"[0] == '-' && |"-x"| == 2 && |"-fsyntax-only"| == 13;
    assert |"--no-default-config"| == 19 && ClangName(language)[0] != '-';
  }

  /**
   Sanitizing is not idempotent: a second run removes four of the six entries before inserting its own, but keeps the
   two modes, so the command grows by exactly these.
   */
  lemma ResanitizedGainsTwo(flags: Flags, original: Arguments, language: Language, moduleCache: string, result: Arguments,
                            language': Language, moduleCache': string, again: Arguments)
    requires EntriesClassified(flags, language, moduleCache)
    requires Sanitized(flags, original, language, moduleCache, result)
    requires Sanitized(flags, result, language', moduleCache', again)
    ensures again == FixedEntries(language', moduleCache') + (MODES + result[6..])
    ensures |again| == |result| + 2
  {
    var rest := result[6..];
    assert result == FixedEntries(language, moduleCache) + rest;
    EntriesStripped(flags, language, moduleCache, rest);
    EntriesWithoutLanguage(language, rest);
    assert again == again[..6] + again[6..];
  }

  // ----- the program's own tables -----

  lemma SourceInert(argument: string)
    requires ClangFlags.Inert(argument)
    ensures Clean(SourceFlags(), [argument]) && !SourceFlags().isUnsafe(argument)
  {
  }

  lemma SourceRemovable(argument: string)
    requires ClangFlags.Removable(argument)
    ensures !SourceFlags().separate(argument) && SourceFlags().removable(argument) && !SourceFlags().isUnsafe(argument)
  {
  }

  lemma SourceModesInert(language: Language)
    ensures Clean(SourceFlags(), ["-x", ClangName(language)] + MODES)
    ensures forall x :: x in ["-x", ClangName(language)] + MODES ==> !SourceFlags().isUnsafe(x)
  {
    forall x | x in ["-x", ClangName(language)] + MODES
      ensures Clean(SourceFlags(), [x]) && !SourceFlags().isUnsafe(x)
    {
      ClangFlags.InertEntry(x);
      SourceInert(x);
    }
    forall x | x in ["-x", ClangName(language)] + MODES
      ensures !SourceFlags().separate(x) && !SourceFlags().removable(x)
    {
      assert x in [x];
    }
  }

  lemma SourceEntriesClassified(language: Language, moduleCache: string)
    ensures EntriesClassified(SourceFlags(), language, moduleCache)
    ensures forall x :: x in FixedEntries(language, moduleCache) ==> !SourceFlags().isUnsafe(x)
  {
    var cache := "-fmodules-cache-path=" + moduleCache;
    SourceModesInert(language);
    ClangFlags.CrashFlagRemovable();
    ClangFlags.CachePathRemovable(moduleCache);
    SourceRemovable("-fno-crash-diagnostics");
    SourceRemovable(cache);
    assert FixedEntries(language, moduleCache) == ["-x", ClangName(language)] + MODES + ["-fno-crash-diagnostics", cache];
  }

  /** With the program's tables a forwarded output flag is removed with its markers and its value. */
  lemma SourceStripsForwarded(pre: Arguments, flag: string, value: string, post: Arguments)
    requires Clean(SourceFlags(), pre) && "-Xclang" !in pre
    ensures ClangFlags.FlagTakesSeparateValue(flag) ==>
      && Strip(SourceFlags(), pre + (["-Xclang", flag, "-Xclang", value] + post)) == pre + Strip(SourceFlags(), post)
      && (value != "-Xclang" ==>
            Strip(SourceFlags(), pre + (["-Xclang", flag, value] + post)) == pre + Strip(SourceFlags(), post))
    ensures !ClangFlags.FlagTakesSeparateValue(flag) && ClangFlags.IsRemovableOutputFlag(flag) ==>
      Strip(SourceFlags(), pre + (["-Xclang", flag] + post)) == pre + Strip(SourceFlags(), post)
  {
    ClangFlags.MarkerClassified();
    StripRemovesForwarded(SourceFlags(), pre, flag, value, post);
  }

  /** A command the sanitizer accepts forwards nothing, so what survives stripping is decided argument by argument. */
  lemma AcceptedForwardsNothing(original: Arguments)
    requires forall x :: x in original ==> !SourceFlags().isUnsafe(x)
    ensures "-Xclang" !in original
    ensures forall i :: 0 <= i < |original| ==>
      (Kept(SourceFlags(), original, i) <==> Clean(SourceFlags(), [original[i]]))
  {
    ClangFlags.MarkerClassified();
    forall i | 0 <= i < |original|
      ensures Kept(SourceFlags(), original, i) <==> Clean(SourceFlags(), [original[i]])
    {
      assert original[i] in original && original[i] in [original[i]];
    }
  }

  /** What the program makes of its own result: it is accepted, and gains the two modes. */
  lemma SourceResanitized(original: Arguments, language: Language, moduleCache: string, result: Arguments,
                          language': Language, moduleCache': string, again: Arguments)
    requires Sanitized(SourceFlags(), original, language, moduleCache, result)
    ensures forall x :: x in result ==> !SourceFlags().isUnsafe(x)
    ensures Sanitized(SourceFlags(), result, language', moduleCache', again) ==>
      again == FixedEntries(language', moduleCache') + (MODES + result[6..]) && |again| == |result| + 2
  {
    SourceEntriesClassified(language, moduleCache);
    assert result == FixedEntries(language, moduleCache) + result[6..];
    if Sanitized(SourceFlags(), result, language', moduleCache', again) {
      ResanitizedGainsTwo(SourceFlags(), original, language, moduleCache, result, language', moduleCache', again);
    }
  }
}
