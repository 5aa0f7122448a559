/**
 The flag tables of the command sanitizer (crates/adapter-clang/src/command.rs).
 */
module ClangFlags {

  const SEPARATE_OUTPUT_FLAGS: seq<string> := [
    "-o", "--output", "/o", "-as-secure-log-file", "-analyzer-dump-egraph", "-gen-cdb-fragment-path",
    "-dependency-dot", "-dsym-dir", "-dumpdir", "-MF", "-MT", "-MQ", "-MJ", "-dependency-file",
    "--dependency-file", "-diagnostic-log-file", "-fapinotes-cache-path", "-fcrash-diagnostics-dir",
    "-fmodules-cache-path", "-fmodules-user-build-path", "-header-include-file", "-index-store-path",
    "-index-unit-output-path", "-module-dependency-dir", "-opt-record-file", "-serialize-diagnostics",
    "--serialize-diagnostics", "-serialize-diagnostic-file", "-split-dwarf-file", "-split-dwarf-output",
    "-stack-usage-file", "-stats-file", "--symbol-graph-dir", "-foptimization-record-file"]

  const EXACT_OUTPUT_FLAGS: seq<string> := [
    "-c", "-S", "-E", "--analyze", "-analyze", "--precompile", "-extract-api", "-rewrite-legacy-objc",
    "-rewrite-objc", "-via-file-asm", "-gen-reproducer", "-fmodule-output", "-fcrash-diagnostics",
    "-fno-crash-diagnostics", "-fno-temp-file", "-fprofile-arcs", "-fsave-optimization-record",
    "-fstack-usage", "-ftest-coverage", "-save-temps", "--save-temps", "-save-stats", "-ftime-trace",
    "-index-record-codegen-name", "-index-store-compress", "-stats-file-append",
    "--emit-extension-symbol-graphs", "--gpu-bundle-output", "-fdiagnostics-parseable-fixits",
    "-fdiagnostics-print-source-range-info", "-fmemory-profile", "/c", "/E", "/EP", "/LD", "/LDd", "/P", "/Zs",
    "/FA"]

  // One table in the program: joined forms of the flags above, then the rest.
  const JOINED_OUTPUT_FLAGS: seq<string> := [
    "--output=", "-as-secure-log-file=", "-analyzer-dump-egraph=", "-gen-cdb-fragment-path=",
    "-dependency-dot=", "-dsym-dir=", "-dumpdir=", "-MF", "-MT", "-MQ", "-MJ", "-dependency-file=",
    "--dependency-file=", "-diagnostic-log-file=", "-fapinotes-cache-path=", "-fcrash-diagnostics-dir=",
    "-fmodules-cache-path=", "-fmodules-user-build-path=", "-header-include-file=", "-index-store-path=",
    "-index-unit-output-path=", "-module-dependency-dir=", "-opt-record-file=", "-serialize-diagnostics=",
    "--serialize-diagnostics=", "-serialize-diagnostic-file=", "-split-dwarf-file=", "-split-dwarf-output=",
    "-stack-usage-file=", "-stats-file=", "--symbol-graph-dir=", "-foptimization-record-file="]

  const PREFIX_OUTPUT_FLAGS: seq<string> := [
    "-fmodule-output=", "-emit-", "--emit-", "-dump-depscan-tree=", "-gen-reproducer=",
    "-fcodegen-data-generate", "-fcrash-diagnostics=", "-fcs-profile-generate", "-fmemory-profile=",
    "-fproc-stat-report", "-fprofile-generate", "-fprofile-instr-generate", "-fsave-optimization-record=",
    "-save-stats=", "-save-temps=", "--save-temps=", "-ftime-trace=", "/doc", "/Fa", "/Fd", "/Fe", "/Fi",
    "/Fm", "/Fo", "/FR", "/Fr", "/ifcOutput", "/module:output", "/sourceDependencies", "/Yc"]

  const SEMANTIC_O_FLAGS: seq<string> := [
    "-objc", "-object", "-offload", "-omit", "-openmp", "-opt"]

  const DEPENDENCY_MODE_FLAGS: seq<string> := [
    "-M", "-MM", "-MD", "-MMD", "-MG", "-MP"]

  const CONFIG_FLAGS: seq<string> := [
    "--config", "--config-system-dir", "--config-user-dir", "-multi-lib-config"]

  const UNSAFE_PREFIXES: seq<string> := [
    "-fdepscan", "-fcas", "-fcache-", "-fexperimental-cache"]

  const FORWARDING_FLAGS: seq<string> := [
    "-Xanalyzer", "-Xclang", "-Xclangas", "-Xpreprocessor", "-mllvm"]

  const FORWARDING_PREFIXES: seq<string> := [
    "-Xanalyzer=", "-Xclang=", "-Xclangas=", "-Xpreprocessor=", "-mllvm=", "-Wp,"]

  const PLUGIN_FLAGS: seq<string> := [
    "-load", "--load", "-load-pass-plugin", "-plugin", "-add-plugin", "-fplugin", "-fpass-plugin",
    "--hipspv-pass-plugin", "-fcas-plugin-path", "-fcas-plugin-option", "-wrapper"]

  predicate StartsWithAny(prefixes: seq<string>, argument: string) {
    exists i :: 0 <= i < |prefixes| && prefixes[i] <= argument
  }

  predicate FlagOrJoinedValue(flags: seq<string>, argument: string) {
    argument in flags || exists i :: 0 <= i < |flags| && flags[i] + "=" <= argument
  }

  function LowerChar(c: char): char {
    if 'A' <= c <= 'Z' then c - 'A' + 'a' else c
  }

  function AsciiLower(s: string): string {
    seq(|s|, i requires 0 <= i < |s| => LowerChar(s[i]))
  }

  predicate FlagTakesSeparateValue(argument: string) {
    argument in SEPARATE_OUTPUT_FLAGS
  }

  predicate IsShortOutputFlag(argument: string) {
    "-o" <= argument && |argument| > 2 && !StartsWithAny(SEMANTIC_O_FLAGS, argument)
  }

  predicate IsRemovableOutputFlag(argument: string) {
    || StartsWithAny(JOINED_OUTPUT_FLAGS, argument) || StartsWithAny(PREFIX_OUTPUT_FLAGS, argument)
    || IsShortOutputFlag(argument)
    || argument in DEPENDENCY_MODE_FLAGS
    || argument in EXACT_OUTPUT_FLAGS
  }

  predicate IsUnsafeCompilerArgument(argument: string) {
    || "@" <= argument || AsciiLower(argument) == "/link"
    || argument in FORWARDING_FLAGS || StartsWithAny(FORWARDING_PREFIXES, argument) || "-cc1" <= argument
    || (|argument| >= 7 && AsciiLower(argument[..7]) == "/clang:")
    || FlagOrJoinedValue(CONFIG_FLAGS, argument)
    || StartsWithAny(UNSAFE_PREFIXES, argument)
    || FlagOrJoinedValue(PLUGIN_FLAGS, argument) || "-plugin-arg-" <= argument || "-fplugin-arg-" <= argument
  }

  // ----- how the tables classify the arguments the sanitizer relies on -----

  /** No prefix of `-x`, `-Xclang`, `-fsyntax-only` or `--no-default-config`. */
  predicate OutputPrefix(p: string) {
    && |p| > 2 && p[1] != 'x' && p[1] != 'X' && (p[1] == '-' ==> p[2] != 'n')
    && (p[1] == 'f' ==> |p| > 3 && (p[2] == 's' ==> p[3] != 'y'))
  }

  /** None of those four. */
  predicate OutputFlag(p: string) {
    |p| > 1 && p[1] != 'x' && p[1] != 'X' && (p[1] == '-' || p[1] == 'f' ==> LongFlag(p))
  }

  predicate LongFlag(p: string) {
    |p| > 3 && !(p[1] == '-' && p[2] == 'n') && !(p[1] == 'f' && p[2] == 's' && p[3] == 'y')
  }

  /** Nor `-fno-crash-diagnostics` or a module cache path. */
  predicate SeparateFlag(p: string) {
    && OutputFlag(p)
    && (p[1] == 'f' ==> p[2] != 'n' && (p[2] == 'm' ==> |p| <= 20 || p[10] == 'u'))
  }

  /** No prefix of any argument the sanitizer inserts. */
  predicate RefusedPrefix(p: string) {
    && |p| > 2 && p[1] != 'x' && (p[1] == '-' ==> p[2] != 'n')
    && (p[1] == 'f' ==> p[2] != 's' && p[2] != 'n' && p[2] != 'm')
  }

  lemma JoinedPrefixes()
    ensures forall i :: 0 <= i < |JOINED_OUTPUT_FLAGS| ==> OutputPrefix(JOINED_OUTPUT_FLAGS[i])
  {
  }

  lemma OutputPrefixes()
    ensures forall i :: 0 <= i < |PREFIX_OUTPUT_FLAGS| ==> OutputPrefix(PREFIX_OUTPUT_FLAGS[i])
  {
  }

  lemma SeparateFlags()
    ensures forall i :: 0 <= i < |SEPARATE_OUTPUT_FLAGS| ==> SeparateFlag(SEPARATE_OUTPUT_FLAGS[i])
  {
  }

  lemma ExactSeconds()
    ensures forall i :: 0 <= i < |EXACT_OUTPUT_FLAGS| ==>
      |EXACT_OUTPUT_FLAGS[i]| > 1 && EXACT_OUTPUT_FLAGS[i][1] != 'x' && EXACT_OUTPUT_FLAGS[i][1] != 'X'
  {
  }

  lemma ExactLong()
    ensures forall i :: 0 <= i < |EXACT_OUTPUT_FLAGS| ==>
      |EXACT_OUTPUT_FLAGS[i]| > 1 && EXACT_OUTPUT_FLAGS[i][1] in ['-', 'f'] ==> LongFlag(EXACT_OUTPUT_FLAGS[i])
  {
  }

  lemma ExactFlags()
    ensures forall i :: 0 <= i < |EXACT_OUTPUT_FLAGS| ==> OutputFlag(EXACT_OUTPUT_FLAGS[i])
  {
    ExactSeconds();
    ExactLong();
  }

  lemma DependencyFlags()
    ensures forall i :: 0 <= i < |DEPENDENCY_MODE_FLAGS| ==> OutputFlag(DEPENDENCY_MODE_FLAGS[i])
  {
  }

  lemma RefusedPrefixes()
    ensures forall i :: 0 <= i < |CONFIG_FLAGS| ==> RefusedPrefix(CONFIG_FLAGS[i])
    ensures forall i :: 0 <= i < |UNSAFE_PREFIXES| ==> RefusedPrefix(UNSAFE_PREFIXES[i])
    ensures forall i :: 0 <= i < |FORWARDING_FLAGS| ==> RefusedPrefix(FORWARDING_FLAGS[i])
    ensures forall i :: 0 <= i < |FORWARDING_PREFIXES| ==> RefusedPrefix(FORWARDING_PREFIXES[i])
    ensures forall i :: 0 <= i < |PLUGIN_FLAGS| ==> RefusedPrefix(PLUGIN_FLAGS[i])
  {
  }

  /** Told from every output flag by its first characters. */
  predicate NotOutput(argument: string) {
    && |argument| > 1 && argument[0] == '-'
    && (|| argument[1] == 'x' || argument[1] == 'X'
        || (|argument| > 3 && argument[1] == '-' && argument[2] == 'n')
        || (|argument| > 3 && argument[1] == 'f' && argument[2] == 's' && argument[3] == 'y'))
  }

  /** Told from every refused argument by its first characters. */
  predicate NotRefused(argument: string) {
    && |argument| > 1 && argument[0] == '-'
    && (|| argument[1] == 'x'
        || (|argument| > 3 && argument[1] == '-' && argument[2] == 'n')
        || (|argument| > 3 && argument[1] == 'f' && argument[2] in ['s', 'n', 'm']))
  }

  lemma NoOutputFlag(flags: seq<string>, argument: string)
    requires NotOutput(argument) && forall i :: 0 <= i < |flags| ==> OutputFlag(flags[i])
    ensures argument !in flags
  {
  }

  lemma NoOutputPrefix(flags: seq<string>, argument: string)
    requires NotOutput(argument) && forall i :: 0 <= i < |flags| ==> OutputPrefix(flags[i])
    ensures !StartsWithAny(flags, argument)
  {
  }

  lemma NoRefusedPrefix(flags: seq<string>, argument: string)
    requires NotRefused(argument) && forall i :: 0 <= i < |flags| ==> RefusedPrefix(flags[i])
    ensures !StartsWithAny(flags, argument) && !FlagOrJoinedValue(flags, argument)
  {
    forall i | 0 <= i < |flags|
      ensures !(flags[i] <= argument) && !(flags[i] + "=" <= argument)
    {
      assert (flags[i] + "=")[1] == flags[i][1] && (flags[i] + "=")[2] == flags[i][2];
    }
  }

  lemma OutputClassified(argument: string)
    requires NotOutput(argument)
    ensures !FlagTakesSeparateValue(argument) && !IsRemovableOutputFlag(argument)
  {
    JoinedPrefixes();
    OutputPrefixes();
    SeparateFlags();
    ExactFlags();
    DependencyFlags();
    NoOutputFlag(SEPARATE_OUTPUT_FLAGS, argument);
    NoOutputFlag(EXACT_OUTPUT_FLAGS, argument);
    NoOutputFlag(DEPENDENCY_MODE_FLAGS, argument);
    NoOutputPrefix(JOINED_OUTPUT_FLAGS, argument);
    NoOutputPrefix(PREFIX_OUTPUT_FLAGS, argument);
  }

  lemma RefusedClassified(argument: string)
    requires NotRefused(argument)
    ensures !IsUnsafeCompilerArgument(argument)
  {
    RefusedPrefixes();
    NoRefusedPrefix(CONFIG_FLAGS, argument);
    NoRefusedPrefix(UNSAFE_PREFIXES, argument);
    NoRefusedPrefix(FORWARDING_FLAGS, argument);
    NoRefusedPrefix(FORWARDING_PREFIXES, argument);
    NoRefusedPrefix(PLUGIN_FLAGS, argument);
    assert AsciiLower(argument)[0] == argument[0];
    assert |argument| >= 7 ==> AsciiLower(argument[..7])[0] == argument[0];
  }

  /** A language name is told from every table entry by its first character. */
  predicate IsName(argument: string) {
    argument != "" && argument[0] in ['c', 'o']
  }

  predicate Dashed(p: string) {
    p != "" && p[0] <= '/'
  }

  lemma ExactDashed()
    ensures forall i :: 0 <= i < |EXACT_OUTPUT_FLAGS| ==> Dashed(EXACT_OUTPUT_FLAGS[i])
  {
  }

  lemma SeparateDashed()
    ensures forall i :: 0 <= i < |SEPARATE_OUTPUT_FLAGS| ==> Dashed(SEPARATE_OUTPUT_FLAGS[i])
    ensures forall i :: 0 <= i < |DEPENDENCY_MODE_FLAGS| ==> Dashed(DEPENDENCY_MODE_FLAGS[i])
  {
  }

  lemma PrefixesDashed()
    ensures forall i :: 0 <= i < |JOINED_OUTPUT_FLAGS| ==> Dashed(JOINED_OUTPUT_FLAGS[i])
    ensures forall i :: 0 <= i < |PREFIX_OUTPUT_FLAGS| ==> Dashed(PREFIX_OUTPUT_FLAGS[i])
  {
  }

  lemma RefusedDashed()
    ensures forall i :: 0 <= i < |CONFIG_FLAGS| ==> Dashed(CONFIG_FLAGS[i])
    ensures forall i :: 0 <= i < |UNSAFE_PREFIXES| ==> Dashed(UNSAFE_PREFIXES[i])
    ensures forall i :: 0 <= i < |FORWARDING_FLAGS| ==> Dashed(FORWARDING_FLAGS[i])
    ensures forall i :: 0 <= i < |FORWARDING_PREFIXES| ==> Dashed(FORWARDING_PREFIXES[i])
    ensures forall i :: 0 <= i < |PLUGIN_FLAGS| ==> Dashed(PLUGIN_FLAGS[i])
  {
  }

  lemma NameUnlisted(flags: seq<string>, name: string)
    requires IsName(name) && forall i :: 0 <= i < |flags| ==> Dashed(flags[i])
    ensures name !in flags && !StartsWithAny(flags, name) && !FlagOrJoinedValue(flags, name)
  {
    forall i | 0 <= i < |flags|
      ensures !(flags[i] + "=" <= name)
    {
      assert (flags[i] + "=")[0] == flags[i][0];
    }
  }

  lemma NameNotOutput(name: string)
    requires IsName(name)
    ensures !FlagTakesSeparateValue(name) && !IsRemovableOutputFlag(name)
  {
    ExactDashed();
    SeparateDashed();
    PrefixesDashed();
    NameUnlisted(SEPARATE_OUTPUT_FLAGS, name);
    NameUnlisted(DEPENDENCY_MODE_FLAGS, name);
    NameUnlisted(EXACT_OUTPUT_FLAGS, name);
    NameUnlisted(JOINED_OUTPUT_FLAGS, name);
    NameUnlisted(PREFIX_OUTPUT_FLAGS, name);
  }

  lemma NameNotRefused(name: string)
    requires IsName(name)
    ensures !IsUnsafeCompilerArgument(name)
  {
    RefusedDashed();
    NameUnlisted(CONFIG_FLAGS, name);
    NameUnlisted(UNSAFE_PREFIXES, name);
    NameUnlisted(FORWARDING_FLAGS, name);
    NameUnlisted(FORWARDING_PREFIXES, name);
    NameUnlisted(PLUGIN_FLAGS, name);
    assert AsciiLower(name)[0] == name[0];
    assert |name| >= 7 ==> AsciiLower(name[..7])[0] == name[0];
  }

  /** The forwarding marker is no output flag, and a command holding it is refused. */
  lemma MarkerClassified()
    ensures !FlagTakesSeparateValue("-Xclang") && !IsRemovableOutputFlag("-Xclang")
    ensures IsUnsafeCompilerArgument("-Xclang")
  {
    OutputClassified("-Xclang");
    assert FORWARDING_FLAGS[1] == "-Xclang";
  }

  /** Neither an output flag nor refused. */
  predicate Inert(argument: string) {
    !FlagTakesSeparateValue(argument) && !IsRemovableOutputFlag(argument) && !IsUnsafeCompilerArgument(argument)
  }

  /** Removed as an output flag without a separate value, and not refused. */
  predicate Removable(argument: string) {
    !FlagTakesSeparateValue(argument) && IsRemovableOutputFlag(argument) && !IsUnsafeCompilerArgument(argument)
  }

  lemma InertEntry(argument: string)
    requires IsName(argument) || (NotOutput(argument) && NotRefused(argument))
    ensures Inert(argument)
  {
    if IsName(argument) {
      NameNotOutput(argument);
      NameNotRefused(argument);
    } else {
      OutputClassified(argument);
      RefusedClassified(argument);
    }
  }

  lemma RemovableEntry(argument: string)
    requires |argument| > 10 && argument[0] == '-' && argument[1] == 'f'
    requires argument[2] == 'n' || (argument[2] == 'm' && |argument| > 20 && argument[10] == 'c')
    ensures !FlagTakesSeparateValue(argument) && !IsUnsafeCompilerArgument(argument)
  {
    SeparateFlags();
    NotSeparate(SEPARATE_OUTPUT_FLAGS, argument);
    RefusedClassified(argument);
  }

  lemma NotSeparate(flags: seq<string>, argument: string)
    requires |argument| > 10 && argument[1] == 'f'
    requires argument[2] == 'n' || (argument[2] == 'm' && |argument| > 20 && argument[10] == 'c')
    requires forall i :: 0 <= i < |flags| ==> SeparateFlag(flags[i])
    ensures argument !in flags
  {
  }

  /** Two of the arguments the sanitizer inserts are output flags to itself. */
  lemma CrashFlagRemovable()
    ensures Removable("-fno-crash-diagnostics")
  {
    RemovableEntry("-fno-crash-diagnostics");
    assert EXACT_OUTPUT_FLAGS[13] == "-fno-crash-diagnostics";
  }

  lemma CachePathJoined(path: string)
    requires "-fmodules-cache-path=" <= path
    ensures StartsWithAny(JOINED_OUTPUT_FLAGS, path)
  {
    assert JOINED_OUTPUT_FLAGS[16] == "-fmodules-cache-path=";
  }

  lemma CachePathRemovable(cache: string)
    ensures Removable("-fmodules-cache-path=" + cache)
  {
    var flag, path := "-fmodules-cache-path=", "-fmodules-cache-path=" + cache;
    assert path[0] == flag[0] && path[1] == flag[1] && path[2] == flag[2] && path[10] == flag[10];
    CachePathJoined(path);
    RemovableEntry(path);
  }
}
