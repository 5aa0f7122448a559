/**
 What a mutation run means (crates/analysis-mutate/src/executor.rs): the events of a run and the discipline they obey,
 the verdicts of commands, the candidates that are executed, and what gives each result its status.
 */
module MutationPlan {
  import opened Wrappers

  datatype CommandResult = Ran(exitCode: Option<int>, timedOut: bool) | CommandCancelled | ProcessTreeFailed | CommandFailed

  datatype ApplyResult = Applied(mutated: string) | InvalidEdit | FatalApply(left: string)

  datatype Environment = Environment(
    cancelled: nat -> bool,
    apply: nat -> ApplyResult,
    command: nat -> CommandResult,
    restored: nat -> bool,
    damage: nat -> string)

  datatype Status = Survived | Killed | TimedOut | CompileError | RuntimeError | Invalid | Ignored | NoCoverage

  datatype RunError = Cancelled | ProcessTree | ApplyFatal | RestoreFailure | BaselineFailed | InvalidOptions | UnsafePath

  datatype MutationResult = MutationResult(id: nat, status: Status)

  datatype Options = Options(
    ignored: set<nat>, noCoverage: set<nat>, maxMutants: Option<nat>,
    runBaseline: bool, hasValidation: bool, hasTest: bool)

  // ----- the trace of a run -----

  datatype Phase = Validation | Test

  datatype Event =
    | Attempted(id: nat)
    | ApplyFailed(id: nat)
    | Mutate(id: nat)
    | Command(phase: Phase, mutant: Option<nat>, result: CommandResult)
    | Restore(id: nat)
    | RestoreFailed(id: nat)

  datatype Stage = Idle | Mutated(id: nat) | Broken | Illegal

  /** At most one mutant at a time, commands see exactly that mutant, and nothing follows a failed application or restore. */
  ghost function Next(s: Stage, e: Event): Stage {
    match (s, e)
    case (Idle, Attempted(_)) => Idle
    case (Idle, ApplyFailed(_)) => Broken
    case (Idle, Mutate(id)) => Mutated(id)
    case (Idle, Command(_, None, _)) => Idle
    case (Mutated(id), Command(_, Some(m), _)) => if m == id then s else Illegal
    case (Mutated(id), Restore(m)) => if m == id then Idle else Illegal
    case (Mutated(id), RestoreFailed(m)) => if m == id then Broken else Illegal
    case _ => Illegal
  }

  ghost function After(trace: seq<Event>): Stage {
    if trace == [] then Idle else Next(After(trace[..|trace| - 1]), trace[|trace| - 1])
  }

  predicate IsAttempt(e: Event) {
    e.Attempted? || e.ApplyFailed? || e.Mutate?
  }

  /** The candidates whose edit was attempted, in order. */
  ghost function Attempts(trace: seq<Event>): seq<nat> {
    if trace == [] then
      []
    else
      var last := trace[|trace| - 1];
      Attempts(trace[..|trace| - 1]) + if IsAttempt(last) then [last.id] else []
  }

  /** The commands run on the unmutated source, in order. */
  ghost function Baseline(trace: seq<Event>): seq<Event> {
    if trace == [] then
      []
    else
      var last := trace[|trace| - 1];
      Baseline(trace[..|trace| - 1]) + if last.Command? && last.mutant.None? then [last] else []
  }

  lemma TraceStep(trace: seq<Event>, e: Event)
    ensures After(trace + [e]) == Next(After(trace), e)
    ensures Attempts(trace + [e]) == Attempts(trace) + if IsAttempt(e) then [e.id] else []
    ensures Baseline(trace + [e]) == Baseline(trace) + if e.Command? && e.mutant.None? then [e] else []
  {
    assert (trace + [e])[..|trace|] == trace;
  }

  // ----- classification -----

  /** The verdict of the test command; infrastructure failures end the run. */
  function JudgeTest(r: CommandResult): Result<Status, RunError> {
    match r
    case Ran(code, timedOut) =>
      Success(if timedOut then TimedOut
              else if code == Some(0) then Survived
              else if code.Some? then Killed
              else RuntimeError)
    case CommandCancelled => Failure(Cancelled)
    case ProcessTreeFailed => Failure(ProcessTree)
    case CommandFailed => Success(RuntimeError)
  }

  /** The verdict of the validation command, `None` when the mutant goes on to the test. */
  function JudgeValidation(r: CommandResult): Option<Result<Status, RunError>> {
    match r
    case Ran(code, timedOut) =>
      if timedOut then Some(Success(TimedOut))
      else if code == Some(0) then None
      else Some(Success(if code.Some? then CompileError else RuntimeError))
    case CommandCancelled => Some(Failure(Cancelled))
    case ProcessTreeFailed => Some(Failure(ProcessTree))
    case CommandFailed => Some(Success(RuntimeError))
  }

  // ----- the plan: which candidates are executed -----

  function Eligible(options: Options, id: nat): bool {
    id !in options.ignored && id !in options.noCoverage
  }

  ghost function EligibleIds(options: Options, candidates: seq<nat>): seq<nat> {
    if candidates == [] then
      []
    else
      var last := candidates[|candidates| - 1];
      EligibleIds(options, candidates[..|candidates| - 1]) + if Eligible(options, last) then [last] else []
  }

  ghost function Limited(options: Options, ids: seq<nat>): seq<nat> {
    if options.maxMutants.Some? && options.maxMutants.value < |ids| then ids[..options.maxMutants.value] else ids
  }

  /** The candidates that are executed: the first eligible ones up to the limit. */
  ghost function Planned(options: Options, candidates: seq<nat>): seq<nat> {
    Limited(options, EligibleIds(options, candidates))
  }

  /** The status of a candidate that is not executed. */
  function NonExecuted(options: Options, id: nat, selected: nat): Option<Status> {
    if id in options.ignored then Some(Ignored)
    else if id in options.noCoverage then Some(NoCoverage)
    else if options.maxMutants.Some? && selected >= options.maxMutants.value then Some(Ignored)
    else None
  }

  method ExecutableCount(options: Options, candidates: seq<nat>) returns (count: nat)
    ensures count == |Planned(options, candidates)|
  {
    count := 0;
    for i := 0 to |candidates|
      invariant count == |EligibleIds(options, candidates[..i])|
    {
      assert candidates[..i + 1][..i] == candidates[..i];
      if Eligible(options, candidates[i]) {
        count := count + 1;
      }
    }
    assert candidates[..|candidates|] == candidates;
    if options.maxMutants.Some? && options.maxMutants.value < count {
      count := options.maxMutants.value;
    }
  }

  /** One more candidate is planned exactly when no rule excludes it. */
  lemma PlannedStep(options: Options, candidates: seq<nat>, n: nat)
    requires n < |candidates|
    ensures var before := Planned(options, candidates[..n]);
            var excluded := NonExecuted(options, candidates[n], |before|).Some?;
            Planned(options, candidates[..n + 1]) == (if excluded then before else before + [candidates[n]])
  {
    assert candidates[..n + 1][..n] == candidates[..n];
  }

  lemma {:induction false} PlannedPrefix(options: Options, candidates: seq<nat>, n: nat)
    requires n <= |candidates|
    ensures Planned(options, candidates[..n]) <= Planned(options, candidates)
    decreases |candidates| - n
  {
    if n == |candidates| {
      assert candidates[..n] == candidates;
    } else {
      PlannedStep(options, candidates, n);
      PlannedPrefix(options, candidates, n + 1);
    }
  }

  /** The verdict of the commands run on an applied mutant, `None` if they are not those of a completed test. */
  ghost function AppliedStatus(options: Options, id: nat, commands: seq<Event>): Option<Status> {
    var validations := if options.hasValidation then 1 else 0;
    if options.hasValidation && (commands == [] || !Runs(commands[0], Validation, id)) then
      None
    else
      var verdict := if options.hasValidation then JudgeValidation(commands[0].result) else None;
      if verdict.Some? then
        (if |commands| == 1 && verdict.value.Success? then Some(verdict.value.value) else None)
      else if !options.hasTest then
        (if |commands| == validations then Some(RuntimeError) else None)
      else if |commands| == validations + 1 && Runs(commands[validations], Test, id) then
        (var r := JudgeTest(commands[validations].result); if r.Success? then Some(r.value) else None)
      else
        None
  }

  ghost predicate Runs(e: Event, phase: Phase, id: nat) {
    e.Command? && e.phase == phase && e.mutant == Some(id)
  }

  /** The events of one candidate that give it its status: an edit refused, or applied, judged and restored. */
  ghost predicate Justifies(options: Options, id: nat, events: seq<Event>, status: Status) {
    || (events == [Attempted(id)] && status == Invalid)
    || (&& |events| >= 2 && events[0] == Mutate(id) && events[|events| - 1] == Restore(id)
        && AppliedStatus(options, id, events[1..|events| - 1]) == Some(status))
  }

  // ----- what a verdict means -----

  const PASSED: CommandResult := Ran(Some(0), false)

  ghost predicate Failing(r: CommandResult) {
    r.Ran? && !r.timedOut && r.exitCode.Some? && r.exitCode.value != 0
  }

  ghost predicate Late(r: CommandResult) {
    r.Ran? && r.timedOut
  }

  /** The command could not be run, or ended without an exit code. */
  ghost predicate Aborted(r: CommandResult) {
    r.CommandFailed? || (r.Ran? && !r.timedOut && r.exitCode.None?)
  }

  /** The configured validation passed, and then the test ended with `test`. */
  ghost predicate Tested(options: Options, id: nat, commands: seq<Event>, test: CommandResult) {
    && options.hasTest
    && commands == PassedValidation(options, id) + [Command(Test, Some(id), test)]
  }

  ghost function PassedValidation(options: Options, id: nat): seq<Event> {
    if options.hasValidation then [Command(Validation, Some(id), PASSED)] else []
  }

  /** The configured validation ended with `validation`, and nothing else was run. */
  ghost predicate Stopped(options: Options, id: nat, commands: seq<Event>, validation: CommandResult) {
    options.hasValidation && commands == [Command(Validation, Some(id), validation)]
  }

  /** The commands run on an applied mutant and the status they stand for. */
  ghost predicate Shows(options: Options, id: nat, commands: seq<Event>, status: Status) {
    match status
    case Survived => Tested(options, id, commands, PASSED)
    case Killed => exists r :: Failing(r) && Tested(options, id, commands, r)
    case TimedOut => exists r :: Late(r) && (Stopped(options, id, commands, r) || Tested(options, id, commands, r))
    case CompileError => exists r :: Failing(r) && Stopped(options, id, commands, r)
    case RuntimeError =>
      || (exists r :: Aborted(r) && (Stopped(options, id, commands, r) || Tested(options, id, commands, r)))
      || (!options.hasTest && commands == PassedValidation(options, id))
    case _ => false
  }

  /** The status is the only one the commands stand for. */
  ghost predicate Decides(options: Options, id: nat, commands: seq<Event>, status: Status) {
    forall s :: Shows(options, id, commands, s) <==> s == status
  }

  /** A verdict of the program's judges is what the commands stand for. */
  lemma JudgedShows(options: Options, id: nat, commands: seq<Event>, status: Status)
    requires AppliedStatus(options, id, commands) == Some(status)
    ensures Shows(options, id, commands, status)
  {
    var n := if options.hasValidation then 1 else 0;
    if n < |commands| {
      assert commands == commands[..n] + [commands[n]];
      var r := commands[n].result;
      assert Failing(r) || Late(r) || Aborted(r) || r == PASSED || JudgeTest(r).Failure?;
    }
    if options.hasValidation {
      var v := commands[0].result;
      assert commands[0] == Command(Validation, Some(id), v);
      assert Failing(v) || Late(v) || Aborted(v) || v == PASSED;
      if v != PASSED {
        assert commands == [commands[0]];
        assert Stopped(options, id, commands, v);
      } else if options.hasTest {
        assert commands[..1] == PassedValidation(options, id);
        assert Tested(options, id, commands, commands[1].result);
      } else {
        assert commands == [commands[0]];
      }
    } else if options.hasTest {
      assert Tested(options, id, commands, commands[0].result);
    }
  }

  lemma ShownIsJudged(options: Options, id: nat, commands: seq<Event>, status: Status)
    requires Shows(options, id, commands, status)
    ensures AppliedStatus(options, id, commands) == Some(status)
  {
  }

  /** The judges of the program agree with what the commands stand for. */
  lemma JudgedMeans(options: Options, id: nat, commands: seq<Event>, status: Status)
    requires AppliedStatus(options, id, commands) == Some(status)
    ensures Decides(options, id, commands, status)
  {
    JudgedShows(options, id, commands, status);
    forall s | Shows(options, id, commands, s)
      ensures s == status
    {
      ShownIsJudged(options, id, commands, s);
    }
  }

  /** Some stretch of the trace gives the executed candidate its status. */
  ghost predicate Justified(options: Options, trace: seq<Event>, r: MutationResult) {
    r.status !in {Ignored, NoCoverage} ==>
      exists a, b :: 0 <= a <= b <= |trace| && Justifies(options, r.id, trace[a..b], r.status)
  }

  lemma JustifiedLater(options: Options, trace: seq<Event>, more: seq<Event>, r: MutationResult)
    requires Justified(options, trace, r)
    ensures Justified(options, trace + more, r)
  {
    if r.status !in {Ignored, NoCoverage} {
      var a, b :| 0 <= a <= b <= |trace| && Justifies(options, r.id, trace[a..b], r.status);
      assert (trace + more)[a..b] == trace[a..b];
    }
  }

  lemma JustifiedNow(options: Options, trace: seq<Event>, events: seq<Event>, r: MutationResult)
    requires Justifies(options, r.id, events, r.status)
    ensures Justified(options, trace + events, r)
  {
    assert (trace + events)[|trace|..|trace + events|] == events;
  }

  /** The events of one candidate and the status they stand for, in terms of the answers of its commands alone. */
  ghost predicate Witnesses(options: Options, id: nat, events: seq<Event>, status: Status) {
    || (events == [Attempted(id)] && status == Invalid)
    || (&& |events| >= 2 && events[0] == Mutate(id) && events[|events| - 1] == Restore(id)
        && Decides(options, id, events[1..|events| - 1], status))
  }

  /** Some stretch of the trace stands for the status of the executed candidate. */
  ghost predicate Witnessed(options: Options, trace: seq<Event>, r: MutationResult) {
    r.status !in {Ignored, NoCoverage} ==>
      exists a, b :: 0 <= a <= b <= |trace| && Witnesses(options, r.id, trace[a..b], r.status)
  }

  lemma JustifiedIsWitnessed(options: Options, trace: seq<Event>, r: MutationResult)
    requires Justified(options, trace, r)
    ensures Witnessed(options, trace, r)
  {
    if r.status !in {Ignored, NoCoverage} {
      var a, b :| 0 <= a <= b <= |trace| && Justifies(options, r.id, trace[a..b], r.status);
      var events := trace[a..b];
      if events != [Attempted(r.id)] {
        JudgedMeans(options, r.id, events[1..|events| - 1], r.status);
      }
      assert Witnesses(options, r.id, trace[a..b], r.status);
    }
  }

  ghost predicate AllJustified(options: Options, trace: seq<Event>, results: seq<MutationResult>) {
    forall r :: r in results ==> Justified(options, trace, r)
  }

  lemma AllJustifiedStep(options: Options, trace: seq<Event>, events: seq<Event>, results: seq<MutationResult>, r: MutationResult)
    requires AllJustified(options, trace, results)
    requires Justifies(options, r.id, events, r.status)
    ensures AllJustified(options, trace + events, results + [r])
  {
    forall x | x in results + [r]
      ensures Justified(options, trace + events, x)
    {
      if x in results {
        JustifiedLater(options, trace, events, x);
      } else {
        JustifiedNow(options, trace, events, r);
      }
    }
  }

  /** A result that was not executed needs no justification. */
  lemma AllJustifiedUnexecuted(options: Options, trace: seq<Event>, results: seq<MutationResult>, r: MutationResult)
    requires AllJustified(options, trace, results) && r.status in {Ignored, NoCoverage}
    ensures AllJustified(options, trace, results + [r])
  {
  }

  /** An applied, judged and restored candidate has the status of its commands. */
  lemma ExecutedJustifies(options: Options, id: nat, commands: seq<Event>, status: Status)
    requires AppliedStatus(options, id, commands) == Some(status)
    ensures Justifies(options, id, [Mutate(id)] + commands + [Restore(id)], status)
    ensures status !in {Ignored, NoCoverage}
  {
    var events := [Mutate(id)] + commands + [Restore(id)];
    assert events[1..|events| - 1] == commands;
  }

  /** The result of the `i`th candidate agrees with the plan. */
  ghost predicate ResultFits(options: Options, candidates: seq<nat>, i: nat, r: MutationResult)
    requires i < |candidates|
  {
    var rule := NonExecuted(options, candidates[i], |Planned(options, candidates[..i])|);
    && r.id == candidates[i]
    && (rule.Some? ==> r.status == rule.value)
    && (rule.None? ==> r.status !in {Ignored, NoCoverage})
  }

  /** The first `n` candidates have each one result, in order. */
  ghost predicate Reported(options: Options, candidates: seq<nat>, n: nat, results: seq<MutationResult>)
    requires n <= |candidates|
  {
    |results| == n && forall i :: 0 <= i < n ==> ResultFits(options, candidates, i, results[i])
  }

  lemma ReportedStep(options: Options, candidates: seq<nat>, n: nat, results: seq<MutationResult>, r: MutationResult)
    requires n < |candidates| && Reported(options, candidates, n, results) && ResultFits(options, candidates, n, r)
    ensures Reported(options, candidates, n + 1, results + [r])
  {
  }

  // ----- what a run refuses before it starts -----

  const MAX_EXECUTABLE_CANDIDATES: nat := 1_000_000
  const MAX_CANDIDATE_PATH_BYTES: nat := 64 * 1024
  const MAX_MUTATION_SOURCE_BYTES: nat := 32 * 1024 * 1024

  /** A candidate, with the sizes of its text fields in bytes. */
  datatype Candidate = Candidate(id: nat, pathBytes: nat, originalBytes: nat, replacementBytes: nat)

  function Ids(candidates: seq<Candidate>): (ids: seq<nat>)
    ensures |ids| == |candidates| && forall i :: 0 <= i < |ids| ==> ids[i] == candidates[i].id
  {
    seq(|candidates|, i requires 0 <= i < |candidates| => candidates[i].id)
  }

  predicate Sized(candidate: Candidate) {
    && candidate.pathBytes <= MAX_CANDIDATE_PATH_BYTES
    && candidate.originalBytes <= MAX_MUTATION_SOURCE_BYTES && candidate.replacementBytes <= MAX_MUTATION_SOURCE_BYTES
  }

  /** The candidate at `i` is within the size limits and no earlier one has its identity. */
  predicate Distinguished(candidates: seq<Candidate>, i: nat)
    requires i < |candidates|
  {
    Sized(candidates[i]) && forall j :: 0 <= j < i ==> candidates[j].id != candidates[i].id
  }

  /** The first `n` candidates pass, each path found safe. */
  ghost predicate Admitted(candidates: seq<Candidate>, resolves: nat -> bool, n: nat)
    requires n <= |candidates|
  {
    forall i :: 0 <= i < n ==> Distinguished(candidates, i) && resolves(i)
  }

  ghost predicate SelectionKnown(candidates: seq<Candidate>, options: Options) {
    forall id :: id in options.ignored || id in options.noCoverage ==> id in Ids(candidates)
  }

  /** The preflight refuses the candidates with the error. */
  ghost predicate Refuses(candidates: seq<Candidate>, resolves: nat -> bool, options: Options, error: RunError) {
    && error in {InvalidOptions, UnsafePath}
    && !(&& |candidates| <= MAX_EXECUTABLE_CANDIDATES && Admitted(candidates, resolves, |candidates|)
         && SelectionKnown(candidates, options))
  }

  /**
   Accepted exactly when the inventory and its candidates are within the limits, identities are unique, every path
   resolves and every configured selection refers to a candidate. The path is at fault exactly when all checks before
   its own succeed.
   */
  method Preflight(candidates: seq<Candidate>, resolves: nat -> bool, options: Options) returns (r: Result<(), RunError>)
    ensures r.Success? <==>
      && |candidates| <= MAX_EXECUTABLE_CANDIDATES && Admitted(candidates, resolves, |candidates|)
      && SelectionKnown(candidates, options)
    ensures r.Failure? ==> r.error in {InvalidOptions, UnsafePath}
    ensures r == Failure(UnsafePath) <==>
      && |candidates| <= MAX_EXECUTABLE_CANDIDATES
      && exists i :: 0 <= i < |candidates| && Admitted(candidates, resolves, i)
                     && Distinguished(candidates, i) && !resolves(i)
  {
    if |candidates| > MAX_EXECUTABLE_CANDIDATES {
      return Failure(InvalidOptions);
    }
    var ids := {};
    for i := 0 to |candidates|
      invariant ids == set k | 0 <= k < i :: candidates[k].id
      invariant Admitted(candidates, resolves, i)
    {
      if !Sized(candidates[i]) || candidates[i].id in ids {
        assert !Distinguished(candidates, i);
        return Failure(InvalidOptions);
      }
      if !resolves(i) {
        return Failure(UnsafePath);
      }
      ids := ids + {candidates[i].id};
    }
    assert forall id :: id in ids <==> id in Ids(candidates);
    if forall id | id in options.ignored + options.noCoverage :: id in ids {
      return Success(());
    }
    return Failure(InvalidOptions);
  }

  /** Every state a legal trace passes through has at most one mutant active: legality is closed under prefixes. */
  lemma {:induction false} PrefixLegal(trace: seq<Event>, n: nat)
    requires After(trace) != Illegal && n <= |trace|
    ensures After(trace[..n]) != Illegal
    decreases |trace|
  {
    if n == |trace| {
      assert trace[..n] == trace;
    } else {
      var front := trace[..|trace| - 1];
      PrefixLegal(front, n);
      assert front[..n] == trace[..n];
    }
  }

  /** The planned candidates are eligible, in input order, and as many as the limit allows. */
  lemma {:induction false} PlannedAreEligible(options: Options, candidates: seq<nat>)
    ensures forall id :: id in Planned(options, candidates) ==> id in candidates && Eligible(options, id)
    ensures forall id :: id in candidates && Eligible(options, id) && options.maxMutants.None? ==> id in Planned(options, candidates)
    ensures options.maxMutants.Some? ==> |Planned(options, candidates)| <= options.maxMutants.value
  {
    EligibleMembers(options, candidates);
  }

  lemma {:induction false} EligibleMembers(options: Options, candidates: seq<nat>)
    ensures forall id :: id in EligibleIds(options, candidates) <==> id in candidates && Eligible(options, id)
  {
    if candidates != [] {
      var n := |candidates| - 1;
      EligibleMembers(options, candidates[..n]);
      assert candidates == candidates[..n] + [candidates[n]];
    }
  }

  // ----- progress of the loop over the candidates -----

  /** After the first `n` candidates: their results are reported and justified, and the planned ones were attempted. */
  ghost predicate Reached(options: Options, candidates: seq<nat>, n: nat, results: seq<MutationResult>, trace: seq<Event>)
    requires n <= |candidates|
  {
    && Reported(options, candidates, n, results)
    && AllJustified(options, trace, results)
    && Attempts(trace) == Planned(options, candidates[..n])
  }

  lemma ReachedSkip(options: Options, candidates: seq<nat>, n: nat, results: seq<MutationResult>, trace: seq<Event>,
                    status: Status)
    requires n < |candidates| && Reached(options, candidates, n, results, trace)
    requires NonExecuted(options, candidates[n], |Attempts(trace)|) == Some(status)
    ensures Reached(options, candidates, n + 1, results + [MutationResult(candidates[n], status)], trace)
  {
    var r := MutationResult(candidates[n], status);
    PlannedStep(options, candidates, n);
    ReportedStep(options, candidates, n, results, r);
    AllJustifiedUnexecuted(options, trace, results, r);
  }

  lemma ReachedExecuted(options: Options, candidates: seq<nat>, n: nat, results: seq<MutationResult>, trace: seq<Event>,
                        events: seq<Event>, r: MutationResult)
    requires n < |candidates| && Reached(options, candidates, n, results, trace)
    requires NonExecuted(options, candidates[n], |Attempts(trace)|).None?
    requires r.id == candidates[n] && r.status !in {Ignored, NoCoverage}
    requires Justifies(options, r.id, events, r.status)
    requires Attempts(trace + events) == Attempts(trace) + [r.id]
    ensures Reached(options, candidates, n + 1, results + [r], trace + events)
  {
    PlannedStep(options, candidates, n);
    ReportedStep(options, candidates, n, results, r);
    AllJustifiedStep(options, trace, events, results, r);
  }

  /** Along the loop the attempts are a prefix of the plan, also after one more planned candidate. */
  lemma ReachedPrefix(options: Options, candidates: seq<nat>, n: nat, results: seq<MutationResult>, trace: seq<Event>)
    requires n <= |candidates| && Reached(options, candidates, n, results, trace)
    ensures Attempts(trace) <= Planned(options, candidates)
    ensures n < |candidates| && NonExecuted(options, candidates[n], |Attempts(trace)|).None? ==>
      Attempts(trace) + [candidates[n]] <= Planned(options, candidates)
    ensures n == |candidates| ==> Attempts(trace) == Planned(options, candidates)
  {
    PlannedPrefix(options, candidates, n);
    if n < |candidates| {
      PlannedStep(options, candidates, n);
      PlannedPrefix(options, candidates, n + 1);
    } else {
      assert candidates[..n] == candidates;
    }
  }
}
