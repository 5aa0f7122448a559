/**
 Execution of mutation candidates, one mutant at a time (crates/analysis-mutate/src/executor.rs).
 Everything outside the executor is an environment that answers each request by its position in the run:
 cancellation, applying an edit, running a command, restoring the source. Results hold for every environment.
 */
module MutationRun {
  import opened Wrappers
  import opened MutationPlan

  function RequireSuccess(r: CommandResult): (s: Result<(), RunError>)
    ensures s.Success? <==> r == PASSED
    ensures s.Failure? ==> s.error == match r
                                      case CommandCancelled => Cancelled
                                      case ProcessTreeFailed => ProcessTree
                                      case _ => BaselineFailed
  {
    match r
    case Ran(code, timedOut) => if !timedOut && code == Some(0) then Success(()) else Failure(BaselineFailed)
    case CommandCancelled => Failure(Cancelled)
    case ProcessTreeFailed => Failure(ProcessTree)
    case CommandFailed => Failure(BaselineFailed)
  }

  function Application(id: nat, applied: ApplyResult): Event {
    match applied
    case Applied(_) => Mutate(id)
    case InvalidEdit => Attempted(id)
    case FatalApply(_) => ApplyFailed(id)
  }

  /** The commands of a baseline that passed. */
  ghost function PassedBaseline(options: Options): seq<Event> {
    (if options.hasValidation then [Command(Validation, None, PASSED)] else []) + [Command(Test, None, PASSED)]
  }

  class Executor {
    const options: Options
    const environment: Environment
    ghost const original: string
    var source: string
    var clock: nat
    ghost var trace: seq<Event>

    /** Whenever no mutant is active the source is the original. */
    ghost predicate Valid()
      reads this
    {
      && After(trace) != Illegal
      && (After(trace) == Idle ==> source == original)
    }

    constructor (options: Options, environment: Environment, source: string)
      ensures Valid() && trace == [] && this.options == options && this.environment == environment
      ensures original == source && this.source == source
    {
      this.options := options;
      this.environment := environment;
      this.source := source;
      original := source;
      clock := 0;
      trace := [];
    }

    /** Some answer of the environment so far is a reason for the error. */
    ghost predicate Caused(error: RunError)
      reads this
    {
      match error
      case Cancelled =>
        exists t: nat :: t <= clock && (environment.cancelled(t) || environment.command(t) == CommandCancelled)
      case ProcessTree => exists t: nat :: t <= clock && environment.command(t) == ProcessTreeFailed
      case BaselineFailed => exists t: nat :: t <= clock && environment.command(t) != PASSED
      case InvalidOptions => !options.hasTest
      case UnsafePath => false
      case _ => BrokenBy(error)
    }

    method CheckCancelled() returns (r: Result<(), RunError>)
      modifies this`clock
      ensures clock == old(clock) + 1
      ensures r.Failure? ==> r.error == Cancelled && environment.cancelled(clock)
    {
      clock := clock + 1;
      if environment.cancelled(clock) {
        return Failure(Cancelled);
      }
      return Success(());
    }

    method RunCommand(phase: Phase, mutant: Option<nat>) returns (result: CommandResult)
      requires Valid() && After(trace) == (if mutant.Some? then Mutated(mutant.value) else Idle)
      modifies this`clock, this`trace
      ensures Valid() && trace == old(trace) + [Command(phase, mutant, result)]
      ensures After(trace) == old(After(trace))
      ensures clock == old(clock) + 1 && result == environment.command(clock)
    {
      clock := clock + 1;
      result := environment.command(clock);
      TraceStep(trace, Command(phase, mutant, result));
      trace := trace + [Command(phase, mutant, result)];
    }

    method RunTest(id: nat) returns (r: Result<Status, RunError>, ghost commands: seq<Event>)
      requires Valid() && After(trace) == Mutated(id)
      modifies this`clock, this`trace
      ensures Valid() && After(trace) == Mutated(id)
      ensures Attempts(trace) == old(Attempts(trace)) && Baseline(trace) == old(Baseline(trace))
      ensures trace == old(trace) + commands
      ensures r.Success? ==>
        if options.hasTest then |commands| == 1 && Runs(commands[0], Test, id) && JudgeTest(commands[0].result) == r
        else commands == [] && r.value == RuntimeError
      ensures old(clock) <= clock && (r.Failure? ==> r.error in {Cancelled, ProcessTree} && Caused(r.error))
    {
      commands := [];
      var check := CheckCancelled();
      if check.Failure? {
        return Failure(check.error), [];
      }
      if !options.hasTest {
        return Success(RuntimeError), [];
      }
      ghost var before := trace;
      var result := RunCommand(Test, Some(id));
      TraceStep(before, Command(Test, Some(id), result));
      return JudgeTest(result), [Command(Test, Some(id), result)];
    }

    /** Validation, when configured, and then the test: the status is the verdict of the commands run. */
    method ExecuteApplied(id: nat) returns (r: Result<Status, RunError>, ghost commands: seq<Event>)
      requires Valid() && After(trace) == Mutated(id)
      modifies this`clock, this`trace
      ensures Valid() && After(trace) == Mutated(id)
      ensures Attempts(trace) == old(Attempts(trace)) && Baseline(trace) == old(Baseline(trace))
      ensures trace == old(trace) + commands
      ensures r.Success? ==> AppliedStatus(options, id, commands) == Some(r.value) && Decides(options, id, commands, r.value)
      ensures old(clock) <= clock && (r.Failure? ==> r.error in {Cancelled, ProcessTree} && Caused(r.error))
    {
      commands := [];
      if options.hasValidation {
        ghost var before := trace;
        var result := RunCommand(Validation, Some(id));
        TraceStep(before, Command(Validation, Some(id), result));
        commands := [Command(Validation, Some(id), result)];
        var verdict := JudgeValidation(result);
        if verdict.Some? {
          if verdict.value.Success? {
            JudgedMeans(options, id, commands, verdict.value.value);
          }
          return verdict.value, commands;
        }
      }
      ghost var tests;
      r, tests := RunTest(id);
      commands := commands + tests;
      if r.Success? {
        JudgedMeans(options, id, commands, r.value);
      }
    }

    /** The guard: the edit takes effect, is refused and changes nothing, or fails halfway and ends the run. */
    method BeginMutation(id: nat, applied: ApplyResult)
      requires Valid() && After(trace) == Idle
      modifies this`trace, this`source
      ensures Valid()
      ensures trace == old(trace) + [Application(id, applied)]
      ensures After(trace) == Next(Idle, Application(id, applied))
      ensures source == match applied
                        case Applied(mutated) => mutated
                        case InvalidEdit => old(source)
                        case FatalApply(left) => left
      ensures Attempts(trace) == old(Attempts(trace)) + [id]
      ensures Baseline(trace) == old(Baseline(trace))
    {
      ghost var event := Application(id, applied);
      TraceStep(trace, event);
      trace := trace + [event];
      if applied.Applied? {
        source := applied.mutated;
      } else if applied.FatalApply? {
        source := applied.left;
      }
    }

    /** The last request left the source broken: it failed to restore it, or to apply an edit completely. */
    ghost predicate BrokenBy(error: RunError)
      reads this
    {
      && After(trace) == Broken
      && (|| (error == RestoreFailure && !environment.restored(clock) && source == environment.damage(clock))
          || (error == ApplyFatal && environment.apply(clock) == FatalApply(source)))
    }

    /** The guard: put the original back, or report that the source may be damaged. */
    method RestoreSource(id: nat, saved: string) returns (r: Result<(), RunError>)
      requires Valid() && After(trace) == Mutated(id) && saved == original
      modifies this`clock, this`trace, this`source
      ensures Valid()
      ensures r == if environment.restored(clock) then Success(()) else Failure(RestoreFailure)
      ensures trace == old(trace) + [if r.Success? then Restore(id) else RestoreFailed(id)]
      ensures After(trace) == if r.Success? then Idle else Broken
      ensures clock == old(clock) + 1 && (r.Failure? ==> BrokenBy(r.error))
      ensures Attempts(trace) == old(Attempts(trace)) && Baseline(trace) == old(Baseline(trace))
    {
      clock := clock + 1;
      ghost var executed := trace;
      if !environment.restored(clock) {
        TraceStep(executed, RestoreFailed(id));
        trace := trace + [RestoreFailed(id)];
        source := environment.damage(clock);
        return Failure(RestoreFailure);
      }
      TraceStep(executed, Restore(id));
      trace := trace + [Restore(id)];
      source := saved;
      return Success(());
    }

    /** One candidate: apply, judge, restore. The source is original afterwards unless the last request broke it. */
    method ExecuteCandidate(id: nat) returns (r: Result<MutationResult, RunError>, ghost events: seq<Event>)
      requires Valid() && After(trace) == Idle
      modifies this`clock, this`trace, this`source
      ensures Valid() && trace == old(trace) + events
      ensures After(trace) == Idle || (r.Failure? && BrokenBy(r.error))
      ensures old(clock) <= clock && (r.Failure? ==> Caused(r.error))
      ensures r.Success? ==> r.value.id == id && r.value.status !in {Ignored, NoCoverage}
      ensures r.Success? ==> Justifies(options, id, events, r.value.status)
      ensures r.Success? ==> Attempts(trace) == old(Attempts(trace)) + [id]
      ensures r.Failure? ==> Attempts(trace) == old(Attempts(trace)) || Attempts(trace) == old(Attempts(trace)) + [id]
      ensures Baseline(trace) == old(Baseline(trace))
    {
      events := [];
      var check := CheckCancelled();
      if check.Failure? {
        return Failure(check.error), [];
      }
      clock := clock + 1;
      var applied := environment.apply(clock);
      var saved := source;
      BeginMutation(id, applied);
      if !applied.Applied? {
        events := [Application(id, applied)];
        r := if applied.InvalidEdit? then Success(MutationResult(id, Invalid)) else Failure(ApplyFatal);
        return;
      }
      r, events := JudgeAndRestore(id, saved);
      events := [Mutate(id)] + events;
    }

    /** The rest of a candidate once its edit is in place: judge the mutant, then restore whatever the judgement was. */
    method JudgeAndRestore(id: nat, saved: string) returns (r: Result<MutationResult, RunError>, ghost events: seq<Event>)
      requires Valid() && After(trace) == Mutated(id) && saved == original
      modifies this`clock, this`trace, this`source
      ensures Valid() && trace == old(trace) + events
      ensures After(trace) == Idle || (r.Failure? && BrokenBy(r.error))
      ensures old(clock) <= clock && (r.Failure? ==> Caused(r.error))
      ensures r.Success? ==> r.value.id == id && r.value.status !in {Ignored, NoCoverage}
      ensures r.Success? ==> Justifies(options, id, [Mutate(id)] + events, r.value.status)
      ensures Attempts(trace) == old(Attempts(trace)) && Baseline(trace) == old(Baseline(trace))
    {
      var result, commands := ExecuteApplied(id);
      var restored := RestoreSource(id, saved);
      events := commands + [if restored.Success? then Restore(id) else RestoreFailed(id)];
      if restored.Failure? {
        return Failure(restored.error), events;
      }
      if result.Failure? {
        return Failure(result.error), events;
      }
      ExecutedJustifies(options, id, commands, result.value);
      assert [Mutate(id)] + events == [Mutate(id)] + commands + [Restore(id)];
      return Success(MutationResult(id, result.value)), events;
    }

    method ExecuteCandidates(candidates: seq<nat>) returns (r: Result<seq<MutationResult>, RunError>)
      requires Valid() && After(trace) == Idle && Attempts(trace) == []
      modifies this`clock, this`trace, this`source
      ensures Valid()
      ensures After(trace) == Idle || (r.Failure? && BrokenBy(r.error))
      ensures old(clock) <= clock && (r.Failure? ==> Caused(r.error))
      ensures r.Success? ==>
        && Reported(options, candidates, |candidates|, r.value)
        && AllJustified(options, trace, r.value)
        && Attempts(trace) == Planned(options, candidates)
      ensures Attempts(trace) <= Planned(options, candidates)
      ensures Baseline(trace) == old(Baseline(trace))
    {
      var results := [];
      var selected := 0;
      for i := 0 to |candidates|
        invariant Valid() && After(trace) == Idle && old(clock) <= clock
        invariant Reached(options, candidates, i, results, trace) && selected == |Attempts(trace)|
        invariant Baseline(trace) == old(Baseline(trace))
      {
        ReachedPrefix(options, candidates, i, results, trace);
        var excluded := NonExecuted(options, candidates[i], selected);
        if excluded.Some? {
          ReachedSkip(options, candidates, i, results, trace, excluded.value);
          results := results + [MutationResult(candidates[i], excluded.value)];
          continue;
        }
        selected := selected + 1;
        var _ :- CheckCancelled();
        ghost var before := trace;
        var result, events := ExecuteCandidate(candidates[i]);
        var executed :- result;
        ReachedExecuted(options, candidates, i, results, before, events, executed);
        results := results + [executed];
      }
      ReachedPrefix(options, candidates, |candidates|, results, trace);
      return Success(results);
    }

    method RunBaselineCommand(phase: Phase) returns (r: Result<(), RunError>)
      requires Valid() && After(trace) == Idle
      modifies this`clock, this`trace
      ensures Valid() && After(trace) == Idle && Attempts(trace) == old(Attempts(trace))
      ensures old(clock) <= clock && (r.Failure? ==> Caused(r.error))
      ensures r.Success? ==> Baseline(trace) == old(Baseline(trace)) + [Command(phase, None, PASSED)]
    {
      ghost var before := trace;
      var result := RunCommand(phase, None);
      TraceStep(before, Command(phase, None, result));
      return RequireSuccess(result);
    }

    method RunBaseline() returns (r: Result<(), RunError>)
      requires Valid() && After(trace) == Idle
      modifies this`clock, this`trace
      ensures Valid() && After(trace) == Idle && Attempts(trace) == old(Attempts(trace))
      ensures old(clock) <= clock && (r.Failure? ==> Caused(r.error))
      ensures r.Success? ==> Baseline(trace) == old(Baseline(trace)) + PassedBaseline(options)
    {
      var _ :- CheckCancelled();
      if options.hasValidation {
        var _ :- RunBaselineCommand(Validation);
      }
      var _ :- CheckCancelled();
      if !options.hasTest {
        return Failure(InvalidOptions);
      }
      r := RunBaselineCommand(Test);
    }

    /**
     A whole run. A completed run reports every candidate in order, has attempted exactly the planned candidates
     and has run the baseline exactly when it is enabled and something is planned. On every exit, in every
     environment, the trace is legal and the source is original unless the last request was a failed application
     or restore, and then it is what that request left.
     */
    method RunInSession(candidates: seq<Candidate>, resolves: nat -> bool) returns (r: Result<seq<MutationResult>, RunError>)
      requires Valid() && trace == []
      modifies this
      ensures After(trace) != Illegal
      ensures source == original || (r.Failure? && BrokenBy(r.error))
      ensures Attempts(trace) <= Planned(options, Ids(candidates))
      ensures r.Success? ==>
        && Admitted(candidates, resolves, |candidates|) && SelectionKnown(candidates, options)
        && Reported(options, Ids(candidates), |candidates|, r.value)
        && (forall x :: x in r.value ==> Witnessed(options, trace, x))
        && Attempts(trace) == Planned(options, Ids(candidates))
        && Baseline(trace) ==
             (if options.runBaseline && Planned(options, Ids(candidates)) != [] then PassedBaseline(options) else [])
      ensures r.Failure? ==> Caused(r.error) || Refuses(candidates, resolves, options, r.error)
    {
      var _ :- CheckCancelled();
      var _ :- Preflight(candidates, resolves, options);
      var ids := Ids(candidates);
      var count := ExecutableCount(options, ids);
      if options.runBaseline && count > 0 {
        var _ :- RunBaseline();
      }
      r := ExecuteCandidates(ids);
      if r.Success? {
        forall x | x in r.value
          ensures Witnessed(options, trace, x)
        {
          JustifiedIsWitnessed(options, trace, x);
        }
      }
    }
  }
}
