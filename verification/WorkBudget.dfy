/** The fail-closed work budgets of the duplicate detector (crates/analysis-dry/src/lib.rs). */
module WorkBudget {
  import opened Wrappers

  const MIN_TOKENS: nat := 4

  datatype Kind = TotalWindows | FingerprintBuckets | CandidateWork

  datatype DryError =
    | MinTokens(provided: nat)
    | MaxGroups
    | MaxOccurrencesPerWindow(provided: nat)
    | InvalidWorkBudget(kind: Kind, provided: nat, hardLimit: nat)
    | WorkBudgetExceeded(kind: Kind, limit: nat, required: nat)

  datatype Budget = Budget(maxTotalWindows: nat, maxFingerprintBuckets: nat, maxCandidateWork: nat)

  function EnsureWithinBudget(kind: Kind, limit: nat, required: nat): (r: Result<(), DryError>)
    ensures r.Success? <==> required <= limit
  {
    if required > limit then Failure(WorkBudgetExceeded(kind, limit, required)) else Success(())
  }

  /** Work charged so far; a charge that would pass the limit fails and is not recorded. */
  class Work {
    var used: nat
    const limit: nat

    constructor (limit: nat)
      ensures used == 0 && this.limit == limit
    {
      used := 0;
      this.limit := limit;
    }

    method Consume(amount: nat) returns (r: Result<(), DryError>)
      modifies this
      ensures r.Success? <==> old(used) + amount <= limit
      ensures used == if r.Success? then old(used) + amount else old(used)
      ensures r.Failure? ==> r.error == WorkBudgetExceeded(CandidateWork, limit, old(used) + amount)
    {
      var required := used + amount;
      var _ :- EnsureWithinBudget(CandidateWork, limit, required);
      used := required;
      return Success(());
    }
  }
}
