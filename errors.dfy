/** Error codes and failure-compatible result types shared by the whole engine.
    The service signals every failure by throwing SwimmingPoolManagementException
    with one of three codes; here a failure is an ordinary value. */
module Errors {

  /** The error codes the engine raises. */
  datatype ErrorCode = NotFound | BadRequest | InternalServerError

  /** A value that may be absent (`Optional`, or a nullable reference field). */
  datatype Option<+T> = None | Some(value: T)

  /** Either a value or the code of the exception the service would throw. */
  datatype Result<+T> = Ok(value: T) | Err(error: ErrorCode) {
    predicate IsFailure() { Err? }
    function PropagateFailure<U>(): Result<U>
      requires Err?
    {
      Err(error)
    }
    function Extract(): T
      requires Ok?
    {
      value
    }
  }

  /** The outcome of a check that either passes silently or throws. */
  datatype Outcome = Pass | Fail(error: ErrorCode) {
    predicate IsFailure() { Fail? }
    function PropagateFailure(): Outcome
      requires Fail?
    {
      this
    }
  }

  /** Checks run in order from the k-th: the first one that fails decides. */
  function FirstFailure(checks: seq<Outcome>, k: nat): Outcome
    decreases |checks| - k
  {
    if k >= |checks| then Pass
    else
      :- checks[k];
      FirstFailure(checks, k + 1)
  }

  /** The checks from the k-th pass together exactly when each of them passes. */
  lemma {:induction false} FirstFailurePass(checks: seq<Outcome>, k: nat)
    ensures FirstFailure(checks, k).Pass? <==> forall j :: k <= j < |checks| ==> checks[j].Pass?
    decreases |checks| - k
  {
    if k < |checks| {
      FirstFailurePass(checks, k + 1);
    }
  }

  /** A failure of the checks from the k-th is the failure of the first check
      from the k-th that does not pass. */
  lemma {:induction false} FirstFailureIsFirst(checks: seq<Outcome>, k: nat)
    ensures var r := FirstFailure(checks, k);
            r.Fail? ==> exists j :: k <= j < |checks| && checks[j] == r &&
                                    forall i :: k <= i < j ==> checks[i].Pass?
    decreases |checks| - k
  {
    var r := FirstFailure(checks, k);
    if k < |checks| && checks[k].Pass? && r.Fail? {
      FirstFailureIsFirst(checks, k + 1);
      var j :| k + 1 <= j < |checks| && checks[j] == r && forall i :: k + 1 <= i < j ==> checks[i].Pass?;
      assert forall i :: k <= i < j ==> checks[i].Pass?;
    }
  }
}
