/** A validation pipeline: a sequence of checks run in order, where the
    first failing check decides the outcome and nothing after it matters.
    Both handlers' validation sequences are instances of it. */
module Pipeline {

  /** One guarded check: whether it passed, and what to report if not. */
  datatype Check<R> = Check(passed: bool, reason: R)

  datatype Verdict<R> = Pass | Fail(reason: R)

  /** Check k is the first one that fails. */
  predicate FailsFirstAt<R>(checks: seq<Check<R>>, k: int) {
    && 0 <= k < |checks|
    && !checks[k].passed
    && forall i | 0 <= i < k :: checks[i].passed
  }

  /** Runs the checks in order and stops at the first failure. */
  function FirstFailure<R>(checks: seq<Check<R>>): (v: Verdict<R>)
    ensures v.Pass? <==> forall i | 0 <= i < |checks| :: checks[i].passed
    ensures v.Fail? ==> exists k :: FailsFirstAt(checks, k) && v.reason == checks[k].reason
  {
    if checks == [] then Pass
    else if !checks[0].passed then
      assert FailsFirstAt(checks, 0);
      Fail(checks[0].reason)
    else
      var v := FirstFailure(checks[1..]);
      assert forall i | 1 <= i < |checks| :: checks[i] == checks[1..][i - 1];
      assert v.Fail? ==> exists k :: FailsFirstAt(checks, k) && v.reason == checks[k].reason by {
        if v.Fail? {
          var k :| FailsFirstAt(checks[1..], k) && v.reason == checks[1..][k].reason;
          assert FailsFirstAt(checks, k + 1);
        }
      }
      v
  }

  /** The reason reported is that of the first failing check. */
  lemma FirstFailureAt<R>(checks: seq<Check<R>>, k: int)
    requires FailsFirstAt(checks, k)
    ensures FirstFailure(checks) == Fail(checks[k].reason)
  {
  }

  /** Once check k has failed first, the checks after it are not looked at:
      any pipeline that agrees up to and including check k gives the same
      verdict, whatever its later checks are. */
  lemma FirstFailureIgnoresRest<R>(a: seq<Check<R>>, b: seq<Check<R>>, k: int)
    requires FailsFirstAt(a, k) && k < |b| && a[..k + 1] == b[..k + 1]
    ensures FirstFailure(a) == FirstFailure(b)
  {
  }
}
