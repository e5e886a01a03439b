/**
  The `describeJob` polling loop shared by the four job classes
  (glacier/GlacierDownload.java, glacier/GlDownload.java,
  glacier/GlacierInventory.java and GlacierInventory.java). They differ only
  in whether throttling and unavailability errors are retried and in how a
  "Failed" status is recognised; `PollPolicy` names those two choices.

  The service's answers are a finite sequence, one per call (the sleep before
  each call is not modelled). When it runs out while the job is still
  running, the outcome is `StillPolling`: the source would go on polling.
*/
module Polling {
  import opened GlacierApi

  /** How the loop recognises a failed job. */
  datatype FailedCheck =
    | FailedIgnoringCase   // "Failed".equalsIgnoreCase(statusCode)
    | FailedExactCase      // "Failed".equals(statusCode)
    | NoStatusCheck        // the status code is never looked at

  datatype PollPolicy = PollPolicy(retryTransient: bool, failedCheck: FailedCheck)

  /** How polling ended and after how many `describeJob` calls. */
  datatype PollOutcome =
    | Ready(calls: nat)                                // the loop returned normally
    | JobFailed(statusMessage: string, calls: nat)     // RuntimeException("Job failed! ...")
    | DescribeFailed(errorCode: string, calls: nat)    // the service's exception, rethrown
    | StillPolling(calls: nat)                         // the answers ran out first

  const FAILED_STATUS: string := "Failed"

  /** The error codes that the retrying loop skips. */
  predicate IsTransient(errorCode: string) {
    errorCode == "ServiceUnavailableException" || errorCode == "ThrottlingException"
  }

  function AsciiUpper(c: char): char {
    if 'a' <= c <= 'z' then (c as int - 32) as char else c
  }

  /** `String.equalsIgnoreCase` with ASCII case folding. */
  predicate EqualsIgnoreCase(a: string, b: string) {
    |a| == |b| && forall i :: 0 <= i < |a| ==> a[i] == b[i] || AsciiUpper(a[i]) == AsciiUpper(b[i])
  }

  predicate IsFailedStatus(check: FailedCheck, statusCode: string) {
    match check
    case FailedIgnoringCase => EqualsIgnoreCase(FAILED_STATUS, statusCode)
    case FailedExactCase => FAILED_STATUS == statusCode
    case NoStatusCheck => false
  }

  /** Polling goes on after this answer: a retried error, or a running job that has not failed. */
  predicate Continues(policy: PollPolicy, response: DescribeResponse) {
    match response
    case DescribeError(code) => policy.retryTransient && IsTransient(code)
    case Described(completed, statusCode, _) => !completed && !IsFailedStatus(policy.failedCheck, statusCode)
  }

  /** The outcome decided by an answer on which polling stops, as the `calls`-th call. */
  function StopOutcome(policy: PollPolicy, response: DescribeResponse, calls: nat): PollOutcome {
    match response
    case DescribeError(code) => DescribeFailed(code, calls)
    case Described(_, statusCode, statusMessage) =>
      if IsFailedStatus(policy.failedCheck, statusCode) then JobFailed(statusMessage, calls) else Ready(calls)
  }

  /** Polling from the `i`-th answer on. */
  function PollFrom(policy: PollPolicy, responses: seq<DescribeResponse>, i: nat): (o: PollOutcome)
    requires i <= |responses|
    ensures o.StillPolling? ==> o.calls == |responses|
    ensures !o.StillPolling? ==> i < o.calls <= |responses|
    decreases |responses| - i
  {
    if i == |responses| then StillPolling(|responses|)
    else if Continues(policy, responses[i]) then PollFrom(policy, responses, i + 1)
    else StopOutcome(policy, responses[i], i + 1)
  }

  /**
    The outcome is decided by the first answer on which polling stops: every
    earlier answer lets it continue, and there is no such answer exactly when
    the answers run out.
  */
  lemma {:induction false} FirstStopDecides(policy: PollPolicy, responses: seq<DescribeResponse>, i: nat)
    requires i <= |responses|
    ensures var o := PollFrom(policy, responses, i);
      && (o.StillPolling? <==> forall j :: i <= j < |responses| ==> Continues(policy, responses[j]))
      && (!o.StillPolling? ==>
            && !Continues(policy, responses[o.calls - 1])
            && (forall j :: i <= j < o.calls - 1 ==> Continues(policy, responses[j]))
            && o == StopOutcome(policy, responses[o.calls - 1], o.calls))
    decreases |responses| - i
  {
    if i < |responses| && Continues(policy, responses[i]) {
      FirstStopDecides(policy, responses, i + 1);
    }
  }

  /**
    Polling is ready after `n` calls exactly when the `n`-th answer reports a
    completed job that has not failed and every earlier answer let polling
    continue.
  */
  lemma ReadyIffFirstCompletion(policy: PollPolicy, responses: seq<DescribeResponse>, n: nat)
    ensures PollFrom(policy, responses, 0) == Ready(n) <==>
      && 1 <= n <= |responses|
      && responses[n - 1].Described?
      && responses[n - 1].completed
      && !IsFailedStatus(policy.failedCheck, responses[n - 1].statusCode)
      && (forall j :: 0 <= j < n - 1 ==> Continues(policy, responses[j]))
  {
    FirstStopDecides(policy, responses, 0);
    var o := PollFrom(policy, responses, 0);
    if 1 <= n <= |responses| && responses[n - 1].Described? && responses[n - 1].completed
       && !IsFailedStatus(policy.failedCheck, responses[n - 1].statusCode)
       && (forall j :: 0 <= j < n - 1 ==> Continues(policy, responses[j]))
    {
      assert !Continues(policy, responses[n - 1]);
      assert !o.StillPolling?;
      assert !Continues(policy, responses[o.calls - 1]);
      assert o.calls == n;
    }
  }

  /**
    With retries on, `n` throttling or unavailability errors followed by a
    completed, non-failed status are ready after exactly `n + 1` calls.
  */
  lemma TransientsThenCompleted(
    policy: PollPolicy, errorCodes: seq<string>, statusCode: string, statusMessage: string)
    requires policy.retryTransient
    requires forall k :: 0 <= k < |errorCodes| ==> IsTransient(errorCodes[k])
    requires !IsFailedStatus(policy.failedCheck, statusCode)
    ensures var responses :=
      seq(|errorCodes|, k requires 0 <= k < |errorCodes| => DescribeError(errorCodes[k]))
      + [Described(true, statusCode, statusMessage)];
      PollFrom(policy, responses, 0) == Ready(|errorCodes| + 1)
  {
    var responses :=
      seq(|errorCodes|, k requires 0 <= k < |errorCodes| => DescribeError(errorCodes[k]))
      + [Described(true, statusCode, statusMessage)];
    ReadyIffFirstCompletion(policy, responses, |errorCodes| + 1);
  }

  /**
    Retrying changes nothing unless a throttling or unavailability error
    occurs: on such answers the retrying loop of GlacierDownload and the
    plain loop of GlDownload end the same way.
  */
  lemma {:induction false} RetryMattersOnlyForTransientErrors(
    check: FailedCheck, responses: seq<DescribeResponse>, i: nat)
    requires i <= |responses|
    requires forall j :: i <= j < |responses| && responses[j].DescribeError? ==> !IsTransient(responses[j].errorCode)
    ensures PollFrom(PollPolicy(true, check), responses, i) == PollFrom(PollPolicy(false, check), responses, i)
    decreases |responses| - i
  {
    if i < |responses| {
      RetryMattersOnlyForTransientErrors(check, responses, i + 1);
    }
  }

  /** A loop that never looks at the status code never reports a failed job. */
  lemma {:induction false} NoStatusCheckNeverFails(retry: bool, responses: seq<DescribeResponse>, i: nat)
    requires i <= |responses|
    ensures !PollFrom(PollPolicy(retry, NoStatusCheck), responses, i).JobFailed?
    decreases |responses| - i
  {
    if i < |responses| {
      NoStatusCheckNeverFails(retry, responses, i + 1);
    }
  }

  /**
    "Failed" is recognised in any letter case by `equalsIgnoreCase` but only
    exactly by `equals`: a status "failed" stops one loop and not the other,
    and every status the exact check rejects, the case-blind check rejects too.
  */
  lemma FailedCheckCaseSensitivity(statusCode: string)
    ensures IsFailedStatus(FailedIgnoringCase, "failed") && !IsFailedStatus(FailedExactCase, "failed")
    ensures IsFailedStatus(FailedIgnoringCase, "FAILED")
    ensures IsFailedStatus(FailedExactCase, statusCode) ==> IsFailedStatus(FailedIgnoringCase, statusCode)
  {
    assert AsciiUpper('f') == 'F' && AsciiUpper('a') == 'A' && AsciiUpper('i') == 'I';
    assert AsciiUpper('l') == 'L' && AsciiUpper('e') == 'E' && AsciiUpper('d') == 'D';
    assert "failed"[0] == 'f';
  }

  /**
    The do-while loop of `waitForJobCompletion` / `pollStatus`: sleep, call
    `describeJob`, skip a retried error, record `completed`, throw on a failed
    status, and repeat until completed.
  */
  method Poll(policy: PollPolicy, responses: seq<DescribeResponse>) returns (outcome: PollOutcome)
    ensures outcome == PollFrom(policy, responses, 0)
  {
    var i := 0;
    var done := false;
    while !done
      invariant 0 <= i <= |responses|
      invariant !done ==> PollFrom(policy, responses, i) == PollFrom(policy, responses, 0)
      invariant done ==> 0 < i && PollFrom(policy, responses, 0) == Ready(i)
      decreases |responses| - i
    {
      if i == |responses| {
        return StillPolling(i);
      }
      var result := responses[i];
      i := i + 1;
      match result {
        case DescribeError(errorCode) =>
          if policy.retryTransient && IsTransient(errorCode) {
            continue;
          }
          return DescribeFailed(errorCode, i);
        case Described(completed, statusCode, statusMessage) =>
          done := completed;
          if IsFailedStatus(policy.failedCheck, statusCode) {
            return JobFailed(statusMessage, i);
          }
      }
    }
    outcome := Ready(i);
  }
}
