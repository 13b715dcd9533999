/** One registration attempt (`register`) and the retry policy around it
    (`registerWithBackoff`), as functions of the outcomes the network supplies
    and of the random draws the backoff takes. */
module Registration {
  import opened Wrappers
  import opened Durations
  import opened Rules

  /** `MAX_REGISTRATION_ATTEMPTS` */
  const MaxRegistrationAttempts: nat := 5

  /** A registration response as it arrives: either field may be absent. */
  datatype ResponseBody = ResponseBody(
    heartBeatIntervalMinutes: Option<int>,
    verificationRules: Option<VerificationRules>)

  /** What decoding the response body gives. */
  datatype Decoding = DecodeFailed | Decoded(body: ResponseBody)

  /** How one registration attempt went, step by step: marshalling the request,
      building the HTTP request, sending it, and (when a response came back)
      its status code and what decoding its body would give. */
  datatype AttemptOutcome =
    | MarshalFailed
    | BuildFailed
    | SendFailed
    | Responded(status: int, decoding: Decoding)

  datatype RegisterError =
    | MarshalError
    | RequestError
    | SendError
    | StatusError(status: int)
    | DecodeError

  /** "max registration attempts reached", wrapping the last attempt's error. */
  datatype BackoffError = MaxAttemptsReached(last: RegisterError)

  /** The rules value the decoder leaves in the response struct: the field's
      content when present, Go's zero value otherwise. */
  function DecodedRules(body: ResponseBody): VerificationRules {
    match body.verificationRules
    case Some(rules) => rules
    case None => ZeroRules
  }

  /** The result of one attempt: the rules handed to the rules manager, or the
      error `register` returns. */
  function Attempt(o: AttemptOutcome): (r: Result<VerificationRules, RegisterError>)
    ensures r.Ok? <==> o.Responded? && o.status == 200 && o.decoding.Decoded?
    ensures r.Ok? ==> r.value == DecodedRules(o.decoding.body)
    ensures r.Ok? && o.decoding.body.verificationRules.None? ==> r.value == ZeroRules
    ensures o.MarshalFailed? ==> r == Err(MarshalError)
    ensures o.BuildFailed? ==> r == Err(RequestError)
    ensures o.SendFailed? ==> r == Err(SendError)
    ensures o.Responded? && o.status != 200 ==> r == Err(StatusError(o.status))
    ensures o.Responded? && o.status == 200 && o.decoding.DecodeFailed? ==> r == Err(DecodeError)
  {
    match o
    case MarshalFailed => Err(MarshalError)
    case BuildFailed => Err(RequestError)
    case SendFailed => Err(SendError)
    case Responded(status, decoding) =>
      if status != 200 then Err(StatusError(status))
      else match decoding
        case DecodeFailed => Err(DecodeError)
        case Decoded(body) => Ok(DecodedRules(body))
  }

  /** `1 << k` */
  function Pow2(k: nat): (p: nat)
    ensures p >= 1
  {
    if k == 0 then 1 else 2 * Pow2(k - 1)
  }

  /** `rand.Intn(n)`: the generator's raw output `raw` reduced into [0, n).
      The raw value is unconstrained, so every value in [0, n) can come out
      (`IntnCovers`). */
  function Intn(raw: nat, n: nat): (r: nat)
    requires n > 0
    ensures r < n
  {
    raw % n
  }

  lemma IntnCovers(n: nat, v: nat)
    requires v < n
    ensures Intn(v, n) == v
  {
  }

  /** The backoff slept after the `attempt`-th failure:
      `rand.Intn(1 << attempt)` whole seconds, drawn from `raw`. */
  function RetryBackoff(raw: nat, attempt: nat): (d: int)
    ensures d % Second == 0 && 0 <= d < Pow2(attempt) * Second
  {
    Intn(raw, Pow2(attempt)) * Second
  }

  /** One raw draw for each failure that can be followed by a retry; `draws[i]`
      is used after the (i+1)-th failure. */
  predicate EnoughDraws(draws: seq<nat>) {
    |draws| >= MaxRegistrationAttempts - 1
  }

  /** What one run of the retry loop does: how many times it called `register`,
      the backoffs it slept in order, and its result (the rules of the
      successful attempt, or the exhaustion error). */
  datatype BackoffRun = BackoffRun(
    calls: nat,
    sleeps: seq<int>,
    result: Result<VerificationRules, BackoffError>)

  /** The rest of the retry loop once `failed` attempts have failed;
      `outcomes[i]` is how the (i+1)-th call of `register` goes. */
  function BackoffFrom(outcomes: seq<AttemptOutcome>, draws: seq<nat>, failed: nat): (run: BackoffRun)
    requires failed < MaxRegistrationAttempts <= |outcomes|
    requires EnoughDraws(draws)
    ensures failed < run.calls <= MaxRegistrationAttempts
    ensures |run.sleeps| == run.calls - 1 - failed
    decreases MaxRegistrationAttempts - failed
  {
    match Attempt(outcomes[failed])
    case Ok(rules) => BackoffRun(failed + 1, [], Ok(rules))
    case Err(e) =>
      if failed + 1 >= MaxRegistrationAttempts then
        BackoffRun(failed + 1, [], Err(MaxAttemptsReached(e)))
      else
        var rest := BackoffFrom(outcomes, draws, failed + 1);
        BackoffRun(rest.calls, [RetryBackoff(draws[failed], failed + 1)] + rest.sleeps, rest.result)
  }

  /** The whole retry loop, from attempt counter zero. */
  function Backoff(outcomes: seq<AttemptOutcome>, draws: seq<nat>): (run: BackoffRun)
    requires MaxRegistrationAttempts <= |outcomes|
    requires EnoughDraws(draws)
    ensures 1 <= run.calls <= MaxRegistrationAttempts
    ensures |run.sleeps| == run.calls - 1
    ensures run.result.Ok? <==> exists i :: 0 <= i < MaxRegistrationAttempts && Attempt(outcomes[i]).Ok?
    ensures run.result.Ok? ==> Attempt(outcomes[run.calls - 1]) == Ok(run.result.value)
  {
    BackoffStopsAtFirstSuccess(outcomes, draws, 0);
    BackoffFrom(outcomes, draws, 0)
  }

  /** A turn of the loop whose call succeeds ends it with that call's rules. */
  lemma BackoffStepSucceeds(outcomes: seq<AttemptOutcome>, draws: seq<nat>, failed: nat)
    requires failed < MaxRegistrationAttempts <= |outcomes|
    requires EnoughDraws(draws)
    requires Attempt(outcomes[failed]).Ok?
    ensures BackoffFrom(outcomes, draws, failed) ==
      BackoffRun(failed + 1, [], Ok(Attempt(outcomes[failed]).value))
  {
  }

  /** A failed call on the last allowed attempt ends the loop with the
      exhaustion error. */
  lemma BackoffStepExhausts(outcomes: seq<AttemptOutcome>, draws: seq<nat>, failed: nat)
    requires failed + 1 == MaxRegistrationAttempts <= |outcomes|
    requires EnoughDraws(draws)
    requires Attempt(outcomes[failed]).Err?
    ensures BackoffFrom(outcomes, draws, failed) ==
      BackoffRun(failed + 1, [], Err(MaxAttemptsReached(Attempt(outcomes[failed]).error)))
  {
  }

  /** An earlier failed call sleeps its backoff and goes on with the next turn. */
  lemma BackoffStepRetries(outcomes: seq<AttemptOutcome>, draws: seq<nat>, failed: nat)
    requires failed + 1 < MaxRegistrationAttempts <= |outcomes|
    requires EnoughDraws(draws)
    requires Attempt(outcomes[failed]).Err?
    ensures var rest := BackoffFrom(outcomes, draws, failed + 1);
      BackoffFrom(outcomes, draws, failed) ==
        BackoffRun(rest.calls, [RetryBackoff(draws[failed], failed + 1)] + rest.sleeps, rest.result)
  {
  }

  /** The backoffs slept after the first `n` failures, in order. */
  function Backoffs(draws: seq<nat>, n: nat): (sleeps: seq<int>)
    requires n <= |draws|
    ensures |sleeps| == n
  {
    if n == 0 then [] else Backoffs(draws, n - 1) + [RetryBackoff(draws[n - 1], n)]
  }

  lemma AppendAssociative<T>(a: seq<T>, b: seq<T>, c: seq<T>)
    ensures a + (b + c) == (a + b) + c
  {
  }

  /** After `n` failed calls, the whole loop makes the calls and gives the
      result of the rest of the loop from counter `n`. */
  lemma {:induction false} BackoffAfterFailures(outcomes: seq<AttemptOutcome>, draws: seq<nat>, n: nat)
    requires n < MaxRegistrationAttempts <= |outcomes|
    requires EnoughDraws(draws)
    requires forall i :: 0 <= i < n ==> Attempt(outcomes[i]).Err?
    ensures var run := BackoffFrom(outcomes, draws, 0);
      var here := BackoffFrom(outcomes, draws, n);
      run.calls == here.calls && run.result == here.result
  {
    if n > 0 {
      BackoffAfterFailures(outcomes, draws, n - 1);
      BackoffStepRetries(outcomes, draws, n - 1);
    }
  }

  /** After `n` failed calls, the whole loop sleeps the `n` backoffs already
      taken and then the sleeps of the rest of the loop from counter `n`. */
  lemma {:induction false} BackoffSleepsAfterFailures(outcomes: seq<AttemptOutcome>, draws: seq<nat>, n: nat)
    requires n < MaxRegistrationAttempts <= |outcomes|
    requires EnoughDraws(draws)
    requires forall i :: 0 <= i < n ==> Attempt(outcomes[i]).Err?
    ensures BackoffFrom(outcomes, draws, 0).sleeps ==
      Backoffs(draws, n) + BackoffFrom(outcomes, draws, n).sleeps
  {
    if n > 0 {
      var prev := BackoffFrom(outcomes, draws, n - 1).sleeps;
      var here := BackoffFrom(outcomes, draws, n).sleeps;
      var backoff := RetryBackoff(draws[n - 1], n);
      BackoffSleepsAfterFailures(outcomes, draws, n - 1);
      BackoffStepRetries(outcomes, draws, n - 1);
      assert prev == [backoff] + here;
      AppendAssociative(Backoffs(draws, n - 1), [backoff], here);
    }
  }

  /** `register` is called at least once more and never beyond the attempt
      limit; exhaustion happens only on the last allowed attempt. */
  lemma {:induction false} BackoffCallsBounded(outcomes: seq<AttemptOutcome>, draws: seq<nat>, failed: nat)
    requires failed < MaxRegistrationAttempts <= |outcomes|
    requires EnoughDraws(draws)
    ensures var run := BackoffFrom(outcomes, draws, failed);
      failed < run.calls <= MaxRegistrationAttempts &&
      (run.result.Err? ==> run.calls == MaxRegistrationAttempts)
    decreases MaxRegistrationAttempts - failed
  {
    if Attempt(outcomes[failed]).Err? && failed + 1 < MaxRegistrationAttempts {
      BackoffCallsBounded(outcomes, draws, failed + 1);
    }
  }

  /** The loop stops at the first successful attempt: every earlier call failed,
      the result is that attempt's rules, and it succeeds iff some remaining
      attempt within the limit succeeds. On exhaustion the error wraps the
      last attempt's error. */
  lemma {:induction false} BackoffStopsAtFirstSuccess(outcomes: seq<AttemptOutcome>, draws: seq<nat>, failed: nat)
    requires failed < MaxRegistrationAttempts <= |outcomes|
    requires EnoughDraws(draws)
    ensures var run := BackoffFrom(outcomes, draws, failed);
      failed < run.calls <= MaxRegistrationAttempts &&
      (forall i :: failed <= i < run.calls - 1 ==> Attempt(outcomes[i]).Err?) &&
      (run.result.Ok? ==> Attempt(outcomes[run.calls - 1]) == Ok(run.result.value)) &&
      (run.result.Err? ==>
         run.calls == MaxRegistrationAttempts &&
         Attempt(outcomes[run.calls - 1]).Err? &&
         run.result.error == MaxAttemptsReached(Attempt(outcomes[run.calls - 1]).error)) &&
      (run.result.Ok? <==> exists i :: failed <= i < MaxRegistrationAttempts && Attempt(outcomes[i]).Ok?)
    decreases MaxRegistrationAttempts - failed
  {
    if Attempt(outcomes[failed]).Err? && failed + 1 < MaxRegistrationAttempts {
      BackoffStopsAtFirstSuccess(outcomes, draws, failed + 1);
    }
  }

  /** One sleep follows every failure except a failure on the last allowed
      attempt; the sleep after the k-th failure is a whole number of seconds
      in [0, 2^k). */
  lemma {:induction false} BackoffSleeps(outcomes: seq<AttemptOutcome>, draws: seq<nat>, failed: nat)
    requires failed < MaxRegistrationAttempts <= |outcomes|
    requires EnoughDraws(draws)
    ensures var run := BackoffFrom(outcomes, draws, failed);
      failed < run.calls <= MaxRegistrationAttempts &&
      |run.sleeps| == run.calls - 1 - failed &&
      forall k :: 0 <= k < |run.sleeps| ==>
        run.sleeps[k] == RetryBackoff(draws[failed + k], failed + k + 1) &&
        run.sleeps[k] % Second == 0 &&
        0 <= run.sleeps[k] < Pow2(failed + k + 1) * Second
    decreases MaxRegistrationAttempts - failed
  {
    var run := BackoffFrom(outcomes, draws, failed);
    BackoffCallsBounded(outcomes, draws, failed);
    if Attempt(outcomes[failed]).Err? && failed + 1 < MaxRegistrationAttempts {
      BackoffSleeps(outcomes, draws, failed + 1);
      var rest := BackoffFrom(outcomes, draws, failed + 1);
      assert run.sleeps == [RetryBackoff(draws[failed], failed + 1)] + rest.sleeps;
      forall k | 0 <= k < |run.sleeps|
        ensures run.sleeps[k] == RetryBackoff(draws[failed + k], failed + k + 1)
        ensures run.sleeps[k] % Second == 0
        ensures 0 <= run.sleeps[k] < Pow2(failed + k + 1) * Second
      {
        if k > 0 {
          assert run.sleeps[k] == rest.sleeps[k - 1];
        }
      }
    }
  }

  function Sum(s: seq<int>): int {
    if s == [] then 0 else s[0] + Sum(s[1..])
  }

  /** The total time slept by the rest of the loop once `failed` attempts have
      failed is at most the sum of (2^k - 1) seconds over the remaining
      retries k = failed+1 .. MaxRegistrationAttempts-1. */
  lemma {:induction false} BackoffTotalSleepFrom(outcomes: seq<AttemptOutcome>, draws: seq<nat>, failed: nat)
    requires failed < MaxRegistrationAttempts <= |outcomes|
    requires EnoughDraws(draws)
    ensures 0 <= Sum(BackoffFrom(outcomes, draws, failed).sleeps) <=
      (Pow2(MaxRegistrationAttempts) - Pow2(failed + 1) - (MaxRegistrationAttempts - 1 - failed)) * Second
    decreases MaxRegistrationAttempts - failed
  {
    var run := BackoffFrom(outcomes, draws, failed);
    if Attempt(outcomes[failed]).Ok? || failed + 1 >= MaxRegistrationAttempts {
      assert run.sleeps == [];
      PowMonotone(failed + 1, MaxRegistrationAttempts);
      assert Pow2(failed + 1) + (MaxRegistrationAttempts - 1 - failed) <= Pow2(MaxRegistrationAttempts);
    } else {
      BackoffTotalSleepFrom(outcomes, draws, failed + 1);
      var rest := BackoffFrom(outcomes, draws, failed + 1);
      assert run.sleeps == [RetryBackoff(draws[failed], failed + 1)] + rest.sleeps;
      assert Sum(run.sleeps) == RetryBackoff(draws[failed], failed + 1) + Sum(rest.sleeps);
      assert Pow2(failed + 2) == 2 * Pow2(failed + 1);
    }
  }

  /** 2^a + (b - a) <= 2^b when a <= b. */
  lemma {:induction false} PowMonotone(a: nat, b: nat)
    requires a <= b
    ensures Pow2(a) + (b - a) <= Pow2(b)
    decreases b - a
  {
    if a < b {
      PowMonotone(a, b - 1);
    }
  }

  /** A whole registration sleeps at most 1 + 3 + 7 + 15 = 26 seconds in total. */
  lemma BackoffTotalSleep(outcomes: seq<AttemptOutcome>, draws: seq<nat>)
    requires MaxRegistrationAttempts <= |outcomes|
    requires EnoughDraws(draws)
    ensures 0 <= Sum(Backoff(outcomes, draws).sleeps) <= 26 * Second
  {
    BackoffTotalSleepFrom(outcomes, draws, 0);
  }

  /** A controller that fails the first two attempts (say with 503) and
      accepts the third: three calls, two sleeps, and the third attempt's rules
      as the result (which `ConfigSync.Client.RegisterWithBackoff` hands to the
      rules manager, once). */
  lemma ThirdAttemptRegisters(outcomes: seq<AttemptOutcome>, draws: seq<nat>)
    requires MaxRegistrationAttempts <= |outcomes|
    requires EnoughDraws(draws)
    requires Attempt(outcomes[0]).Err? && Attempt(outcomes[1]).Err? && Attempt(outcomes[2]).Ok?
    ensures var run := Backoff(outcomes, draws);
      run.calls == 3 && run.result == Ok(Attempt(outcomes[2]).value) &&
      run.sleeps == [RetryBackoff(draws[0], 1), RetryBackoff(draws[1], 2)]
  {
    var r2 := BackoffFrom(outcomes, draws, 2);
    var r1 := BackoffFrom(outcomes, draws, 1);
    assert r1.sleeps == [RetryBackoff(draws[1], 2)] + r2.sleeps;
  }

  /** A controller that never accepts: exactly five calls, four sleeps, and the
      exhaustion error wrapping the fifth attempt's error. */
  lemma {:induction false} AlwaysFailingExhausts(outcomes: seq<AttemptOutcome>, draws: seq<nat>)
    requires MaxRegistrationAttempts <= |outcomes|
    requires EnoughDraws(draws)
    requires forall i :: 0 <= i < MaxRegistrationAttempts ==> Attempt(outcomes[i]).Err?
    ensures var run := Backoff(outcomes, draws);
      run.calls == MaxRegistrationAttempts && |run.sleeps| == MaxRegistrationAttempts - 1 &&
      run.result == Err(MaxAttemptsReached(Attempt(outcomes[MaxRegistrationAttempts - 1]).error))
  {
    BackoffStopsAtFirstSuccess(outcomes, draws, 0);
    BackoffSleeps(outcomes, draws, 0);
  }
}
