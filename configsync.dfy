/** The registration-and-heartbeat client: construction, `Start`, one
    registration attempt, the registration retry loop and the heartbeat loop. */
module ConfigSync {
  import opened Wrappers
  import opened Rules
  import LocalIP
  import Registration
  import Heartbeat
  import Durations

  /** The body of both the registration and the heartbeat request: the two
      request structs have the same three fields. */
  datatype RequestBody = RequestBody(ipAddress: string, port: int, namespace: string)

  /** `n` copies of `x`. */
  function Repeat<T>(x: T, n: nat): (s: seq<T>)
    ensures |s| == n
  {
    if n == 0 then [] else Repeat(x, n - 1) + [x]
  }

  /** Appending one more copy to a log that ends in `n` copies. */
  lemma RepeatAppend<T>(log: seq<T>, x: T, n: nat)
    ensures log + Repeat(x, n) + [x] == log + Repeat(x, n + 1)
  {
    assert Repeat(x, n + 1) == Repeat(x, n) + [x];
  }

  /** One heartbeat cycle as observed from outside: the request it built and
      the delay it waited afterwards. */
  datatype Cycle = Cycle(request: RequestBody, delay: int)

  /** "failed to register with tconfigd", wrapping the retry loop's error. */
  datatype StartError = RegistrationFailed(cause: Registration.BackoffError)

  class Client {
    const webhookPort: int
    const webhookIP: string
    const namespace: string
    const verificationRulesManager: VerificationRulesManager
    /** A `time.Duration`, in nanoseconds. */
    const heartbeatInterval: int

    /** Every registration request body built so far, in order. */
    ghost var registrationRequests: seq<RequestBody>
    /** How many heartbeat loops `Start` has launched. */
    ghost var heartbeatsLaunched: nat

    /** The identity every request carries. */
    function Identity(): RequestBody {
      RequestBody(webhookIP, webhookPort, namespace)
    }

    constructor (webhookPort: int, webhookIP: string, namespace: string,
                 verificationRulesManager: VerificationRulesManager, heartbeatInterval: int)
      ensures this.webhookPort == webhookPort && this.webhookIP == webhookIP
      ensures this.namespace == namespace && this.heartbeatInterval == heartbeatInterval
      ensures this.verificationRulesManager == verificationRulesManager
      ensures registrationRequests == [] && heartbeatsLaunched == 0
    {
      this.webhookPort := webhookPort;
      this.webhookIP := webhookIP;
      this.namespace := namespace;
      this.verificationRulesManager := verificationRulesManager;
      this.heartbeatInterval := heartbeatInterval;
      registrationRequests := [];
      heartbeatsLaunched := 0;
    }

    /** One registration attempt. The rules manager is updated exactly when the
        attempt succeeds, with the decoded rules. */
    method Register(outcome: Registration.AttemptOutcome) returns (err: Option<Registration.RegisterError>)
      modifies this, verificationRulesManager
      ensures err.None? <==> Registration.Attempt(outcome).Ok?
      ensures err.Some? ==> err.value == Registration.Attempt(outcome).error
      ensures verificationRulesManager.updates == old(verificationRulesManager.updates) +
        (if err.None? then [Registration.Attempt(outcome).value] else [])
      ensures registrationRequests == old(registrationRequests) + [Identity()]
      ensures heartbeatsLaunched == old(heartbeatsLaunched)
    {
      var request := RequestBody(webhookIP, webhookPort, namespace);
      registrationRequests := registrationRequests + [request];
      match outcome
      case MarshalFailed =>
        return Some(Registration.MarshalError);
      case BuildFailed =>
        return Some(Registration.RequestError);
      case SendFailed =>
        return Some(Registration.SendError);
      case Responded(status, decoding) =>
        if status != 200 {
          return Some(Registration.StatusError(status));
        }
        match decoding
        case DecodeFailed =>
          return Some(Registration.DecodeError);
        case Decoded(body) =>
          verificationRulesManager.UpdateCompleteRules(Registration.DecodedRules(body));
          return None;
    }

    /** The retry loop around `Register`. `outcomes[i]` is how the (i+1)-th
        attempt goes and `draws` are the random backoff draws; the backoffs are
        returned in order instead of being slept. */
    method RegisterWithBackoff(outcomes: seq<Registration.AttemptOutcome>, draws: seq<nat>)
      returns (err: Option<Registration.BackoffError>, sleeps: seq<int>)
      requires Registration.MaxRegistrationAttempts <= |outcomes|
      requires Registration.EnoughDraws(draws)
      modifies this, verificationRulesManager
      ensures var run := Registration.Backoff(outcomes, draws);
        (err.None? <==> run.result.Ok?) &&
        (err.Some? ==> err.value == run.result.error) &&
        sleeps == run.sleeps &&
        registrationRequests == old(registrationRequests) + Repeat(Identity(), run.calls) &&
        verificationRulesManager.updates == old(verificationRulesManager.updates) +
          (if run.result.Ok? then [run.result.value] else [])
      ensures heartbeatsLaunched == old(heartbeatsLaunched)
    {
      var attempt: nat := 0;
      sleeps := [];
      while true
        invariant attempt < Registration.MaxRegistrationAttempts
        invariant forall i :: 0 <= i < attempt ==> Registration.Attempt(outcomes[i]).Err?
        invariant sleeps == Registration.Backoffs(draws, attempt)
        invariant registrationRequests == old(registrationRequests) + Repeat(Identity(), attempt)
        invariant verificationRulesManager.updates == old(verificationRulesManager.updates)
        invariant heartbeatsLaunched == old(heartbeatsLaunched)
        decreases Registration.MaxRegistrationAttempts - attempt
      {
        RepeatAppend(old(registrationRequests), Identity(), attempt);
        var e := Register(outcomes[attempt]);
        if e.Some? {
          attempt := attempt + 1;
          if attempt >= Registration.MaxRegistrationAttempts {
            Registration.BackoffAfterFailures(outcomes, draws, attempt - 1);
            Registration.BackoffSleepsAfterFailures(outcomes, draws, attempt - 1);
            Registration.BackoffStepExhausts(outcomes, draws, attempt - 1);
            return Some(Registration.MaxAttemptsReached(e.value)), sleeps;
          }
          var backoff := Registration.Intn(draws[attempt - 1], Registration.Pow2(attempt)) * Durations.Second;
          sleeps := sleeps + [backoff];
          continue;
        }
        Registration.BackoffAfterFailures(outcomes, draws, attempt);
        Registration.BackoffSleepsAfterFailures(outcomes, draws, attempt);
        Registration.BackoffStepSucceeds(outcomes, draws, attempt);
        break;
      }
      return None, sleeps;
    }

    /** Registers, and launches the heartbeat loop only when registration
        succeeded. */
    method Start(outcomes: seq<Registration.AttemptOutcome>, draws: seq<nat>) returns (err: Option<StartError>)
      requires Registration.MaxRegistrationAttempts <= |outcomes|
      requires Registration.EnoughDraws(draws)
      modifies this, verificationRulesManager
      ensures var run := Registration.Backoff(outcomes, draws);
        (err.None? <==> run.result.Ok?) &&
        (err.Some? ==> err.value == RegistrationFailed(run.result.error)) &&
        registrationRequests == old(registrationRequests) + Repeat(Identity(), run.calls) &&
        verificationRulesManager.updates == old(verificationRulesManager.updates) +
          (if run.result.Ok? then [run.result.value] else [])
      ensures heartbeatsLaunched == old(heartbeatsLaunched) + (if err.None? then 1 else 0)
    {
      var e, _ := RegisterWithBackoff(outcomes, draws);
      if e.Some? {
        return Some(RegistrationFailed(e.value));
      }
      heartbeatsLaunched := heartbeatsLaunched + 1;
      return None;
    }

    /** The first |outcomes| cycles of the heartbeat loop, where `outcomes[i]` is
        how cycle i goes. The loop never stops on a failure and keeps no state
        between cycles: each cycle sends the client's identity and waits the
        delay its own outcome calls for. */
    method StartHeartbeat(outcomes: seq<Heartbeat.CycleOutcome>) returns (trace: seq<Cycle>)
      ensures |trace| == |outcomes|
      ensures forall i :: 0 <= i < |outcomes| ==>
        trace[i] == Cycle(Identity(), Heartbeat.CycleDelay(outcomes[i], heartbeatInterval))
    {
      trace := [];
      var n := 0;
      while n < |outcomes|
        invariant n <= |outcomes| && |trace| == n
        invariant forall i :: 0 <= i < n ==>
          trace[i] == Cycle(Identity(), Heartbeat.CycleDelay(outcomes[i], heartbeatInterval))
      {
        var request := RequestBody(webhookIP, webhookPort, namespace);
        var outcome := outcomes[n];
        n := n + 1;
        if outcome.MarshalFailed? {
          trace := trace + [Cycle(request, Heartbeat.FailedHeartbeatRetryInterval)];
          continue;
        }
        if outcome.BuildFailed? {
          trace := trace + [Cycle(request, Heartbeat.FailedHeartbeatRetryInterval)];
          continue;
        }
        if outcome.SendFailed? {
          trace := trace + [Cycle(request, Heartbeat.FailedHeartbeatRetryInterval)];
          continue;
        } else if outcome.status != 200 {
          trace := trace + [Cycle(request, Heartbeat.FailedHeartbeatRetryInterval)];
          continue;
        }
        trace := trace + [Cycle(request, heartbeatInterval)];
      }
    }
  }

  /** Looks up the webhook IP, then builds the client; fails exactly when the
      lookup fails. */
  method NewClient(webhookPort: int, namespace: string, verificationRulesManager: VerificationRulesManager,
                   heartbeatInterval: int, interfaces: LocalIP.Enumeration)
    returns (r: Result<Client, LocalIP.LocalIPError>)
    ensures r.Err? <==> LocalIP.WebhookIP(interfaces).Err?
    ensures r.Err? ==> r.error == LocalIP.WebhookIP(interfaces).error
    ensures r.Ok? ==>
      fresh(r.value) &&
      r.value.webhookIP == LocalIP.WebhookIP(interfaces).value &&
      r.value.webhookPort == webhookPort && r.value.namespace == namespace &&
      r.value.verificationRulesManager == verificationRulesManager &&
      r.value.heartbeatInterval == heartbeatInterval &&
      r.value.registrationRequests == [] && r.value.heartbeatsLaunched == 0
  {
    var ip := LocalIP.GetLocalIP(interfaces);
    if ip.Err? {
      return Err(ip.error);
    }
    var client := new Client(webhookPort, ip.value, namespace, verificationRulesManager, heartbeatInterval);
    return Ok(client);
  }
}
