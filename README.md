# Registration and heartbeat client of the tokenetes agent, in Dafny

This project models the control logic of `service/configsync/configsync.go`.
That file holds the client that registers the agent with the configuration
controller (tconfigd) and then sends heartbeats to it. The model covers:

- construction (`NewClient`), which looks up the webhook IP among the host's
  interface addresses (`getLocalIP`) and fixes the client's identity;
- one registration attempt (`register`), which hands the decoded rules to the
  verification-rules manager only when the attempt fully succeeds;
- the retry loop (`registerWithBackoff`), which makes at most five attempts
  with a jittered backoff whose range doubles after each failure;
- `Start`, which launches the heartbeat loop only after registration succeeds;
- the heartbeat loop (`startHeartbeat`), which waits 5 s after any failure and
  the configured interval after a 200 response.

The network is an oracle of per-attempt outcomes: `Registration.AttemptOutcome`
and `Heartbeat.CycleOutcome` record where an exchange stopped (marshal, request
build, send) or the status and decoded body of the response. The random
generator's raw outputs are an input sequence of unconstrained naturals. The
model reduces the k-th one into [0, 2^k) the way `rand.Intn(1 << k)` does,
computing the `1 << k` argument itself. Sleeps are not performed. They are returned as traces of
`time.Duration` values in nanoseconds. The rules manager records each
`UpdateCompleteRules` call in a ghost log. The client records every
registration request body it builds in a ghost log too. Identity fields are
`const`, so they cannot change after construction.

Modules: `Wrappers` and `Durations` (shared types), `LocalIP`, `Rules`,
`Registration` (attempt classification, the retry loop as a function, and its
lemmas), `Heartbeat` (one cycle), and `ConfigSync` (the `Client` class and
`NewClient`).

Behaviour of the code worth noting:

- Heartbeat requests carry only the IP, port and namespace. They have no
  rules-version field and no service name.
- `HeartBeatIntervalMinutes` in the registration response is decoded and never
  used.
- `UpdateCompleteRules` is called on every successful decode. When the rules
  field is absent it is called with Go's zero value (`Rules.ZeroRules`). It is
  never skipped.
- Any status other than 200 fails, including other 2xx codes.
- `NewClient` takes the controller's SPIFFE id but does not use it.

## Model

| member | source | states |
|---|---|---|
| LocalIP.FirstUsable | service/configsync/configsync.go:212-218 | with `LocalIP.Usable` modelling the test of lines 213-214, the index returned is the first address in list order that is an IPNet, not loopback, and IPv4; none is returned iff no address qualifies |
| LocalIP.WebhookIP | service/configsync/configsync.go:206-221 | an enumeration error is passed through; otherwise the result is the text of the first qualifying address, and "no webhook IP" iff no address qualifies |
| LocalIP.GetLocalIP | service/configsync/configsync.go:206-221 | the search loop with early return computes exactly the first-match result above |
| Registration.Attempt | service/configsync/configsync.go:113-153 | an attempt succeeds iff the response came back with status 200 and decoded; a marshal, request-build or send failure, a non-200 status or a decode failure gives that error; on success the rules are the decoded field (`Registration.DecodedRules`, lines 145-150), or Go's zero value when the field is absent |
| Registration.RetryBackoff | service/configsync/configsync.go:93 | the backoff after the k-th failure, `rand.Intn(1 << k)` seconds with `Registration.Intn` as `rand.Intn`, is a whole number of seconds in [0, 2^k) seconds |
| Registration.BackoffFrom | service/configsync/configsync.go:80-106 | the loop after `failed` failures: outcome `failed` decides; a success ends with its rules, a failure on the 5th attempt ends with the exhaustion error, any earlier failure prepends the backoff drawn from draws[failed] with argument 2^(failed+1) and recurses; between `failed`+1 and 5 calls, one sleep fewer than the calls made from here |
| Registration.Backoff | service/configsync/configsync.go:80-106 | the whole loop from counter zero: 1 to 5 calls, one sleep fewer than calls, success iff one of the first 5 attempts succeeds, and then the rules of the last call |
| Registration.BackoffAfterFailures | service/configsync/configsync.go:80-106 | after n failed attempts the loop from counter zero ends with the same number of calls and the same result as the loop resumed at counter n |
| Registration.BackoffSleepsAfterFailures | service/configsync/configsync.go:87-97 | after n failed attempts the sleeps from counter zero are the n backoffs already slept, the backoffs drawn from draws[0..n), followed by the sleeps of the loop resumed at counter n |
| Registration.BackoffCallsBounded | service/configsync/configsync.go:83-91 | `register` is called at least once and at most 5 times; the loop returns an error only after the 5th call |
| Registration.BackoffStopsAtFirstSuccess | service/configsync/configsync.go:80-106 | all calls before the last one failed; on success the result is the last call's rules, and success holds iff some attempt among the first 5 succeeds; on exhaustion the error wraps the 5th attempt's error |
| Registration.BackoffSleeps | service/configsync/configsync.go:87-97 | the number of sleeps is the number of calls minus one, so there is no sleep after the 5th failure; the sleep after the k-th failure is the backoff drawn from the k-th raw draw with argument 2^k, a whole number of seconds in [0, 2^k) seconds |
| Registration.BackoffTotalSleepFrom | service/configsync/configsync.go:87-97 | after `failed` failures, the remaining sleeps total at most the sum of 2^k - 1 seconds over the retries still allowed |
| Registration.BackoffTotalSleep | service/configsync/configsync.go:87-97 | one registration sleeps at most 26 seconds in total |
| Registration.ThirdAttemptRegisters | service/configsync/configsync.go:80-106 | two failures then a success: 3 calls, 2 sleeps, the backoffs drawn from the first two raw draws with arguments 2 and 4, and the third attempt's rules as the result |
| Registration.AlwaysFailingExhausts | service/configsync/configsync.go:83-91 | five failures: exactly 5 calls, 4 sleeps, and the exhaustion error wrapping the 5th error |
| Heartbeat.CycleDelay | service/configsync/configsync.go:158-203 | a cycle waits the configured interval after a 200 response and 5 s after a marshal, request-build, send or non-200 failure |
| Rules.VerificationRulesManager.UpdateCompleteRules | service/configsync/configsync.go:150 | each call appends the rules it was given to the manager's update log |
| ConfigSync.Client.constructor | service/configsync/configsync.go:42-51 | the client holds the given port, IP, namespace, rules manager and interval; no request has been built and no heartbeat launched |
| ConfigSync.Client.Register | service/configsync/configsync.go:113-153 | builds one request carrying the client's identity; returns no error iff the attempt succeeds; the rules manager gets exactly one update, with the decoded rules, on success and none otherwise |
| ConfigSync.Client.RegisterWithBackoff | service/configsync/configsync.go:80-106 | the counter-driven loop, which draws each backoff as `Registration.Intn` of the raw draw with argument 2^attempt, gives the result, backoff trace and number of calls of `Registration.Backoff`; each call's request carries the client's identity; the rules manager is updated once iff registration succeeds |
| ConfigSync.Client.Start | service/configsync/configsync.go:66-78 | returns no error iff registration succeeded, and wraps the registration error otherwise; the heartbeat loop is launched once on success and never on failure |
| ConfigSync.Client.StartHeartbeat | service/configsync/configsync.go:155-204 | runs one cycle per outcome and never stops early; every cycle's request carries the client's identity and its delay depends only on its own outcome |
| ConfigSync.NewClient | service/configsync/configsync.go:36-52 | fails iff the IP lookup fails, with the lookup's error; on success the client is fresh, its IP is the looked-up address, and the other identity fields are the arguments |

## Left out

- HTTP, JSON marshalling and decoding, the mTLS client and closing response bodies are not modelled. Each exchange is an outcome supplied as input.
- Resolving the endpoint URLs (`ResolveReference`) is library behaviour. The endpoints do not appear in the model, and neither do the controller URL or the HTTP client fields.
- `time.Sleep` is not performed, and the generator behind `rand.Intn` is not modelled. Delays are returned as traces. The generator's raw outputs are inputs, and `rand.Intn(n)` is modelled as the raw output modulo n. Any value in [0, n) can come out, but uniformity is not modelled.
- The heartbeat goroutine, and any concurrency with the rules manager, are not modelled. `Start` records the launch in a counter. `StartHeartbeat` runs a finite prefix of the infinite loop, one cycle per supplied outcome.
- Logging (`zap`) is not modelled.
- Interface enumeration (`net.InterfaceAddrs`, `IsLoopback`, `To4`, `IP.String`) is not modelled. Each address is a record of those three tests plus its text.
- The rules manager's own storage is not modelled. `service/config/config.go` (environment configuration) is not part of this model.
- Whether marshalling or request building can really fail is not modelled. `json.Marshal` cannot fail on a struct of two strings and an int, and `http.NewRequest` fails only when `url.Parse` rejects the endpoint string. Both error branches are kept as outcomes the oracle may supply.
