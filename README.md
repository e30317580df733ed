# RPC endpoint rotator

This project models the RPC endpoint rotator of the Sepolia front end
(`packages/react-app/src/rpcRotator.ts`) in Dafny and proves properties of
that model. The rotator has two parts:

- The `RPCRotator` object. It holds a fixed, non-empty list of JSON-RPC
  endpoint URLs, a cursor into that list, and a set of quarantined
  ("failed") URLs. `getNextEndpoint` hands out endpoints round-robin and
  skips quarantined entries. When every entry is quarantined it fails open:
  it clears the quarantine and returns the first endpoint.
  `getCurrentEndpoint` and `getStats` only look at the state.
  `markAsFailed` quarantines a URL. A recovery probe, run later, lifts the
  quarantine only when the endpoint answers with an ok response. A response
  that is not ok changes nothing, and a probe that throws changes nothing
  but schedules another probe.
- `fetchWithRotation`. It sends one JSON-RPC call and makes at most
  `maxRetries` attempts in all, taking the rotator's next endpoint for each
  attempt.
  It returns the first result it gets. It quarantines an endpoint only after
  a network-class error. When the attempts run out it throws a message built
  from the last error.

The project has three modules:

- `Wrappers` (`wrappers.dfy`) holds `Option` and `Result`.
- `Rotator` (`rotator.dfy`) is split in two.
  - The value `Pool` is a snapshot of the object's state: endpoints, cursor
    and quarantine. The functions over it specify each operation: `Healthy`,
    `Next`, `NextN`, `Current` and `StatsOf`. The lemmas beside them carry
    the rotation's promises.
  - The class `RPCRotator` holds the same three fields. It has a `const`
    endpoint list, which nothing can change after construction. Its methods
    update the fields in place. `GetNextEndpoint` keeps the
    `while` loop of `rpcRotator.ts` and its `% length` cursor update, and is proved against
    `Next`. `HealthyEndpoints`, `GetCurrentEndpoint` and `GetStats` are
    read-only functions over the state. A ghost counter `nextCalls` records
    how often `GetNextEndpoint` has run.
- `Dispatch` (`dispatch.dfy`) models the retry loop.
  - The function `Fetch` specifies the whole call: its result, every
    attempt made in order, and the rotator's final state.
  - The method `FetchWithRotation` runs the counted `for` loop over an
    `RPCRotator` passed in by the caller. It is proved to return what
    `Fetch` returns and to leave the rotator in the state `Fetch` predicts.
  - The network is a transport `send(endpoint, attempt)` supplied by the
    caller. It says how each attempt ended: `Ok(result)`,
    `HttpNotOk(status, statusText)`, `RpcErr(message)`,
    `NetworkErr(message)` or `OtherErr(message)`. `NetworkErr` covers every
    `TypeError` and every error whose `code` is `NETWORK_ERROR`. That
    includes the `TypeError` thrown when the response body is JSON `null`
    and `data.error` is read from it. The transport must then report
    `NetworkErr`, and the endpoint is quarantined although it was
    reachable.

The cursor arithmetic is written with `Index(c, k, n)`. It is `c + k`
reduced once by `n`. `IndexIsMod` proves it equal to `(c + k) % n` for the
range the rotator uses. The method itself still computes with `%`, as
`rpcRotator.ts` does.

## Model

| member | source | states |
|---|---|---|
| Rotator.Healthy | packages/react-app/src/rpcRotator.ts:67-69 | The healthy list holds exactly the configured endpoints that are not quarantined. It is never longer than the configured list. |
| Rotator.HealthyCounts | packages/react-app/src/rpcRotator.ts:67-69 | The filter keeps duplicates: each string occurs in the healthy list exactly as often as it is configured, or not at all when it is quarantined. |
| Rotator.HealthyHeadIsFirst | packages/react-app/src/rpcRotator.ts:67-69 | The head of the healthy list is the first configured endpoint, in configured order, that is not quarantined; every endpoint before it is quarantined. |
| Rotator.IndexIsMod | packages/react-app/src/rpcRotator.ts:31 | Moving the cursor `k <= n` places on from `c < n` lands on `(c + k) % n`, the wrap-around of line 31. |
| Rotator.CursorStep | packages/react-app/src/rpcRotator.ts:29-31 | One `(currentIndex + 1) % length` step during the walk moves the cursor from `k` to `k + 1` places past where the walk began. |
| Rotator.AheadIsMod | packages/react-app/src/rpcRotator.ts:30-31 | The entry `k` places ahead of the cursor is `endpoints[(cursor + k) % length]`. |
| Rotator.SkipCount | packages/react-app/src/rpcRotator.ts:28-37 | The walk skips a number of entries between `k` and `length`. Every skipped entry is quarantined. When the walk stops before a full turn, the entry it stops at is healthy. |
| Rotator.Next | packages/react-app/src/rpcRotator.ts:17-41 | `getNextEndpoint` returns a configured endpoint and keeps the cursor inside the list. If some endpoint is healthy, the returned one is healthy and the quarantine is unchanged. If none is healthy, it returns `endpoints[0]`, empties the quarantine and leaves the cursor where it was. |
| Rotator.FallbackUnreachable | packages/react-app/src/rpcRotator.ts:27-40 | While some endpoint is healthy, the walk finds one before a full turn, so the fallback return at line 40 is never reached. |
| Rotator.NextIsFirstHealthyAhead | packages/react-app/src/rpcRotator.ts:27-37 | The returned endpoint is the first healthy one in rotation order from the cursor. Every entry before it is quarantined, and the cursor ends just past it. |
| Rotator.NextAtHealthyCursor | packages/react-app/src/rpcRotator.ts:29-35 | When the entry at the cursor is healthy, it is the one returned, and the cursor moves one place on. |
| Rotator.NextN | packages/react-app/src/rpcRotator.ts:17-41 | `k` consecutive calls return `k` endpoints, keep the endpoint list, and leave a valid cursor. |
| Rotator.NextNAvoidsFailed | packages/react-app/src/rpcRotator.ts:27-37 | While some endpoint is healthy, consecutive calls return only healthy configured endpoints and never change the quarantine. |
| Rotator.RoundRobin | packages/react-app/src/rpcRotator.ts:29-34 | With nothing configured quarantined, `k <= n` calls from cursor `c` return `endpoints[c]`, `endpoints[(c+1)%n]`, ... in order and move the cursor `k` places on. |
| Rotator.FullCycle | packages/react-app/src/rpcRotator.ts:29-34 | With nothing configured quarantined, `n` calls return the list rotated to start at the cursor and bring the state back exactly to where it was. |
| Rotator.FullCycleIsPermutation | packages/react-app/src/rpcRotator.ts:29-34 | A full cycle with nothing quarantined returns every configured endpoint exactly as often as it is configured. |
| Rotator.VisitStep | packages/react-app/src/rpcRotator.ts:29-37 | While entry `i` is healthy, one call either returns it, or leaves the quarantine alone and brings the cursor strictly closer to `i`. |
| Rotator.VisitedWithin | packages/react-app/src/rpcRotator.ts:29-37 | A healthy entry `i` is returned within as many calls as its distance ahead of the cursor plus one. |
| Rotator.HealthyVisitedInCycle | packages/react-app/src/rpcRotator.ts:27-37 | Every healthy configured endpoint is returned within `length` consecutive calls, whatever else is quarantined. |
| Rotator.SkipsQuarantinedExample | packages/react-app/src/rpcRotator.ts:17-41 | With endpoints A, B, C, B quarantined and the cursor at 0, four calls return A, C, A, C. |
| Rotator.Current | packages/react-app/src/rpcRotator.ts:44-53 | `getCurrentEndpoint` returns a configured endpoint. It is healthy whenever some endpoint is healthy, it is `endpoints[0]` when none is, and it is the entry at the cursor whenever that entry is healthy. When that entry is quarantined and some endpoint is healthy, it is the first healthy endpoint in configured order. |
| Rotator.CurrentPredictsNext | packages/react-app/src/rpcRotator.ts:44-53 | When the entry at the cursor is healthy, or nothing is healthy, the peek names exactly the endpoint that the next `getNextEndpoint` call returns. |
| Rotator.StatsOf | packages/react-app/src/rpcRotator.ts:101-108 | `getStats` reports a positive total, `healthy <= total`, and healthy 0 exactly when every configured endpoint is quarantined. `healthy` is the length of the healthy list, duplicates included (see `HealthyCounts`). It also reports the quarantine's size, and `current` is what `getCurrentEndpoint` returns. |
| Rotator.RPCRotator.constructor | packages/react-app/src/rpcRotator.ts:9-14 | A rotator built from a non-empty list holds a copy of it, with the cursor at 0 and nothing quarantined. |
| Rotator.RPCRotator.Create | packages/react-app/src/rpcRotator.ts:9-14 | Construction fails, with the message of line 12, exactly when the list is empty. Otherwise it yields a fresh rotator holding the list, with cursor 0 and an empty quarantine. |
| Rotator.RPCRotator.GetNextEndpoint | packages/react-app/src/rpcRotator.ts:17-41 | The in-place walk returns the endpoint that `Next` selects and leaves the fields as `Next` does. The object stays valid, and the call is counted once. |
| Rotator.RPCRotator.MarkAsFailed | packages/react-app/src/rpcRotator.ts:56-58 | The quarantine becomes the old one plus the given string, configured or not. Marking twice is the same as marking once, and nothing else changes. |
| Rotator.RPCRotator.RetryFailedEndpoint | packages/react-app/src/rpcRotator.ts:72-98 | An ok probe removes exactly that endpoint from the quarantine. A probe that is not ok, or one that throws, changes nothing. Another probe is scheduled exactly when the probe threw. |
| Dispatch.Fetch | packages/react-app/src/rpcRotator.ts:126-173 | A call makes at most `maxRetries` attempts (none when `maxRetries <= 0`). It keeps the endpoint list and leaves a valid rotator. |
| Dispatch.TryEndpoint | packages/react-app/src/rpcRotator.ts:134-169 | Once an endpoint is selected, at least one attempt is made, the first goes to that endpoint, and the remaining budget is respected. |
| Dispatch.AttemptsFollowTransport | packages/react-app/src/rpcRotator.ts:133-148 | Attempt number `i` goes to a configured endpoint, and ends as the transport answers for that endpoint and number. |
| Dispatch.SucceedsAtFirstOk | packages/react-app/src/rpcRotator.ts:150-160 | No attempt before the last got a result. The call succeeds exactly when the last attempt got one, and returns that attempt's result without trying further. |
| Dispatch.ExhaustedReportsLastError | packages/react-app/src/rpcRotator.ts:131-172 | A failed call used all `maxRetries` attempts. Its message is "All RPC attempts failed. Last error: " followed by the last attempt's error message, or by `undefined` when no attempt was made. |
| Dispatch.MarksOnlyOnNetworkError | packages/react-app/src/rpcRotator.ts:165-168 | Every endpoint newly quarantined by a call was the target of an attempt that ended in a network-class error. An HTTP status that is not ok, an RPC error payload and any other error never quarantine. |
| Dispatch.QuarantinesEveryNetworkError | packages/react-app/src/rpcRotator.ts:165-168 | Over a whole call: after a network-class error, the next attempt goes to a different endpoint unless that endpoint is `endpoints[0]`. When the last attempt ended in a network-class error, its endpoint is still quarantined when the call returns. |
| Dispatch.NextAttemptAfterNetworkError | packages/react-app/src/rpcRotator.ts:133-168 | After a network-class error with budget left, the next attempt goes to an endpoint that is healthy once the failed one is quarantined, so never to the failed one. Only when no endpoint is left healthy does the rotator fail open to `endpoints[0]`. |
| Dispatch.FollowsRotationWithoutNetworkErrors | packages/react-app/src/rpcRotator.ts:133-134 | When no attempt hits a network-class error, the attempts go to exactly the endpoints that as many consecutive `getNextEndpoint` calls return, and the rotator ends as those calls leave it. |
| Dispatch.FetchWithRotation | packages/react-app/src/rpcRotator.ts:126-173 | The counted loop over the passed-in rotator returns what `Fetch` returns and leaves the rotator in the state `Fetch` predicts. It calls `getNextEndpoint` exactly once per attempt made. |

## Left out

- Timers and asynchrony: the `setTimeout` calls in `markAsFailed` and in the probe are not modelled. `RetryFailedEndpoint` models one probe's effect on the state, and says by its result whether another probe would be scheduled.
- Interleaving: each `fetchWithRotation` call is modelled as running alone. `fetchWithRotation` suspends at `await fetch` and at `await response.json()`. While it waits, another caller's `getNextEndpoint` or `markAsFailed` may run, and so may a probe's `delete`. None of that is modelled. `Dispatch.FollowsRotationWithoutNetworkErrors` and the final-state equality of `Dispatch.FetchWithRotation` hold only when nothing else touches the rotator during the call. The rotator's own methods are synchronous, so each of them is atomic.
- Network and serialisation: `fetch`, `response.json()`, `JSON.stringify` and the `Date.now()` request id are replaced by the caller's transport `send` and the probe's `ProbeOutcome`. The request's `method` and `params` therefore do not appear. The default `maxRetries = 3` is a caller's choice and is not modelled either.
- Rotator.RPCRotator.MarkAsFailed: does not claim that marking an endpoint again suppresses a duplicate probe. `markAsFailed` schedules a new timer on every call.
- Logging: `console.warn` and `console.log` have no effect on the state.
- Unused state: the `lastHealthCheck` map and the `healthCheckInterval` constant are not modelled. Nothing reads `lastHealthCheck`, and the interval only times the probes.
- Configuration: the `sepoliaRPCs` list and the process-wide `rpcRotator` instance are not modelled. `FetchWithRotation` takes the rotator as a parameter instead.
- Dispatch.Fetch: `maxRetries` is an integer. Three other JavaScript numbers are not modelled. A fractional value allows one more attempt than its floor. `NaN` allows no attempt, which is the same as `maxRetries <= 0`. `Infinity` retries until some attempt succeeds, and no integer bound captures that.
- Dispatch.ErrorMessage: the message of an `OtherErr` is taken as given by the transport. How a JSON parse failure words its message is outside the model.
- Dispatch.ErrorMessage: `HttpNotOk` models the status as a natural number. Its text is the decimal form, as a template literal prints it.
- Rotator.RoundRobin: states the order for up to one full cycle (`k <= n`). `FullCycle` shows that a cycle restores the state, so later cycles repeat it.
- Rotator.Healthy: its contract states membership. `HealthyCounts` states multiplicity. Configured order is fixed by its definition, and `HealthyHeadIsFirst` states the part of the order that `getNextEndpoint` and `getCurrentEndpoint` use.
- Rotator.StatsOf: does not claim `failed + healthy == total`. The quarantine may hold strings that are not configured, and the list may hold duplicates.
- Quarantine contents: the model does not claim the quarantine is a subset of the endpoints. `markAsFailed` accepts any string, and the model follows the code.
- `packages/react-app/src/App.tsx` and `packages/react-app/src/index.tsx` are not part of this model. They are React presentation and bootstrap configuration.
