/** `fetchWithRotation`: one JSON-RPC call retried over the rotator's
    endpoints. The network is replaced by a transport supplied by the caller,
    which says how each attempt ended; the rotator is passed in rather than
    being a process-wide instance. */
module Dispatch {
  import opened Wrappers
  import opened Rotator

  /** How one attempt ended, as seen by the retry loop. */
  datatype Outcome<T> =
    | Ok(result: T)                              // a response whose body carries `result`
    | HttpNotOk(status: nat, statusText: string) // a response whose status is not ok
    | RpcErr(message: string)                    // a body carrying `error` with this message
    | NetworkErr(message: string)                // a TypeError, or an error whose code is NETWORK_ERROR;
                                                 // this includes the TypeError that reading `error` off
                                                 // a JSON `null` body throws, so such a reachable
                                                 // endpoint is quarantined too
    | OtherErr(message: string)                  // any other thrown error, e.g. a body that is not JSON

  /** One attempt: the endpoint it was sent to and how it ended. */
  datatype Attempt<T> = Attempt(endpoint: string, outcome: Outcome<T>)

  /** What a call returns or throws, the attempts it made in order, and the
      rotator's state afterwards. */
  datatype Dispatched<T> = Dispatched(result: Result<T, string>, attempts: seq<Attempt<T>>, pool: Pool)

  function DigitChar(d: nat): char
    requires d < 10
  {
    "0123456789"[d]
  }

  /** Decimal notation of a status code, as a template literal prints it. */
  function NatToString(n: nat): string
  {
    if n < 10 then [DigitChar(n)] else NatToString(n / 10) + [DigitChar(n % 10)]
  }

  /** The message of the error an unsuccessful attempt throws. */
  function ErrorMessage<T>(o: Outcome<T>): string
    requires !o.Ok?
  {
    match o
    case HttpNotOk(status, statusText) => "HTTP " + NatToString(status) + ": " + statusText
    case RpcErr(message) => "RPC Error: " + message
    case NetworkErr(message) => message
    case OtherErr(message) => message
  }

  /** The message thrown once the attempts are used up; with no attempt made
      the last error is null and prints as `undefined`. */
  function ExhaustedMessage(lastError: Option<string>): string
  {
    "All RPC attempts failed. Last error: " + match lastError
                                              case Some(message) => message
                                              case None => "undefined"
  }

  /** How many attempts remain when attempt number `attempt` is next. */
  function Budget(attempt: int, maxRetries: int): nat
  {
    if attempt < maxRetries then maxRetries - attempt else 0
  }

  /** The rotator's state after an unsuccessful attempt at the selected
      endpoint: a network-class error quarantines the endpoint, any other
      failure leaves the state as the selection left it. */
  function Quarantined<T>(s: Selection, outcome: Outcome<T>): (r: Pool)
  {
    if outcome.NetworkErr? then s.pool.(failed := s.pool.failed + {s.endpoint}) else s.pool
  }

  /** The retry loop from attempt number `attempt` on, with `lastError` the
      message of the last failure so far. Each attempt takes the rotator's
      next endpoint and asks the transport; a result is returned at once; a
      network-class failure quarantines the endpoint; every failure is
      remembered and the loop goes on until `maxRetries` attempts are made. */
  function Fetch<T>(p: Pool, send: (string, nat) -> Outcome<T>, attempt: nat, maxRetries: int,
                    lastError: Option<string>): (r: Dispatched<T>)
    requires p.Valid()
    ensures r.pool.Valid() && r.pool.endpoints == p.endpoints
    ensures |r.attempts| <= Budget(attempt, maxRetries)
    decreases Budget(attempt, maxRetries), 1
  {
    if attempt >= maxRetries then
      Dispatched(Failure(ExhaustedMessage(lastError)), [], p)
    else
      TryEndpoint(Next(p), send, attempt, maxRetries)
  }

  /** One pass of the loop body once `s` has been selected: the transport is
      asked, a result ends the call, and a failure is remembered and the
      loop goes on from the state `Quarantined` leaves. */
  function TryEndpoint<T>(s: Selection, send: (string, nat) -> Outcome<T>, attempt: nat,
                          maxRetries: int): (r: Dispatched<T>)
    requires s.pool.Valid() && attempt < maxRetries
    ensures r.pool.Valid() && r.pool.endpoints == s.pool.endpoints
    ensures 1 <= |r.attempts| <= Budget(attempt, maxRetries)
    ensures r.attempts[0].endpoint == s.endpoint
    decreases Budget(attempt, maxRetries), 0
  {
    var outcome := send(s.endpoint, attempt);
    var tried := Attempt(s.endpoint, outcome);
    if outcome.Ok? then
      Dispatched(Success(outcome.result), [tried], s.pool)
    else
      var rest := Fetch(Quarantined(s, outcome), send, attempt + 1, maxRetries, Some(ErrorMessage(outcome)));
      Dispatched(rest.result, [tried] + rest.attempts, rest.pool)
  }

  /** Attempt number `first + i` went to one of `eps` and ended as `send`
      answers for that endpoint and that number. */
  ghost predicate FollowsTransport<T>(attempts: seq<Attempt<T>>, eps: seq<string>, send: (string, nat) -> Outcome<T>,
                                      first: nat)
  {
    forall i :: 0 <= i < |attempts| ==>
      attempts[i].endpoint in eps && attempts[i].outcome == send(attempts[i].endpoint, first + i)
  }

  lemma FollowsTransportCons<T>(a: Attempt<T>, rest: seq<Attempt<T>>, eps: seq<string>,
                                send: (string, nat) -> Outcome<T>, first: nat)
    requires a.endpoint in eps && a.outcome == send(a.endpoint, first)
    requires FollowsTransport(rest, eps, send, first + 1)
    ensures FollowsTransport([a] + rest, eps, send, first)
  {
    forall i | 0 < i < |[a] + rest|
      ensures ([a] + rest)[i] == rest[i - 1]
    {}
  }

  /** Every attempt is sent to a configured endpoint and ends as the
      transport answers for that endpoint and that attempt number. */
  lemma {:induction false} AttemptsFollowTransport<T>(p: Pool, send: (string, nat) -> Outcome<T>, attempt: nat,
                                                       maxRetries: int, lastError: Option<string>)
    requires p.Valid()
    ensures FollowsTransport(Fetch(p, send, attempt, maxRetries, lastError).attempts, p.endpoints, send, attempt)
    decreases Budget(attempt, maxRetries)
  {
    if attempt < maxRetries {
      var s := Next(p);
      assert Fetch(p, send, attempt, maxRetries, lastError) == TryEndpoint(s, send, attempt, maxRetries);
      var outcome := send(s.endpoint, attempt);
      var r := Fetch(p, send, attempt, maxRetries, lastError);
      if outcome.Ok? {
        assert r.attempts == [Attempt(s.endpoint, outcome)] + [];
        FollowsTransportCons(Attempt(s.endpoint, outcome), [], p.endpoints, send, attempt);
      } else {
        var marked := Quarantined(s, outcome);
        var rest := Fetch(marked, send, attempt + 1, maxRetries, Some(ErrorMessage(outcome)));
        AttemptsFollowTransport(marked, send, attempt + 1, maxRetries, Some(ErrorMessage(outcome)));
        assert r.attempts == [Attempt(s.endpoint, outcome)] + rest.attempts;
        FollowsTransportCons(Attempt(s.endpoint, outcome), rest.attempts, p.endpoints, send, attempt);
      }
    }
  }

  /** Every attempt but the last got no result, and the call succeeds exactly
      when the last one got a result, which is the one returned. */
  ghost predicate StopsAtFirstResult<T>(r: Dispatched<T>)
  {
    && (forall i :: 0 <= i < |r.attempts| - 1 ==> !r.attempts[i].outcome.Ok?)
    && (r.result.Success? <==> |r.attempts| > 0 && r.attempts[|r.attempts| - 1].outcome.Ok?)
    && (r.result.Success? ==> r.attempts[|r.attempts| - 1].outcome == Ok(r.result.value))
  }

  /** The call succeeds exactly when some attempt gets a result; that attempt
      is the last one made, and its result is what the call returns. */
  lemma {:induction false} SucceedsAtFirstOk<T>(p: Pool, send: (string, nat) -> Outcome<T>, attempt: nat,
                                                 maxRetries: int, lastError: Option<string>)
    requires p.Valid()
    ensures StopsAtFirstResult(Fetch(p, send, attempt, maxRetries, lastError))
    decreases Budget(attempt, maxRetries)
  {
    if attempt < maxRetries {
      var s := Next(p);
      assert Fetch(p, send, attempt, maxRetries, lastError) == TryEndpoint(s, send, attempt, maxRetries);
      var outcome := send(s.endpoint, attempt);
      if !outcome.Ok? {
        var marked := Quarantined(s, outcome);
        var rest := Fetch(marked, send, attempt + 1, maxRetries, Some(ErrorMessage(outcome)));
        SucceedsAtFirstOk(marked, send, attempt + 1, maxRetries, Some(ErrorMessage(outcome)));
        var r := Fetch(p, send, attempt, maxRetries, lastError);
        assert r.result == rest.result && r.attempts == [Attempt(s.endpoint, outcome)] + rest.attempts;
        forall i | 0 <= i < |r.attempts| - 1
          ensures !r.attempts[i].outcome.Ok?
        {
          if i > 0 {
            assert r.attempts[i] == rest.attempts[i - 1];
          }
        }
      }
    }
  }

  /** A failed call made all `budget` attempts, and its message carries the
      last attempt's error message, or `lastError` when it made none. */
  ghost predicate ReportsLastError<T>(r: Dispatched<T>, budget: nat, lastError: Option<string>)
  {
    r.result.Failure? ==>
      && |r.attempts| == budget
      && (|r.attempts| == 0 ==> r.result.error == ExhaustedMessage(lastError))
      && (|r.attempts| > 0 ==>
            !r.attempts[|r.attempts| - 1].outcome.Ok? &&
            r.result.error == ExhaustedMessage(Some(ErrorMessage(r.attempts[|r.attempts| - 1].outcome))))
  }

  /** A call that fails has used every one of its `maxRetries` attempts, and
      its message carries the message of the last attempt's error (or
      `undefined` when no attempt was made). */
  lemma {:induction false} ExhaustedReportsLastError<T>(p: Pool, send: (string, nat) -> Outcome<T>, attempt: nat,
                                                         maxRetries: int, lastError: Option<string>)
    requires p.Valid()
    ensures ReportsLastError(Fetch(p, send, attempt, maxRetries, lastError), Budget(attempt, maxRetries), lastError)
    decreases Budget(attempt, maxRetries)
  {
    if attempt < maxRetries {
      var s := Next(p);
      assert Fetch(p, send, attempt, maxRetries, lastError) == TryEndpoint(s, send, attempt, maxRetries);
      var outcome := send(s.endpoint, attempt);
      if !outcome.Ok? {
        var marked := Quarantined(s, outcome);
        var rest := Fetch(marked, send, attempt + 1, maxRetries, Some(ErrorMessage(outcome)));
        ExhaustedReportsLastError(marked, send, attempt + 1, maxRetries, Some(ErrorMessage(outcome)));
        var r := Fetch(p, send, attempt, maxRetries, lastError);
        assert r.attempts == [Attempt(s.endpoint, outcome)] + rest.attempts;
      }
    }
  }

  /** Every endpoint quarantined after the call and not in `before` was the
      target of an attempt that ended in a network-class error. */
  ghost predicate QuarantinedOnlyByNetworkErr<T>(r: Dispatched<T>, before: set<string>)
  {
    forall e :: e in r.pool.failed && e !in before ==>
      exists i :: 0 <= i < |r.attempts| && r.attempts[i].endpoint == e && r.attempts[i].outcome.NetworkErr?
  }

  /** Every endpoint that the call newly quarantines was the target of an
      attempt that ended in a network-class error: an HTTP status that is not
      ok, an RPC error payload or any other error never quarantines. */
  lemma {:induction false} MarksOnlyOnNetworkError<T>(p: Pool, send: (string, nat) -> Outcome<T>, attempt: nat,
                                                       maxRetries: int, lastError: Option<string>)
    requires p.Valid()
    ensures QuarantinedOnlyByNetworkErr(Fetch(p, send, attempt, maxRetries, lastError), p.failed)
    decreases Budget(attempt, maxRetries)
  {
    if attempt < maxRetries {
      var s := Next(p);
      assert Fetch(p, send, attempt, maxRetries, lastError) == TryEndpoint(s, send, attempt, maxRetries);
      var outcome := send(s.endpoint, attempt);
      assert s.pool.failed <= p.failed;
      if !outcome.Ok? {
        var marked := Quarantined(s, outcome);
        var rest := Fetch(marked, send, attempt + 1, maxRetries, Some(ErrorMessage(outcome)));
        MarksOnlyOnNetworkError(marked, send, attempt + 1, maxRetries, Some(ErrorMessage(outcome)));
        var r := Fetch(p, send, attempt, maxRetries, lastError);
        assert r.attempts == [Attempt(s.endpoint, outcome)] + rest.attempts;
        forall e | e in r.pool.failed && e !in p.failed
          ensures exists i :: 0 <= i < |r.attempts| && r.attempts[i].endpoint == e && r.attempts[i].outcome.NetworkErr?
        {
          if e in marked.failed {
            assert r.attempts[0] == Attempt(s.endpoint, outcome);
          } else {
            var j :| 0 <= j < |rest.attempts| && rest.attempts[j].endpoint == e && rest.attempts[j].outcome.NetworkErr?;
            assert r.attempts[j + 1] == rest.attempts[j];
          }
        }
      }
    }
  }

  /** Each network-class error quarantines its endpoint: after one, the next
      attempt goes to another endpoint unless every configured endpoint was
      then quarantined and the rotator failed open to the first one; and when
      the last attempt ended in one, its endpoint is still quarantined when
      the call returns. */
  ghost predicate QuarantinesOnNetworkErr<T>(r: Dispatched<T>, eps: seq<string>)
    requires eps != []
  {
    && (forall i :: 0 <= i < |r.attempts| - 1 && r.attempts[i].outcome.NetworkErr? ==>
          r.attempts[i + 1].endpoint != r.attempts[i].endpoint || r.attempts[i].endpoint == eps[0])
    && (|r.attempts| > 0 && r.attempts[|r.attempts| - 1].outcome.NetworkErr? ==>
          r.attempts[|r.attempts| - 1].endpoint in r.pool.failed)
  }

  /** A network-class error (a `TypeError`, or an error whose code is
      `NETWORK_ERROR`) always marks the endpoint it came from as failed. */
  lemma {:induction false} QuarantinesEveryNetworkError<T>(p: Pool, send: (string, nat) -> Outcome<T>, attempt: nat,
                                                            maxRetries: int, lastError: Option<string>)
    requires p.Valid()
    ensures QuarantinesOnNetworkErr(Fetch(p, send, attempt, maxRetries, lastError), p.endpoints)
    decreases Budget(attempt, maxRetries)
  {
    if attempt < maxRetries {
      var s := Next(p);
      assert Fetch(p, send, attempt, maxRetries, lastError) == TryEndpoint(s, send, attempt, maxRetries);
      var outcome := send(s.endpoint, attempt);
      if !outcome.Ok? {
        var marked := Quarantined(s, outcome);
        var rest := Fetch(marked, send, attempt + 1, maxRetries, Some(ErrorMessage(outcome)));
        QuarantinesEveryNetworkError(marked, send, attempt + 1, maxRetries, Some(ErrorMessage(outcome)));
        var r := Fetch(p, send, attempt, maxRetries, lastError);
        assert r.attempts == [Attempt(s.endpoint, outcome)] + rest.attempts && r.pool == rest.pool;
        if |rest.attempts| > 0 && outcome.NetworkErr? {
          var s' := Next(marked);
          assert rest == TryEndpoint(s', send, attempt + 1, maxRetries);
          assert s.endpoint in marked.failed;
          assert s'.endpoint != s.endpoint || s.endpoint == p.endpoints[0];
        }
        forall i | 0 < i < |r.attempts| - 1 && r.attempts[i].outcome.NetworkErr?
          ensures r.attempts[i + 1].endpoint != r.attempts[i].endpoint || r.attempts[i].endpoint == p.endpoints[0]
        {
          assert r.attempts[i] == rest.attempts[i - 1] && r.attempts[i + 1] == rest.attempts[i];
        }
        if |rest.attempts| > 0 {
          assert r.attempts[|r.attempts| - 1] == rest.attempts[|rest.attempts| - 1];
        }
      }
    }
  }

  /** After a network-class error the very next attempt, if the budget
      allows one, avoids the quarantined endpoint: it goes to an endpoint
      that is healthy once that one is quarantined, and only when none is
      left does the rotator fail open to the first configured endpoint. */
  lemma NextAttemptAfterNetworkError<T>(s: Selection, send: (string, nat) -> Outcome<T>, attempt: nat,
                                        maxRetries: int)
    requires s.pool.Valid() && attempt + 1 < maxRetries && send(s.endpoint, attempt).NetworkErr?
    ensures |TryEndpoint(s, send, attempt, maxRetries).attempts| >= 2
    ensures Healthy(s.pool.endpoints, s.pool.failed + {s.endpoint}) != [] ==>
              TryEndpoint(s, send, attempt, maxRetries).attempts[1].endpoint !in s.pool.failed + {s.endpoint}
    ensures Healthy(s.pool.endpoints, s.pool.failed + {s.endpoint}) == [] ==>
              TryEndpoint(s, send, attempt, maxRetries).attempts[1].endpoint == s.pool.endpoints[0]
  {
    var outcome := send(s.endpoint, attempt);
    var marked := Quarantined(s, outcome);
    var rest := Fetch(marked, send, attempt + 1, maxRetries, Some(ErrorMessage(outcome)));
    assert rest == TryEndpoint(Next(marked), send, attempt + 1, maxRetries);
    assert TryEndpoint(s, send, attempt, maxRetries).attempts == [Attempt(s.endpoint, outcome)] + rest.attempts;
  }

  /** No attempt in `attempts` ended in a network-class error. */
  predicate NoNetworkErr<T>(attempts: seq<Attempt<T>>)
  {
    forall i :: 0 <= i < |attempts| ==> !attempts[i].outcome.NetworkErr?
  }

  /** The call's attempts went to the endpoints that as many consecutive
      selections from `p` return, and left the rotator as they do. */
  ghost predicate FollowsRotation<T>(r: Dispatched<T>, p: Pool)
    requires p.Valid()
  {
    && r.pool == NextN(p, |r.attempts|).pool
    && forall i :: 0 <= i < |r.attempts| ==> r.attempts[i].endpoint == NextN(p, |r.attempts|).returned[i]
  }

  /** Without network-class errors nothing is quarantined by the call, so its
      attempts go to exactly the endpoints that as many consecutive calls of
      the rotation would return, and leave the rotator as those calls do. */
  lemma {:induction false} FollowsRotationWithoutNetworkErrors<T>(p: Pool, send: (string, nat) -> Outcome<T>,
                                                                  attempt: nat, maxRetries: int,
                                                                  lastError: Option<string>)
    requires p.Valid()
    requires NoNetworkErr(Fetch(p, send, attempt, maxRetries, lastError).attempts)
    ensures FollowsRotation(Fetch(p, send, attempt, maxRetries, lastError), p)
    decreases Budget(attempt, maxRetries)
  {
    if attempt < maxRetries {
      var s := Next(p);
      var r := Fetch(p, send, attempt, maxRetries, lastError);
      assert r == TryEndpoint(s, send, attempt, maxRetries);
      var outcome := send(s.endpoint, attempt);
      var tried := Attempt(s.endpoint, outcome);
      if outcome.Ok? {
        assert NextN(s.pool, 0) == Rotation([], s.pool);
        RotationCons(p, tried, Dispatched(r.result, [], s.pool));
      } else {
        assert !r.attempts[0].outcome.NetworkErr?;
        var rest := Fetch(s.pool, send, attempt + 1, maxRetries, Some(ErrorMessage(outcome)));
        assert r == Dispatched(rest.result, [tried] + rest.attempts, rest.pool);
        assert rest.attempts == r.attempts[1..];
        FollowsRotationWithoutNetworkErrors(s.pool, send, attempt + 1, maxRetries, Some(ErrorMessage(outcome)));
        RotationCons(p, tried, rest);
      }
    }
  }

  /** An attempt at the endpoint the rotation selects from `p`, followed by
      attempts that follow the rotation from there, follows the rotation. */
  lemma RotationCons<T>(p: Pool, tried: Attempt<T>, rest: Dispatched<T>)
    requires p.Valid() && tried.endpoint == Next(p).endpoint
    requires FollowsRotation(rest, Next(p).pool)
    ensures FollowsRotation(Dispatched(rest.result, [tried] + rest.attempts, rest.pool), p)
  {
    var r := Dispatched(rest.result, [tried] + rest.attempts, rest.pool);
    var rot := NextN(p, |r.attempts|);
    var rot' := NextN(Next(p).pool, |rest.attempts|);
    assert rot == FollowedBy(Next(p), |rest.attempts|);
    assert rot == Rotation([Next(p).endpoint] + rot'.returned, rot'.pool);
    forall i | 0 < i < |r.attempts|
      ensures r.attempts[i].endpoint == rot.returned[i]
    {
      assert r.attempts[i] == rest.attempts[i - 1];
      assert rot.returned[i] == rot'.returned[i - 1];
    }
  }

  /** The counted retry loop of `fetchWithRotation`: the rotator's state, the
      transport's answers and the result all agree with `Fetch`, and the
      rotator was asked for exactly one endpoint per attempt. */
  method FetchWithRotation<T>(rotator: RPCRotator, send: (string, nat) -> Outcome<T>, maxRetries: int)
    returns (r: Result<T, string>)
    requires rotator.Valid()
    modifies rotator
    ensures rotator.Valid()
    ensures r == Fetch(old(rotator.State()), send, 0, maxRetries, None).result
    ensures rotator.State() == Fetch(old(rotator.State()), send, 0, maxRetries, None).pool
    ensures rotator.nextCalls == old(rotator.nextCalls) + |Fetch(old(rotator.State()), send, 0, maxRetries, None).attempts|
  {
    ghost var total := Fetch(rotator.State(), send, 0, maxRetries, None);
    ghost var rest := total;
    var lastError: Option<string> := None;
    var attempt: nat := 0;
    while attempt < maxRetries
      invariant rotator.Valid()
      invariant rest == Fetch(rotator.State(), send, attempt, maxRetries, lastError)
      invariant rest.result == total.result && rest.pool == total.pool
      invariant |total.attempts| == attempt + |rest.attempts|
      invariant rotator.nextCalls == old(rotator.nextCalls) + attempt
      decreases maxRetries - attempt
    {
      ghost var before := rotator.State();
      var endpoint := rotator.GetNextEndpoint();
      ghost var s := Selection(endpoint, rotator.State());
      assert s == Next(before);
      assert rest == TryEndpoint(s, send, attempt, maxRetries);
      var outcome := send(endpoint, attempt);
      if outcome.Ok? {
        assert rest == Dispatched(Success(outcome.result), [Attempt(endpoint, outcome)], s.pool);
        return Success(outcome.result);
      }
      lastError := Some(ErrorMessage(outcome));
      if outcome.NetworkErr? {
        rotator.MarkAsFailed(endpoint);
      }
      assert rotator.State() == Quarantined(s, outcome);
      ghost var later := Fetch(rotator.State(), send, attempt + 1, maxRetries, lastError);
      assert rest == Dispatched(later.result, [Attempt(endpoint, outcome)] + later.attempts, later.pool);
      rest := later;
      attempt := attempt + 1;
    }
    assert rest == Dispatched(Failure(ExhaustedMessage(lastError)), [], rotator.State());
    return Failure(ExhaustedMessage(lastError));
  }
}
