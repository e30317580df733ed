/** The RPC endpoint rotator: a fixed, non-empty list of endpoint URLs, a
    round-robin cursor over it and a set of quarantined URLs.

    The state is described twice: as the value `Pool` (used by the
    specification functions and the lemmas) and as the class `RPCRotator`,
    whose methods update their fields in place and are proved to agree with
    the specification functions on `Pool`. */
module Rotator {
  import opened Wrappers

  // ---------------------------------------------------------------------
  // Arithmetic on the wrapping cursor
  // ---------------------------------------------------------------------

  /** The index `k` places on from index `c` in a ring of `n` entries, for
      at most one full turn. This is `(c + k) % n` (`IndexIsMod`), written
      as one conditional subtraction so that the solver stays in linear
      arithmetic. */
  function Index(c: nat, k: nat, n: nat): (r: nat)
    requires c < n && k <= n
    ensures r < n
  {
    if c + k < n then c + k else c + k - n
  }

  lemma MulAtLeast(d: int, n: int)
    requires n > 0 && d >= 1
    ensures d * n >= n
  {}

  /** Euclidean remainders are unique. */
  lemma ModUnique(a: int, q: int, r: int, n: int)
    requires n > 0 && 0 <= r < n && a == q * n + r
    ensures a % n == r
  {
    var q', r' := a / n, a % n;
    assert a == q' * n + r';
    assert (q - q') * n == r' - r;
    if q > q' { MulAtLeast(q - q', n); }
    else if q' > q { MulAtLeast(q' - q, n); }
  }

  lemma IndexIsMod(c: nat, k: nat, n: nat)
    requires c < n && k <= n
    ensures Index(c, k, n) == (c + k) % n
  {
    if c + k < n {
      ModUnique(c + k, 0, c + k, n);
    } else {
      ModUnique(c + k, 1, c + k - n, n);
    }
  }

  /** Two moves that together stay within one turn compose. */
  lemma IndexAdd(c: nat, a: nat, b: nat, n: nat)
    requires c < n && a + b <= n
    ensures Index(Index(c, a, n), b, n) == Index(c, a + b, n)
  {}

  /** The cursor update `(currentIndex + 1) % length` of `getNextEndpoint`,
      on a cursor `k` places past where the walk began. */
  lemma CursorStep(c: nat, k: nat, n: nat)
    requires c < n && k < n
    ensures (Index(c, k, n) + 1) % n == Index(c, k + 1, n)
  {
    IndexIsMod(Index(c, k, n), 1, n);
    IndexAdd(c, k, 1, n);
  }

  // ---------------------------------------------------------------------
  // The state as a value
  // ---------------------------------------------------------------------

  /** A snapshot of a rotator: the configured endpoints, the index of the
      next candidate and the quarantined URLs. `failed` may hold URLs that
      are not configured, since marking accepts any string. */
  datatype Pool = Pool(endpoints: seq<string>, cursor: nat, failed: set<string>)
  {
    /** The list is non-empty and the cursor indexes it. */
    ghost predicate Valid()
    {
      |endpoints| > 0 && cursor < |endpoints|
    }
  }

  /** What one call of the selection returns, and the state after it. */
  datatype Selection = Selection(endpoint: string, pool: Pool)

  /** What `k` consecutive selections return, in order, and the final state. */
  datatype Rotation = Rotation(returned: seq<string>, pool: Pool)

  /** The read-only snapshot reported for observability. */
  datatype Stats = Stats(total: nat, healthy: nat, failed: nat, current: string)

  /** Result of one liveness probe of a quarantined endpoint: an ok response,
      a response whose status is not ok, or a thrown error. */
  datatype ProbeOutcome = ProbeOk | ProbeNotOk(status: nat) | ProbeThrew(message: string)

  /** The configured endpoints that are not quarantined, in configured order. */
  function Healthy(eps: seq<string>, failed: set<string>): (r: seq<string>)
    ensures |r| <= |eps|
    ensures forall e :: e in r <==> e in eps && e !in failed
  {
    if eps == [] then []
    else if eps[0] !in failed then [eps[0]] + Healthy(eps[1..], failed)
    else Healthy(eps[1..], failed)
  }

  /** The filter keeps duplicates: each string occurs in the healthy list as
      often as it is configured, unless it is quarantined. */
  lemma {:induction false} HealthyCounts(eps: seq<string>, failed: set<string>)
    ensures forall e :: multiset(Healthy(eps, failed))[e] == if e in failed then 0 else multiset(eps)[e]
  {
    if eps != [] {
      HealthyCounts(eps[1..], failed);
      assert eps == [eps[0]] + eps[1..];
    }
  }

  /** The head of the healthy list is the first configured endpoint that is
      not quarantined. */
  lemma {:induction false} HealthyHeadIsFirst(eps: seq<string>, failed: set<string>)
    requires Healthy(eps, failed) != []
    ensures exists i :: 0 <= i < |eps| && eps[i] == Healthy(eps, failed)[0] && eps[i] !in failed &&
                        forall j :: 0 <= j < i ==> eps[j] in failed
  {
    if eps[0] in failed {
      HealthyHeadIsFirst(eps[1..], failed);
      var i :| 0 <= i < |eps[1..]| && eps[1..][i] == Healthy(eps[1..], failed)[0] && eps[1..][i] !in failed &&
               forall j :: 0 <= j < i ==> eps[1..][j] in failed;
      assert eps[i + 1] == Healthy(eps, failed)[0];
      assert forall j :: 0 <= j < i + 1 ==> eps[j] in failed by {
        forall j | 0 <= j < i + 1 ensures eps[j] in failed {
          if j > 0 { assert eps[j] == eps[1..][j - 1]; }
        }
      }
    } else {
      assert eps[0] == Healthy(eps, failed)[0];
    }
  }

  /** The endpoint `k` places ahead of index `start`, wrapping around, for
      at most one full turn: `eps[(start + k) % |eps|]` (`AheadIsMod`). */
  function Ahead(eps: seq<string>, start: nat, k: nat): string
    requires start < |eps| && k <= |eps|
  {
    eps[Index(start, k, |eps|)]
  }

  lemma AheadIsMod(eps: seq<string>, start: nat, k: nat)
    requires start < |eps| && k <= |eps|
    ensures Ahead(eps, start, k) == eps[(start + k) % |eps|]
  {
    IndexIsMod(start, k, |eps|);
  }

  /** How many places index `i` lies ahead of index `c`. */
  function Dist(c: nat, i: nat, n: nat): (d: nat)
    requires c < n && i < n
    ensures d < n
  {
    if c <= i then i - c else i - c + n
  }

  lemma AheadZero(eps: seq<string>, c: nat)
    requires c < |eps|
    ensures Ahead(eps, c, 0) == eps[c]
  {}

  lemma AheadDist(eps: seq<string>, c: nat, i: nat)
    requires c < |eps| && i < |eps|
    ensures Ahead(eps, c, Dist(c, i, |eps|)) == eps[i]
  {}

  /** Looking `j` places ahead of the cursor left `k + 1` places on is looking
      `k + 1 + j` places ahead of the old cursor. */
  lemma AheadAfterStep(eps: seq<string>, c: nat, k: nat, j: nat)
    requires c < |eps| && k + 1 + j <= |eps|
    ensures Ahead(eps, Index(c, k + 1, |eps|), j) == Ahead(eps, c, k + 1 + j)
  {
    IndexAdd(c, k + 1, j, |eps|);
  }

  lemma DistAfterStep(c: nat, k: nat, i: nat, n: nat)
    requires c < n && i < n && k < Dist(c, i, n)
    ensures Dist(Index(c, k + 1, n), i, n) == Dist(c, i, n) - k - 1
  {}

  /** A full turn brings the cursor back. */
  lemma CursorFullTurn(c: nat, n: nat)
    requires c < n
    ensures Index(c, n, n) == c
  {}

  /** Reading ahead of index `c` is reading the list rotated left by `c`. */
  lemma AheadRotated(eps: seq<string>, c: nat, j: nat)
    requires c < |eps| && j < |eps|
    ensures Ahead(eps, c, j) == (eps[c..] + eps[..c])[j]
  {}

  lemma RotatedMultiset(eps: seq<string>, c: int)
    requires 0 <= c <= |eps|
    ensures multiset(eps[c..] + eps[..c]) == multiset(eps)
  {
    assert eps == eps[..c] + eps[c..];
  }

  /** How many entries the scan that starts at index `start` skips before it
      meets one that is not quarantined, counting from `k`; `|eps|` when the
      scan wraps all the way round without finding one. */
  function SkipCount(eps: seq<string>, failed: set<string>, start: nat, k: nat): (r: nat)
    requires start < |eps| && k <= |eps|
    ensures k <= r <= |eps|
    ensures r < |eps| ==> Ahead(eps, start, r) !in failed
    ensures forall j :: k <= j < r ==> Ahead(eps, start, j) in failed
    decreases |eps| - k
  {
    if k == |eps| then k
    else if Ahead(eps, start, k) !in failed then k
    else SkipCount(eps, failed, start, k + 1)
  }

  /** The skip count is the first offset whose entry is healthy. */
  lemma SkipCountExact(eps: seq<string>, failed: set<string>, start: nat, k: nat)
    requires start < |eps| && k <= |eps|
    requires forall j :: 0 <= j < k ==> Ahead(eps, start, j) in failed
    requires k < |eps| ==> Ahead(eps, start, k) !in failed
    ensures SkipCount(eps, failed, start, 0) == k
  {}

  /** One call of `getNextEndpoint`. When every configured endpoint is
      quarantined the pool fails open: the quarantine is emptied and the first
      endpoint is returned. Otherwise the cursor walks forward, wrapping, past
      quarantined entries, and stops just after the first healthy one, which
      is returned. The last branch is `getNextEndpoint`'s fallback to the first
      healthy endpoint after a full unsuccessful walk (see
      `FallbackUnreachable`). */
  function Next(p: Pool): (r: Selection)
    requires p.Valid()
    ensures r.pool.Valid() && r.pool.endpoints == p.endpoints
    ensures r.endpoint in p.endpoints
    ensures Healthy(p.endpoints, p.failed) != [] ==>
              r.endpoint !in p.failed && r.pool.failed == p.failed
    ensures Healthy(p.endpoints, p.failed) == [] ==>
              r.endpoint == p.endpoints[0] && r.pool == p.(failed := {})
  {
    var eps := p.endpoints;
    var healthy := Healthy(eps, p.failed);
    if healthy == [] then
      Selection(eps[0], p.(failed := {}))
    else
      var k := SkipCount(eps, p.failed, p.cursor, 0);
      if k < |eps| then
        Selection(Ahead(eps, p.cursor, k), p.(cursor := Index(p.cursor, k + 1, |eps|)))
      else
        assert healthy[0] in healthy;
        Selection(healthy[0], p.(cursor := Index(p.cursor, |eps|, |eps|)))
  }

  /** While some configured endpoint is healthy, the walk always meets one
      before it has looked at every entry, so the fallback after the walk is
      never taken. */
  lemma FallbackUnreachable(p: Pool)
    requires p.Valid() && Healthy(p.endpoints, p.failed) != []
    ensures SkipCount(p.endpoints, p.failed, p.cursor, 0) < |p.endpoints|
  {
    var eps, c, n := p.endpoints, p.cursor, |p.endpoints|;
    var h := Healthy(eps, p.failed)[0];
    assert h in Healthy(eps, p.failed);
    var i :| 0 <= i < n && eps[i] == h;
    AheadDist(eps, c, i);
  }

  /** The selection returns the first healthy endpoint in rotation order
      from the cursor, and leaves the cursor just past it. */
  lemma NextIsFirstHealthyAhead(p: Pool)
    requires p.Valid() && Healthy(p.endpoints, p.failed) != []
    ensures exists k :: 0 <= k < |p.endpoints| &&
              Next(p).endpoint == Ahead(p.endpoints, p.cursor, k) &&
              Next(p).pool.cursor == Index(p.cursor, k + 1, |p.endpoints|) &&
              forall j :: 0 <= j < k ==> Ahead(p.endpoints, p.cursor, j) in p.failed
  {
    FallbackUnreachable(p);
    var k := SkipCount(p.endpoints, p.failed, p.cursor, 0);
    assert Next(p).endpoint == Ahead(p.endpoints, p.cursor, k);
  }

  /** When the entry at the cursor is healthy it is the one returned, and the
      cursor moves one place on. */
  lemma NextAtHealthyCursor(p: Pool)
    requires p.Valid() && p.endpoints[p.cursor] !in p.failed
    ensures Next(p) == Selection(p.endpoints[p.cursor], p.(cursor := Index(p.cursor, 1, |p.endpoints|)))
  {
    assert p.endpoints[p.cursor] in Healthy(p.endpoints, p.failed);
    AheadZero(p.endpoints, p.cursor);
    SkipCountExact(p.endpoints, p.failed, p.cursor, 0);
  }

  /** `k` consecutive calls of `getNextEndpoint`, with nothing in between. */
  function NextN(p: Pool, k: nat): (r: Rotation)
    requires p.Valid()
    ensures |r.returned| == k
    ensures r.pool.Valid() && r.pool.endpoints == p.endpoints
    decreases k, 0
  {
    if k == 0 then Rotation([], p) else FollowedBy(Next(p), k - 1)
  }

  /** The selection `s` followed by `k` further calls. */
  function FollowedBy(s: Selection, k: nat): (r: Rotation)
    requires s.pool.Valid()
    ensures |r.returned| == k + 1 && r.returned[0] == s.endpoint
    ensures r.pool.Valid() && r.pool.endpoints == s.pool.endpoints
    decreases k, 1
  {
    var rest := NextN(s.pool, k);
    Rotation([s.endpoint] + rest.returned, rest.pool)
  }

  /** Every endpoint returned is configured and not in `failed`. */
  ghost predicate AllHealthy(returned: seq<string>, eps: seq<string>, failed: set<string>)
  {
    forall j :: 0 <= j < |returned| ==> returned[j] in eps && returned[j] !in failed
  }

  lemma AllHealthyCons(e: string, rest: seq<string>, eps: seq<string>, failed: set<string>)
    requires e in eps && e !in failed && AllHealthy(rest, eps, failed)
    ensures AllHealthy([e] + rest, eps, failed)
  {
    forall j | 0 < j < |[e] + rest|
      ensures ([e] + rest)[j] == rest[j - 1]
    {}
  }

  /** While some configured endpoint is healthy, consecutive calls never
      return a quarantined endpoint and never change the quarantine. */
  lemma {:induction false} NextNAvoidsFailed(p: Pool, k: nat)
    requires p.Valid() && Healthy(p.endpoints, p.failed) != []
    ensures NextN(p, k).pool.failed == p.failed
    ensures AllHealthy(NextN(p, k).returned, p.endpoints, p.failed)
    decreases k
  {
    if k > 0 {
      var s := Next(p);
      var rest := NextN(s.pool, k - 1);
      assert NextN(p, k) == Rotation([s.endpoint] + rest.returned, rest.pool);
      assert s.pool == p.(cursor := s.pool.cursor);
      NextNAvoidsFailed(s.pool, k - 1);
      AllHealthyCons(s.endpoint, rest.returned, p.endpoints, p.failed);
    }
  }

  /** With no configured endpoint quarantined, consecutive calls starting at
      cursor `c` return `endpoints[c]`, `endpoints[(c + 1) % n]`, ... in order,
      and leave the cursor `k` places further on (for up to one full cycle). */
  lemma {:induction false} RoundRobin(p: Pool, k: nat)
    requires p.Valid() && k <= |p.endpoints|
    requires forall i :: 0 <= i < |p.endpoints| ==> p.endpoints[i] !in p.failed
    ensures forall j :: 0 <= j < k ==> NextN(p, k).returned[j] == Ahead(p.endpoints, p.cursor, j)
    ensures NextN(p, k).pool == p.(cursor := Index(p.cursor, k, |p.endpoints|))
    decreases k
  {
    var eps, c, n := p.endpoints, p.cursor, |p.endpoints|;
    if k > 0 {
      NextAtHealthyCursor(p);
      var s := Next(p);
      var q := p.(cursor := Index(c, 1, n));
      assert s == Selection(eps[c], q);
      RoundRobin(q, k - 1);
      var rest := NextN(q, k - 1);
      assert NextN(p, k) == Rotation([eps[c]] + rest.returned, rest.pool);
      forall j | 0 < j < k
        ensures NextN(p, k).returned[j] == Ahead(eps, c, j)
      {
        assert NextN(p, k).returned[j] == rest.returned[j - 1];
        AheadAfterStep(eps, c, 0, j - 1);
      }
      IndexAdd(c, 1, k - 1, n);
    }
  }

  /** With no configured endpoint quarantined, `|endpoints|` consecutive calls
      return every configured endpoint exactly once, in configured order
      starting from the cursor, and bring the cursor back to where it was. */
  lemma FullCycle(p: Pool)
    requires p.Valid()
    requires forall i :: 0 <= i < |p.endpoints| ==> p.endpoints[i] !in p.failed
    ensures NextN(p, |p.endpoints|).pool == p
    ensures NextN(p, |p.endpoints|).returned == p.endpoints[p.cursor..] + p.endpoints[..p.cursor]
  {
    var eps, c, n := p.endpoints, p.cursor, |p.endpoints|;
    var rot := NextN(p, n);
    RoundRobin(p, n);
    CursorFullTurn(c, n);
    assert rot.pool == p.(cursor := c) == p;
    RotatedOrder(eps, c, rot.returned);
  }

  /** ... so a full cycle is a permutation of the configured list. */
  lemma FullCycleIsPermutation(p: Pool)
    requires p.Valid()
    requires forall i :: 0 <= i < |p.endpoints| ==> p.endpoints[i] !in p.failed
    ensures multiset(NextN(p, |p.endpoints|).returned) == multiset(p.endpoints)
  {
    FullCycle(p);
    RotatedMultiset(p.endpoints, p.cursor);
  }

  /** A sequence that reads ahead of index `c` is the list rotated left by `c`. */
  lemma RotatedOrder(eps: seq<string>, c: nat, r: seq<string>)
    requires c < |eps| && |r| == |eps|
    requires forall j :: 0 <= j < |r| ==> r[j] == Ahead(eps, c, j)
    ensures r == eps[c..] + eps[..c]
  {
    forall j | 0 <= j < |r|
      ensures r[j] == (eps[c..] + eps[..c])[j]
    {
      AheadRotated(eps, c, j);
    }
  }

  lemma FirstReturned(p: Pool, m: nat)
    requires p.Valid() && m > 0
    ensures Next(p).endpoint in NextN(p, m).returned
  {
    assert NextN(p, m).returned[0] == Next(p).endpoint;
  }

  lemma LaterReturned(p: Pool, m: nat, e: string)
    requires p.Valid() && m > 0 && e in NextN(Next(p).pool, m - 1).returned
    ensures e in NextN(p, m).returned
  {
    var rest := NextN(Next(p).pool, m - 1).returned;
    var j :| 0 <= j < |rest| && rest[j] == e;
    assert NextN(p, m).returned[j + 1] == e;
  }

  /** A healthy endpoint `d` places ahead of the cursor is returned within
      `d + 1` consecutive calls: every call either returns it or stops
      strictly before it. */
  lemma {:induction false} VisitedWithin(p: Pool, i: int, m: nat)
    requires p.Valid() && 0 <= i < |p.endpoints| && p.endpoints[i] !in p.failed
    requires Dist(p.cursor, i, |p.endpoints|) < m
    ensures p.endpoints[i] in NextN(p, m).returned
    decreases m
  {
    VisitStep(p, i);
    var q := Next(p).pool;
    if Next(p).endpoint == p.endpoints[i] {
      FirstReturned(p, m);
    } else {
      VisitedWithin(q, i, m - 1);
      LaterReturned(p, m, p.endpoints[i]);
    }
  }

  /** One selection either returns the healthy endpoint at index `i` or
      moves the cursor strictly closer to it, leaving the quarantine alone. */
  lemma VisitStep(p: Pool, i: int)
    requires p.Valid() && 0 <= i < |p.endpoints| && p.endpoints[i] !in p.failed
    ensures Next(p).endpoint == p.endpoints[i] ||
            (Next(p).pool == p.(cursor := Next(p).pool.cursor) &&
             Dist(Next(p).pool.cursor, i, |p.endpoints|) < Dist(p.cursor, i, |p.endpoints|))
  {
    var eps, c, n := p.endpoints, p.cursor, |p.endpoints|;
    var d := Dist(c, i, n);
    AheadDist(eps, c, i);
    assert eps[i] in Healthy(eps, p.failed);
    NextIsFirstHealthyAhead(p);
    var s := Next(p);
    var k :| 0 <= k < n && s.endpoint == Ahead(eps, c, k) && s.pool.cursor == Index(c, k + 1, n) &&
             forall j :: 0 <= j < k ==> Ahead(eps, c, j) in p.failed;
    assert k <= d;
    if k < d {
      DistAfterStep(c, k, i, n);
    }
  }

  /** Every configured endpoint that is not quarantined, in particular one a
      probe has just recovered, is returned within one full cycle of
      `|endpoints|` consecutive calls, wherever the cursor stands. */
  lemma HealthyVisitedInCycle(p: Pool, e: string)
    requires p.Valid() && e in p.endpoints && e !in p.failed
    ensures e in NextN(p, |p.endpoints|).returned
  {
    var i :| 0 <= i < |p.endpoints| && p.endpoints[i] == e;
    VisitedWithin(p, i, |p.endpoints|);
  }

  /** A three-endpoint pool with the middle one quarantined: starting at cursor 0, four calls return A, C, A, C. */
  lemma SkipsQuarantinedExample()
    ensures NextN(Pool(["A", "B", "C"], 0, {"B"}), 4).returned == ["A", "C", "A", "C"]
  {
    var p := Pool(["A", "B", "C"], 0, {"B"});
    assert Healthy(p.endpoints, p.failed) == ["A", "C"];
    var s1 := Next(p);
    assert Ahead(p.endpoints, 0, 0) == "A";
    assert s1 == Selection("A", p.(cursor := 1));
    var s2 := Next(s1.pool);
    assert Ahead(p.endpoints, 1, 0) == "B" && Ahead(p.endpoints, 1, 1) == "C";
    assert s2 == Selection("C", p.(cursor := 0));
  }

  /** `getCurrentEndpoint`: the endpoint at the cursor if it is healthy, else
      the first healthy one in configured order, else the first configured
      one. */
  function Current(p: Pool): (r: string)
    requires p.Valid()
    ensures r in p.endpoints
    ensures Healthy(p.endpoints, p.failed) != [] ==> r !in p.failed
    ensures Healthy(p.endpoints, p.failed) == [] ==> r == p.endpoints[0]
    ensures p.endpoints[p.cursor] !in p.failed ==> r == p.endpoints[p.cursor]
    ensures p.endpoints[p.cursor] in p.failed && Healthy(p.endpoints, p.failed) != [] ==>
              exists i :: 0 <= i < |p.endpoints| && p.endpoints[i] == r && r !in p.failed &&
                          forall j :: 0 <= j < i ==> p.endpoints[j] in p.failed
  {
    var healthy := Healthy(p.endpoints, p.failed);
    if healthy == [] then p.endpoints[0]
    else
      assert healthy[0] in healthy;
      var current := p.endpoints[p.cursor];
      if current in p.failed then
        HealthyHeadIsFirst(p.endpoints, p.failed);
        healthy[0]
      else current
  }

  /** The peek predicts the next selection whenever the entry at the cursor
      is healthy or everything is quarantined. */
  lemma CurrentPredictsNext(p: Pool)
    requires p.Valid()
    requires p.endpoints[p.cursor] !in p.failed || Healthy(p.endpoints, p.failed) == []
    ensures Next(p).endpoint == Current(p)
  {
    if p.endpoints[p.cursor] !in p.failed {
      NextAtHealthyCursor(p);
    }
  }

  /** `getStats`. */
  function StatsOf(p: Pool): (r: Stats)
    requires p.Valid()
    ensures r.total == |p.endpoints| > 0
    ensures r.healthy <= r.total
    ensures r.healthy == 0 <==> forall e :: e in p.endpoints ==> e in p.failed
    ensures r.failed == |p.failed|
    ensures r.current in p.endpoints
    ensures r.healthy > 0 ==> r.current !in p.failed
    ensures r.healthy == |Healthy(p.endpoints, p.failed)| && r.current == Current(p)
  {
    var healthy := Healthy(p.endpoints, p.failed);
    assert healthy != [] ==> healthy[0] in healthy;
    Stats(|p.endpoints|, |healthy|, |p.failed|, Current(p))
  }

  // ---------------------------------------------------------------------
  // The rotator object
  // ---------------------------------------------------------------------

  class RPCRotator {
    /** The configured endpoints, copied at construction and never changed. */
    const endpoints: seq<string>
    var currentIndex: nat
    var failedEndpoints: set<string>
    /** How many times `GetNextEndpoint` has been called. */
    ghost var nextCalls: nat

    ghost predicate Valid()
      reads this
    {
      State().Valid()
    }

    /** The object's state as a value. */
    function State(): Pool
      reads this
    {
      Pool(endpoints, currentIndex, failedEndpoints)
    }

    constructor (endpoints: seq<string>)
      requires endpoints != []
      ensures Valid() && State() == Pool(endpoints, 0, {}) && nextCalls == 0
    {
      this.endpoints := endpoints;
      currentIndex := 0;
      failedEndpoints := {};
      nextCalls := 0;
    }

    /** Construction: throws when the list is empty, otherwise holds a copy of
        it with the cursor at 0 and nothing quarantined. */
    static method Create(endpoints: seq<string>) returns (r: Result<RPCRotator, string>)
      ensures r.Failure? <==> endpoints == []
      ensures r.Failure? ==> r.error == "At least one RPC endpoint is required"
      ensures r.Success? ==> fresh(r.value) && r.value.Valid() &&
                             r.value.State() == Pool(endpoints, 0, {}) && r.value.nextCalls == 0
    {
      if |endpoints| == 0 {
        return Failure("At least one RPC endpoint is required");
      }
      var rotator := new RPCRotator(endpoints);
      return Success(rotator);
    }

    /** `getHealthyEndpoints`. */
    function HealthyEndpoints(): seq<string>
      reads this
    {
      Healthy(endpoints, failedEndpoints)
    }

    /** `getNextEndpoint`: the round-robin walk over the endpoint list, with
        the `while` loop and `%` cursor update of `rpcRotator.ts`. */
    method GetNextEndpoint() returns (endpoint: string)
      requires Valid()
      modifies this`currentIndex, this`failedEndpoints, this`nextCalls
      ensures Valid()
      ensures Selection(endpoint, State()) == Next(old(State()))
      ensures nextCalls == old(nextCalls) + 1
    {
      ghost var p0 := State();
      nextCalls := nextCalls + 1;
      var healthy := HealthyEndpoints();
      if |healthy| == 0 {
        failedEndpoints := {};
        return endpoints[0];
      }
      var attempts := 0;
      while attempts < |endpoints|
        invariant 0 <= attempts <= |endpoints|
        invariant currentIndex == Index(p0.cursor, attempts, |endpoints|)
        invariant failedEndpoints == p0.failed && nextCalls == old(nextCalls) + 1
        invariant forall j :: 0 <= j < attempts ==> Ahead(endpoints, p0.cursor, j) in failedEndpoints
      {
        var candidate := endpoints[currentIndex];
        CursorStep(p0.cursor, attempts, |endpoints|);
        currentIndex := (currentIndex + 1) % |endpoints|;
        if candidate !in failedEndpoints {
          SkipCountExact(endpoints, failedEndpoints, p0.cursor, attempts);
          return candidate;
        }
        attempts := attempts + 1;
      }
      SkipCountExact(endpoints, failedEndpoints, p0.cursor, attempts);
      endpoint := healthy[0];
    }

    /** `getCurrentEndpoint`: a peek, so it cannot change the state. */
    function GetCurrentEndpoint(): string
      reads this
      requires Valid()
    {
      Current(State())
    }

    /** `markAsFailed`: quarantines any string, configured or not; marking
        twice is the same as marking once. The probe it schedules is not
        modelled here; its effect is `RetryFailedEndpoint`. */
    method MarkAsFailed(endpoint: string)
      requires Valid()
      modifies this`failedEndpoints
      ensures Valid()
      ensures failedEndpoints == old(failedEndpoints) + {endpoint}
      ensures endpoint in old(failedEndpoints) ==> failedEndpoints == old(failedEndpoints)
    {
      failedEndpoints := failedEndpoints + {endpoint};
    }

    /** The effect on the state of one recovery probe of `endpoint`: an ok
        response lifts exactly that endpoint's quarantine; a response that is
        not ok changes nothing and schedules nothing; a thrown error changes
        nothing and schedules another probe, reported as `retryScheduled`. */
    method RetryFailedEndpoint(endpoint: string, outcome: ProbeOutcome) returns (retryScheduled: bool)
      requires Valid()
      modifies this`failedEndpoints
      ensures Valid()
      ensures outcome.ProbeOk? ==> failedEndpoints == old(failedEndpoints) - {endpoint}
      ensures !outcome.ProbeOk? ==> failedEndpoints == old(failedEndpoints)
      ensures retryScheduled <==> outcome.ProbeThrew?
    {
      match outcome {
        case ProbeOk =>
          failedEndpoints := failedEndpoints - {endpoint};
          retryScheduled := false;
        case ProbeNotOk(_) =>
          retryScheduled := false;
        case ProbeThrew(_) =>
          retryScheduled := true;
      }
    }

    /** `getStats`: a read-only snapshot. */
    function GetStats(): Stats
      reads this
      requires Valid()
    {
      StatsOf(State())
    }
  }
}
