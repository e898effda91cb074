/** The response cache of the HTTP client (internal/client/client.go: `GetWithHeaders`,
    `GetWithHeadersNoCache`, cache read, write and invalidation) in front of the retry loop.

    The server is any state machine; a request key stands for path, parameters and headers, and
    hashing it is injective here. */
module ResponseCache {
  import opened Wrappers
  import opened RetryLoop

  /** `body` is what a GET would return; `apply` what an accepted mutating request does. */
  datatype Server<!S, !K, !B, !Q> = Server(body: (S, K) -> B, apply: (S, Q) -> S)

  /** One call of the client.  `cacheable` is `responseCacheEnabled`, `expired` says whether an entry
      found is too old or was stored for another session. */
  datatype Op<+K, +Q> =
    | Get(key: K, cacheable: bool, expired: bool, p: Policy, env: Environment)
    | GetNoCache(key: K, cacheable: bool, p: Policy, env: Environment)
    | Mutate(req: Q, verifyMode: bool, p: Policy, env: Environment)

  /** The server took the request: it answered below 400, whether or not the body arrived. */
  predicate Accepted(a: Answer) {
    (a.Response? || a.BodyUnreadable?) && a.status < 400
  }

  function ResultOf(p: Policy, env: Environment): Result {
    Verdict(p, env, Last(p, env, 0))
  }

  /** The server after the first `n` sends of a mutating request: every send it accepts takes effect. */
  function Effects<S, K, B, Q>(server: Server<S, K, B, Q>, s: S, req: Q, env: Environment, n: nat): S {
    if n == 0 then s
    else
      var before := Effects(server, s, req, env, n - 1);
      if Accepted(env.answer(n - 1)) then server.apply(before, req) else before
  }

  /** The server after a call. */
  function ServerAfter<S, K, B, Q>(server: Server<S, K, B, Q>, s: S, op: Op<K, Q>): S {
    match op
    case Mutate(req, verifyMode, p, env) =>
      if verifyMode then s else Effects(server, s, req, env, Sends(env, Last(p, env, 0)))
    case _ => s
  }

  /** What a client without a cache replies to a GET. */
  function Uncached<S, K, B, Q>(server: Server<S, K, B, Q>, s: S, op: Op<K, Q>): Option<B>
    requires !op.Mutate?
  {
    if ResultOf(op.p, op.env).Succeeded? then Some(server.body(s, op.key)) else None
  }

  /** What the caching client replies. */
  function Cached<S, K(==), B, Q>(server: Server<S, K, B, Q>, s: S, cache: map<K, B>, op: Op<K, Q>): Option<B>
    requires !op.Mutate?
  {
    if op.Get? && op.cacheable && !op.expired && op.key in cache then Some(cache[op.key])
    else Uncached(server, s, op)
  }

  function CacheAfter<S, K(==), B, Q>(server: Server<S, K, B, Q>, s: S, cache: map<K, B>, op: Op<K, Q>): map<K, B> {
    match op
    case Mutate(_, verifyMode, p, env) =>
      if !verifyMode && ResultOf(p, env).Succeeded? then map[] else cache
    case _ =>
      if op.Get? && op.cacheable && !op.expired && op.key in cache then cache
      else if ResultOf(op.p, op.env).Succeeded? && op.cacheable then cache[op.key := server.body(s, op.key)]
      else cache
  }

  /** Every entry is what a fresh GET would return. */
  ghost predicate Coherent<S, K, B, Q>(server: Server<S, K, B, Q>, s: S, cache: map<K, B>) {
    forall k :: k in cache ==> cache[k] == server.body(s, k)
  }

  class CachingClient<S, K(==), B, Q> {
    const server: Server<S, K, B, Q>
    var cache: map<K, B>
    var remote: S                            // the server, as far as it can be observed

    /** A client takes over the cache an earlier process left on disk. */
    constructor (server: Server<S, K, B, Q>, remote: S, cache: map<K, B>)
      ensures this.server == server && this.remote == remote && this.cache == cache
    {
      this.server := server;
      this.remote := remote;
      this.cache := cache;
    }

    /** A GET over the wire. */
    method Send(key: K, p: Policy, env: Environment) returns (reply: Option<B>)
      ensures reply == if ResultOf(p, env).Succeeded? then Some(server.body(remote, key)) else None
    {
      var r, _, _ := DoInternal(p, env);
      reply := if r.Succeeded? then Some(server.body(remote, key)) else None;
    }

    /** `GetWithHeaders`. */
    method Get(key: K, cacheable: bool, expired: bool, p: Policy, env: Environment) returns (reply: Option<B>)
      modifies this`cache
      ensures var op: Op<K, Q> := Op.Get(key, cacheable, expired, p, env);
              && reply == Cached(server, remote, old(cache), op)
              && cache == CacheAfter(server, remote, old(cache), op)
    {
      if cacheable {
        if key in cache && !expired {
          return Some(cache[key]);
        }
      }
      reply := Send(key, p, env);
      if reply.Some? && cacheable {
        cache := cache[key := reply.value];
      }
    }

    /** `GetWithHeadersNoCache`. */
    method GetNoCache(key: K, cacheable: bool, p: Policy, env: Environment) returns (reply: Option<B>)
      modifies this`cache
      ensures var op: Op<K, Q> := Op.GetNoCache(key, cacheable, p, env);
              && reply == Cached(server, remote, old(cache), op)
              && cache == CacheAfter(server, remote, old(cache), op)
    {
      reply := Send(key, p, env);
      if reply.Some? && cacheable {
        cache := cache[key := reply.value];
      }
    }

    /** A mutating verb: on success every cached projection is dropped. */
    method Mutate(req: Q, verifyMode: bool, p: Policy, env: Environment) returns (r: Result)
      modifies this
      ensures var op: Op<K, Q> := Op.Mutate(req, verifyMode, p, env);
              && remote == ServerAfter(server, old(remote), op)
              && cache == CacheAfter(server, old(remote), old(cache), op)
    {
      if verifyMode {
        return Succeeded(200);
      }
      var sends, backoffs;
      r, sends, backoffs := DoInternal(p, env);
      var i := 0;
      ghost var before := remote;
      while i < sends
        invariant 0 <= i <= sends && cache == old(cache)
        invariant remote == Effects(server, before, req, env, i)
      {
        if Accepted(env.answer(i)) {
          remote := server.apply(remote, req);
        }
        i := i + 1;
      }
      if r.Succeeded? {
        cache := map[];
      }
    }
  }

  // ----- refinement -----

  /** The call ended with an accepted request whose response body broke off. */
  predicate TornAcceptance<K, Q>(op: Op<K, Q>) {
    op.Mutate? && !op.verifyMode &&
    var k := Last(op.p, op.env, 0);
    op.env.admitted(k) && op.env.answer(k).BodyUnreadable? && Accepted(op.env.answer(k))
  }

  /** Retries never repeat an accepted request: at most the last send takes effect. */
  lemma {:induction false} RetriesHaveNoEffect<S, K, B, Q>(server: Server<S, K, B, Q>, s: S, req: Q, p: Policy,
                                                           env: Environment, n: nat)
    requires n <= Last(p, env, 0)
    ensures Effects(server, s, req, env, n) == s
  {
    if n > 0 {
      assert GoesOn(p, env, n - 1);
      RetriesHaveNoEffect(server, s, req, p, env, n - 1);
    }
  }

  /** The response of the last attempt broke off behind a status below 400. */
  ghost predicate BreaksOff(p: Policy, env: Environment) {
    var k := Last(p, env, 0);
    env.admitted(k) && exists status :: status < 400 && env.answer(k) == BodyUnreadable(status)
  }

  lemma TornExactlyWhen<K, Q>(op: Op<K, Q>)
    ensures TornAcceptance(op) <==> op.Mutate? && !op.verifyMode && BreaksOff(op.p, op.env)
  {
    if TornAcceptance(op) {
      var a := op.env.answer(Last(op.p, op.env, 0));
      assert a == BodyUnreadable(a.status);
    }
  }

  /** A mutating call changes the server at most once, and -- unless its response breaks off -- only
      when it also succeeds for the caller. */
  lemma MutationEffect<S, K, B, Q>(server: Server<S, K, B, Q>, s: S, op: Op<K, Q>)
    requires op.Mutate? && !op.verifyMode
    ensures var s' := ServerAfter(server, s, op);
            && (ResultOf(op.p, op.env).Succeeded? || BreaksOff(op.p, op.env) ==> s' == server.apply(s, op.req))
            && (!ResultOf(op.p, op.env).Succeeded? && !BreaksOff(op.p, op.env) ==> s' == s)
            && (TornAcceptance(op) <==> BreaksOff(op.p, op.env))
  {
    TornExactlyWhen(op);
    var k := Last(op.p, op.env, 0);
    RetriesHaveNoEffect(server, s, op.req, op.p, op.env, k);
  }

  /** A torn acceptance that changes what some cached GET would return. */
  ghost predicate Spoils<S, K, B, Q>(server: Server<S, K, B, Q>, s: S, cache: map<K, B>, op: Op<K, Q>) {
    TornAcceptance(op) && exists k :: k in cache && server.body(server.apply(s, op.req), k) != server.body(s, k)
  }

  /** Coherence is lost exactly by the calls that spoil it. */
  lemma StepKeepsCoherent<S, K, B, Q>(server: Server<S, K, B, Q>, s: S, cache: map<K, B>, op: Op<K, Q>)
    requires Coherent(server, s, cache)
    ensures Coherent(server, ServerAfter(server, s, op), CacheAfter(server, s, cache, op)) <==>
            !Spoils(server, s, cache, op)
  {
    if op.Mutate? && !op.verifyMode {
      MutationEffect(server, s, op);
      if Spoils(server, s, cache, op) {
        var k :| k in cache && server.body(server.apply(s, op.req), k) != server.body(s, k);
        assert k in CacheAfter(server, s, cache, op);
      }
    }
  }

  /** The server after a run, and the cache with it. */
  ghost function ServerAfterAll<S, K, B, Q>(server: Server<S, K, B, Q>, s: S, ops: seq<Op<K, Q>>): S {
    if ops == [] then s
    else ServerAfter(server, ServerAfterAll(server, s, ops[..|ops| - 1]), ops[|ops| - 1])
  }

  ghost function CacheAfterAll<S, K, B, Q>(server: Server<S, K, B, Q>, s: S, cache: map<K, B>,
                                           ops: seq<Op<K, Q>>): map<K, B>
  {
    if ops == [] then cache
    else
      var before := ops[..|ops| - 1];
      CacheAfter(server, ServerAfterAll(server, s, before), CacheAfterAll(server, s, cache, before), ops[|ops| - 1])
  }

  ghost predicate CoherentAfter<S, K, B, Q>(server: Server<S, K, B, Q>, s: S, cache: map<K, B>, ops: seq<Op<K, Q>>) {
    Coherent(server, ServerAfterAll(server, s, ops), CacheAfterAll(server, s, cache, ops))
  }

  /** The call at `n` spoils the cache it finds. */
  ghost predicate SpoilsAt<S, K, B, Q>(server: Server<S, K, B, Q>, s: S, cache: map<K, B>, ops: seq<Op<K, Q>>, n: nat)
    requires n < |ops|
  {
    Spoils(server, ServerAfterAll(server, s, ops[..n]), CacheAfterAll(server, s, cache, ops[..n]), ops[n])
  }

  lemma RunStep<S, K, B, Q>(server: Server<S, K, B, Q>, s: S, cache: map<K, B>, ops: seq<Op<K, Q>>, n: nat)
    requires n < |ops| && CoherentAfter(server, s, cache, ops[..n])
    ensures CoherentAfter(server, s, cache, ops[..n + 1]) <==> !SpoilsAt(server, s, cache, ops, n)
  {
    hide Spoils, ServerAfter, CacheAfter, Coherent;
    assert ops[..n + 1][..n] == ops[..n];
    StepKeepsCoherent(server, ServerAfterAll(server, s, ops[..n]), CacheAfterAll(server, s, cache, ops[..n]), ops[n]);
  }

  lemma {:induction false} UnspoiledIsCoherent<S, K, B, Q>(server: Server<S, K, B, Q>, s: S, cache: map<K, B>,
                                                           ops: seq<Op<K, Q>>, n: nat)
    requires Coherent(server, s, cache) && n <= |ops|
    requires forall i :: 0 <= i < n ==> !SpoilsAt(server, s, cache, ops, i)
    ensures CoherentAfter(server, s, cache, ops[..n])
  {
    hide SpoilsAt, Coherent;
    if n > 0 {
      UnspoiledIsCoherent(server, s, cache, ops, n - 1);
      RunStep(server, s, cache, ops, n - 1);
    }
  }

  /** From any coherent cache a run stays coherent throughout exactly when none of its calls spoils the
      cache it finds. */
  lemma RunStaysCoherent<S, K, B, Q>(server: Server<S, K, B, Q>, s: S, cache: map<K, B>, ops: seq<Op<K, Q>>)
    requires Coherent(server, s, cache)
    ensures (forall n :: 0 <= n <= |ops| ==> CoherentAfter(server, s, cache, ops[..n])) <==>
            (forall n :: 0 <= n < |ops| ==> !SpoilsAt(server, s, cache, ops, n))
  {
    hide SpoilsAt, CoherentAfter;
    if forall n :: 0 <= n < |ops| ==> !SpoilsAt(server, s, cache, ops, n) {
      forall n | 0 <= n <= |ops|
        ensures CoherentAfter(server, s, cache, ops[..n])
      {
        UnspoiledIsCoherent(server, s, cache, ops, n);
      }
    }
    if forall n :: 0 <= n <= |ops| ==> CoherentAfter(server, s, cache, ops[..n]) {
      forall n | 0 <= n < |ops|
        ensures !SpoilsAt(server, s, cache, ops, n)
      {
        assert CoherentAfter(server, s, cache, ops[..n]) && CoherentAfter(server, s, cache, ops[..n + 1]);
        RunStep(server, s, cache, ops, n);
      }
    }
  }

  // ----- what the cache is for -----

  /** A GET that may not use the cache, or finds no live entry, is answered exactly when some attempt
      succeeds, with the current representation; one that finds an entry is answered whatever the network
      does. */
  lemma AnsweredExactlyWhen<S, K, B, Q>(server: Server<S, K, B, Q>, s: S, cache: map<K, B>, op: Op<K, Q>)
    requires !op.Mutate?
    ensures var reply := Cached(server, s, cache, op);
            if op.Get? && op.cacheable && !op.expired && op.key in cache then reply == Some(cache[op.key])
            else if (exists k: nat, status :: k <= op.p.MaxRetries() && AnsweredAt(op.p, op.env, k, status))
            then reply == Some(server.body(s, op.key))
            else reply == None
  {
    hide AnsweredAt;
    forall status
      ensures ResultOf(op.p, op.env) == Succeeded(status) <==>
              exists k: nat :: k <= op.p.MaxRetries() && AnsweredAt(op.p, op.env, k, status)
    {
      SucceedsExactlyWhen(op.p, op.env, status);
    }
    if k: nat, status :| k <= op.p.MaxRetries() && AnsweredAt(op.p, op.env, k, status) {
      assert ResultOf(op.p, op.env) == Succeeded(status);
    }
  }

  /** A GET stores its answer if it may, touches no other entry and nothing on the server. */
  lemma GetStoresAnswer<S, K, B, Q>(server: Server<S, K, B, Q>, s: S, cache: map<K, B>, op: Op<K, Q>, k: K)
    requires !op.Mutate?
    ensures var reply, after := Cached(server, s, cache, op), CacheAfter(server, s, cache, op);
            && ServerAfter(server, s, op) == s
            && (op.cacheable && reply.Some? ==> op.key in after && after[op.key] == reply.value)
            && (!op.cacheable || reply.None? ==> after == cache)
            && (k != op.key ==> (k in after <==> k in cache) && (k in cache ==> after[k] == cache[k]))
  {
  }

  /** The call drops the cache: a mutation outside verify mode that succeeds for the caller. */
  predicate Drops<K, Q>(op: Op<K, Q>) {
    op.Mutate? && !op.verifyMode && ResultOf(op.p, op.env).Succeeded?
  }

  /** An entry is in the cache until a call drops the cache; only another GET of it puts it back, or
      changes it. */
  lemma {:induction false} EntryStaysExactlyWhen<S, K, B, Q>(server: Server<S, K, B, Q>, s: S, cache: map<K, B>,
                                                             ops: seq<Op<K, Q>>, k: K)
    ensures var after := CacheAfterAll(server, s, cache, ops);
            && (k in cache && (forall i :: 0 <= i < |ops| ==> !Drops(ops[i])) ==> k in after)
            && ((forall i :: 0 <= i < |ops| ==> ops[i].Mutate? || ops[i].key != k) ==>
                  && (k in after ==> k in cache && after[k] == cache[k])
                  && (k in after ==> forall i :: 0 <= i < |ops| ==> !Drops(ops[i])))
    decreases |ops|
  {
    hide Drops;
    if ops != [] {
      var n := |ops| - 1;
      EntryStaysExactlyWhen(server, s, cache, ops[..n], k);
      var now, found := ServerAfterAll(server, s, ops[..n]), CacheAfterAll(server, s, cache, ops[..n]);
      if ops[n].Mutate? { MutationDropsExactlyWhen(server, now, found, ops[n]); } else {
        assert !Drops(ops[n]) by { GetDropsNothing(ops[n]); }
        GetStoresAnswer(server, now, found, ops[n], k);
      }
    }
  }

  lemma GetDropsNothing<K, Q>(op: Op<K, Q>)
    requires !op.Mutate?
    ensures !Drops(op)
  {
  }

  /** A mutation drops all of the cache or leaves all of it; in verify mode nothing reaches the server. */
  lemma MutationDropsExactlyWhen<S, K, B, Q>(server: Server<S, K, B, Q>, s: S, cache: map<K, B>, op: Op<K, Q>)
    requires op.Mutate?
    ensures CacheAfter(server, s, cache, op) == if Drops(op) then map[] else cache
    ensures op.verifyMode ==> ServerAfter(server, s, op) == s
  {
  }

  /** Every answer the caching client gives is the current representation, and it answers whenever the
      uncached client would. */
  ghost predicate Refines<S, K(!new), B, Q(!new)>(server: Server<S, K, B, Q>, s: S, cache: map<K, B>) {
    forall op: Op<K, Q> :: !op.Mutate? ==>
      && (Cached(server, s, cache, op).Some? ==> Cached(server, s, cache, op) == Some(server.body(s, op.key)))
      && (Uncached(server, s, op).Some? ==> Cached(server, s, cache, op) == Uncached(server, s, op))
  }

  /** The caching client refines the uncached one exactly while its cache is coherent. */
  lemma RefinesExactlyWhenCoherent<S, K(!new), B, Q(!new)>(server: Server<S, K, B, Q>, s: S, cache: map<K, B>)
    ensures Refines(server, s, cache) <==> Coherent(server, s, cache)
  {
    if Refines(server, s, cache) {
      var p := Policy(0, 0, 0, true);
      var env := Environment((k: nat) => true, (k: nat) => Response(200, Absent(0)), (k: nat) => 0, (k: nat) => false);
      forall k | k in cache
        ensures cache[k] == server.body(s, k)
      {
        var get: Op<K, Q> := Op.Get(k, true, false, p, env);
        assert Cached(server, s, cache, get) == Some(cache[k]);
      }
    }
  }

  /** Over any run from a coherent cache the caching client refines the uncached one at every point
      exactly when no torn acceptance changes a representation that is cached at that moment. */
  lemma CachedRefinesUncached<S, K(!new), B, Q(!new)>(server: Server<S, K, B, Q>, s: S, cache: map<K, B>,
                                                      ops: seq<Op<K, Q>>)
    requires Coherent(server, s, cache)
    ensures (forall n :: 0 <= n <= |ops| ==>
               Refines(server, ServerAfterAll(server, s, ops[..n]), CacheAfterAll(server, s, cache, ops[..n])))
            <==> (forall n :: 0 <= n < |ops| ==> !SpoilsAt(server, s, cache, ops, n))
  {
    hide SpoilsAt, Coherent, Refines, ServerAfterAll, CacheAfterAll;
    RunStaysCoherent(server, s, cache, ops);
    forall n | 0 <= n <= |ops|
      ensures Refines(server, ServerAfterAll(server, s, ops[..n]), CacheAfterAll(server, s, cache, ops[..n])) <==>
              CoherentAfter(server, s, cache, ops[..n])
    {
      RefinesExactlyWhenCoherent(server, ServerAfterAll(server, s, ops[..n]),
                                 CacheAfterAll(server, s, cache, ops[..n]));
    }
  }

  /** In any coherent state a torn acceptance that changes a cached representation makes the next
      cacheable GET of it serve the stale one, where the uncached client would get the new one. */
  lemma TornAcceptanceServesStale<S, K, B, Q>(server: Server<S, K, B, Q>, s: S, cache: map<K, B>, change: Op<K, Q>,
                                              get: Op<K, Q>)
    requires Coherent(server, s, cache) && change.Mutate? && TornAcceptance(change)
    requires get.Get? && get.cacheable && !get.expired && get.key in cache
    requires server.body(server.apply(s, change.req), get.key) != server.body(s, get.key)
    ensures var now := ServerAfter(server, s, change);
            var reply := Cached(server, now, CacheAfter(server, s, cache, change), get);
            && reply == Some(server.body(s, get.key)) && reply != Some(server.body(now, get.key))
            && (ResultOf(get.p, get.env).Succeeded? ==> Uncached(server, now, get) == Some(server.body(now, get.key)))
  {
    MutationEffect(server, s, change);
  }
}
