/** state.go: the cache-aside orchestration. GetCachedTx consults the TTL map
    and, on a miss, calls the backend once and remembers the outcome, positive
    or negative; InterlockedGetCachedTx wraps it in the single-flight gate;
    MaintainCache sweeps entries that expired more than a grace window ago.
    The backend call (solana.go) is an outcome given as a parameter. */
module Orchestrator {
  import opened Basics
  import opened TTLCache
  import opened Gate

  /** TX_CACHE_MAX_AGE (tricorder.go): how long a successful lookup is served. */
  const TxCacheMaxAge: int := 60 * Second
  /** How long a failed lookup is remembered. */
  const NegativeTtl: int := 1 * Minute
  /** MAINTAIN_CACHE_BEFORE: the sweep removes entries that expired more than
      15 minutes before the sweep. */
  const MaintainCacheBefore: int := -15 * Minute

  type Error = string

  /** What GetTransaction(txSignature) gives back: a (possibly nil) response,
      or a non-nil error (its response is then nil). */
  datatype Fetch<T> = Fetched(tx: Option<T>) | Failed(err: Error)

  /** The tri-state (tx, isSet, err) result of a lookup. */
  datatype Reply<T> = Reply(tx: Option<T>, isSet: bool, err: Option<Error>)

  /** Everything one request takes from outside the core: the random ticket,
      the gate steps of other callers while it waits, the clock when the cache
      is consulted and when the outcome is stored, and the backend outcome. */
  datatype Env<T> = Env(ticket: uint64, others: seq<GateOp>, now: int, storedAt: int, fetch: Fetch<T>)

  /** How long an outcome is remembered. */
  function TtlFor<T>(fetch: Fetch<T>): int {
    if fetch.Fetched? then TxCacheMaxAge else NegativeTtl
  }

  /** The reply of GetCachedTx on cache `m` at `now`. The tri-state contract:
      isSet means the value is authoritative and there is no error; an error
      is reported only by the call that just fetched and failed; isSet =
      false with no error means a remembered failure was served. */
  function CachedReply<T>(m: Store<Option<T>>, sig: string, now: int, fetch: Fetch<T>): (r: Reply<T>)
    ensures r.isSet ==> r.err == None
    ensures r.err.Some? <==> !Live(m, sig, now) && fetch.Failed?
    ensures r.err.Some? ==> r == Reply(None, false, Some(fetch.err))
    ensures (!r.isSet && r.err == None) <==> Live(m, sig, now) && !m[sig].IsSet
    ensures Live(m, sig, now) ==> r.tx == m[sig].Value && r.isSet == m[sig].IsSet
    ensures !Live(m, sig, now) && fetch.Fetched? ==> r == Reply(fetch.tx, true, None)
  {
    if Live(m, sig, now) then Reply(m[sig].Value, m[sig].IsSet, None)
    else match fetch
      case Fetched(tx) => Reply(tx, true, None)
      case Failed(e) => Reply(None, false, Some(e))
  }

  /** The cache left by GetCachedTx: a hit changes nothing; a miss stores the
      outcome the caller was given, with the TTL for its kind, under `sig`. In
      both cases the cache afterwards holds exactly what the caller got, and
      no other key changes. */
  function CachedStore<T>(m: Store<Option<T>>, sig: string, now: int, storedAt: int, fetch: Fetch<T>): (m': Store<Option<T>>)
    ensures sig in m' && m' - {sig} == m - {sig}
    ensures m'[sig].Value == CachedReply(m, sig, now, fetch).tx
    ensures m'[sig].IsSet == CachedReply(m, sig, now, fetch).isSet
    ensures Live(m, sig, now) ==> m' == m
    ensures !Live(m, sig, now) ==> m'[sig].Expire == storedAt + TtlFor(fetch)
  {
    if Live(m, sig, now) then m
    else
      var r := CachedReply(m, sig, now, fetch);
      m[sig := Entry(r.tx, r.isSet, storedAt + TtlFor(fetch))]
  }

  /** A repeat within 60 seconds of a successful fetch serves the same value
      from the cache: no new fetch and no change to the cache. */
  lemma RepeatAfterSuccess<T>(m: Store<Option<T>>, sig: string, now: int, storedAt: int, tx: Option<T>,
                              later: int, laterStored: int, fetch: Fetch<T>)
    requires !Live(m, sig, now)
    requires later <= storedAt + TxCacheMaxAge
    ensures var m1 := CachedStore(m, sig, now, storedAt, Fetched(tx));
      Live(m1, sig, later) &&
      CachedReply(m1, sig, later, fetch) == Reply(tx, true, None) &&
      CachedStore(m1, sig, later, laterStored, fetch) == m1
  {
  }

  /** Negative caching: a failed fetch is reported with its error; a repeat
      within the negative TTL serves the muted failure (no value, not set, no
      error) without fetching; once the window has passed, the next call
      fetches again. */
  lemma NegativeCaching<T>(m: Store<Option<T>>, sig: string, now: int, storedAt: int, e: Error,
                           later: int, laterStored: int, fetch: Fetch<T>)
    requires !Live(m, sig, now)
    ensures CachedReply(m, sig, now, Failed(e)) == Reply(None, false, Some(e))
    ensures var m1 := CachedStore(m, sig, now, storedAt, Failed(e));
      (later <= storedAt + NegativeTtl ==>
        Live(m1, sig, later) && CachedReply(m1, sig, later, fetch) == Reply(None, false, None) &&
        CachedStore(m1, sig, later, laterStored, fetch) == m1) &&
      (later > storedAt + NegativeTtl ==>
        !Live(m1, sig, later) && CachedReply(m1, sig, later, fetch) == CachedReply(map[], sig, later, fetch))
  {
  }

  /** The maintenance sweep at `now` is invisible to lookups: for every key it
      removes, Load at any instant from the threshold on would report a miss
      anyway, and entries that expired less than 15 minutes ago (or have not
      expired) stay. */
  lemma SweepInvisible<V>(m: Store<V>, now: int, key: string, t: int)
    requires t >= now + MaintainCacheBefore
    ensures Live(Swept(m, now + MaintainCacheBefore), key, t) <==> Live(m, key, t)
    ensures Live(m, key, t) ==> Swept(m, now + MaintainCacheBefore)[key] == m[key]
    ensures key in m && m[key].Expire >= now - 15 * Minute ==> key in Swept(m, now + MaintainCacheBefore)
  {
  }

  class State<T> {
    const TxMap: TTLMap<Option<T>>
    const TxIL: Interlock
    /** The keys the backend was asked for, in order (a log of GetTransaction calls). */
    ghost var Fetches: seq<string>

    constructor ()
      ensures fresh(TxMap) && fresh(TxIL)
      ensures TxMap.m == map[] && TxIL.IL == map[] && Fetches == []
    {
      TxMap := new TTLMap();
      TxIL := new Interlock();
      Fetches := [];
    }

    /** The state left by one InterlockedGetCachedTx(sig) under `env`, apart
        from its reply: when the call returned, the cache and the fetch log
        changed as GetCachedTx says; otherwise neither changed. A leader leaves
        the gate as it found it, unless its ticket was 0, in which case the key
        stays held with ticket 0. A follower's gate is what the steps of the
        other callers made of it, and it returned exactly when that left the
        key free. */
    twostate predicate Served(sig: string, env: Env<T>, returned: bool)
      reads this, TxMap, TxIL
    {
      && (returned ==>
            TxMap.m == CachedStore(old(TxMap.m), sig, env.now, env.storedAt, env.fetch) &&
            Fetches == old(Fetches) + (if Live(old(TxMap.m), sig, env.now) then [] else [sig]))
      && (!returned ==> TxMap.m == old(TxMap.m) && Fetches == old(Fetches))
      && (sig !in old(TxIL.IL) ==>
            returned && TxIL.IL == (if env.ticket != 0 then old(TxIL.IL) else old(TxIL.IL)[sig := 0]))
      && (sig in old(TxIL.IL) ==>
            (returned <==> sig !in TxIL.IL) &&
            exists n :: 0 <= n <= |env.others| && TxIL.IL == Run(old(TxIL.IL), env.others[..n]))
    }

    /** One pass of the MaintainCache loop at clock reading `now`. */
    method MaintainCache(now: int) returns (deleted: nat)
      modifies TxMap
      ensures TxMap.m == Swept(old(TxMap.m), now + MaintainCacheBefore)
      ensures deleted == |ExpiredBefore(old(TxMap.m), now + MaintainCacheBefore)|
      ensures deleted == |old(TxMap.m)| - |TxMap.m|
    {
      deleted := TxMap.ExpireBefore(now + MaintainCacheBefore);
      SweptSize(old(TxMap.m), now + MaintainCacheBefore);
    }

    /** GetCachedTx: a live cache entry is returned without calling the
        backend; otherwise the backend is called once and its outcome stored. */
    method GetCachedTx(sig: string, now: int, storedAt: int, fetch: Fetch<T>) returns (tx: Option<T>, isSet: bool, err: Option<Error>)
      modifies this, TxMap
      ensures Reply(tx, isSet, err) == CachedReply(old(TxMap.m), sig, now, fetch)
      ensures TxMap.m == CachedStore(old(TxMap.m), sig, now, storedAt, fetch)
      ensures Fetches == old(Fetches) + (if Live(old(TxMap.m), sig, now) then [] else [sig])
    {
      var cachedTx, cachedIsSet, ok := TxMap.Load(sig, now);
      isSet := cachedIsSet;
      err := None;
      if ok {
        tx := cachedTx.value;
      } else {
        Fetches := Fetches + [sig];  // GetTransaction(txSignature)
        match fetch {
          case Fetched(t) =>
            tx := t;
            TxMap.Store(sig, tx, true, TxCacheMaxAge, storedAt);
            isSet := true;
          case Failed(e) =>
            tx, err := None, Some(e);
            TxMap.Store(sig, tx, false, NegativeTtl, storedAt);
        }
      }
    }

    /** InterlockedGetCachedTx: acquire the gate, look up through the cache,
        and, as a leader with a non-zero ticket, release the gate on return.
        `returned` is false when the caller is a follower still waiting at the
        end of `env.others`. A leader whose ticket is 0 is taken for a
        follower and never releases: the key stays held with ticket 0. */
    method InterlockedGetCachedTx(sig: string, env: Env<T>) returns (tx: Option<T>, isSet: bool, err: Option<Error>, returned: bool, polls: nat)
      modifies this, TxMap, TxIL
      ensures sig !in old(TxIL.IL) ==> returned && polls == 0
      ensures sig !in old(TxIL.IL) && env.ticket != 0 ==> TxIL.IL == old(TxIL.IL)
      ensures sig !in old(TxIL.IL) && env.ticket == 0 ==> TxIL.IL == old(TxIL.IL)[sig := 0]
      ensures sig in old(TxIL.IL) ==> polls <= |env.others| && TxIL.IL == Run(old(TxIL.IL), env.others[..polls])
      ensures sig in old(TxIL.IL) ==> (returned <==> sig !in TxIL.IL)
      ensures sig in old(TxIL.IL) && !returned ==> polls == |env.others|
      ensures sig in old(TxIL.IL) ==> forall j :: 0 <= j < polls ==> sig in Run(old(TxIL.IL), env.others[..j])
      ensures returned ==> Reply(tx, isSet, err) == CachedReply(old(TxMap.m), sig, env.now, env.fetch)
      ensures returned ==> TxMap.m == CachedStore(old(TxMap.m), sig, env.now, env.storedAt, env.fetch)
      ensures returned ==> Fetches == old(Fetches) + (if Live(old(TxMap.m), sig, env.now) then [] else [sig])
      ensures !returned ==> TxMap.m == old(TxMap.m) && Fetches == old(Fetches)
      ensures !returned ==> tx == None && !isSet && err == None
      ensures Served(sig, env, returned)
    {
      var ticket, done, n := TxIL.WaitOrStart(sig, env.ticket, env.others);
      polls := n;
      returned := done;
      if !returned {
        return None, false, None, false, polls;
      }
      tx, isSet, err := GetCachedTx(sig, env.now, env.storedAt, env.fetch);
      if ticket > 0 {
        TxIL.ClearWait(sig, ticket);  // deferred: runs after the cache write
        assert TxIL.IL == old(TxIL.IL)[sig := ticket] - {sig};
      }
    }
  }
}
