# tricorder in Dafny

tricorder is a small HTTP service. It answers `GET /<version>/tx/<signature>`
with the Solana transaction behind the signature, and `GET /` with its own
name. This project models its core and proves properties of that model:

- **TTLCache** (`ttlmap.dfy`): the expiring key/value cache `TTLMap`. It is a
  class whose one field is the map from keys to entries. Each entry holds a
  value, an "is set" flag and an expiry instant. Time is a whole number of
  nanoseconds, and an entry is expired only when the clock is strictly past its
  expiry instant. `Load` deletes an expired entry on sight. `ExpireBefore`
  sweeps every entry whose expiry is strictly before a threshold and counts how
  many it removed.
- **Gate** (`interlock.dfy`): the single-flight gate `Interlock`, a map from keys
  to 64-bit tickets.
  - In `WaitOrStart`, the first caller for a key installs its ticket and becomes
    the leader.
  - Every later caller is a follower. It polls until the key is gone and then
    returns ticket 0.
  - `ClearWait` removes a key only when it is called with that key's ticket.

  Other callers run concurrently with a waiting follower. Their gate steps are
  an explicit schedule: one of them runs before each poll. The pure functions
  `AfterStart`, `AfterClear` and `Run` give the reference meaning of the gate.
- **Orchestrator** (`state.dfy`): the process's `State`, holding the transaction
  cache, the gate, and a log of backend lookups.
  - `GetCachedTx` serves a live entry from the cache. On a miss it asks the
    backend and caches the answer: a success for `TX_CACHE_MAX_AGE` (60 s), a
    failure as a negative entry for one minute.
  - `InterlockedGetCachedTx` wraps that call in the gate. A leader releases its
    ticket afterwards, but only when the ticket is non-zero.
  - `MaintainCache` is one pass of the sweeper, which removes entries that
    expired more than 15 minutes ago.

  The pure functions `CachedReply` and `CachedStore` state what one lookup
  answers and what it leaves in the cache.
- **Util** and **GoStrings** (`util.dfy`, `strings.dfy`):
  - `CleanStringSlice`, which trims every piece and drops the empty ones;
  - the pieces of Go's `strings` package it relies on (`TrimSpace`, `Split`)
    and `Join`, which is `Split`'s inverse.
- **Tricorder** (`tricorder.dfy`): request routing. `RouteOf` maps a path to a
  route, and `RouteResponse` maps a route and a cache reply to the response. The
  handlers `IndexHandler`, `HandleTx` and `HandleTxV0` follow the Go control
  flow over the shared state, and they are proved to answer what `RouteOf` and
  `RouteResponse` say.
- **Scenarios** (`scenarios.dfy`):
  - `SingleFlight`: a concrete run in which five callers ask for one signature
    and the backend is asked exactly once.
  - `ZeroTicketStall`: a concrete run of the zero-ticket case described below.

The backend lookup is a parameter: each call receives the `Fetch` result it
would get, either `Fetched(tx)` or `Failed(err)`. The clock reading and the
random ticket are also parameters.

**Zero ticket.** A leader draws its ticket at random from the full 64-bit
range, so it can draw 0. It releases only when `ticket > 0` (state.go:48).
A leader holding ticket 0 therefore never clears its key. Every later caller
for that signature then waits until some caller clears it with ticket 0, and
no caller ever does. The model states this gap in three places:
- the contract of `State.InterlockedGetCachedTx`;
- lemma `Gate.ZeroTicketNeverReleased`;
- the scenario `Scenarios.ZeroTicketStall`.

**Behaviour of the source worth noting:**
- The negative TTL of a failure is one minute (state.go:38), the same length
  as `TX_CACHE_MAX_AGE`, 60 seconds (tricorder.go:25).
- An entry is still live at its expiry instant, because Go's `After` is strict
  (ttlmap.go:33).
- A failure caches a nil transaction with the flag cleared: `GetTransaction`
  returns nil with its error (solana.go:90), and state.go:38 stores it.

## Model

| member | source | states |
|---|---|---|
| GoStrings.TrimSpace | util.go:17 | the result is the input with its leading and trailing white space removed: a piece `s[i..j]` of the input with only white space outside it, and neither starting nor ending with white space |
| GoStrings.TrimSpaceIdempotent | util.go:17 | trimming twice equals trimming once |
| GoStrings.TrimSpaceOfBlank | util.go:17-18 | a string made only of white space trims to the empty string |
| GoStrings.TrimSpaceKeepsOut | util.go:17 | trimming introduces no character that was not in the input |
| GoStrings.Split | tricorder.go:158 | splitting always yields at least one piece, and no piece contains the separator |
| GoStrings.JoinSplit | tricorder.go:158 | joining the pieces of a split with the same separator gives back the original string |
| GoStrings.SplitJoin | tricorder.go:158 | splitting the join of separator-free pieces gives back exactly those pieces |
| Util.Clean | util.go:15-24 | every element of the result is non-empty and has no white space at either end, and there are no more elements than in the input |
| Util.CleanStringSlice | util.go:15-24 | the loop returns exactly `Clean` of its input |
| Util.CleanFromInputs | util.go:16-19 | every output element is the trimmed form of some input element |
| Util.CleanConcat | util.go:16-21 | cleaning keeps input order: cleaning a concatenation concatenates the cleanings |
| Util.CleanIdempotent | util.go:15-24 | cleaning an already cleaned slice changes nothing |
| Util.CleanOfClean | util.go:15-24 | a slice whose every element is already clean is its own cleaning |
| Util.CleanOfBlank | util.go:17-18 | a slice of blank strings cleans to the empty slice |
| Util.CleanKeepsOut | util.go:17-19 | a character that occurs in no input element occurs in no output element |
| TTLCache.TTLMap.Store | ttlmap.go:19-23 | the key now maps to the given value and flag with expiry `now + ttl`; every other key is untouched |
| TTLCache.TTLMap.Load | ttlmap.go:25-40 | `ok` holds exactly when the key holds an entry that is not past its expiry; a hit returns the stored value and flag and changes nothing; an absent or expired key returns nothing and leaves the map without that key, with nothing else changed |
| TTLCache.TTLMap.LoadOrStore | ttlmap.go:42-46 | a present key returns its entry unchanged and reports loaded, without checking expiry; an absent key stores the new entry and returns it |
| TTLCache.TTLMap.Delete | ttlmap.go:48-51 | the map loses that key and nothing else, so deleting an absent key is a no-op |
| TTLCache.TTLMap.ExpireBefore | ttlmap.go:53-67 | the map afterwards holds exactly the entries whose expiry is not before the threshold; the returned count, which the source only logs, is the number of entries whose expiry is before it |
| TTLCache.SweptSize | ttlmap.go:53-66 | the sweep's kept and removed entries partition the map, so their counts add up to its size |
| TTLCache.SweptExactly | ttlmap.go:56-61 | a key survives the sweep exactly when it was present with expiry at or after the threshold, and keeps its entry |
| TTLCache.StoredEntryLifetime | ttlmap.go:19-39 | an entry stored at `now` with lifetime `ttl` is live at every instant up to and including `now + ttl` and expired at every later instant |
| Gate.AfterStart | interlock.go:19-25 | after an atomic load-or-store, the key is held; an existing ticket is kept, otherwise the caller's ticket is installed; other keys are untouched |
| Gate.AfterClear | interlock.go:38-47 | the key is removed exactly when it was held by the same ticket; a mismatched or absent key is a no-op; other keys are untouched |
| Gate.HeldUntilMatchingClear | interlock.go:38-46 | a key held by ticket `t` stays held by `t` through any sequence of gate steps in which no caller clears that key with `t` |
| Gate.ZeroTicketNeverReleased | state.go:46-50 | a key held by ticket 0 stays held forever when every clear carries a non-zero ticket, which is what the `ticket > 0` guard guarantees |
| Gate.HandOff | interlock.go:19-25 | after the leader's matching clear, the next caller for that key becomes the new leader with its own ticket |
| Gate.Interlock.WaitOrStart | interlock.go:17-36 | a caller finding the key free installs its ticket and returns it without waiting. Any other caller returns 0 and polls once after each scheduled gate step of other callers. It returns the first time the key is seen free; until then the key was held at every poll. If it has not returned by the end of the schedule, it is still waiting. For a non-zero ticket, the result is non-zero exactly when the key was free |
| Gate.Interlock.ClearWait | interlock.go:38-47 | the gate becomes `AfterClear` of the old gate |
| Orchestrator.CachedReply | state.go:27-43 | a live entry is returned as stored; on a miss a backend success returns the fetched transaction with the flag set and no error, and a backend failure with no transaction, the flag clear and the backend's error; a muted failure (no error, flag clear) happens exactly when the cache holds a live negative entry |
| Orchestrator.CachedStore | state.go:27-43 | a hit leaves the cache as it is; a miss leaves exactly one changed key, the signature, with the reply's transaction and flag and an expiry `TX_CACHE_MAX_AGE` (success) or one minute (failure) after the store |
| Orchestrator.RepeatAfterSuccess | state.go:28-36 | a repeat lookup within 60 s of a successful one is served from the cache with the same transaction, whatever the backend would say |
| Orchestrator.NegativeCaching | state.go:28-39 | within a minute of a failure a repeat lookup returns a muted failure without asking the backend; after that minute it asks the backend again |
| Orchestrator.SweepInvisible | state.go:16-22 | the sweep only removes entries that lookups already treat as expired, so it never changes what a lookup at or after the sweep threshold answers, and it keeps every entry that expired less than 15 minutes ago |
| Orchestrator.State.MaintainCache | state.go:19-25 | one sweeper pass leaves exactly the entries whose expiry is no earlier than 15 minutes before now, and returns the number of the rest, which the source only logs |
| Orchestrator.State.GetCachedTx | state.go:27-43 | the reply is `CachedReply` and the new cache is `CachedStore` of the old cache; the backend log grows by the signature exactly on a miss; the gate is untouched |
| Orchestrator.State.InterlockedGetCachedTx | state.go:45-53 | a leader looks up once, then releases the gate when its ticket is non-zero and leaves its key held when the ticket is 0. A follower never clears: the gate is the run of the others' scheduled steps up to its last poll. A caller that returns answers exactly as `GetCachedTx` would against the cache as it was at the call. A caller still waiting has changed nothing |
| Tricorder.IsValidVersion | tricorder.go:96-103 | a version is valid exactly when it is `0` or `latest` |
| Tricorder.MakeAPIInvalidVersionError | tricorder.go:87-94 | the response has status `fail` and id `invalid_version`, and its message quotes the rejected version, which can be read back out of the message |
| Tricorder.V0Handled | tricorder.go:54-74 | a backend error is passed on; a muted failure becomes an error of its own; only a set reply writes the transaction JSON with status `ok` and a 60-second public cache lifetime; none of these is "not found" |
| Tricorder.RouteOf | tricorder.go:150-182 | `/` alone is the root. A lookup route carries the first segment as a valid version and the third as its signature, a clean segment with no slash. A bad-version route carries the first segment, an invalid, clean, slash-free version |
| Tricorder.RouteResponse | tricorder.go:160-192 | no route is left unanswered; a bad version gets the invalid-version response naming that version; a lookup answers 200 with the transaction exactly when the reply is set and has no error, and 503 with caching disabled otherwise |
| Tricorder.RoutingTable | tricorder.go:124-192 | the full table as a client sees it: the service name for `/`; 404 for fewer than three segments or an object other than `tx`; for an unknown first segment, the invalid-version JSON `MakeAPIInvalidVersionError` of exactly that segment with status 200 and `public, max-age=600` (never 404 or 503), whatever follows it; for a lookup of the first and third segments, the ok body when the reply is set with no error and the 503 no-cache response otherwise |
| Tricorder.RouteCanonical | tricorder.go:158-175 | the canonical path `/<version>/tx/<signature>` routes to a lookup of exactly that version and signature |
| Tricorder.RouteIgnoresTail | tricorder.go:171-175 | segments after the signature do not change the route |
| Tricorder.HandleTxV0 | tricorder.go:49-75 | the handler's error, not-found flag and written response are `V0Handled` of the gated lookup, with the state changed as that lookup changes it |
| Tricorder.HandleTx | tricorder.go:105-122 | versions `0` and `latest` both dispatch to the v0 handler; every other version writes the invalid-version response and changes no state |
| Tricorder.IndexHandler | tricorder.go:147-194 | the response is `RouteResponse` of `RouteOf` of the path. Only lookups touch the state, and they answer the cached reply. The handler is pending only while a follower is still waiting |
| Scenarios.SingleFlight | state.go:45-53 | five callers asking for one signature each receive the same successful transaction. The backend is asked once, even though the last three callers would see it failing, and the gate ends empty |
| Scenarios.ZeroTicketStall | state.go:45-50 | after a leader drawing ticket 0, the key stays held at 0 and the next caller is still waiting at the end of any schedule whose clears carry non-zero tickets |

## Left out

- solana.go (`GetTransaction` and its endpoint list) is not part of this model. Each lookup receives the backend's answer as its `Fetch` parameter, so retries over endpoints are not modelled.
- Orchestrator.State.InterlockedGetCachedTx: a returning follower's reply is tied to the cache at the start of its call, while a Go follower that arrives mid-fetch reads the leader's write. This ordering is sound for the Go run because a waiting follower's steps are gate reads only, and they commute with the leader's cache write; `Scenarios.SingleFlight` runs the leader's lookup before the follower's call for that reason. The model does not promise anything about a follower's cache read interleaved inside another caller's lookup.
- Concurrency is modelled only at the gate. A waiting follower sees other callers' gate steps through a finite schedule. Other callers' cache writes during that wait are not modelled: a follower reads the cache as it was when its call began.
- Gate.Interlock.WaitOrStart: a follower still waiting when its schedule ends reports that it has not returned. The unbounded wait itself is not modelled, and neither is the randomised sleep after every poll, including the last (`MIN_YIELD_TIME`, `MAX_YIELD_TIME`): the model returns at the poll that finds the key free, while Go returns one sleep later, during which other callers can act.
- Orchestrator.State.MaintainCache: models one pass of the sweeper. The endless loop and its one-minute sleep (`MAINTAIN_CACHE_LOOP_TIME`) are left out.
- The clock (`time.Now`) and the random ticket (`rand.Uint64`) are parameters. Go's saturation of `time.Time.Add` on overflow is not modelled, because time is an unbounded integer of nanoseconds.
- Logging through `log` and `zerolog` is left out, because it changes no state. `TTLMap.ExpireBefore` and `State.MaintainCache` return the deletion count that the source only logs (ttlmap.go:66). The ghost field `State.Fetches` is an observation log of backend calls, with no counterpart in the source's `State`.
- HTTP plumbing is left out: `main`, `InitFlags`, the middleware chain, `ConnectingIPHandler`, and every header except `cache-control`. That includes the ones written by `SetGlobalHeaders` and the `access-control-allow-origin` and `content-type` headers.
- JSON encoding is left out. A response body is a datatype holding the value that would be encoded.
- `ValidatePubKey` and `PublicKey.MarshalJSON` (util.go) are left out, because they depend on the Solana SDK's key encoding and nothing in the core calls them.
- GoStrings.TrimSpace: trims ASCII white space only. Go's version also trims Unicode spaces such as U+0085 and U+00A0. Strings are sequences of characters, not UTF-8 bytes.
- TTLCache.TTLMap: values are one generic type in place of Go's `interface{}`. The type assertions that could panic on a foreign value are not modelled.
- Tricorder.IsValidTxSignature always accepts, as in the source. The "not found" branches it guards in `HandleTx` and `HandleTxV0` are therefore unreachable.
