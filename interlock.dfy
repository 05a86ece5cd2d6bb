/** interlock.go: the single-flight gate. A key maps to the ticket of the
    caller that currently leads the work for it. Each sync.Map call is one
    atomic step; the random ticket is a parameter; the steps that OTHER
    callers take while a follower sleeps between polls are given to the
    follower as a schedule of gate operations. */
module Gate {
  import opened Basics

  type Tickets = map<string, uint64>

  /** An atomic gate step of some caller: the LoadOrStore at the start of
      WaitOrStart, or a ClearWait. (A follower's polling Load changes nothing.) */
  datatype GateOp = Start(key: string, ticket: uint64) | Clear(key: string, ticket: uint64)

  /** The gate after LoadOrStore(key, ticket): the ticket is inserted only
      when the key is free, and no other key changes. */
  function AfterStart(g: Tickets, key: string, ticket: uint64): (r: Tickets)
    ensures r.Keys == g.Keys + {key}
    ensures r[key] == (if key in g then g[key] else ticket)
    ensures forall k :: k in g && k != key ==> r[k] == g[k]
  {
    if key in g then g else g[key := ticket]
  }

  /** The gate after ClearWait(key, ticket): the key is freed exactly when it
      is held with that ticket; a different ticket or a free key is a no-op,
      and no other key changes. */
  function AfterClear(g: Tickets, key: string, ticket: uint64): (r: Tickets)
    ensures key in r <==> key in g && g[key] != ticket
    ensures key in g && g[key] != ticket ==> r == g
    ensures forall k :: k != key ==> (k in r <==> k in g)
    ensures forall k :: k in r ==> r[k] == g[k]
  {
    if key in g && g[key] == ticket then g - {key} else g
  }

  function Apply(g: Tickets, op: GateOp): Tickets {
    match op
    case Start(k, t) => AfterStart(g, k, t)
    case Clear(k, t) => AfterClear(g, k, t)
  }

  /** The gate after a sequence of steps, applied in order. */
  function Run(g: Tickets, ops: seq<GateOp>): Tickets
    decreases |ops|
  {
    if ops == [] then g else Apply(Run(g, ops[..|ops| - 1]), ops[|ops| - 1])
  }

  lemma RunExtend(g: Tickets, ops: seq<GateOp>, n: nat)
    requires n < |ops|
    ensures Run(g, ops[..n + 1]) == Apply(Run(g, ops[..n]), ops[n])
  {
    assert ops[..n + 1][..n] == ops[..n];
  }

  /** The key was held before each of the first `n` steps of `ops`. */
  predicate HeldBefore(g: Tickets, ops: seq<GateOp>, n: nat, key: string)
    requires n <= |ops|
  {
    forall j :: 0 <= j < n ==> key in Run(g, ops[..j])
  }

  /** One more poll that found the key held extends the history. */
  lemma HeldBeforeExtend(g: Tickets, ops: seq<GateOp>, n: nat, key: string)
    requires n < |ops| && HeldBefore(g, ops, n, key) && key in Run(g, ops[..n])
    ensures HeldBefore(g, ops, n + 1, key)
  {
  }

  /** A held key stays held, with the same ticket, through any steps that do
      not include a ClearWait carrying that ticket: neither another caller's
      start nor a release with a different ticket frees it. */
  lemma {:induction false} HeldUntilMatchingClear(g: Tickets, ops: seq<GateOp>, key: string)
    requires key in g
    requires forall i :: 0 <= i < |ops| ==> ops[i] != Clear(key, g[key])
    ensures key in Run(g, ops) && Run(g, ops)[key] == g[key]
    decreases |ops|
  {
    if ops != [] {
      HeldUntilMatchingClear(g, ops[..|ops| - 1], key);
      var last := ops[|ops| - 1];
      assert last != Clear(key, g[key]);
    }
  }

  /** The release gap of the source: in this program only leaders with a
      non-zero ticket call ClearWait, so a key held with ticket 0 is never
      freed and callers that wait for it never return. */
  lemma ZeroTicketNeverReleased(g: Tickets, ops: seq<GateOp>, key: string)
    requires key in g && g[key] == 0
    requires forall i :: 0 <= i < |ops| ==> ops[i].Clear? ==> ops[i].ticket != 0
    ensures key in Run(g, ops) && Run(g, ops)[key] == 0
  {
    HeldUntilMatchingClear(g, ops, key);
  }

  /** Leadership hand-off: after the matching ClearWait, the next start on the
      key wins and installs the new ticket. */
  lemma HandOff(g: Tickets, key: string, ticket: uint64, next: uint64)
    requires key in g && g[key] == ticket
    ensures key !in AfterClear(g, key, ticket)
    ensures AfterStart(AfterClear(g, key, ticket), key, next) == (g - {key})[key := next]
  {
  }

  class Interlock {
    var IL: Tickets

    constructor ()
      ensures IL == map[]
    {
      IL := map[];
    }

    /** WaitOrStart(key) with the drawn `ticket`. A caller that finds the key
        free becomes the leader: it installs its ticket and gets it back at
        once. Otherwise it is a follower: it never writes the gate itself and
        polls until a poll finds the key free, then returns 0. Before each
        poll one step of `others` runs. `polls` is the number of polls made;
        `returned` is false when the schedule ends with the key still held
        (the Go call has not returned yet). */
    method WaitOrStart(key: string, ticket: uint64, others: seq<GateOp>) returns (r: uint64, returned: bool, polls: nat)
      modifies this
      ensures key !in old(IL) ==> IL == AfterStart(old(IL), key, ticket) && r == ticket && returned && polls == 0
      ensures key in old(IL) ==> r == 0 && polls <= |others| && IL == Run(old(IL), others[..polls])
      ensures key in old(IL) ==> (returned <==> key !in IL)
      ensures key in old(IL) && !returned ==> polls == |others|
      ensures key in old(IL) ==> polls <= |others| && HeldBefore(old(IL), others, polls, key)
      ensures ticket != 0 ==> (r != 0 <==> key !in old(IL))
    {
      // il.IL.LoadOrStore(key, ticket)
      var loaded := key in IL;
      IL := AfterStart(IL, key, ticket);
      if !loaded {
        return ticket, true, 0;
      }
      polls := 0;
      while loaded && polls < |others|
        invariant polls <= |others|
        invariant IL == Run(old(IL), others[..polls])
        invariant loaded <==> key in IL
        invariant HeldBefore(old(IL), others, polls, key)
        decreases |others| - polls
      {
        HeldBeforeExtend(old(IL), others, polls, key);
        RunExtend(old(IL), others, polls);
        IL := Apply(IL, others[polls]);  // another caller's step while this one sleeps
        loaded := key in IL;             // il.IL.Load(key)
        polls := polls + 1;
      }
      r, returned := 0, !loaded;
    }

    /** ClearWait(key, ticket): frees the key only when it holds this ticket. */
    method ClearWait(key: string, ticket: uint64)
      modifies this
      ensures IL == AfterClear(old(IL), key, ticket)
    {
      if key in IL {
        var val := IL[key];
        if val == ticket {
          IL := IL - {key};
        }
      }
    }
  }
}
