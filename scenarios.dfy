/** Whole-request scenarios over the State class: what a sequence of
    InterlockedGetCachedTx calls from different callers gives, where each
    atomic step of the Go program runs in some order. */
module Scenarios {
  import opened Basics
  import opened TTLCache
  import opened Gate
  import opened Orchestrator

  /** Single flight for one key on a fresh state. A leader takes the gate and
      fills the cache from one successful fetch; a follower that arrived while
      the gate was held is let go by the leader's deferred release and reads
      the cache; three later callers within 60 seconds each lead their own
      round and hit the cache. All five get the value, the backend is asked
      once (the others would have failed, but are never asked), and the gate
      ends empty. */
  method SingleFlight<T>(sig: string, v: T, t0: int, t1: uint64, t2: uint64, t3: uint64, t4: uint64, t5: uint64)
    returns (replies: seq<Reply<T>>, ghost fetches: seq<string>, gate: Tickets)
    requires t1 != 0 && t3 != 0 && t4 != 0 && t5 != 0
    ensures |replies| == 5 && forall i :: 0 <= i < |replies| ==> replies[i] == Reply(Some(v), true, None)
    ensures fetches == [sig]
    ensures gate == map[]
  {
    var st := new State<T>();
    var down: Fetch<T> := Failed("backend down");

    // the leader: WaitOrStart, then GetCachedTx; its deferred ClearWait runs later
    var r1, won, _ := st.TxIL.WaitOrStart(sig, t1, []);
    var tx1, set1, err1 := st.GetCachedTx(sig, t0, t0, Fetched(Some(v)));
    var filled := map[sig := Entry(Some(v), true, t0 + TxCacheMaxAge)];
    assert st.TxIL.IL == map[sig := t1] && st.TxMap.m == filled;

    // a follower that found the gate held; the leader's release runs while it sleeps
    var tx2, set2, err2, back2, polls2 := st.InterlockedGetCachedTx(sig, Env(t2, [Clear(sig, t1)], t0, t0, down));
    assert [Clear(sig, t1)][..1] == [Clear(sig, t1)];
    assert Run(map[sig := t1], [Clear(sig, t1)][..0]) == map[sig := t1];
    assert Run(map[sig := t1], [Clear(sig, t1)]) == map[];
    assert polls2 == 1 && back2;
    assert st.TxIL.IL == map[] && st.TxMap.m == filled;

    // three later callers
    var tx3, set3, err3, back3, _ := st.InterlockedGetCachedTx(sig, Env(t3, [], t0 + Second, t0 + Second, down));
    assert st.TxIL.IL == map[] && st.TxMap.m == filled;
    var tx4, set4, err4, back4, _ := st.InterlockedGetCachedTx(sig, Env(t4, [], t0 + 30 * Second, t0 + 30 * Second, down));
    assert st.TxIL.IL == map[] && st.TxMap.m == filled;
    var tx5, set5, err5, back5, _ := st.InterlockedGetCachedTx(sig, Env(t5, [], t0 + 60 * Second, t0 + 60 * Second, down));
    assert st.TxIL.IL == map[] && st.TxMap.m == filled;

    replies := [Reply(tx1, set1, err1), Reply(tx2, set2, err2), Reply(tx3, set3, err3), Reply(tx4, set4, err4), Reply(tx5, set5, err5)];
    fetches := st.Fetches;
    gate := st.TxIL.IL;
  }

  /** The release gap of the source: a leader that drew ticket 0 is treated as
      a follower by InterlockedGetCachedTx and never calls ClearWait, so the key
      stays held with ticket 0. The next caller for that key then waits through
      any schedule of other callers' steps in which every release carries a
      non-zero ticket (as every release in this program does), and never
      returns. */
  method ZeroTicketStall<T>(sig: string, first: Env<T>, next: Env<T>) returns (gate: Tickets, returned: bool)
    requires first.ticket == 0
    requires forall i :: 0 <= i < |next.others| ==> next.others[i].Clear? ==> next.others[i].ticket != 0
    ensures sig in gate && gate[sig] == 0
    ensures !returned
  {
    var st := new State<T>();
    var _, _, _, back1, _ := st.InterlockedGetCachedTx(sig, first);
    var held := st.TxIL.IL;
    assert held == map[sig := 0];
    var _, _, _, back2, polls := st.InterlockedGetCachedTx(sig, next);
    var ops := next.others[..polls];
    assert forall i :: 0 <= i < |ops| ==> ops[i] == next.others[i];
    ZeroTicketNeverReleased(held, ops, sig);
    gate, returned := st.TxIL.IL, back2;
  }
}
