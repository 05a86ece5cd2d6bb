/** ttlmap.go: a key/value store whose entries carry an absolute expiry time
    and a positive/negative tag. The Go type embeds a sync.Map; each of its
    calls is one atomic step, so the map is a field that every method
    reassigns. Clock readings are explicit `now` parameters. */
module TTLCache {
  import opened Basics

  /** TTLMapEntry. `IsSet` distinguishes a remembered success from a
      remembered failure. */
  datatype Entry<V> = Entry(Value: V, IsSet: bool, Expire: int)

  type Store<V> = map<string, Entry<V>>

  /** time.Now().After(e.Expire): strictly later than the expiry instant. */
  predicate Expired<V>(e: Entry<V>, now: int) {
    now > e.Expire
  }

  /** `key` has an entry that Load would report at `now`. */
  predicate Live<V>(m: Store<V>, key: string, now: int) {
    key in m && !Expired(m[key], now)
  }

  /** The keys whose entries expire strictly before `t` (time.Time.Before). */
  function ExpiredBefore<V>(m: Store<V>, t: int): set<string> {
    set k | k in m && m[k].Expire < t
  }

  /** The store left by ExpireBefore(t): those keys removed, nothing else touched. */
  function Swept<V>(m: Store<V>, t: int): Store<V> {
    map k | k in m && m[k].Expire >= t :: m[k]
  }

  class TTLMap<V> {
    var m: Store<V>

    constructor ()
      ensures m == map[]
    {
      m := map[];
    }

    /** Store: unconditional insert or overwrite with expiry now + ttl. */
    method Store(key: string, value: V, isSet: bool, ttl: int, now: int)
      modifies this
      ensures m == old(m)[key := Entry(value, isSet, now + ttl)]
    {
      m := m[key := Entry(value, isSet, now + ttl)];
    }

    /** Load with lazy expiry: a missing key reports (nil, false, false); an
        expired entry is deleted and reported the same way; a live entry
        reports its value and tag and leaves the store as it was. */
    method Load(key: string, now: int) returns (value: Option<V>, isSet: bool, ok: bool)
      modifies this
      ensures ok <==> Live(old(m), key, now)
      ensures ok ==> value == Some(old(m)[key].Value) && isSet == old(m)[key].IsSet && m == old(m)
      ensures !ok ==> value == None && !isSet && m == old(m) - {key}
    {
      if key !in m {
        return None, false, false;
      }
      var e := m[key];
      if now > e.Expire {
        m := m - {key};
        return None, false, false;
      }
      return Some(e.Value), e.IsSet, true;
    }

    /** LoadOrStore: insert-if-absent. A present entry is returned as it is,
        expired or not, and the store is left alone. */
    method LoadOrStore(key: string, value: V, isSet: bool, ttl: int, now: int) returns (actual: Entry<V>, loaded: bool)
      modifies this
      ensures loaded <==> key in old(m)
      ensures loaded ==> actual == old(m)[key] && m == old(m)
      ensures !loaded ==> actual == Entry(value, isSet, now + ttl) && m == old(m)[key := actual]
    {
      if key in m {
        return m[key], true;
      }
      actual := Entry(value, isSet, now + ttl);
      m := m[key := actual];
      loaded := false;
    }

    /** Delete: removes `key` if present. */
    method Delete(key: string)
      modifies this
      ensures m == old(m) - {key}
    {
      m := m - {key};
    }

    /** ExpireBefore: one Range pass that deletes every entry expiring strictly
        before `t` and counts the deletions. */
    method ExpireBefore(t: int) returns (deleted: nat)
      modifies this
      ensures m == Swept(old(m), t)
      ensures deleted == |ExpiredBefore(old(m), t)|
    {
      deleted := 0;
      var pending := m.Keys;
      SweepBounds(m, t);
      while pending != {}
        invariant pending <= old(m).Keys
        invariant m == SweptExcept(old(m), t, pending)
        invariant deleted == |ExpiredBefore(old(m), t) - pending|
        decreases pending
      {
        var key :| key in pending;
        SweepStep(old(m), t, pending, key, m);
        SweepCount(old(m), t, pending, key);
        if m[key].Expire < t {
          m := m - {key};
          deleted := deleted + 1;
        }
        pending := pending - {key};
      }
      SweepBounds(old(m), t);
    }
  }

  /** The store part-way through ExpireBefore: keys still `pending` are
      untouched, the visited ones are swept. */
  ghost function SweptExcept<V>(m: Store<V>, t: int, pending: set<string>): Store<V> {
    map k | k in m && (k in pending || m[k].Expire >= t) :: m[k]
  }

  /** The two ends of the pass: with every key pending nothing is swept yet;
      with none pending the sweep is complete. */
  lemma SweepBounds<V>(m: Store<V>, t: int)
    ensures SweptExcept(m, t, m.Keys) == m
    ensures SweptExcept(m, t, {}) == Swept(m, t)
    ensures ExpiredBefore(m, t) - m.Keys == {}
    ensures ExpiredBefore(m, t) - {} == ExpiredBefore(m, t)
  {
  }

  /** Visiting one more key of the Range pass: the visited key is still there
      with its original entry, and it is dropped exactly when it expires
      before `t`. */
  lemma SweepStep<V>(m: Store<V>, t: int, pending: set<string>, key: string, cur: Store<V>)
    requires key in pending && pending <= m.Keys
    requires cur == SweptExcept(m, t, pending)
    ensures key in cur && cur[key] == m[key]
    ensures SweptExcept(m, t, pending - {key}) == if m[key].Expire < t then cur - {key} else cur
  {
  }

  /** The deletion count goes up exactly when the visited key expires before `t`. */
  lemma SweepCount<V>(m: Store<V>, t: int, pending: set<string>, key: string)
    requires key in pending && pending <= m.Keys
    ensures |ExpiredBefore(m, t) - (pending - {key})| ==
      |ExpiredBefore(m, t) - pending| + (if m[key].Expire < t then 1 else 0)
  {
    var gone := ExpiredBefore(m, t);
    if m[key].Expire < t {
      assert gone - (pending - {key}) == (gone - pending) + {key};
      assert key !in gone - pending;
    } else {
      assert gone - (pending - {key}) == gone - pending;
    }
  }

  /** Sweeping splits the store: what stays plus what was removed is all of it. */
  lemma SweptSize<V>(m: Store<V>, t: int)
    ensures |Swept(m, t)| + |ExpiredBefore(m, t)| == |m|
  {
    var kept := Swept(m, t).Keys;
    var gone := ExpiredBefore(m, t);
    assert kept == m.Keys - gone;
    assert kept !! gone && kept + gone == m.Keys;
    assert |kept + gone| == |kept| + |gone|;
  }

  /** The sweep removes only entries that expire before the threshold, keeps
      every other entry unchanged, and removes every one that does. */
  lemma SweptExactly<V>(m: Store<V>, t: int, k: string)
    ensures k in Swept(m, t) <==> k in m && !(m[k].Expire < t)
    ensures k in Swept(m, t) ==> Swept(m, t)[k] == m[k]
  {
  }

  /** An entry stored at `at` with `ttl` is reported by Load exactly while the
      clock reads no later than at + ttl, so it is still live at that instant. */
  lemma StoredEntryLifetime<V>(m: Store<V>, key: string, value: V, isSet: bool, ttl: int, at: int, now: int)
    ensures Live(m[key := Entry(value, isSet, at + ttl)], key, now) <==> now <= at + ttl
  {
  }
}
