/**
  A plain key-value store whose entries may expire: what Redis GET, SET, SET NX EX,
  SETEX and DEL do, and what the in-memory cache is meant to do.  The clock reading is
  always an argument.  An entry is gone once the clock is strictly past its expiry, as
  the in-memory cache's own test has it; a dead entry may still be present in the map.
*/
module TimedStore {
  import opened Wrappers

  type Time = real
  datatype Entry = Entry(value: string, expiry: Option<Time>)
  type Store = map<string, Entry>

  predicate Live(e: Entry, now: Time) {
    e.expiry.None? || now <= e.expiry.value
  }

  predicate Holds(s: Store, k: string, now: Time) {
    k in s && Live(s[k], now)
  }

  /** `now + ttl if ttl else None`: an absent or zero TTL never expires. */
  function ExpiryOf(ttl: Option<int>, now: Time): Option<Time> {
    if ttl.None? || ttl.value == 0 then None else Some(now + ttl.value as real)
  }

  function Get(s: Store, k: string, now: Time): Option<string> {
    if Holds(s, k, now) then Some(s[k].value) else None
  }

  function Put(s: Store, k: string, v: string, ttl: Option<int>, now: Time): Store {
    s[k := Entry(v, ExpiryOf(ttl, now))]
  }

  /** SET NX: writes exactly when no live entry is there, and says whether it did. */
  function PutIfAbsent(s: Store, k: string, v: string, ttl: Option<int>, now: Time): (r: (bool, Store))
    ensures r.0 <==> !Holds(s, k, now)
    ensures forall k' :: k' != k ==> (k' in r.1 <==> k' in s) && (k' in s ==> r.1[k'] == s[k'])
  {
    if Holds(s, k, now) then (false, s) else (true, Put(s, k, v, ttl, now))
  }

  function Remove(s: Store, ks: set<string>): Store {
    s - ks
  }

  function KeysOf(keys: seq<string>): set<string> {
    set k | k in keys
  }

  /** What a reader can still see at `now`. */
  function LiveView(s: Store, now: Time): Store {
    map k | k in s && Live(s[k], now) :: s[k]
  }

  /** The live view decides every lookup, now and at any later time. */
  lemma LiveViewDecidesLookups(s: Store, t: Store, now: Time, later: Time)
    requires LiveView(s, now) == LiveView(t, now)
    requires now <= later
    ensures LiveView(s, later) == LiveView(t, later)
    ensures forall k :: Get(s, k, later) == Get(t, k, later)
  {
    var a, b := LiveView(s, now), LiveView(t, now);
    assert forall k :: k in LiveView(s, later) <==> k in a && Live(a[k], later);
    assert forall k :: k in LiveView(t, later) <==> k in b && Live(b[k], later);
    forall k
      ensures Get(s, k, later) == Get(t, k, later)
    {
      assert Holds(s, k, later) <==> k in LiveView(s, later);
      assert Holds(t, k, later) <==> k in LiveView(t, later);
    }
  }
}
