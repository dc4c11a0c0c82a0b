/**
  The in-memory fallback cache: a Python dict (insertion-ordered) of values with optional
  expiry, cleaned and evicted only when a set finds it full.
*/
module InMemoryCaching {
  import opened Wrappers
  import opened TimedStore

  // ------------------------------------------------------------------ an insertion-ordered dict

  predicate NoDuplicates(s: seq<string>) {
    forall i, j :: 0 <= i < j < |s| ==> s[i] != s[j]
  }

  /** `s` without the keys in `gone`, in the same order. */
  function Minus(s: seq<string>, gone: set<string>): seq<string> {
    if s == [] then []
    else (if s[0] in gone then [] else [s[0]]) + Minus(s[1..], gone)
  }

  datatype Dict = Dict(order: seq<string>, data: Store) {
    ghost predicate Valid() {
      NoDuplicates(order) && forall k :: k in order <==> k in data
    }

    /** d[k] = e: an existing key keeps its place, a new one goes to the end. */
    function Assign(k: string, e: Entry): Dict {
      Dict(if k in data then order else order + [k], data[k := e])
    }

    function Drop(gone: set<string>): Dict {
      Dict(Minus(order, gone), data - gone)
    }

    function Oldest(n: nat): (r: set<string>)
      requires n <= |order|
      ensures forall k :: k in r ==> k in order
    {
      set i | 0 <= i < n :: order[i]
    }
  }

  const EMPTY := Dict([], map[])

  lemma {:induction false} MinusKeeps(s: seq<string>, gone: set<string>)
    requires NoDuplicates(s)
    ensures NoDuplicates(Minus(s, gone))
    ensures forall k :: k in Minus(s, gone) <==> k in s && k !in gone
    ensures |Minus(s, gone)| <= |s|
  {
    if s != [] {
      assert forall i :: 0 <= i < |s[1..]| ==> s[1..][i] == s[i + 1];
      MinusKeeps(s[1..], gone);
      assert s == [s[0]] + s[1..];
      var rest := Minus(s[1..], gone);
      assert s[0] !in s[1..];
      assert s[0] !in rest;
    }
  }

  lemma {:induction false} MinusTwice(s: seq<string>, a: set<string>, b: set<string>)
    ensures Minus(Minus(s, a), b) == Minus(s, a + b)
  {
    if s != [] {
      MinusTwice(s[1..], a, b);
      var rest := Minus(s[1..], a);
      assert ([s[0]] + rest)[1..] == rest;
      if s[0] in a {
        assert [] + rest == rest;
      }
    }
  }

  lemma {:induction false} MinusNothing(s: seq<string>)
    ensures Minus(s, {}) == s
  {
    if s != [] { MinusNothing(s[1..]); }
  }

  /** Dropping the `n` oldest keys drops exactly the first `n` places. */
  lemma {:induction false} MinusOldest(s: seq<string>, n: nat)
    requires NoDuplicates(s) && n <= |s|
    ensures Minus(s, set i | 0 <= i < n :: s[i]) == s[n..]
  {
    var gone := set i | 0 <= i < n :: s[i];
    if n == 0 {
      assert gone == {};
      MinusNothing(s);
    } else {
      var t := s[1..];
      assert forall i :: 0 <= i < |t| ==> t[i] == s[i + 1];
      var inner := set i | 0 <= i < n - 1 :: t[i];
      MinusOldest(t, n - 1);
      assert gone == {s[0]} + inner by {
        forall k | k in gone ensures k in {s[0]} + inner {
          var i :| 0 <= i < n && k == s[i];
          if i > 0 { assert k == t[i - 1]; }
        }
        forall k | k in inner ensures k in gone {
          var i :| 0 <= i < n - 1 && k == t[i];
          assert k == s[i + 1];
        }
      }
      MinusTwice(t, {s[0]}, inner);
      MinusAbsent(t, s[0]);
      assert s[n..] == t[n - 1..];
    }
  }

  lemma {:induction false} MinusAbsent(s: seq<string>, k: string)
    requires k !in s
    ensures Minus(s, {k}) == s
  {
    if s != [] { MinusAbsent(s[1..], k); }
  }

  lemma DropKeepsValid(d: Dict, gone: set<string>)
    requires d.Valid()
    ensures d.Drop(gone).Valid()
    ensures |d.Drop(gone).order| <= |d.order|
  {
    MinusKeeps(d.order, gone);
  }

  lemma DropTwice(d: Dict, a: set<string>, b: set<string>)
    ensures d.Drop(a).Drop(b) == d.Drop(a + b)
  {
    MinusTwice(d.order, a, b);
  }

  lemma DropNothing(d: Dict)
    ensures d.Drop({}) == d
  {
    MinusNothing(d.order);
  }

  lemma AssignKeepsValid(d: Dict, k: string, e: Entry)
    requires d.Valid()
    ensures d.Assign(k, e).Valid()
  {
  }

  // ------------------------------------------------------------------ what each operation leaves

  /** What _cleanup_expired removes.  Its test is `exp and now > exp`: an expiry of exactly 0.0 is never cleaned. */
  predicate Cleanable(e: Entry, now: Time) {
    e.expiry.Some? && e.expiry.value != 0.0 && now > e.expiry.value
  }

  function Stale(d: Dict, now: Time): set<string> {
    set k | k in d.data && Cleanable(d.data[k], now)
  }

  /** Cleaning is invisible: no lookup, then or later, can tell that it happened. */
  function Cleaned(d: Dict, now: Time): (c: Dict)
    ensures forall k, later :: now <= later ==> Get(c.data, k, later) == Get(d.data, k, later)
  {
    d.Drop(Stale(d, now))
  }

  /** A full cache is cleaned; if that was not enough, the oldest tenth of max_size goes. */
  function MakeRoom(d: Dict, maxSize: nat, now: Time): Dict
    requires d.Valid()
  {
    if |d.order| < maxSize then d
    else
      var c := Cleaned(d, now);
      if |c.order| < maxSize then c
      else
        assert maxSize / 10 <= maxSize;
        c.Drop(c.Oldest(maxSize / 10))
  }

  function AfterSet(d: Dict, maxSize: nat, key: string, value: string, ttl: Option<int>, now: Time): Dict
    requires d.Valid()
  {
    MakeRoom(d, maxSize, now).Assign(key, Entry(value, ExpiryOf(ttl, now)))
  }

  function AfterGet(d: Dict, key: string, now: Time): Dict {
    if key in d.data && !Live(d.data[key], now) then d.Drop({key}) else d
  }

  function AfterSetNx(d: Dict, key: string, value: string, ttl: Option<int>, now: Time): Dict {
    if Holds(d.data, key, now) then d else d.Assign(key, Entry(value, ExpiryOf(ttl, now)))
  }

  function Matched(d: Dict, matches: string -> bool): set<string> {
    set k | k in d.data && matches(k)
  }

  // ------------------------------------------------------------------ the code

  class InMemoryCache {
    var cache: Dict
    const maxSize: nat

    constructor (maxSize: nat := 10000)
      ensures this.maxSize == maxSize && cache == EMPTY && cache.Valid()
    {
      this.maxSize := maxSize;
      cache := EMPTY;
    }

    /** Deletes the keys of a list one by one. */
    method Pop(keys: seq<string>)
      requires cache.Valid()
      modifies this
      ensures cache == old(cache).Drop(KeysOf(keys)) && cache.Valid()
    {
      var i := 0;
      DropNothing(cache);
      assert KeysOf(keys[..0]) == {};
      while i < |keys|
        invariant 0 <= i <= |keys|
        invariant cache == old(cache).Drop(KeysOf(keys[..i]))
      {
        ghost var done := KeysOf(keys[..i]);
        DropTwice(old(cache), done, {keys[i]});
        assert KeysOf(keys[..i + 1]) == done + {keys[i]} by {
          assert keys[..i + 1] == keys[..i] + [keys[i]];
        }
        cache := cache.Drop({keys[i]});
        i := i + 1;
      }
      assert keys[..i] == keys;
      DropKeepsValid(old(cache), KeysOf(keys));
    }

    method CleanupExpired(now: Time)
      requires cache.Valid()
      modifies this
      ensures cache == Cleaned(old(cache), now) && cache.Valid()
      ensures forall k :: k in cache.data <==>
                k in old(cache).data && (Live(old(cache).data[k], now) || old(cache).data[k].expiry == Some(0.0))
    {
      var expired: seq<string> := [];
      var i := 0;
      while i < |cache.order|
        invariant 0 <= i <= |cache.order|
        invariant cache == old(cache)
        invariant forall k :: k in expired <==> k in cache.order[..i] && Cleanable(cache.data[k], now)
      {
        var k := cache.order[i];
        assert cache.order[..i + 1] == cache.order[..i] + [k];
        if Cleanable(cache.data[k], now) {
          expired := expired + [k];
        }
        i := i + 1;
      }
      assert cache.order[..i] == cache.order;
      assert KeysOf(expired) == Stale(cache, now);
      Pop(expired);
    }

    method Get(key: string, now: Time) returns (value: Option<string>)
      requires cache.Valid()
      modifies this
      ensures value == TimedStore.Get(old(cache).data, key, now)
      ensures cache == AfterGet(old(cache), key, now) && cache.Valid()
    {
      if key !in cache.data {
        return None;
      }
      var entry := cache.data[key];
      if !Live(entry, now) {
        DropKeepsValid(cache, {key});
        cache := cache.Drop({key});
        return None;
      }
      value := Some(entry.value);
    }

    method Set(key: string, value: string, ttl: Option<int>, now: Time) returns (ok: bool)
      requires cache.Valid()
      modifies this
      ensures ok
      ensures cache == AfterSet(old(cache), maxSize, key, value, ttl, now) && cache.Valid()
    {
      if |cache.order| >= maxSize {
        CleanupExpired(now);
        if |cache.order| >= maxSize {
          var toRemove := cache.order[..maxSize / 10];
          assert KeysOf(toRemove) == cache.Oldest(maxSize / 10) by {
            forall k | k in toRemove ensures k in cache.Oldest(maxSize / 10) {
              var i :| 0 <= i < |toRemove| && toRemove[i] == k;
              assert cache.order[i] == k;
            }
            forall k | k in cache.Oldest(maxSize / 10) ensures k in toRemove {
              var i :| 0 <= i < maxSize / 10 && cache.order[i] == k;
              assert toRemove[i] == k;
            }
          }
          Pop(toRemove);
        }
      }
      AssignKeepsValid(cache, key, Entry(value, ExpiryOf(ttl, now)));
      cache := cache.Assign(key, Entry(value, ExpiryOf(ttl, now)));
      ok := true;
    }

    method SetNx(key: string, value: string, ttl: Option<int>, now: Time) returns (acquired: bool)
      requires cache.Valid()
      modifies this
      ensures acquired <==> !Holds(old(cache).data, key, now)
      ensures cache == AfterSetNx(old(cache), key, value, ttl, now) && cache.Valid()
    {
      if key in cache.data {
        if Live(cache.data[key], now) {
          return false;
        }
      }
      AssignKeepsValid(cache, key, Entry(value, ExpiryOf(ttl, now)));
      cache := cache.Assign(key, Entry(value, ExpiryOf(ttl, now)));
      acquired := true;
    }

    method Delete(key: string) returns (existed: bool)
      requires cache.Valid()
      modifies this
      ensures existed <==> key in old(cache).data
      ensures cache == old(cache).Drop({key}) && cache.Valid()
    {
      DropKeepsValid(cache, {key});
      if key in cache.data {
        cache := cache.Drop({key});
        return true;
      }
      MinusAbsent(cache.order, key);
      existed := false;
    }

    /** fnmatch is a parameter. */
    method DeletePattern(matches: string -> bool) returns (deleted: nat)
      requires cache.Valid()
      modifies this
      ensures deleted == |Matched(old(cache), matches)|
      ensures cache == old(cache).Drop(Matched(old(cache), matches)) && cache.Valid()
    {
      var toDelete: seq<string> := [];
      var i := 0;
      while i < |cache.order|
        invariant 0 <= i <= |cache.order|
        invariant cache == old(cache)
        invariant forall k :: k in toDelete <==> k in cache.order[..i] && matches(k)
        invariant |toDelete| == |KeysOf(toDelete)|
      {
        var k := cache.order[i];
        assert cache.order[..i + 1] == cache.order[..i] + [k];
        if matches(k) {
          assert k !in toDelete;
          assert KeysOf(toDelete + [k]) == KeysOf(toDelete) + {k};
          toDelete := toDelete + [k];
        }
        i := i + 1;
      }
      assert cache.order[..i] == cache.order;
      assert KeysOf(toDelete) == Matched(cache, matches);
      Pop(toDelete);
      deleted := |toDelete|;
    }

    method Close()
      modifies this
      ensures cache == EMPTY && cache.Valid()
    {
      cache := EMPTY;
    }
  }

  // ------------------------------------------------------------------ single operations

  /** No TTL, a zero TTL, or one that is not up yet. */
  predicate Within(ttl: Option<int>, now: Time, later: Time) {
    ttl.None? || ttl.value == 0 || later <= now + ttl.value as Time
  }

  /** A set never evicts the key it has just written: a later get returns the value exactly until its TTL is up. */
  lemma SetIsSeen(d: Dict, maxSize: nat, key: string, value: string, ttl: Option<int>, now: Time, later: Time)
    requires d.Valid() && now <= later
    ensures
      var after := AfterSet(d, maxSize, key, value, ttl, now);
      Get(after.data, key, later) == if Within(ttl, now, later) then Some(value) else None
  {
  }

  /** So does a setnx that finds nothing; one that finds something changes nothing. */
  lemma SetNxIsSeen(d: Dict, key: string, value: string, ttl: Option<int>, now: Time, later: Time)
    requires now <= later
    ensures
      var after := AfterSetNx(d, key, value, ttl, now);
      if Get(d.data, key, now).Some? then after == d
      else Get(after.data, key, later) == if Within(ttl, now, later) then Some(value) else None
  {
  }

  /** A get leaves the entry it found and drops one that has expired; the others it does not touch. */
  lemma GetDropsTheExpired(d: Dict, key: string, now: Time, k: string)
    ensures
      var after := AfterGet(d, key, now).data;
      && (k in after <==> k in d.data && (k != key || Get(d.data, key, now).Some?))
      && (k in after ==> after[k] == d.data[k])
  {
  }

  /** Cleanup removes what has expired, except an entry whose expiry is exactly 0.0, and nothing else. */
  lemma CleanupRemovesTheExpired(d: Dict, now: Time, k: string)
    ensures
      var after := Cleaned(d, now).data;
      && (k in after <==> k in d.data && (Live(d.data[k], now) || d.data[k].expiry == Some(0.0)))
      && (k in after ==> after[k] == d.data[k])
  {
  }

  lemma EvictionTakesTheOldest(d: Dict, maxSize: nat, now: Time)
    requires d.Valid() && |Cleaned(d, now).order| >= maxSize
    ensures MakeRoom(d, maxSize, now).order == Cleaned(d, now).order[maxSize / 10..]
  {
    DropKeepsValid(d, Stale(d, now));
    MinusOldest(Cleaned(d, now).order, maxSize / 10);
  }

  lemma MakeRoomKeepsValid(d: Dict, maxSize: nat, now: Time)
    requires d.Valid()
    ensures MakeRoom(d, maxSize, now).Valid()
    ensures |MakeRoom(d, maxSize, now).order| <= |d.order|
    ensures forall k :: k in MakeRoom(d, maxSize, now).data ==>
              k in d.data && MakeRoom(d, maxSize, now).data[k] == d.data[k]
    ensures |MakeRoom(d, maxSize, now).order| < maxSize || |MakeRoom(d, maxSize, now).order| <= |d.order| - maxSize / 10
  {
    var c := Cleaned(d, now);
    DropKeepsValid(d, Stale(d, now));
    if |d.order| >= maxSize && |c.order| >= maxSize {
      DropKeepsValid(c, c.Oldest(maxSize / 10));
      EvictionTakesTheOldest(d, maxSize, now);
    }
  }
}
