/**
  Whole runs of the in-memory cache, from empty, each operation at its own clock reading.
  Two references: the history of the run itself (what was last written to a key), and a
  plain timed map that never evicts.
*/
module CacheRuns {
  import opened Wrappers
  import opened TimedStore
  import opened InMemoryCaching

  datatype Op =
    | Get(key: string)
    | Set(key: string, value: string, ttl: Option<int>)
    | SetNx(key: string, value: string, ttl: Option<int>)
    | Delete(key: string)
    | DeletePattern(matches: string -> bool)

  datatype Timed = Timed(op: Op, at: Time)

  function Apply(d: Dict, maxSize: nat, t: Timed): (r: Dict)
    requires d.Valid()
    ensures r.Valid()
  {
    match t.op
    case Get(k) => DropKeepsValid(d, {k}); AfterGet(d, k, t.at)
    case Set(k, v, ttl) => MakeRoomKeepsValid(d, maxSize, t.at); AfterSet(d, maxSize, k, v, ttl, t.at)
    case SetNx(k, v, ttl) => AfterSetNx(d, k, v, ttl, t.at)
    case Delete(k) => DropKeepsValid(d, {k}); d.Drop({k})
    case DeletePattern(p) => DropKeepsValid(d, Matched(d, p)); d.Drop(Matched(d, p))
  }

  ghost predicate Follows(before: Dict, maxSize: nat, t: Timed, after: Dict) {
    before.Valid() && after == Apply(before, maxSize, t)
  }

  /** `states[n]` is the cache after the first `n` operations, from empty. */
  ghost predicate IsRun(maxSize: nat, ops: seq<Timed>, states: seq<Dict>) {
    && |states| == |ops| + 1
    && states[0] == EMPTY
    && forall n {:trigger ops[n]} :: 0 <= n < |ops| ==> Follows(states[n], maxSize, ops[n], states[n + 1])
  }

  lemma RunGrows(maxSize: nat, ops: seq<Timed>, before: seq<Dict>)
    requires ops != [] && IsRun(maxSize, ops[..|ops| - 1], before)
    ensures before[|ops| - 1].Valid()
    ensures IsRun(maxSize, ops, before + [Apply(before[|ops| - 1], maxSize, ops[|ops| - 1])])
  {
    var last := |ops| - 1;
    if last > 0 {
      assert Follows(before[last - 1], maxSize, ops[..last][last - 1], before[last]);
    }
    var states := before + [Apply(before[last], maxSize, ops[last])];
    forall n | 0 <= n < |ops|
      ensures Follows(states[n], maxSize, ops[n], states[n + 1])
    {
      if n < last {
        assert Follows(before[n], maxSize, ops[..last][n], before[n + 1]);
      }
    }
  }

  /** Every list of operations has its run. */
  function RunOf(maxSize: nat, ops: seq<Timed>): (states: seq<Dict>)
    ensures IsRun(maxSize, ops, states)
  {
    if ops == [] then [EMPTY]
    else
      var before := RunOf(maxSize, ops[..|ops| - 1]);
      RunGrows(maxSize, ops, before);
      before + [Apply(before[|ops| - 1], maxSize, ops[|ops| - 1])]
  }

  // ------------------------------------------------------------------ what a get returns

  /** What one operation writes to a cache in state `d`. */
  function Writes(d: Dict, t: Timed): Option<(string, Entry)> {
    match t.op
    case Set(k, v, ttl) => Some((k, Entry(v, ExpiryOf(ttl, t.at))))
    case SetNx(k, v, ttl) => if Holds(d.data, k, t.at) then None else Some((k, Entry(v, ExpiryOf(ttl, t.at))))
    case _ => None
  }

  predicate Deletes(op: Op, k: string) {
    (op.Delete? && op.key == k) || (op.DeletePattern? && op.matches(k))
  }

  /** The operation writes or deletes `k`. */
  predicate Touches(d: Dict, t: Timed, k: string) {
    Deletes(t.op, k) || (Writes(d, t).Some? && Writes(d, t).value.0 == k)
  }

  /** Operation `j` wrote `e` to `k` and nothing between it and operation `n` wrote or deleted `k` again. */
  ghost predicate LastWrite(ops: seq<Timed>, states: seq<Dict>, n: nat, k: string, e: Entry, j: nat)
    requires n <= |ops| < |states|
  {
    && j < n
    && Writes(states[j], ops[j]) == Some((k, e))
    && forall i :: j < i < n ==> !Touches(states[i], ops[i], k)
  }

  lemma HeldIsNewOrKept(d: Dict, maxSize: nat, t: Timed, k: string)
    requires d.Valid() && k in Apply(d, maxSize, t).data
    ensures
      || Writes(d, t) == Some((k, Apply(d, maxSize, t).data[k]))
      || (k in d.data && Apply(d, maxSize, t).data[k] == d.data[k] && !Touches(d, t, k))
  {
    if t.op.Set? {
      MakeRoomKeepsValid(d, maxSize, t.at);
      var e := Entry(t.op.value, ExpiryOf(t.op.ttl, t.at));
      assert Apply(d, maxSize, t) == MakeRoom(d, maxSize, t.at).Assign(t.op.key, e);
    }
  }

  lemma {:induction false} EverythingHeldWasWritten(maxSize: nat, ops: seq<Timed>, states: seq<Dict>, n: nat, k: string)
    requires IsRun(maxSize, ops, states)
    requires n <= |ops| && k in states[n].data
    ensures exists j :: LastWrite(ops, states, n, k, states[n].data[k], j)
    decreases n
  {
    var d, t, e := states[n - 1], ops[n - 1], states[n].data[k];
    assert Follows(d, maxSize, t, states[n]);
    HeldIsNewOrKept(d, maxSize, t, k);
    if Writes(d, t) == Some((k, e)) {
      assert LastWrite(ops, states, n, k, e, n - 1);
    } else {
      EverythingHeldWasWritten(maxSize, ops, states, n - 1, k);
      var j :| LastWrite(ops, states, n - 1, k, e, j);
      assert LastWrite(ops, states, n, k, e, j);
    }
  }

  /**
    Sound over every run, evictions and all: whatever a get returns is the value last
    written to that key, its TTL has not passed, and nothing deleted it since.
  */
  lemma GetReturnsTheLastWrite(maxSize: nat, ops: seq<Timed>, states: seq<Dict>, n: nat)
    requires IsRun(maxSize, ops, states) && n < |ops| && ops[n].op.Get?
    ensures
      var answer := TimedStore.Get(states[n].data, ops[n].op.key, ops[n].at);
      answer.Some? ==> exists j, e ::
        LastWrite(ops, states, n, ops[n].op.key, e, j) && e.value == answer.value && Live(e, ops[n].at)
  {
    var k := ops[n].op.key;
    if Holds(states[n].data, k, ops[n].at) {
      EverythingHeldWasWritten(maxSize, ops, states, n, k);
    }
  }

  // ------------------------------------------------------------------ against a map that never evicts

  function SpecApply(m: Store, t: Timed): Store {
    match t.op
    case Get(_) => m
    case Set(k, v, ttl) => Put(m, k, v, ttl, t.at)
    case SetNx(k, v, ttl) => PutIfAbsent(m, k, v, ttl, t.at).1
    case Delete(k) => Remove(m, {k})
    case DeletePattern(p) => map k | k in m && !p(k) :: m[k]
  }

  function Spec(ops: seq<Timed>, n: nat): Store
    requires n <= |ops|
  {
    if n == 0 then map[] else SpecApply(Spec(ops, n - 1), ops[n - 1])
  }

  predicate Chronological(ops: seq<Timed>) {
    forall i, j :: 0 <= i < j < |ops| ==> ops[i].at <= ops[j].at
  }

  /** The keys a set at `now` evicts. */
  function Victims(d: Dict, maxSize: nat, now: Time): (v: set<string>)
    requires d.Valid()
    ensures forall k :: k in v ==> k in d.data
  {
    DropKeepsValid(d, Stale(d, now));
    assert Cleaned(d, now).Valid();
    if |d.order| < maxSize || |Cleaned(d, now).order| < maxSize then {} else Cleaned(d, now).Oldest(maxSize / 10)
  }

  /** No set so far evicted an unexpired key other than the one it wrote. */
  ghost predicate NoLiveVictims(maxSize: nat, ops: seq<Timed>, states: seq<Dict>, n: nat)
    requires IsRun(maxSize, ops, states) && n <= |ops|
  {
    forall i :: 0 <= i < n && ops[i].op.Set? ==> SparesLive(states[i], maxSize, ops[i].op.key, ops[i].at)
  }

  ghost predicate SparesLive(d: Dict, maxSize: nat, key: string, now: Time)
    requires d.Valid()
  {
    forall k :: k in Victims(d, maxSize, now) ==> k == key || !Live(d.data[k], now)
  }

  lemma EvictionSparesTheRest(d: Dict, maxSize: nat, now: Time)
    requires d.Valid()
    ensures forall k :: k in d.data && k !in Victims(d, maxSize, now) && Live(d.data[k], now) ==>
              k in MakeRoom(d, maxSize, now).data && MakeRoom(d, maxSize, now).data[k] == d.data[k]
    ensures forall k :: k in Victims(d, maxSize, now) ==> k !in MakeRoom(d, maxSize, now).data
  {
    DropKeepsValid(d, Stale(d, now));
  }

  /** One set agrees with the timed map exactly when it evicts no unexpired key but the one it writes. */
  lemma SetIsExactIff(d: Dict, maxSize: nat, key: string, value: string, ttl: Option<int>, now: Time)
    requires d.Valid()
    ensures LiveView(AfterSet(d, maxSize, key, value, ttl, now).data, now)
            == LiveView(Put(d.data, key, value, ttl, now), now)
       <==> SparesLive(d, maxSize, key, now)
  {
    EvictionSparesTheRest(d, maxSize, now);
    MakeRoomKeepsValid(d, maxSize, now);
    var room, e := MakeRoom(d, maxSize, now).data, Entry(value, ExpiryOf(ttl, now));
    assert AfterSet(d, maxSize, key, value, ttl, now).data == room[key := e];
    RoomIsExactIff(d.data, room, Victims(d, maxSize, now), key, e, now);
  }

  /** The same about any store `room` left of a store `s` by dropping `victims` and dead entries. */
  lemma RoomIsExactIff(s: Store, room: Store, victims: set<string>, key: string, e: Entry, now: Time)
    requires forall k :: k in room ==> k in s && room[k] == s[k]
    requires forall k :: k in victims ==> k in s && k !in room
    requires forall k :: k in s && k !in victims && Live(s[k], now) ==> k in room
    ensures LiveView(room[key := e], now) == LiveView(s[key := e], now)
       <==> forall k :: k in victims ==> k == key || !Live(s[k], now)
  {
    var got, want := LiveView(room[key := e], now), LiveView(s[key := e], now);
    if k :| k in victims && k != key && Live(s[k], now) {
      assert k in want && k !in got;
    } else {
      assert forall k :: k in got <==> k in want;
    }
  }

  lemma OtherOpsAreExact(d: Dict, maxSize: nat, m: Store, t: Timed)
    requires d.Valid() && !t.op.Set? && LiveView(d.data, t.at) == LiveView(m, t.at)
    ensures LiveView(Apply(d, maxSize, t).data, t.at) == LiveView(SpecApply(m, t), t.at)
  {
    match t.op {
      case Get(_) => assert LiveView(AfterGet(d, t.op.key, t.at).data, t.at) == LiveView(d.data, t.at);
      case SetNx(k, v, ttl) =>
        assert Holds(d.data, k, t.at) <==> k in LiveView(d.data, t.at);
        assert Holds(m, k, t.at) <==> k in LiveView(m, t.at);
        PutRespectsLiveView(d.data, m, k, v, ttl, t.at);
      case Delete(k) =>
        DropRespectsLiveView(d.data, m, {k}, {k}, t.at);
      case DeletePattern(p) =>
        var gone := set k | k in m && p(k);
        assert SpecApply(m, t) == m - gone;
        DropRespectsLiveView(d.data, m, Matched(d, p), gone, t.at);
    }
  }

  /** Dropping keys from both, as long as the two sets agree on what is live. */
  lemma DropRespectsLiveView(s: Store, m: Store, a: set<string>, b: set<string>, now: Time)
    requires LiveView(s, now) == LiveView(m, now)
    requires forall k :: k in LiveView(s, now) ==> (k in a <==> k in b)
    ensures LiveView(s - a, now) == LiveView(m - b, now)
  {
    assert LiveView(s - a, now) == LiveView(s, now) - a;
    assert LiveView(m - b, now) == LiveView(m, now) - b;
  }

  lemma PutRespectsLiveView(s: Store, m: Store, key: string, value: string, ttl: Option<int>, now: Time)
    requires LiveView(s, now) == LiveView(m, now)
    ensures LiveView(Put(s, key, value, ttl, now), now) == LiveView(Put(m, key, value, ttl, now), now)
  {
    var a, b := LiveView(s, now), LiveView(m, now);
    var got, want := LiveView(Put(s, key, value, ttl, now), now), LiveView(Put(m, key, value, ttl, now), now);
    forall k
      ensures k in got <==> k in want
      ensures k in got ==> got[k] == want[k]
    {
      assert Holds(s, k, now) <==> k in a;
      assert Holds(m, k, now) <==> k in b;
    }
  }

  /**
    Complete until the first live eviction: up to then the cache and the timed map show
    the same unexpired entries, so every get and every setnx of the two answer alike.
  */
  lemma {:induction false} AgreesWithTimedMap(maxSize: nat, ops: seq<Timed>, states: seq<Dict>, n: nat, now: Time)
    requires IsRun(maxSize, ops, states) && n <= |ops|
    requires Chronological(ops) && NoLiveVictims(maxSize, ops, states, n)
    requires n > 0 ==> ops[n - 1].at <= now
    ensures LiveView(states[n].data, now) == LiveView(Spec(ops, n), now)
    ensures forall k :: TimedStore.Get(states[n].data, k, now) == TimedStore.Get(Spec(ops, n), k, now)
    ensures forall k :: Holds(states[n].data, k, now) <==> Holds(Spec(ops, n), k, now)
    decreases n
  {
    if n > 0 {
      var t := ops[n - 1];
      var d, m := states[n - 1], Spec(ops, n - 1);
      AgreesWithTimedMap(maxSize, ops, states, n - 1, t.at);
      assert Follows(d, maxSize, t, states[n]);
      StepAgrees(d, maxSize, m, t);
      LiveViewDecidesLookups(states[n].data, Spec(ops, n), t.at, now);
    }
    LiveViewDecidesLookups(states[n].data, Spec(ops, n), now, now);
    forall k
      ensures Holds(states[n].data, k, now) <==> Holds(Spec(ops, n), k, now)
    {
      assert TimedStore.Get(states[n].data, k, now) == TimedStore.Get(Spec(ops, n), k, now);
    }
  }

  lemma StepAgrees(d: Dict, maxSize: nat, m: Store, t: Timed)
    requires d.Valid() && LiveView(d.data, t.at) == LiveView(m, t.at)
    requires t.op.Set? ==> SparesLive(d, maxSize, t.op.key, t.at)
    ensures LiveView(Apply(d, maxSize, t).data, t.at) == LiveView(SpecApply(m, t), t.at)
  {
    if t.op.Set? {
      SetIsExactIff(d, maxSize, t.op.key, t.op.value, t.op.ttl, t.at);
      PutRespectsLiveView(d.data, m, t.op.key, t.op.value, t.op.ttl, t.at);
    } else {
      OtherOpsAreExact(d, maxSize, m, t);
    }
  }

  /** The entries that are unexpired, and those whose expiry is exactly 0.0, which no cleanup removes. */
  function Remaining(d: Dict, now: Time): set<string> {
    set k | k in d.data && (Live(d.data[k], now) || d.data[k].expiry == Some(0.0))
  }

  lemma {:induction false} DistinctKeysAreCounted(s: seq<string>)
    requires NoDuplicates(s)
    ensures |KeysOf(s)| == |s|
  {
    if s != [] {
      var last := |s| - 1;
      DistinctKeysAreCounted(s[..last]);
      assert KeysOf(s) == KeysOf(s[..last]) + {s[last]};
      assert s[last] !in KeysOf(s[..last]);
    }
  }

  /**
    A set takes somebody's entry exactly if max_size or more entries remain and
    max_size // 10 is not zero.
  */
  lemma NobodyIsEvictedIff(d: Dict, maxSize: nat, now: Time)
    requires d.Valid()
    ensures Victims(d, maxSize, now) == {} <==> |Remaining(d, now)| < maxSize || maxSize < 10
  {
    DropKeepsValid(d, Stale(d, now));
    var c := Cleaned(d, now);
    DistinctKeysAreCounted(c.order);
    assert KeysOf(c.order) == Remaining(d, now);
    if maxSize >= 10 && |c.order| >= maxSize {
      assert c.order[0] in Victims(d, maxSize, now);
    }
  }

  /** No set so far has found max_size or more entries that remain. */
  ghost predicate NeverFull(maxSize: nat, ops: seq<Timed>, states: seq<Dict>, n: nat)
    requires IsRun(maxSize, ops, states) && n <= |ops|
  {
    forall i :: 0 <= i < n && ops[i].op.Set? ==> |Remaining(states[i], ops[i].at)| < maxSize
  }

  /**
    A cache with room for what is unexpired, and one too small ever to evict, is a timed
    map: over the whole run it shows the same entries and answers every get alike.
  */
  lemma WithRoomItIsATimedMap(maxSize: nat, ops: seq<Timed>, states: seq<Dict>, n: nat, now: Time)
    requires IsRun(maxSize, ops, states) && n <= |ops|
    requires Chronological(ops) && (NeverFull(maxSize, ops, states, n) || maxSize < 10)
    requires n > 0 ==> ops[n - 1].at <= now
    ensures LiveView(states[n].data, now) == LiveView(Spec(ops, n), now)
    ensures forall k :: TimedStore.Get(states[n].data, k, now) == TimedStore.Get(Spec(ops, n), k, now)
  {
    forall i | 0 <= i < n && ops[i].op.Set?
      ensures SparesLive(states[i], maxSize, ops[i].op.key, ops[i].at)
    {
      assert Follows(states[i], maxSize, ops[i], states[i + 1]);
      NobodyIsEvictedIff(states[i], maxSize, ops[i].at);
    }
    AgreesWithTimedMap(maxSize, ops, states, n, now);
  }

  /** A clock that shows positive times, and no negative TTL. */
  predicate OrdinaryTimes(ops: seq<Timed>) {
    forall i :: 0 <= i < |ops| ==>
      ops[i].at > 0.0 && ((ops[i].op.Set? || ops[i].op.SetNx?) && ops[i].op.ttl.Some? ==> ops[i].op.ttl.value >= 0)
  }

  lemma NoExpiryIsZero(maxSize: nat, ops: seq<Timed>, states: seq<Dict>, n: nat, k: string)
    requires IsRun(maxSize, ops, states) && OrdinaryTimes(ops)
    requires n <= |ops| && k in states[n].data
    ensures states[n].data[k].expiry != Some(0.0)
  {
    var e := states[n].data[k];
    EverythingHeldWasWritten(maxSize, ops, states, n, k);
    var j: nat :| LastWrite(ops, states, n, k, e, j);
    assert e.expiry == ExpiryOf(ops[j].op.ttl, ops[j].at);
  }

  /**
    What the cache promises in ordinary times: as long as no set finds max_size or more
    unexpired entries, it is a timed map.  Expired ones never cost anybody a place.
  */
  lemma UnexpiredRoomIsEnough(maxSize: nat, ops: seq<Timed>, states: seq<Dict>, n: nat, now: Time)
    requires IsRun(maxSize, ops, states) && n <= |ops| && Chronological(ops) && OrdinaryTimes(ops)
    requires forall i :: 0 <= i < n && ops[i].op.Set? ==> |LiveView(states[i].data, ops[i].at).Keys| < maxSize
    requires n > 0 ==> ops[n - 1].at <= now
    ensures LiveView(states[n].data, now) == LiveView(Spec(ops, n), now)
    ensures forall k :: TimedStore.Get(states[n].data, k, now) == TimedStore.Get(Spec(ops, n), k, now)
  {
    forall i | 0 <= i < n && ops[i].op.Set?
      ensures |Remaining(states[i], ops[i].at)| < maxSize
    {
      forall k | k in states[i].data ensures states[i].data[k].expiry != Some(0.0) {
        NoExpiryIsZero(maxSize, ops, states, i, k);
      }
      assert Remaining(states[i], ops[i].at) == LiveView(states[i].data, ops[i].at).Keys;
    }
    WithRoomItIsATimedMap(maxSize, ops, states, n, now);
  }

  // ------------------------------------------------------------------ in which order it is kept

  /** The key was there and no step of the operation takes it out, also not to put it back. */
  ghost predicate Stays(d: Dict, maxSize: nat, t: Timed, k: string) {
    k in d.data && (t.op.Set? && d.Valid() ==> k in MakeRoom(d, maxSize, t.at).data)
  }

  /** The operation that first wrote `k` since it was last absent. */
  ghost function AddedBy(maxSize: nat, ops: seq<Timed>, states: seq<Dict>, n: nat, k: string): int
    requires n <= |ops| < |states|
  {
    if n == 0 then -1
    else if Stays(states[n - 1], maxSize, ops[n - 1], k) then AddedBy(maxSize, ops, states, n - 1, k)
    else n - 1
  }

  /** Dropping keys keeps the others in their order. */
  lemma {:induction false} MinusKeepsOrder(s: seq<string>, gone: set<string>, i: nat, j: nat) returns (i': nat, j': nat)
    requires i < j < |Minus(s, gone)|
    ensures i' < j' < |s| && s[i'] == Minus(s, gone)[i] && s[j'] == Minus(s, gone)[j]
  {
    var rest := Minus(s[1..], gone);
    if s[0] in gone {
      assert Minus(s, gone) == rest;
      i', j' := MinusKeepsOrder(s[1..], gone, i, j);
      i', j' := i' + 1, j' + 1;
    } else if i > 0 {
      i', j' := MinusKeepsOrder(s[1..], gone, i - 1, j - 1);
      i', j' := i' + 1, j' + 1;
    } else {
      MinusIsPart(s[1..], gone, j - 1);
      var m :| 0 <= m < |s[1..]| && s[1..][m] == rest[j - 1];
      i', j' := 0, m + 1;
    }
  }

  lemma {:induction false} MinusIsPart(s: seq<string>, gone: set<string>, j: nat)
    requires j < |Minus(s, gone)|
    ensures exists m :: 0 <= m < |s| && s[m] == Minus(s, gone)[j]
  {
    if s[0] in gone {
      MinusIsPart(s[1..], gone, j);
      var m :| 0 <= m < |s[1..]| && s[1..][m] == Minus(s[1..], gone)[j];
      assert s[m + 1] == s[1..][m];
    } else if j > 0 {
      MinusIsPart(s[1..], gone, j - 1);
      var m :| 0 <= m < |s[1..]| && s[1..][m] == Minus(s[1..], gone)[j - 1];
      assert s[m + 1] == s[1..][m];
    }
  }

  /** The keys that making room takes out. */
  function RoomMadeOf(d: Dict, maxSize: nat, now: Time): set<string>
    requires d.Valid()
  {
    if |d.order| < maxSize then {} else Stale(d, now) + Victims(d, maxSize, now)
  }

  lemma RoomIsMadeByDropping(d: Dict, maxSize: nat, now: Time)
    requires d.Valid()
    ensures MakeRoom(d, maxSize, now) == d.Drop(RoomMadeOf(d, maxSize, now))
  {
    DropNothing(d);
    if |d.order| >= maxSize {
      var c := Cleaned(d, now);
      DropNothing(c);
      DropTwice(d, Stale(d, now), Victims(d, maxSize, now));
    }
  }

  /** The keys an operation takes out of the order, and what it adds at the end. */
  function Gone(d: Dict, maxSize: nat, t: Timed): set<string>
    requires d.Valid()
  {
    match t.op
    case Get(k) => if k in d.data && !Live(d.data[k], t.at) then {k} else {}
    case Set(_, _, _) => RoomMadeOf(d, maxSize, t.at)
    case SetNx(_, _, _) => {}
    case Delete(k) => {k}
    case DeletePattern(p) => Matched(d, p)
  }

  ghost function Appended(d: Dict, maxSize: nat, t: Timed): seq<string>
    requires d.Valid()
  {
    if Writes(d, t).Some? && !Stays(d, maxSize, t, Writes(d, t).value.0) then [Writes(d, t).value.0] else []
  }

  lemma SetOrder(d: Dict, maxSize: nat, key: string, value: string, ttl: Option<int>, now: Time)
    requires d.Valid()
    ensures
      var room := MakeRoom(d, maxSize, now);
      var kept := Minus(d.order, RoomMadeOf(d, maxSize, now));
      && AfterSet(d, maxSize, key, value, ttl, now).order == kept + (if key in room.data then [] else [key])
      && forall k :: k in kept ==> k in room.data
  {
    RoomIsMadeByDropping(d, maxSize, now);
    MakeRoomKeepsValid(d, maxSize, now);
  }

  lemma DropOrder(d: Dict, gone: set<string>)
    requires d.Valid()
    ensures d.Drop(gone).order == Minus(d.order, gone) + []
    ensures forall k :: k in Minus(d.order, gone) ==> k in d.data
  {
    MinusKeeps(d.order, gone);
  }

  lemma SetNxOrder(d: Dict, key: string, value: string, ttl: Option<int>, now: Time)
    requires d.Valid()
    ensures Minus(d.order, {}) == d.order
    ensures AfterSetNx(d, key, value, ttl, now).order == d.order + if key in d.data then [] else [key]
  {
    MinusNothing(d.order);
  }

  lemma StepOrder(d: Dict, maxSize: nat, t: Timed)
    requires d.Valid()
    ensures Apply(d, maxSize, t).order == Minus(d.order, Gone(d, maxSize, t)) + Appended(d, maxSize, t)
    ensures forall k :: k in Minus(d.order, Gone(d, maxSize, t)) ==> Stays(d, maxSize, t, k)
  {
    match t.op {
      case Set(k, v, ttl) => SetOrder(d, maxSize, k, v, ttl, t.at);
      case SetNx(k, v, ttl) => SetNxOrder(d, k, v, ttl, t.at);
      case Get(k) =>
        DropOrder(d, Gone(d, maxSize, t));
        DropNothing(d);
      case Delete(k) => DropOrder(d, {k});
      case DeletePattern(p) => DropOrder(d, Matched(d, p));
    }
  }

  /**
    Two keys that stand in one order after an operation stood so before, or the second has
    just been added behind the first.
  */
  lemma StandBefore(d: Dict, maxSize: nat, t: Timed, after: Dict, i: nat, j: nat) returns (i': nat, j': nat)
    requires Follows(d, maxSize, t, after) && i < j < |after.order|
    ensures Stays(d, maxSize, t, after.order[i])
    ensures Stays(d, maxSize, t, after.order[j]) ==>
              i' < j' < |d.order| && d.order[i'] == after.order[i] && d.order[j'] == after.order[j]
  {
    StepOrder(d, maxSize, t);
    var gone := Gone(d, maxSize, t);
    var kept := Minus(d.order, gone);
    assert after.order[i] == kept[i] && kept[i] in kept;
    i', j' := 0, 0;
    if j < |kept| {
      i', j' := MinusKeepsOrder(d.order, gone, i, j);
    }
  }

  /**
    The order of the cache is insertion order over every run: an entry stands before another
    exactly if it was first written, since it was last absent, before the other.  So what an
    eviction takes from the front are the oldest entries.
  */
  lemma {:induction false} OrderIsInsertionOrder(maxSize: nat, ops: seq<Timed>, states: seq<Dict>, n: nat,
                                                 i: nat, j: nat)
    requires IsRun(maxSize, ops, states) && n <= |ops| && i < j < |states[n].order|
    ensures AddedBy(maxSize, ops, states, n, states[n].order[i]) < AddedBy(maxSize, ops, states, n, states[n].order[j])
    decreases n
  {
    if n > 0 {
      assert Follows(states[n - 1], maxSize, ops[n - 1], states[n]);
      var i', j' := StandBefore(states[n - 1], maxSize, ops[n - 1], states[n], i, j);
      if Stays(states[n - 1], maxSize, ops[n - 1], states[n].order[j]) {
        OrderIsInsertionOrder(maxSize, ops, states, n - 1, i', j');
      } else {
        AddedBefore(maxSize, ops, states, n - 1, states[n].order[i]);
      }
    }
  }

  lemma {:induction false} AddedBefore(maxSize: nat, ops: seq<Timed>, states: seq<Dict>, n: nat, k: string)
    requires n <= |ops| < |states|
    ensures AddedBy(maxSize, ops, states, n, k) < n
  {
    if n > 0 { AddedBefore(maxSize, ops, states, n - 1, k); }
  }

  // ------------------------------------------------------------------ how large it gets

  /** setnx calls among the first `n` that wrote. */
  function SetNxWins(ops: seq<Timed>, states: seq<Dict>, n: nat): nat
    requires n <= |ops| < |states|
  {
    if n == 0 then 0
    else
      SetNxWins(ops, states, n - 1)
      + if ops[n - 1].op.SetNx? && Writes(states[n - 1], ops[n - 1]).Some? then 1 else 0
  }

  lemma StepGrowth(d: Dict, maxSize: nat, t: Timed)
    requires d.Valid() && maxSize >= 10
    ensures
      var after := |Apply(d, maxSize, t).order|;
      || after <= maxSize
      || after <= |d.order| + (if t.op.SetNx? && Writes(d, t).Some? then 1 else 0)
  {
    match t.op {
      case Get(k) => DropKeepsValid(d, {k});
      case Set(_, _, _) => MakeRoomKeepsValid(d, maxSize, t.at);
      case SetNx(_, _, _) =>
      case Delete(k) => DropKeepsValid(d, {k});
      case DeletePattern(p) => DropKeepsValid(d, Matched(d, p));
    }
  }

  /** set makes room, setnx does not: the cache outgrows max_size by at most the number of successful setnx calls. */
  lemma {:induction false} SizeIsBounded(maxSize: nat, ops: seq<Timed>, states: seq<Dict>, n: nat)
    requires IsRun(maxSize, ops, states) && maxSize >= 10 && n <= |ops|
    ensures |states[n].order| <= maxSize + SetNxWins(ops, states, n)
    decreases n
  {
    if n > 0 {
      assert Follows(states[n - 1], maxSize, ops[n - 1], states[n]);
      StepGrowth(states[n - 1], maxSize, ops[n - 1]);
      SizeIsBounded(maxSize, ops, states, n - 1);
    }
  }

  function Name(i: nat): (s: string)
    ensures |s| == i
  {
    seq(i, _ => 'k')
  }

  function SetName(i: nat): Timed {
    Timed(Set(Name(i), "v", None), 0.0)
  }

  /** `n` sets of different keys without TTL. */
  function Flood(n: nat): seq<Timed> {
    seq(n, i requires 0 <= i < n => SetName(i))
  }

  /** `n` entries under names shorter than `n`, none of which expires. */
  predicate Flooded(d: Dict, n: nat) {
    |d.order| == n && forall k :: k in d.data ==> |k| < n && d.data[k].expiry.None?
  }

  /** Where nothing expires, a cache that is not full or too small ever to evict is left alone. */
  lemma NothingMakesRoom(d: Dict, maxSize: nat, now: Time)
    requires d.Valid() && (maxSize < 10 || |d.order| < maxSize) && forall k :: k in d.data ==> d.data[k].expiry.None?
    ensures MakeRoom(d, maxSize, now) == d
  {
    assert Stale(d, now) == {};
    DropNothing(d);
    assert maxSize < 10 && |d.order| >= maxSize ==> d.Oldest(0) == {};
  }

  lemma FloodRises(d: Dict, maxSize: nat, n: nat, after: Dict)
    requires (maxSize < 10 || n < maxSize) && Flooded(d, n) && Follows(d, maxSize, SetName(n), after)
    ensures Flooded(after, n + 1)
  {
    NothingMakesRoom(d, maxSize, 0.0);
    assert Name(n) !in d.data;
    assert after == d.Assign(Name(n), Entry("v", None));
  }

  /** Below 10 the eviction count max_size // 10 is zero, and the cache grows past any bound. */
  lemma {:induction false} SmallCachesAreUnbounded(maxSize: nat, total: nat, states: seq<Dict>, n: nat)
    requires maxSize < 10 && n <= total && IsRun(maxSize, Flood(total), states)
    ensures Flooded(states[n], n)
    decreases n
  {
    if n > 0 {
      SmallCachesAreUnbounded(maxSize, total, states, n - 1);
      assert Flood(total)[n - 1] == SetName(n - 1);
      assert Follows(states[n - 1], maxSize, SetName(n - 1), states[n]);
      FloodRises(states[n - 1], maxSize, n - 1, states[n]);
    }
  }

  function SetNxName(i: nat): Timed {
    Timed(SetNx(Name(i), "v", None), 0.0)
  }

  /** `maxSize` sets of different keys, and then setnx of further keys. */
  function Overfill(maxSize: nat, wins: nat): seq<Timed> {
    seq(maxSize + wins, i requires 0 <= i < maxSize + wins => if i < maxSize then SetName(i) else SetNxName(i))
  }

  lemma SetNxRises(d: Dict, maxSize: nat, n: nat, after: Dict)
    requires Flooded(d, n) && Follows(d, maxSize, SetNxName(n), after)
    ensures Flooded(after, n + 1) && Writes(d, SetNxName(n)).Some?
  {
    assert Name(n) !in d.data;
    assert after == d.Assign(Name(n), Entry("v", None));
  }

  lemma OverfillStep(maxSize: nat, wins: nat, states: seq<Dict>, n: nat)
    requires IsRun(maxSize, Overfill(maxSize, wins), states) && n < maxSize + wins && Flooded(states[n], n)
    ensures Flooded(states[n + 1], n + 1)
    ensures n >= maxSize ==> Writes(states[n], SetNxName(n)).Some?
  {
    var op := if n < maxSize then SetName(n) else SetNxName(n);
    assert Overfill(maxSize, wins)[n] == op;
    assert Follows(states[n], maxSize, op, states[n + 1]);
    if n < maxSize {
      FloodRises(states[n], maxSize, n, states[n + 1]);
    } else {
      SetNxRises(states[n], maxSize, n, states[n + 1]);
    }
  }

  lemma {:induction false} OverfillRises(maxSize: nat, wins: nat, states: seq<Dict>, n: nat)
    requires IsRun(maxSize, Overfill(maxSize, wins), states) && n <= maxSize + wins
    ensures Flooded(states[n], n)
    decreases n
  {
    if n > 0 {
      OverfillRises(maxSize, wins, states, n - 1);
      OverfillStep(maxSize, wins, states, n - 1);
    }
  }

  lemma {:induction false} OverfillWins(maxSize: nat, wins: nat, states: seq<Dict>, n: nat)
    requires IsRun(maxSize, Overfill(maxSize, wins), states) && n <= maxSize + wins
    ensures SetNxWins(Overfill(maxSize, wins), states, n) == if n <= maxSize then 0 else n - maxSize
    decreases n
  {
    if n > 0 {
      OverfillWins(maxSize, wins, states, n - 1);
      OverfillRises(maxSize, wins, states, n - 1);
      OverfillStep(maxSize, wins, states, n - 1);
      assert Overfill(maxSize, wins)[n - 1] == if n - 1 < maxSize then SetName(n - 1) else SetNxName(n - 1);
    }
  }

  /** The bound is reached, for every size and every number of successful setnx calls. */
  lemma SizeBoundIsReached(maxSize: nat, wins: nat, states: seq<Dict>)
    requires IsRun(maxSize, Overfill(maxSize, wins), states)
    ensures SetNxWins(Overfill(maxSize, wins), states, maxSize + wins) == wins
    ensures |states[maxSize + wins].order| == maxSize + wins
  {
    OverfillRises(maxSize, wins, states, maxSize + wins);
    OverfillWins(maxSize, wins, states, maxSize + wins);
  }
}
