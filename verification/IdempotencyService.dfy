/**
  The service itself, as one caller sees it: check with its fallbacks, store, clear and
  invalidate against a shared cache that is updated in place.  The cache layer swallows
  errors, so every command has a fate of its own.  JSON is a pair of partial functions;
  what is assumed of it is stated where it is used.
*/
module IdempotencyService {
  import opened Wrappers
  import opened TimedStore
  import opened IdempotencyKeys
  import opened IdempotencyProtocol

  /** orjson: dumps fails on what it cannot encode, loads on what is not JSON. */
  datatype Codec<!J> = Codec(dumps: J -> Option<string>, loads: string -> Option<J>)

  ghost predicate RoundTrips<J(!new)>(json: Codec<J>) {
    && json.loads("").None?
    && forall j :: json.dumps(j).Some? ==> json.loads(json.dumps(j).value) == Some(j)
  }

  datatype CheckResult<J> = IsNew | IsDuplicate(cached: Option<J>) | IsInProgress

  /**
    What becomes of one command: executed and answered, never executed, or executed
    without the reply being heard.  The caller cannot tell the last two apart: get turns
    both into None, setnx, set and delete into False, the script into None.
  */
  datatype Fate = Answered | Refused | Unheard {
    predicate Executed() { !Refused? }
  }

  /** Redis, with the fate of each command check may issue; the in-memory fallback, which always answers; or neither. */
  datatype Backend =
    | Redis(script: Fate, pings: bool, get: Fate, setNx: Fate)
    | InMemoryFallback
    | Unavailable

  datatype CacheError = IdempotencyCacheError

  // ------------------------------------------------------------------ what a call does to the store

  /** The decodable result that GET brings. */
  function ReadResult<J>(s: Store, json: Codec<J>, b: BaseKey, get: Fate, now: Time): Option<J> {
    if get.Answered? && Holds(s, b, now) then json.loads(s[b].value) else None
  }

  /** SET NX EX 300 on the marker: what the caller is told, and the store. */
  function AcquireMarker(s: Store, b: BaseKey, setNx: Fate, now: Time): (bool, Store) {
    var (acquired, s') := PutIfAbsent(s, MarkerOf(b), "1", Some(IN_PROGRESS_TTL), now);
    if setNx.Refused? then (false, s) else (setNx.Answered? && acquired, s')
  }

  /** What the reply of the script settles; nothing if it is not heard, or is a result that does not decode. */
  function ScriptCheck<J>(s: Store, json: Codec<J>, b: BaseKey, script: Fate,
                          now: Time): (Option<CheckResult<J>>, Store) {
    var (verdict, s1) := LuaCheck(s, b, now);
    if script.Refused? then (None, s)
    else if script.Unheard? then (None, s1)
    else match verdict
      case New => (Some(IsNew), s1)
      case InProgress => (Some(IsInProgress), s1)
      case Duplicate(cached) =>
        if cached == "" then (Some(IsDuplicate(None)), s1)
        else if json.loads(cached).Some? then (Some(IsDuplicate(json.loads(cached))), s1)
        else (None, s1)
  }

  function NonAtomicCheck<J>(s: Store, json: Codec<J>, b: BaseKey, get: Fate, setNx: Fate,
                             now: Time): (CheckResult<J>, Store) {
    var cached := ReadResult(s, json, b, get, now);
    if cached.Some? then (IsDuplicate(cached), s)
    else
      var (acquired, s') := AcquireMarker(s, b, setNx, now);
      (if acquired then IsNew else IsInProgress, s')
  }

  /** A live result that decodes. */
  predicate Usable<J>(s: Store, json: Codec<J>, b: BaseKey, now: Time) {
    Holds(s, b, now) && json.loads(s[b].value).Some?
  }

  function WithMarker(s: Store, b: BaseKey, now: Time): Store {
    s[MarkerOf(b) := Entry("1", Some(now + IN_PROGRESS_TTL as Time))]
  }

  /**
    NEW leaves a fresh 300 s marker behind; nothing else in the store ever changes; a
    returned response is the one stored; and without a cache the only outcome is the error.
  */
  function CheckOutcome<J>(s: Store, backend: Backend, json: Codec<J>, b: BaseKey, now: Time):
    (o: (Result<CheckResult<J>, CacheError>, Store))
    ensures o.1 == s || (o.1 == WithMarker(s, b, now) && !Holds(s, MarkerOf(b), now))
    ensures o.0 == Ok(IsNew) ==> o.1 == WithMarker(s, b, now) && !Holds(s, MarkerOf(b), now)
    ensures o.0.Ok? && o.0.value.IsDuplicate? ==>
              && Holds(s, b, now)
              && o.0.value.cached == if backend.Redis? && backend.script.Answered? && s[b].value == "" then None
                                     else json.loads(s[b].value)
    ensures backend.Unavailable? ==> o == (Err(IdempotencyCacheError), s)
  {
    match backend
    case Unavailable => (Err(IdempotencyCacheError), s)
    case InMemoryFallback => var (r, s') := NonAtomicCheck(s, json, b, Answered, Answered, now); (Ok(r), s')
    case Redis(script, pings, get, setNx) =>
      var (settled, s1) := ScriptCheck(s, json, b, script, now);
      if settled.Some? then (Ok(settled.value), s1)
      else if !pings then (Err(IdempotencyCacheError), s1)
      else var (r, s2) := NonAtomicCheck(s1, json, b, get, setNx, now); (Ok(r), s2)
  }

  /** store: a response that cannot be encoded writes nothing; the delete of the marker is issued either way. */
  function StoreOutcome<J>(s: Store, json: Codec<J>, b: BaseKey, response: J, ttl: Option<int>, setex: Fate,
                           del: Fate, now: Time): Store {
    var text := json.dumps(response);
    var written := if text.Some? && setex.Executed() then WriteCompleted(s, b, text.value, ttl, now) else s;
    Deleted(written, MarkerOf(b), del)
  }

  function Deleted(s: Store, key: string, del: Fate): Store {
    if del.Executed() then Remove(s, {key}) else s
  }

  // ------------------------------------------------------------------ the code

  /** The cache commands the service issues, on a store changed in place. */
  class SharedCache {
    var data: Store

    constructor ()
      ensures data == map[]
    {
      data := map[];
    }

    method Lookup(key: string, fate: Fate, now: Time) returns (value: Option<string>)
      ensures value == if fate.Answered? then Get(data, key, now) else None
    {
      value := if fate.Answered? && key in data && Live(data[key], now) then Some(data[key].value) else None;
    }

    /** `if ttl: setex else: set`; SETEX refuses a negative TTL. */
    method Set(key: string, value: string, ttl: Option<int>, fate: Fate, now: Time) returns (ok: bool)
      modifies this
      ensures ok <==> fate.Answered? && (ttl.None? || ttl.value >= 0)
      ensures
        data == if fate.Executed() && (ttl.None? || ttl.value >= 0) then Put(old(data), key, value, ttl, now)
                else old(data)
    {
      if fate.Refused? || (ttl.Some? && ttl.value < 0) {
        return false;
      }
      data := data[key := Entry(value, ExpiryOf(ttl, now))];
      ok := fate.Answered?;
    }

    method SetNx(key: string, value: string, ttl: Option<int>, fate: Fate, now: Time) returns (acquired: bool)
      modifies this
      ensures acquired <==> fate.Answered? && !Holds(old(data), key, now)
      ensures data == if fate.Executed() then PutIfAbsent(old(data), key, value, ttl, now).1 else old(data)
    {
      if fate.Refused? || (key in data && Live(data[key], now)) {
        return false;
      }
      data := data[key := Entry(value, ExpiryOf(ttl, now))];
      acquired := fate.Answered?;
    }

    method Delete(key: string, fate: Fate) returns (existed: bool)
      modifies this
      ensures existed <==> fate.Answered? && key in old(data)
      ensures data == Deleted(old(data), key, fate)
    {
      existed := fate.Answered? && key in data;
      if fate.Executed() {
        data := data - {key};
      }
    }

    /** The check-and-acquire script, run as one command. */
    method EvalCheckScript(completed: BaseKey, fate: Fate, now: Time) returns (verdict: Option<Verdict>)
      modifies this
      ensures verdict == if fate.Answered? then Some(LuaCheck(old(data), completed, now).0) else None
      ensures data == if fate.Executed() then LuaCheck(old(data), completed, now).1 else old(data)
    {
      if fate.Refused? {
        return None;
      }
      var result: Verdict;
      var cached := Lookup(completed, Answered, now);
      if cached.Some? {
        result := Duplicate(cached.value);
      } else {
        var acquired := SetNx(MarkerOf(completed), "1", Some(IN_PROGRESS_TTL), Answered, now);
        result := if acquired then New else InProgress;
      }
      verdict := if fate.Answered? then Some(result) else None;
    }
  }

  class Service<!J> {
    const cache: SharedCache
    const sha: string -> Hash
    const json: Codec<J>

    constructor (cache: SharedCache, sha: string -> Hash, json: Codec<J>)
      ensures this.cache == cache && this.sha == sha && this.json == json
    {
      this.cache, this.sha, this.json := cache, sha, json;
    }

    method Check(key: string, ns: Option<string>, backend: Backend, now: Time)
      returns (r: Result<CheckResult<J>, CacheError>)
      modifies cache
      ensures (r, cache.data) == CheckOutcome(old(cache.data), backend, json, BuildKey(sha(key), ns), now)
    {
      var full := BuildKey(sha(key), ns);
      if backend.Redis? {
        var verdict := cache.EvalCheckScript(full, backend.script, now);
        if verdict.Some? {
          match verdict.value {
            case Duplicate(cached) =>
              if cached == "" {
                return Ok(IsDuplicate(None));
              }
              var response := json.loads(cached);
              if response.Some? {
                return Ok(IsDuplicate(response));
              }
              // Undecodable: falls through to the non-atomic path.
            case New => return Ok(IsNew);
            case InProgress => return Ok(IsInProgress);
          }
        }
      }
      if backend.InMemoryFallback? {
        var result := CheckNonAtomic(key, ns, Answered, Answered, now);
        return Ok(result);
      }
      if backend.Unavailable? || !backend.pings {
        return Err(IdempotencyCacheError);
      }
      var result := CheckNonAtomic(key, ns, backend.get, backend.setNx, now);
      r := Ok(result);
    }

    method CheckNonAtomic(key: string, ns: Option<string>, get: Fate, setNx: Fate, now: Time)
      returns (r: CheckResult<J>)
      modifies cache
      ensures (r, cache.data) == NonAtomicCheck(old(cache.data), json, BuildKey(sha(key), ns), get, setNx, now)
    {
      var full := BuildKey(sha(key), ns);
      var cached := cache.Lookup(full, get, now);
      if cached.Some? {
        var response := json.loads(cached.value);
        if response.Some? {
          return IsDuplicate(response);
        }
      }
      var acquired := cache.SetNx(MarkerOf(full), "1", Some(IN_PROGRESS_TTL), setNx, now);
      r := if acquired then IsNew else IsInProgress;
    }

    method Store(key: string, response: J, ttl: Option<int>, ns: Option<string>, setex: Fate, del: Fate, now: Time)
      modifies cache
      ensures cache.data == StoreOutcome(old(cache.data), json, BuildKey(sha(key), ns), response, ttl, setex, del, now)
    {
      var full := BuildKey(sha(key), ns);
      var serialized := json.dumps(response);
      if serialized.Some? {
        var _ := cache.Set(full, serialized.value, Some(EffectiveTtl(ttl)), setex, now);
      }
      var _ := cache.Delete(MarkerOf(full), del);
    }

    method ClearInProgress(key: string, ns: Option<string>, del: Fate)
      modifies cache
      ensures cache.data == Deleted(old(cache.data), MarkerOf(BuildKey(sha(key), ns)), del)
    {
      var _ := cache.Delete(MarkerOf(BuildKey(sha(key), ns)), del);
    }

    method Invalidate(key: string, ns: Option<string>, delResult: Fate, delMarker: Fate)
      modifies cache
      ensures
        var full := BuildKey(sha(key), ns);
        cache.data == Deleted(Deleted(old(cache.data), full, delResult), MarkerOf(full), delMarker)
    {
      var full := BuildKey(sha(key), ns);
      var _ := cache.Delete(full, delResult);
      var _ := cache.Delete(MarkerOf(full), delMarker);
    }
  }

  // ------------------------------------------------------------------ when a completed request is repeated

  /**
    check fails open in exactly one situation: a usable result is live and NEW is answered
    all the same if and only if the script is not answered, PING is, GET is not, SET NX is,
    and no marker is live.  (get turns its error into None, which check takes for "never
    completed".)
  */
  lemma RepeatsCompletedWorkIff<J(!new)>(s: Store, backend: Backend, json: Codec<J>, b: BaseKey, now: Time)
    requires Usable(s, json, b, now)
    ensures CheckOutcome(s, backend, json, b, now).0 == Ok(IsNew) <==>
            && backend.Redis? && !backend.script.Answered? && backend.pings
            && !backend.get.Answered? && backend.setNx.Answered?
            && !Holds(s, MarkerOf(b), now)
  {
  }

  /**
    Without a usable result NEW is answered exactly when no marker is live and every command
    on the way is answered.
  */
  lemma AnswersNewIff<J(!new)>(s: Store, backend: Backend, json: Codec<J>, b: BaseKey, now: Time)
    requires !Usable(s, json, b, now)
    ensures CheckOutcome(s, backend, json, b, now).0 == Ok(IsNew) <==>
            && !Holds(s, MarkerOf(b), now)
            && match backend
               case Unavailable => false
               case InMemoryFallback => true
               case Redis(script, pings, _, setNx) =>
                 if Holds(s, b, now) then
                   pings && setNx.Answered? && !(script.Answered? && s[b].value == "")
                 else
                   script.Answered? || (script.Refused? && pings && setNx.Answered?)
  {
  }

  /**
    The failing input, for every response and store: right after it was stored, a check
    whose script and GET go wrong is told NEW.
  */
  lemma SilentGetRepeatsCompletedWork<J(!new)>(s: Store, json: Codec<J>, b: BaseKey, response: J,
                                                 ttl: Option<int>, now: Time)
    requires RoundTrips(json) && json.dumps(response).Some? && EffectiveTtl(ttl) > 0
    ensures
      var stored := StoreOutcome(s, json, b, response, ttl, Answered, Answered, now);
      && CheckOutcome(stored, Redis(Refused, true, Answered, Answered), json, b, now).0
         == Ok(IsDuplicate(Some(response)))
      && CheckOutcome(stored, Redis(Refused, true, Unheard, Answered), json, b, now).0 == Ok(IsNew)
  {
    MarkersAreInjective(b, b);
  }

  /**
    The opposite failure: a request nobody has touched is left with a marker although
    nobody was told NEW, so that it is IN_PROGRESS for everybody for 300 s, if and only if
    the reply to the script, or to SET NX after a refused script, is lost.
  */
  lemma OrphanMarkerIff<J(!new)>(s: Store, backend: Backend, json: Codec<J>, b: BaseKey, now: Time)
    requires !Holds(s, b, now) && !Holds(s, MarkerOf(b), now)
    ensures
      var (r, s') := CheckOutcome(s, backend, json, b, now);
      r != Ok(IsNew) && Holds(s', MarkerOf(b), now) <==>
      && backend.Redis?
      && (backend.script.Unheard? || (backend.script.Refused? && backend.pings && backend.setNx.Unheard?))
  {
  }

  // ------------------------------------------------------------------ what the calls mean together

  /**
    Run without interruption and answered, the non-atomic check gives the script's answer and
    leaves the script's store, except for one thing: a live completed entry holding the empty
    string, which the script path reports as a duplicate and the non-atomic path cannot decode.
  */
  lemma NonAtomicEqualsScript<J(!new)>(s: Store, json: Codec<J>, b: BaseKey, now: Time)
    requires json.loads("").None?
    ensures
      var (r, s') := NonAtomicCheck(s, json, b, Answered, Answered, now);
      CheckOutcome(s, Redis(Answered, true, Answered, Answered), json, b, now) == (Ok(r), s') <==>
      Get(s, b, now) != Some("")
  {
    var (_, s1) := LuaCheck(s, b, now);
    assert Holds(s, b, now) ==> s1 == s;
  }

  /** The backend brings a stored result to the caller. */
  predicate Reads(backend: Backend) {
    match backend
    case Unavailable => false
    case InMemoryFallback => true
    case Redis(script, pings, get, _) => script.Answered? || (pings && get.Answered?)
  }

  /**
    Round trip, for every TTL and every fate of every command: after store, a check returns
    the response if and only if the cache is read and either it was written and its TTL is
    not up, or nothing was written (not JSON, refused, or a negative TTL) and the same
    response was there before.
  */
  lemma StoredResponseComesBackIff<J(!new)>(s: Store, json: Codec<J>, b: BaseKey, response: J, ttl: Option<int>,
                                            setex: Fate, del: Fate, at: Time, backend: Backend, now: Time)
    requires RoundTrips(json)
    ensures
      var stored := StoreOutcome(s, json, b, response, ttl, setex, del, at);
      CheckOutcome(stored, backend, json, b, now).0 == Ok(IsDuplicate(Some(response))) <==>
      && Reads(backend)
      && if json.dumps(response).Some? && setex.Executed() && EffectiveTtl(ttl) > 0 then
           now <= at + EffectiveTtl(ttl) as Time
         else
           Holds(s, b, now) && json.loads(s[b].value) == Some(response)
  {
    MarkersAreInjective(b, b);
    var stored := StoreOutcome(s, json, b, response, ttl, setex, del, at);
    if json.dumps(response).Some? && setex.Executed() && EffectiveTtl(ttl) > 0 {
      assert stored[b] == Entry(json.dumps(response).value, Some(at + EffectiveTtl(ttl) as Time));
    } else {
      assert b in stored <==> b in s;
      assert b in s ==> stored[b] == s[b];
    }
    AnswersAreReadIff(stored, backend, json, b, response, now);
  }

  /**
    How long a response is remembered: the TTL that was asked for, seven days if none or zero
    was; a negative one is refused and leaves what was there.
  */
  lemma StoreHonoursTheTtl<J(!new)>(s: Store, json: Codec<J>, b: BaseKey, response: J, ttl: Option<int>,
                                    setex: Fate, del: Fate, at: Time, backend: Backend, now: Time)
    requires RoundTrips(json) && json.dumps(response).Some? && setex.Executed() && Reads(backend)
    ensures
      var stored := StoreOutcome(s, json, b, response, ttl, setex, del, at);
      var comesBack := CheckOutcome(stored, backend, json, b, now).0 == Ok(IsDuplicate(Some(response)));
      && (ttl.Some? && ttl.value > 0 ==> (comesBack <==> now <= at + ttl.value as Time))
      && (ttl.None? || ttl.value == 0 ==> (comesBack <==> now <= at + 604800.0))
      && (ttl.Some? && ttl.value < 0 ==> Get(stored, b, now) == Get(s, b, now))
  {
    MarkersAreInjective(b, b);
    StoredResponseComesBackIff(s, json, b, response, ttl, setex, del, at, backend, now);
  }

  /** A check returns a response if and only if it is the live result and the cache is read. */
  lemma AnswersAreReadIff<J(!new)>(s: Store, backend: Backend, json: Codec<J>, b: BaseKey, response: J, now: Time)
    requires json.loads("").None?
    ensures CheckOutcome(s, backend, json, b, now).0 == Ok(IsDuplicate(Some(response))) <==>
            Reads(backend) && Holds(s, b, now) && json.loads(s[b].value) == Some(response)
  {
  }

  /**
    A response that cannot be encoded is as if processing had failed: the request is given
    back, whatever TTL was asked for.
  */
  lemma UnserialisableResponseIsRetried<J(!new)>(s: Store, json: Codec<J>, b: BaseKey, response: J, ttl: Option<int>,
                                                 setex: Fate, backend: Backend, at: Time, now: Time)
    requires json.dumps(response).None? && Get(s, b, now).None?
    requires backend.InMemoryFallback? || (backend.Redis? && backend.script.Answered?)
    ensures StoreOutcome(s, json, b, response, ttl, setex, Answered, at) == DropMarker(s, b)
    ensures CheckOutcome(DropMarker(s, b), backend, json, b, now).0 == Ok(IsNew)
  {
    MarkersAreInjective(b, b);
  }

  // ------------------------------------------------------------------ the calls as runs of the protocol

  /** The non-atomic check as protocol events: a result that is not heard or not JSON is an unreadable probe. */
  function NonAtomicEvents<J>(s: Store, json: Codec<J>, b: BaseKey, w: nat, get: Fate, setNx: Fate,
                              now: Time): seq<Event> {
    var cached := ReadResult(s, json, b, get, now);
    [Probe(w, b, cached.Some?)] +
    if cached.Some? then [] else if setNx.Executed() then [Acquire(w, setNx.Answered?)] else [Crash(w)]
  }

  function CheckEvents<J>(s: Store, backend: Backend, json: Codec<J>, b: BaseKey, w: nat, now: Time): seq<Event> {
    match backend
    case Unavailable => []
    case InMemoryFallback => NonAtomicEvents(s, json, b, w, Answered, Answered, now)
    case Redis(script, pings, get, setNx) =>
      var (settled, s1) := ScriptCheck(s, json, b, script, now);
      (if script.Executed() then [Check(w, b, script.Answered?)] else []) +
      if settled.Some? || !pings then [] else NonAtomicEvents(s1, json, b, w, get, setNx, now)
  }

  lemma NonAtomicIsARun<J(!new)>(st: State, json: Codec<J>, b: BaseKey, w: nat, get: Fate, setNx: Fate)
    requires st.PhaseOf(w).Idle?
    ensures
      var evs := NonAtomicEvents(st.store, json, b, w, get, setNx, st.now);
      var (r, s') := NonAtomicCheck(st.store, json, b, get, setNx, st.now);
      && Executable(st, evs)
      && Run(st, evs).store == s' && Run(st, evs).now == st.now
      && Run(st, evs).PhaseOf(w) == if r.IsNew? then Processing(b, st.now) else Idle
  {
    var cached := ReadResult(st.store, json, b, get, st.now);
    var st1 := Step(st, Probe(w, b, cached.Some?));
    if cached.Some? {
      RunUnfolds(st, Probe(w, b, true), [], b);
    } else {
      var next := if setNx.Executed() then Acquire(w, setNx.Answered?) else Crash(w);
      assert NonAtomicEvents(st.store, json, b, w, get, setNx, st.now) == [Probe(w, b, false)] + ([next] + []);
      RunUnfolds(st1, next, [], b);
      RunUnfolds(st, Probe(w, b, false), [next] + [], b);
    }
  }

  /**
    The protocol's theorems are about this code: whatever happens to its commands, a check
    is a run of protocol events that leaves the same store, and it makes the worker a holder
    exactly when it answers NEW.
  */
  lemma CheckIsARun<J(!new)>(st: State, backend: Backend, json: Codec<J>, b: BaseKey, w: nat)
    requires st.PhaseOf(w).Idle?
    ensures
      var evs := CheckEvents(st.store, backend, json, b, w, st.now);
      var (r, s') := CheckOutcome(st.store, backend, json, b, st.now);
      && Executable(st, evs)
      && Run(st, evs).store == s'
      && Run(st, evs).PhaseOf(w) == if r == Ok(IsNew) then Processing(b, st.now) else Idle
  {
    match backend {
      case Unavailable =>
      case InMemoryFallback => NonAtomicIsARun(st, json, b, w, Answered, Answered);
      case Redis(script, pings, get, setNx) =>
        if script.Refused? {
          NonAtomicIsARun(st, json, b, w, get, setNx);
          var rest := if pings then NonAtomicEvents(st.store, json, b, w, get, setNx, st.now) else [];
          assert [] + rest == rest;
        } else {
          ScriptedCheckIsARun(st, backend, json, b, w);
        }
    }
  }

  lemma ScriptedCheckIsARun<J(!new)>(st: State, backend: Backend, json: Codec<J>, b: BaseKey, w: nat)
    requires st.PhaseOf(w).Idle? && backend.Redis? && backend.script.Executed()
    ensures
      var evs := CheckEvents(st.store, backend, json, b, w, st.now);
      var (r, s') := CheckOutcome(st.store, backend, json, b, st.now);
      && Executable(st, evs)
      && Run(st, evs).store == s'
      && Run(st, evs).PhaseOf(w) == if r == Ok(IsNew) then Processing(b, st.now) else Idle
  {
    var first := Check(w, b, backend.script.Answered?);
    var (settled, s1) := ScriptCheck(st.store, json, b, backend.script, st.now);
    var st1 := Step(st, first);
    assert st1.store == s1 && st1.now == st.now;
    var rest := if settled.Some? || !backend.pings then []
                else NonAtomicEvents(s1, json, b, w, backend.get, backend.setNx, st.now);
    if rest != [] {
      assert st1.PhaseOf(w) == Idle;
      NonAtomicIsARun(st1, json, b, w, backend.get, backend.setNx);
    }
    RunUnfolds(st, first, rest, b);
  }

  function StoreEvents<J>(json: Codec<J>, w: nat, response: J, ttl: Option<int>, setex: Fate, del: Fate): seq<Event> {
    var text := json.dumps(response);
    [if text.Some? && setex.Executed() then StoreWrite(w, text.value, ttl) else StoreNothing(w)] +
    ([if del.Executed() then StoreDelete(w) else Crash(w)] + [])
  }

  /**
    And a store by the holder is a run that leaves the same store and ends the holding, on
    the worker's side at least.
  */
  lemma StoreIsARun<J(!new)>(st: State, json: Codec<J>, w: nat, response: J, ttl: Option<int>, setex: Fate, del: Fate)
    requires st.PhaseOf(w).Processing?
    ensures
      var evs := StoreEvents(json, w, response, ttl, setex, del);
      && Executable(st, evs)
      && Run(st, evs).store == StoreOutcome(st.store, json, st.PhaseOf(w).base, response, ttl, setex, del, st.now)
      && Run(st, evs).PhaseOf(w).Idle?
  {
    var b := st.PhaseOf(w).base;
    var evs := StoreEvents(json, w, response, ttl, setex, del);
    RunUnfolds(Step(st, evs[0]), evs[1], [], b);
    RunUnfolds(st, evs[0], [evs[1]] + [], b);
  }
}
