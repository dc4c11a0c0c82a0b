/**
  Any number of workers running check / store / clear_in_progress against one shared store,
  one cache command at a time.  Each event is one atomic command: the Lua script is one
  event, the non-atomic check is two (GET, then SET NX EX), store is two (SETEX, then DEL),
  invalidate is two (DEL, DEL).  The clock moves between commands.

  The cache layer swallows errors, so a command may be executed without its reply being
  heard.  Check and Acquire say whether the worker hears the reply.  Probe says whether a
  stored result would be read: not when the GET fails, nor when the value does not decode.
  A command that is not executed at all is no event.

  StoreNothing is a store whose first command wrote nothing: the response was not JSON, or
  the cache refused.  Crash is a worker that stops where it is: it never comes back, or its
  last delete failed.  InvalidateMarker is any deletion of a marker that is not its
  holder's: the second half of invalidate, cleanup_stuck_in_progress, or an eviction.

  `Enabled` is what the program order allows.  What has to be assumed is said per request:
  `Timely` is that a worker that was told NEW finishes within IN_PROGRESS_TTL, and that
  nobody deletes the marker of a request that is being processed.
*/
module IdempotencyProtocol {
  import opened Wrappers
  import opened TimedStore
  import opened IdempotencyKeys

  const IN_PROGRESS_TTL := 300
  const DEFAULT_TTL := 86400 * 7

  datatype Verdict = New | Duplicate(cached: string) | InProgress

  /** The Lua script: GET completed; otherwise SET marker '1' NX EX 300. */
  function LuaCheck(s: Store, b: BaseKey, now: Time): (Verdict, Store) {
    if Holds(s, b, now) then (Duplicate(s[b].value), s)
    else
      var (acquired, s') := PutIfAbsent(s, MarkerOf(b), "1", Some(IN_PROGRESS_TTL), now);
      (if acquired then New else InProgress, s')
  }

  /** `ttl or DEFAULT_TTL` */
  function EffectiveTtl(ttl: Option<int>): int {
    if ttl.None? || ttl.value == 0 then DEFAULT_TTL else ttl.value
  }

  /** store's first command.  SETEX refuses a TTL that is not positive; the refusal is swallowed. */
  function WriteCompleted(s: Store, b: BaseKey, v: string, ttl: Option<int>, now: Time): Store {
    if EffectiveTtl(ttl) > 0 then Put(s, b, v, Some(EffectiveTtl(ttl)), now) else s
  }

  function DropMarker(s: Store, b: BaseKey): Store {
    Remove(s, {MarkerOf(b)})
  }

  // ------------------------------------------------------------------ the machine

  /**
    Where a worker stands: told nothing, between the two halves of a non-atomic check,
    processing, or between store's two commands.
  */
  datatype Phase =
    | Idle
    | Probed(base: BaseKey)
    | Processing(base: BaseKey, since: Time)
    | Storing(base: BaseKey, since: Time)

  datatype State = State(store: Store, phases: map<nat, Phase>, now: Time) {
    function PhaseOf(w: nat): Phase {
      if w in phases then phases[w] else Idle
    }

    /** The request this worker was told is NEW and has not let go of. */
    function Holding(w: nat): Option<BaseKey> {
      match PhaseOf(w)
      case Processing(b, _) => Some(b)
      case Storing(b, _) => Some(b)
      case _ => None
    }
  }

  datatype Event =
    | Check(w: nat, base: BaseKey, heard: bool)
    | Probe(w: nat, base: BaseKey, readable: bool)
    | Acquire(w: nat, heard: bool)
    | StoreWrite(w: nat, value: string, ttl: Option<int>)
    | StoreNothing(w: nat)
    | StoreDelete(w: nat)
    | Clear(w: nat)
    | Crash(w: nat)
    | InvalidateCompleted(base: BaseKey)
    | InvalidateMarker(base: BaseKey)
    | Tick(elapsed: Time)

  predicate Enabled(s: State, ev: Event) {
    match ev
    case Check(w, _, _) => s.PhaseOf(w).Idle?
    case Probe(w, _, _) => s.PhaseOf(w).Idle?
    case Acquire(w, _) => s.PhaseOf(w).Probed?
    case StoreWrite(w, _, _) => s.PhaseOf(w).Processing?
    case StoreNothing(w) => s.PhaseOf(w).Processing?
    case StoreDelete(w) => s.PhaseOf(w).Storing?
    case Clear(w) => s.PhaseOf(w).Processing?
    case Tick(d) => d >= 0.0
    case _ => true
  }

  /** About request `b` only: its holders are in time, and nobody else deletes its marker while it is held. */
  ghost predicate Timely(s: State, ev: Event, b: BaseKey) {
    match ev
    case Tick(d) =>
      forall w: nat :: s.Holding(w) == Some(b) ==> s.now + d <= s.PhaseOf(w).since + IN_PROGRESS_TTL as Time
    case InvalidateMarker(b') => b' == b ==> forall w: nat :: s.Holding(w) != Some(b)
    case _ => true
  }

  function Move(s: State, w: nat, p: Phase, store: Store): State {
    s.(store := store, phases := s.phases[w := p])
  }

  function Step(s: State, ev: Event): State
    requires Enabled(s, ev)
  {
    match ev
    case Check(w, b, heard) =>
      var (verdict, store) := LuaCheck(s.store, b, s.now);
      Move(s, w, if heard && verdict.New? then Processing(b, s.now) else Idle, store)
    case Probe(w, b, readable) =>
      Move(s, w, if readable && Holds(s.store, b, s.now) then Idle else Probed(b), s.store)
    case Acquire(w, heard) =>
      var b := s.PhaseOf(w).base;
      var (acquired, store) := PutIfAbsent(s.store, MarkerOf(b), "1", Some(IN_PROGRESS_TTL), s.now);
      Move(s, w, if heard && acquired then Processing(b, s.now) else Idle, store)
    case StoreWrite(w, v, ttl) =>
      var Processing(b, since) := s.PhaseOf(w);
      Move(s, w, Storing(b, since), WriteCompleted(s.store, b, v, ttl, s.now))
    case StoreNothing(w) =>
      var Processing(b, since) := s.PhaseOf(w);
      Move(s, w, Storing(b, since), s.store)
    case StoreDelete(w) => Move(s, w, Idle, DropMarker(s.store, s.PhaseOf(w).base))
    case Clear(w) => Move(s, w, Idle, DropMarker(s.store, s.PhaseOf(w).base))
    case Crash(w) => Move(s, w, Idle, s.store)
    case InvalidateCompleted(b) => s.(store := Remove(s.store, {b}))
    case InvalidateMarker(b) => s.(store := DropMarker(s.store, b))
    case Tick(d) => s.(now := s.now + d)
  }

  predicate Executable(s: State, evs: seq<Event>)
    decreases |evs|
  {
    evs == [] || (Enabled(s, evs[0]) && Executable(Step(s, evs[0]), evs[1..]))
  }

  function Run(s: State, evs: seq<Event>): State
    requires Executable(s, evs)
    decreases |evs|
  {
    if evs == [] then s else Run(Step(s, evs[0]), evs[1..])
  }

  /** Every event of the run meets the timing assumption about `b` in the state it finds. */
  ghost predicate TimelyRun(s: State, evs: seq<Event>, b: BaseKey)
    requires Executable(s, evs)
    decreases |evs|
  {
    evs == [] || (Timely(s, evs[0], b) && TimelyRun(Step(s, evs[0]), evs[1..], b))
  }

  /** No worker has started; the store may hold anything. */
  predicate Initial(s: State) {
    s.phases == map[]
  }

  // ------------------------------------------------------------------ one holder per request

  ghost predicate AtMostOneHolder(s: State, b: BaseKey) {
    forall w: nat, w': nat :: s.Holding(w) == Some(b) && s.Holding(w') == Some(b) ==> w == w'
  }

  /** A holder is covered by the marker written when it acquired the request, still live now. */
  predicate Guarded(s: State, w: nat, b: BaseKey) {
    s.Holding(w) == Some(b) ==>
      var m := MarkerOf(b);
      var until := s.PhaseOf(w).since + IN_PROGRESS_TTL as Time;
      m in s.store && s.store[m].expiry == Some(until) && s.now <= until
  }

  ghost predicate Exclusive(s: State, b: BaseKey) {
    AtMostOneHolder(s, b) && forall w: nat :: Guarded(s, w, b)
  }

  /**
    One command keeps the holder of `b` alone and guarded if and only if it is timely: the
    two assumptions are exactly what is needed.
  */
  lemma StepKeepsExclusive(s: State, ev: Event, b: BaseKey)
    requires Exclusive(s, b) && Enabled(s, ev)
    ensures Exclusive(Step(s, ev), b) <==> Timely(s, ev, b)
  {
    var s' := Step(s, ev);
    if Timely(s, ev, b) {
      forall w: nat
        ensures Guarded(s', w, b)
      {
        HolderStaysGuarded(s, ev, w, b);
      }
      forall w: nat, w': nat | s'.Holding(w) == Some(b) && s'.Holding(w') == Some(b)
        ensures w == w'
      {
        NewcomerIsAlone(s, ev, w, w', b);
      }
    } else {
      UntimelyLeavesUnguarded(s, ev, b);
    }
  }

  lemma HolderStaysGuarded(s: State, ev: Event, w: nat, b: BaseKey)
    requires Exclusive(s, b) && Enabled(s, ev) && Timely(s, ev, b)
    ensures Guarded(Step(s, ev), w, b)
  {
    var s' := Step(s, ev);
    assert Guarded(s, w, b);
    if s'.Holding(w) == Some(b) {
      match ev {
        case Check(v, b', _) =>
          MarkersAreInjective(b, b');
          if v == w {
            assert s'.store == Put(s.store, MarkerOf(b), "1", Some(IN_PROGRESS_TTL), s.now);
          } else {
            assert s'.PhaseOf(w) == s.PhaseOf(w);
          }
        case Acquire(v, _) => MarkersAreInjective(b, s.PhaseOf(v).base);
        case StoreWrite(v, _, _) => MarkersAreInjective(b, s.PhaseOf(v).base);
        case StoreDelete(v) =>
          MarkersAreInjective(b, s.PhaseOf(v).base);
          assert s.Holding(v) == Some(s.PhaseOf(v).base) && s.Holding(w) == Some(b);
        case Clear(v) =>
          MarkersAreInjective(b, s.PhaseOf(v).base);
          assert s.Holding(v) == Some(s.PhaseOf(v).base) && s.Holding(w) == Some(b);
        case InvalidateCompleted(b') => MarkersAreInjective(b, b');
        case InvalidateMarker(b') => MarkersAreInjective(b, b');
        case _ => assert s'.store == s.store && s'.Holding(w) == s.Holding(w);
      }
    }
  }

  lemma NewcomerIsAlone(s: State, ev: Event, w: nat, w': nat, b: BaseKey)
    requires Exclusive(s, b) && Enabled(s, ev) && Timely(s, ev, b)
    requires Step(s, ev).Holding(w) == Some(b) && Step(s, ev).Holding(w') == Some(b)
    ensures w == w'
  {
    if w != w' && (s.Holding(w) != Some(b) || s.Holding(w') != Some(b)) {
      // One of the two was told NEW just now although the other's marker is live.
      var earlier := if s.Holding(w) == Some(b) then w else w';
      assert s.Holding(earlier) == Some(b);
      assert Guarded(s, earlier, b);
      assert Holds(s.store, MarkerOf(b), s.now);
      assert false;
    }
  }

  lemma UntimelyLeavesUnguarded(s: State, ev: Event, b: BaseKey)
    requires Exclusive(s, b) && Enabled(s, ev) && !Timely(s, ev, b)
    ensures !Exclusive(Step(s, ev), b)
  {
    var s' := Step(s, ev);
    if ev.Tick? {
      var w: nat :| s.Holding(w) == Some(b) && s.now + ev.elapsed > s.PhaseOf(w).since + IN_PROGRESS_TTL as Time;
      assert s'.Holding(w) == Some(b) && !Guarded(s', w, b);
    } else {
      var w: nat :| s.Holding(w) == Some(b);
      assert s'.Holding(w) == Some(b) && !Guarded(s', w, b);
    }
  }

  lemma {:induction false} RunKeepsExclusive(s: State, evs: seq<Event>, b: BaseKey)
    requires Exclusive(s, b) && Executable(s, evs) && TimelyRun(s, evs, b)
    ensures Exclusive(Run(s, evs), b)
    decreases |evs|
  {
    if evs != [] {
      StepKeepsExclusive(s, evs[0], b);
      RunKeepsExclusive(Step(s, evs[0]), evs[1..], b);
    }
  }

  /**
    Mutual exclusion in every reachable state: however checks (atomic or not, heard or
    not), the two writes of store, clears, crashes, invalidations and clock ticks of any
    number of workers interleave, at most one worker at a time holds a request it was told
    is NEW, and a live marker guards it.  Only what happens to this request is assumed timely.
  */
  lemma MutualExclusion(s: State, evs: seq<Event>, b: BaseKey)
    requires Initial(s) && Executable(s, evs) && TimelyRun(s, evs, b)
    ensures Exclusive(Run(s, evs), b)
  {
    assert forall w: nat :: s.Holding(w).None?;
    RunKeepsExclusive(s, evs, b);
  }

  // ------------------------------------------------------------------ exactly once

  /** This event tells a worker that `b` is NEW. */
  predicate TellsNew(s: State, ev: Event, b: BaseKey)
    requires Enabled(s, ev)
  {
    || (ev.Check? && ev.heard && ev.base == b && LuaCheck(s.store, b, s.now).0.New?)
    || (ev.Acquire? && ev.heard && s.PhaseOf(ev.w).base == b && !Holds(s.store, MarkerOf(b), s.now))
  }

  function NewCount(s: State, evs: seq<Event>, b: BaseKey): nat
    requires Executable(s, evs)
    decreases |evs|
  {
    if evs == [] then 0
    else (if TellsNew(s, evs[0], b) then 1 else 0) + NewCount(Step(s, evs[0]), evs[1..], b)
  }

  /** Somebody is processing `b`, or its result is there. */
  ghost predicate Secured(s: State, b: BaseKey) {
    Holds(s.store, b, s.now) || exists w: nat :: s.PhaseOf(w).Processing? && s.PhaseOf(w).base == b
  }

  /** The ways a request is given back: the holder clears, crashes or cannot store; the result is deleted or expires. */
  predicate Releases(s: State, ev: Event, b: BaseKey) {
    match ev
    case Clear(w) => s.Holding(w) == Some(b)
    case Crash(w) => s.PhaseOf(w).Processing? && s.PhaseOf(w).base == b
    case StoreNothing(w) => s.Holding(w) == Some(b)
    case StoreWrite(w, _, ttl) => s.Holding(w) == Some(b) && EffectiveTtl(ttl) <= 0
    case InvalidateCompleted(b') => b' == b && Holds(s.store, b, s.now)
    case Tick(d) => Holds(s.store, b, s.now) && !Holds(s.store, b, s.now + d)
    case _ => false
  }

  /**
    The second half of a non-atomic check of `b` that comes too late: since its first half,
    a result was stored and its marker deleted (or the first half could not read the result).
  */
  predicate LateAcquire(s: State, ev: Event, b: BaseKey) {
    && ev.Acquire? && ev.heard
    && s.PhaseOf(ev.w) == Probed(b)
    && Holds(s.store, b, s.now) && !Holds(s.store, MarkerOf(b), s.now)
  }

  /** A run in which `b` is never given back, and that is timely for it. */
  ghost predicate Undisturbed(s: State, evs: seq<Event>, b: BaseKey)
    requires Executable(s, evs)
    decreases |evs|
  {
    evs == [] ||
    (Timely(s, evs[0], b) && !Releases(s, evs[0], b) && Undisturbed(Step(s, evs[0]), evs[1..], b))
  }

  predicate NoLateAcquire(s: State, evs: seq<Event>, b: BaseKey)
    requires Executable(s, evs)
    decreases |evs|
  {
    evs == [] || (!LateAcquire(s, evs[0], b) && NoLateAcquire(Step(s, evs[0]), evs[1..], b))
  }

  /** While a request is processed or done, the one event that answers NEW is a late acquire. */
  lemma StepKeepsSecured(s: State, ev: Event, b: BaseKey)
    requires Exclusive(s, b) && Secured(s, b)
    requires Enabled(s, ev) && Timely(s, ev, b) && !Releases(s, ev, b)
    ensures TellsNew(s, ev, b) <==> LateAcquire(s, ev, b)
    ensures Secured(Step(s, ev), b)
  {
    var s' := Step(s, ev);
    if Holds(s.store, b, s.now) {
      match ev {
        case Check(_, b', _) => MarkersAreInjective(b', b);
        case Acquire(v, _) => MarkersAreInjective(s.PhaseOf(v).base, b);
        case StoreDelete(v) => MarkersAreInjective(s.PhaseOf(v).base, b);
        case Clear(v) => MarkersAreInjective(s.PhaseOf(v).base, b);
        case InvalidateMarker(b') => MarkersAreInjective(b', b);
        case _ =>
      }
      assert Holds(s'.store, b, s'.now);
    } else {
      var w: nat :| s.PhaseOf(w).Processing? && s.PhaseOf(w).base == b;
      assert s.Holding(w) == Some(b) && Guarded(s, w, b);
      if ev.StoreWrite? && ev.w == w {
        assert Holds(s'.store, b, s'.now);
      } else {
        assert s'.PhaseOf(w) == s.PhaseOf(w);
      }
    }
  }

  /**
    Exact over whole runs, atomic and non-atomic checks mixed: once a request is being
    processed or its result is stored, no check of it is answered NEW if and only if no
    non-atomic check acquires it late.
  */
  lemma {:induction false} SecuredIsNeverNewIff(s: State, evs: seq<Event>, b: BaseKey)
    requires Exclusive(s, b) && Secured(s, b)
    requires Executable(s, evs) && Undisturbed(s, evs, b)
    ensures NewCount(s, evs, b) == 0 <==> NoLateAcquire(s, evs, b)
    decreases |evs|
  {
    if evs != [] {
      StepKeepsSecured(s, evs[0], b);
      StepKeepsExclusive(s, evs[0], b);
      SecuredIsNeverNewIff(Step(s, evs[0]), evs[1..], b);
    }
  }

  lemma {:induction false} AtMostOneNew(s: State, evs: seq<Event>, b: BaseKey)
    requires Exclusive(s, b) && Executable(s, evs)
    requires Undisturbed(s, evs, b) && NoLateAcquire(s, evs, b)
    ensures NewCount(s, evs, b) <= 1
    decreases |evs|
  {
    if evs != [] {
      var ev := evs[0];
      StepKeepsExclusive(s, ev, b);
      if TellsNew(s, ev, b) {
        assert Step(s, ev).PhaseOf(ev.w) == Processing(b, s.now);
        SecuredIsNeverNewIff(Step(s, ev), evs[1..], b);
      } else {
        AtMostOneNew(Step(s, ev), evs[1..], b);
      }
    }
  }

  /**
    Exactly once over every run from the start: however any number of workers interleave,
    as long as the request is not given back and no non-atomic check acquires it late, at
    most one check of `b` in the whole run is answered NEW.  Put the other way round,
    between two NEW answers there is a clear, a crash, a failed store, an invalidation, an
    expiry or a late acquire.
  */
  lemma ExactlyOnce(s: State, evs: seq<Event>, b: BaseKey)
    requires Initial(s) && Executable(s, evs)
    requires Undisturbed(s, evs, b) && NoLateAcquire(s, evs, b)
    ensures NewCount(s, evs, b) <= 1
  {
    assert forall w: nat :: s.Holding(w).None?;
    AtMostOneNew(s, evs, b);
  }

  /** Runs without non-atomic checks of `b` have no late acquire: in production only a failing script leads there. */
  lemma {:induction false} ScriptsAreNeverLate(s: State, evs: seq<Event>, b: BaseKey)
    requires Executable(s, evs)
    requires forall w: nat :: s.PhaseOf(w) != Probed(b)
    requires forall i :: 0 <= i < |evs| && evs[i].Probe? ==> evs[i].base != b
    ensures NoLateAcquire(s, evs, b)
    decreases |evs|
  {
    if evs != [] {
      assert evs[0].Probe? ==> evs[0].base != b;
      assert forall w: nat :: s.PhaseOf(w) != Probed(b) && Step(s, evs[0]).PhaseOf(w) != Probed(b);
      ScriptsAreNeverLate(Step(s, evs[0]), evs[1..], b);
    }
  }

  /** Somebody writes the result of `b` in the course of the run. */
  predicate Writes(s: State, evs: seq<Event>, b: BaseKey)
    requires Executable(s, evs)
    decreases |evs|
  {
    evs != [] && ((evs[0].StoreWrite? && s.Holding(evs[0].w) == Some(b)) || Writes(Step(s, evs[0]), evs[1..], b))
  }

  lemma {:induction false} ResultsAreWritten(s: State, evs: seq<Event>, b: BaseKey)
    requires Executable(s, evs) && !Writes(s, evs, b) && !Holds(s.store, b, s.now)
    ensures !Holds(Run(s, evs).store, b, Run(s, evs).now)
    decreases |evs|
  {
    if evs != [] {
      match evs[0] {
        case Check(_, b', _) => MarkersAreInjective(b', b);
        case Acquire(v, _) => MarkersAreInjective(s.PhaseOf(v).base, b);
        case _ =>
      }
      ResultsAreWritten(Step(s, evs[0]), evs[1..], b);
    }
  }

  lemma {:induction false} ProbesComeFromProbe(s: State, evs: seq<Event>, w: nat, b: BaseKey)
    requires Executable(s, evs) && forall i :: 0 <= i < |evs| ==> !(evs[i].Probe? && evs[i].w == w)
    requires Run(s, evs).PhaseOf(w) == Probed(b)
    ensures s.PhaseOf(w) == Probed(b)
    decreases |evs|
  {
    if evs != [] {
      ProbesComeFromProbe(Step(s, evs[0]), evs[1..], w, b);
      assert !(evs[0].Probe? && evs[0].w == w);
    }
  }

  /**
    Which schedules lead to a late acquire: between the worker's probe and its acquire the
    result was written by somebody else, unless the probe could not read; and in the end the
    result is live and its marker gone, which together is exactly what being late means.
  */
  lemma LateAcquireNeedsAWriteInBetween(s: State, w: nat, b: BaseKey, readable: bool, evs: seq<Event>)
    requires Enabled(s, Probe(w, b, readable))
    requires
      var probed := Step(s, Probe(w, b, readable));
      Executable(probed, evs) && LateAcquire(Run(probed, evs), Acquire(w, true), b)
    requires forall i :: 0 <= i < |evs| ==> !(evs[i].Probe? && evs[i].w == w)
    ensures !readable || (!Holds(s.store, b, s.now) && Writes(Step(s, Probe(w, b, readable)), evs, b))
  {
    var probed := Step(s, Probe(w, b, readable));
    ProbesComeFromProbe(probed, evs, w, b);
    if readable && !Writes(probed, evs, b) {
      ResultsAreWritten(probed, evs, b);
      assert false;
    }
  }

  /** The count is not zero by default: the first check of a request nobody has touched is NEW. */
  lemma FirstCheckIsNew(s: State, w: nat, b: BaseKey)
    requires s.PhaseOf(w).Idle?
    ensures TellsNew(s, Check(w, b, true), b) <==> !Holds(s.store, b, s.now) && !Holds(s.store, MarkerOf(b), s.now)
  {
  }

  // ------------------------------------------------------------------ the stored answer stays the answer

  /** Nobody is processing `b` while its result is there. */
  ghost predicate Final(s: State, b: BaseKey) {
    Holds(s.store, b, s.now) ==> forall w: nat :: !(s.PhaseOf(w).Processing? && s.PhaseOf(w).base == b)
  }

  lemma StepKeepsFinal(s: State, ev: Event, b: BaseKey)
    requires Exclusive(s, b) && Final(s, b) && Enabled(s, ev)
    ensures Final(Step(s, ev), b) <==> !LateAcquire(s, ev, b)
  {
    var s' := Step(s, ev);
    if LateAcquire(s, ev, b) {
      MarkersAreInjective(b, b);
      assert s'.PhaseOf(ev.w).Processing? && s'.PhaseOf(ev.w).base == b;
    } else {
      forall w: nat | s'.PhaseOf(w).Processing? && s'.PhaseOf(w).base == b
        ensures !Holds(s'.store, b, s'.now)
      {
        ProcessingIsNotDone(s, ev, w, b);
      }
    }
  }

  lemma ProcessingIsNotDone(s: State, ev: Event, w: nat, b: BaseKey)
    requires Exclusive(s, b) && Final(s, b) && Enabled(s, ev) && !LateAcquire(s, ev, b)
    requires Step(s, ev).PhaseOf(w).Processing? && Step(s, ev).PhaseOf(w).base == b
    ensures !Holds(Step(s, ev).store, b, Step(s, ev).now)
  {
    match ev {
      case Check(v, b', _) =>
        MarkersAreInjective(b', b);
        assert v != w ==> s.PhaseOf(w) == Step(s, ev).PhaseOf(w);
        assert !Holds(s.store, b, s.now);
        assert b in Step(s, ev).store ==> b in s.store && Step(s, ev).store[b] == s.store[b];
      case Acquire(v, _) =>
        MarkersAreInjective(s.PhaseOf(v).base, b);
        assert if v == w then s.PhaseOf(v) == Probed(b) else s.PhaseOf(w) == Step(s, ev).PhaseOf(w);
        assert !Holds(s.store, b, s.now);
        assert b in Step(s, ev).store ==> b in s.store && Step(s, ev).store[b] == s.store[b];
      case StoreWrite(v, _, _) =>
        assert s.Holding(v) == Some(s.PhaseOf(v).base) && s.Holding(w) == Some(b);
      case _ =>
        assert s.PhaseOf(w) == Step(s, ev).PhaseOf(w);
        assert !Holds(s.store, b, s.now);
    }
  }

  lemma {:induction false} RunKeepsFinal(s: State, evs: seq<Event>, b: BaseKey)
    requires Exclusive(s, b) && Final(s, b)
    requires Executable(s, evs) && TimelyRun(s, evs, b) && NoLateAcquire(s, evs, b)
    ensures Exclusive(Run(s, evs), b) && Final(Run(s, evs), b)
    decreases |evs|
  {
    if evs != [] {
      StepKeepsExclusive(s, evs[0], b);
      StepKeepsFinal(s, evs[0], b);
      RunKeepsFinal(Step(s, evs[0]), evs[1..], b);
    }
  }

  /**
    The list of ways is exact: a request that is processed or done stays so through a timely
    command unless it is one of them.
  */
  lemma ReleasesAreExact(s: State, ev: Event, b: BaseKey)
    requires Exclusive(s, b) && Final(s, b) && Secured(s, b) && Enabled(s, ev) && Timely(s, ev, b)
    ensures Secured(Step(s, ev), b) <==> !Releases(s, ev, b)
  {
    if !Releases(s, ev, b) {
      StepKeepsSecured(s, ev, b);
    } else {
      var s' := Step(s, ev);
      assert !Holds(s'.store, b, s'.now) by { ReleasedIsNotDone(s, ev, b); }
      forall w: nat
        ensures !(s'.PhaseOf(w).Processing? && s'.PhaseOf(w).base == b)
      {
        ReleasedIsNotProcessed(s, ev, b, w);
      }
    }
  }

  lemma ReleasedIsNotDone(s: State, ev: Event, b: BaseKey)
    requires Final(s, b) && Enabled(s, ev) && Releases(s, ev, b)
    ensures !Holds(Step(s, ev).store, b, Step(s, ev).now)
  {
    match ev {
      case Clear(w) => assert s.PhaseOf(w).Processing? && s.PhaseOf(w).base == b;
      case Crash(w) => assert s.PhaseOf(w).Processing? && s.PhaseOf(w).base == b;
      case StoreNothing(w) => assert s.PhaseOf(w).Processing? && s.PhaseOf(w).base == b;
      case StoreWrite(w, _, _) => assert s.PhaseOf(w).Processing? && s.PhaseOf(w).base == b;
      case _ =>
    }
  }

  lemma ReleasedIsNotProcessed(s: State, ev: Event, b: BaseKey, w: nat)
    requires Exclusive(s, b) && Final(s, b) && Enabled(s, ev) && Releases(s, ev, b)
    ensures !(Step(s, ev).PhaseOf(w).Processing? && Step(s, ev).PhaseOf(w).base == b)
  {
    if s.PhaseOf(w).Processing? && s.PhaseOf(w).base == b {
      assert s.Holding(w) == Some(b);
      match ev {
        case Clear(v) => assert s.Holding(v) == Some(b);
        case Crash(v) => assert s.Holding(v) == Some(b);
        case StoreNothing(v) => assert s.Holding(v) == Some(b);
        case StoreWrite(v, _, _) => assert s.Holding(v) == Some(b);
        case _ =>
      }
    }
  }

  predicate Invalidates(ev: Event, b: BaseKey) {
    ev.InvalidateCompleted? && ev.base == b
  }

  /** The entry of `b` in `s` is still there after the run. */
  lemma {:induction false} ResultIsKept(s: State, evs: seq<Event>, b: BaseKey, e: Entry)
    requires Exclusive(s, b) && Final(s, b)
    requires b in s.store && s.store[b] == e
    requires Executable(s, evs) && TimelyRun(s, evs, b) && NoLateAcquire(s, evs, b)
    requires forall i :: 0 <= i < |evs| ==> !Invalidates(evs[i], b)
    requires Live(e, Run(s, evs).now)
    ensures b in Run(s, evs).store && Run(s, evs).store[b] == e
    decreases |evs|
  {
    if evs != [] {
      var ev := evs[0];
      var s' := Step(s, ev);
      ClockNeverGoesBack(s', evs[1..]);
      StepKeepsExclusive(s, ev, b);
      StepKeepsFinal(s, ev, b);
      assert s.now <= s'.now;
      assert Holds(s.store, b, s.now);
      match ev {
        case Check(_, b', _) => MarkersAreInjective(b', b);
        case Acquire(v, _) => MarkersAreInjective(s.PhaseOf(v).base, b);
        case StoreDelete(v) => MarkersAreInjective(s.PhaseOf(v).base, b);
        case Clear(v) => MarkersAreInjective(s.PhaseOf(v).base, b);
        case InvalidateMarker(b') => MarkersAreInjective(b', b);
        case _ =>
      }
      assert s'.store[b] == e;
      ResultIsKept(s', evs[1..], b, e);
    }
  }

  lemma {:induction false} ClockNeverGoesBack(s: State, evs: seq<Event>)
    requires Executable(s, evs)
    ensures s.now <= Run(s, evs).now
    decreases |evs|
  {
    if evs != [] {
      ClockNeverGoesBack(Step(s, evs[0]), evs[1..]);
    }
  }

  /**
    No NEW after completion: whatever led up to it, once a result is there it is what every
    later check returns, value and all, until its time is up or it is invalidated; the late
    deletes and stores of other workers do not touch it.
  */
  lemma CompletedAnswerPersists(start: State, before: seq<Event>, after: seq<Event>, b: BaseKey, e: Entry)
    requires Initial(start)
    requires Executable(start, before) && TimelyRun(start, before, b) && NoLateAcquire(start, before, b)
    requires b in Run(start, before).store && Run(start, before).store[b] == e
    requires
      var s := Run(start, before);
      Executable(s, after) && TimelyRun(s, after, b) && NoLateAcquire(s, after, b) && Live(e, Run(s, after).now)
    requires forall i :: 0 <= i < |after| ==> !Invalidates(after[i], b)
    ensures
      var s' := Run(Run(start, before), after);
      b in s'.store && s'.store[b] == e && LuaCheck(s'.store, b, s'.now).0 == Duplicate(e.value)
  {
    assert forall w: nat :: start.Holding(w).None?;
    RunKeepsFinal(start, before, b);
    ResultIsKept(Run(start, before), after, b, e);
  }

  // ------------------------------------------------------------------ letting go works

  /** A holder that clears gives the request back: the next check of it is NEW. */
  lemma ClearReopens(s: State, w: nat, rival: nat)
    requires s.PhaseOf(w).Processing? && (rival == w || s.PhaseOf(rival).Idle?)
    requires Final(s, s.PhaseOf(w).base)
    ensures TellsNew(Step(s, Clear(w)), Check(rival, s.PhaseOf(w).base, true), s.PhaseOf(w).base)
  {
    var b := s.PhaseOf(w).base;
    MarkersAreInjective(b, b);
  }

  /**
    A holder whose marker is taken away, by whatever means, is not protected any more: the
    next check is NEW at once.
  */
  lemma LosingTheMarkerReopens(s: State, w: nat, rival: nat)
    requires s.PhaseOf(w).Processing? && s.PhaseOf(rival).Idle?
    requires Final(s, s.PhaseOf(w).base)
    ensures
      var b := s.PhaseOf(w).base;
      TellsNew(Step(s, InvalidateMarker(b)), Check(rival, b, true), b)
  {
    var b := s.PhaseOf(w).base;
    MarkersAreInjective(b, b);
  }

  /** The two halves of a non-atomic check, back to back, are the script. */
  lemma UninterruptedProbeIsTheScript(s: State, w: nat, b: BaseKey)
    requires s.PhaseOf(w).Idle?
    ensures
      var probed := Step(s, Probe(w, b, true));
      var script := Step(s, Check(w, b, true));
      if Enabled(probed, Acquire(w, true)) then
        var acquired := Step(probed, Acquire(w, true));
        acquired.store == script.store && acquired.PhaseOf(w) == script.PhaseOf(w)
      else
        && probed.store == script.store && probed.PhaseOf(w) == script.PhaseOf(w)
        && LuaCheck(s.store, b, s.now).0.Duplicate?
  {
  }

  lemma InvalidateReopens(s: State, b: BaseKey, w: nat)
    requires s.PhaseOf(w).Idle?
    ensures
      var gone := Step(Step(s, InvalidateCompleted(b)), InvalidateMarker(b));
      TellsNew(gone, Check(w, b, true), b)
  {
  }

  lemma StoreLeavesOnlyTheResult(s: State, w: nat, v: string, ttl: Option<int>)
    requires s.PhaseOf(w).Processing? && EffectiveTtl(ttl) > 0
    ensures
      var b := s.PhaseOf(w).base;
      var done := Run(s, [StoreWrite(w, v, ttl), StoreDelete(w)]);
      && done.store == (s.store - {MarkerOf(b)})[b := Entry(v, Some(s.now + EffectiveTtl(ttl) as Time))]
      && done.Holding(w).None?
  {
    var b := s.PhaseOf(w).base;
    MarkersAreInjective(b, b);
    var s1 := Step(s, StoreWrite(w, v, ttl));
    assert [StoreWrite(w, v, ttl), StoreDelete(w)][1..] == [StoreDelete(w)];
    assert Run(s, [StoreWrite(w, v, ttl), StoreDelete(w)]) == Run(s1, [StoreDelete(w)]);
    assert Run(s1, [StoreDelete(w)]) == Step(s1, StoreDelete(w));
  }

  // ------------------------------------------------------------------ why write first, and what each assumption buys

  /** In the code's order a rival check sees IN_PROGRESS, then DUPLICATE, then DUPLICATE: never NEW. */
  lemma WriteThenDeleteHasNoGap(s: Store, b: BaseKey, v: string, ttl: Option<int>, now: Time)
    requires Holds(s, MarkerOf(b), now) && !Holds(s, b, now) && EffectiveTtl(ttl) > 0
    ensures
      var written := WriteCompleted(s, b, v, ttl, now);
      && LuaCheck(s, b, now).0 == InProgress
      && LuaCheck(written, b, now).0 == Duplicate(v)
      && LuaCheck(DropMarker(written, b), b, now).0 == Duplicate(v)
  {
    MarkersAreInjective(b, b);
  }

  /** With the two commands swapped, a rival that comes in between is told NEW, whatever else the store holds. */
  lemma DeleteThenWriteHasAGap(s: Store, b: BaseKey, now: Time)
    requires Holds(s, MarkerOf(b), now) && !Holds(s, b, now)
    ensures LuaCheck(DropMarker(s, b), b, now).0 == New
  {
    MarkersAreInjective(b, b);
  }

  /**
    The deadline is exact: while a worker is processing, a rival is told NEW if and only if
    the clock has passed the 300th second.
  */
  lemma DeadlineIsExact(s: State, w: nat, rival: nat, elapsed: Time)
    requires s.PhaseOf(w).Processing? && s.PhaseOf(rival).Idle? && elapsed >= 0.0
    requires Exclusive(s, s.PhaseOf(w).base) && Final(s, s.PhaseOf(w).base)
    ensures
      var b := s.PhaseOf(w).base;
      var later := Step(s, Tick(elapsed));
      TellsNew(later, Check(rival, b, true), b) <==> s.now + elapsed > s.PhaseOf(w).since + 300.0
  {
    assert s.Holding(w) == Some(s.PhaseOf(w).base) && Guarded(s, w, s.PhaseOf(w).base);
  }

  /** The request an event is about, if it is about one. */
  function Subject(s: State, ev: Event): Option<BaseKey>
    requires Enabled(s, ev)
  {
    match ev
    case Check(_, b, _) => Some(b)
    case Probe(_, b, _) => Some(b)
    case Acquire(w, _) => Some(s.PhaseOf(w).base)
    case StoreWrite(w, _, _) => Some(s.PhaseOf(w).base)
    case StoreNothing(w) => Some(s.PhaseOf(w).base)
    case StoreDelete(w) => Some(s.PhaseOf(w).base)
    case Clear(w) => Some(s.PhaseOf(w).base)
    case Crash(_) => None
    case InvalidateCompleted(b) => Some(b)
    case InvalidateMarker(b) => Some(b)
    case Tick(_) => None
  }

  /**
    Requests do not disturb each other: an event about another key, tenant or namespace
    leaves both entries of this one alone.
  */
  lemma OtherRequestsAreUntouched(s: State, ev: Event, hash: Hash, ns: Option<string>, hash': Hash, ns': Option<string>)
    requires Enabled(s, ev) && Subject(s, ev) == Some(BuildKey(hash', ns'))
    requires hash != hash' || !SameNamespace(ns, ns')
    ensures
      var s' := Step(s, ev);
      forall k :: k in {BuildKey(hash, ns), MarkerOf(BuildKey(hash, ns))} ==>
        (k in s'.store <==> k in s.store) && (k in s.store ==> s'.store[k] == s.store[k])
  {
    KeysAreInjective(hash, ns, hash', ns');
    MarkersAreInjective(BuildKey(hash, ns), BuildKey(hash', ns'));
    MarkersAreInjective(BuildKey(hash', ns'), BuildKey(hash, ns));
  }

  // ------------------------------------------------------------------ runs that go wrong, for every request

  const FRESH := State(map[], map[], 0.0)

  lemma RunUnfolds(s: State, ev: Event, rest: seq<Event>, b: BaseKey)
    ensures Executable(s, [ev] + rest) <==> Enabled(s, ev) && Executable(Step(s, ev), rest)
    ensures Executable(s, [ev] + rest) ==>
      && Run(s, [ev] + rest) == Run(Step(s, ev), rest)
      && (TimelyRun(s, [ev] + rest, b) <==> Timely(s, ev, b) && TimelyRun(Step(s, ev), rest, b))
  {
    assert ([ev] + rest)[1..] == rest;
  }

  function SlowHolder(b: BaseKey): seq<Event> {
    [Check(1, b, true)] + ([Tick(301.0)] + ([Check(2, b, true)] + []))
  }

  /** A holder slower than 300 s is no longer alone: the deadline cannot be dropped. */
  lemma SlowHolderIsNotAlone(b: BaseKey)
    ensures Executable(FRESH, SlowHolder(b)) && !AtMostOneHolder(Run(FRESH, SlowHolder(b)), b)
  {
    MarkersAreInjective(b, b);
    var s1 := Step(FRESH, Check(1, b, true));
    var s2 := Step(s1, Tick(301.0));
    assert s2.PhaseOf(1) == Processing(b, 0.0) && !Holds(s2.store, MarkerOf(b), s2.now);
    var s3 := Step(s2, Check(2, b, true));
    assert s3.Holding(1) == s3.Holding(2) == Some(b);
    RunUnfolds(s2, Check(2, b, true), [], b);
    RunUnfolds(s1, Tick(301.0), [Check(2, b, true)] + [], b);
    RunUnfolds(FRESH, Check(1, b, true), [Tick(301.0)] + ([Check(2, b, true)] + []), b);
  }

  function InvalidateRace(b: BaseKey): seq<Event> {
    [InvalidateCompleted(b)] + ([Check(1, b, true)] + ([InvalidateMarker(b)] + ([Check(2, b, true)] + [])))
  }

  /**
    invalidate is two deletes.  Started while nobody holds the request, it can still take
    the marker of a worker that checks in between, and a second worker is told NEW.
    StepKeepsExclusive has the condition: the second delete is safe exactly when nobody
    holds the request at that moment.
  */
  lemma InvalidateCanRaceACheck(b: BaseKey)
    ensures Executable(FRESH, InvalidateRace(b)) && !AtMostOneHolder(Run(FRESH, InvalidateRace(b)), b)
  {
    MarkersAreInjective(b, b);
    var s1 := Step(FRESH, InvalidateCompleted(b));
    var s2 := Step(s1, Check(1, b, true));
    var s3 := Step(s2, InvalidateMarker(b));
    assert s3.PhaseOf(1) == Processing(b, 0.0) && !Holds(s3.store, MarkerOf(b), s3.now);
    var s4 := Step(s3, Check(2, b, true));
    assert s4.Holding(1) == s4.Holding(2) == Some(b);
    RunUnfolds(s3, Check(2, b, true), [], b);
    RunUnfolds(s2, InvalidateMarker(b), [Check(2, b, true)] + [], b);
    RunUnfolds(s1, Check(1, b, true), [InvalidateMarker(b)] + ([Check(2, b, true)] + []), b);
    RunUnfolds(FRESH, InvalidateCompleted(b),
               [Check(1, b, true)] + ([InvalidateMarker(b)] + ([Check(2, b, true)] + [])), b);
  }

  function ProbeRace(b: BaseKey): seq<Event> {
    [Probe(1, b, true)] + ([Check(2, b, true)] + ([StoreWrite(2, "done", None)] + ([StoreDelete(2)] + [])))
  }

  /**
    The non-atomic check keeps one holder at a time (MutualExclusion covers it) but not
    exactly once: a worker that probed before a rival's store and acquires after it is
    told NEW for a request whose result is already there, in a run that breaks no
    assumption.  SecuredIsNeverNewIff has the condition for every run.
  */
  lemma NonAtomicCheckCanRepeatCompletedWork(b: BaseKey)
    ensures Executable(FRESH, ProbeRace(b)) && TimelyRun(FRESH, ProbeRace(b), b)
    ensures
      var s := Run(FRESH, ProbeRace(b));
      && Enabled(s, Acquire(1, true))
      && TellsNew(s, Acquire(1, true), b) && LateAcquire(s, Acquire(1, true), b)
  {
    MarkersAreInjective(b, b);
    var s1 := Step(FRESH, Probe(1, b, true));
    var s2 := Step(s1, Check(2, b, true));
    assert s2.PhaseOf(2) == Processing(b, 0.0) && s2.PhaseOf(1) == Probed(b);
    var s3 := Step(s2, StoreWrite(2, "done", None));
    assert s3.PhaseOf(2) == Storing(b, 0.0) && Holds(s3.store, b, 0.0);
    var s4 := Step(s3, StoreDelete(2));
    assert s4.PhaseOf(1) == Probed(b) && Holds(s4.store, b, 0.0) && !Holds(s4.store, MarkerOf(b), 0.0);
    RunUnfolds(s3, StoreDelete(2), [], b);
    RunUnfolds(s2, StoreWrite(2, "done", None), [StoreDelete(2)] + [], b);
    RunUnfolds(s1, Check(2, b, true), [StoreWrite(2, "done", None)] + ([StoreDelete(2)] + []), b);
    RunUnfolds(FRESH, Probe(1, b, true),
               [Check(2, b, true)] + ([StoreWrite(2, "done", None)] + ([StoreDelete(2)] + [])), b);
  }
}
