/**
  CacheService's connection handling: one lazy connection attempt, exponential backoff
  after failures, and the in-memory fallback of the local, dev and test environments.
  Whether an attempt succeeds and how long it takes are inputs.  One service is shared by
  all callers and nothing locks it: a call is suspended while it waits for PING, and a
  close while it waits for the client, and other calls run in between.
*/
module CacheConnection {
  import opened Wrappers
  import opened TimedStore
  import opened InMemoryCaching
  import opened IdempotencyKeys
  import opened IdempotencyService
  import opened Numbers

  const INITIAL_RETRY_DELAY: Time := 1.0
  const MAX_RETRY_DELAY: Time := 60.0
  const RETRY_BACKOFF_FACTOR: Time := 2.0

  /**
    Connection and timeout errors, and value and type errors, are handled; any other
    exception escapes with the client left in place.
  */
  datatype Outcome = Connects | Unreachable | BadConfiguration | EscapingError {
    predicate Fails() { Unreachable? || BadConfiguration? }
  }

  /** The fields of the service, with the fallback cache by its contents. */
  datatype Conn = Conn(
    client: bool,
    fallback: Option<Dict>,
    initialized: bool,
    usingFallback: bool,
    lastAttempt: Time,
    retryDelay: Time,
    failures: nat)

  const START := Conn(false, None, false, false, 0.0, INITIAL_RETRY_DELAY, 0)

  function MinDelay(a: Time, b: Time): Time {
    if a <= b then a else b
  }

  predicate ShouldAttempt(c: Conn, now: Time) {
    c.failures == 0 || now - c.lastAttempt >= c.retryDelay
  }

  /** The guard of an attempt. */
  predicate Attempts(c: Conn, now: Time) {
    !c.initialized && ShouldAttempt(c, now)
  }

  /**
    Up to the await: nothing when initialised, the fallback while waiting out a backoff,
    else a client that is about to be pinged.
  */
  function Begun(c: Conn, fallbackAllowed: bool, now: Time): Conn {
    if c.initialized then c
    else if ShouldAttempt(c, now) then c.(client := true)
    else if fallbackAllowed && c.fallback.None? then c.(fallback := Some(EMPTY), usingFallback := true)
    else c
  }

  /** After the await.  Success does not touch the client: it stays whatever it has become in the meantime. */
  function Finished(c: Conn, fallbackAllowed: bool, done: Time, outcome: Outcome): Conn {
    match outcome
    case Connects => c.(initialized := true, failures := 0, retryDelay := INITIAL_RETRY_DELAY, lastAttempt := done)
    case EscapingError => c
    case _ =>
      var f := c.(client := false, initialized := true, failures := c.failures + 1, lastAttempt := done,
                  retryDelay := MinDelay(c.retryDelay * RETRY_BACKOFF_FACTOR, MAX_RETRY_DELAY));
      if fallbackAllowed then f.(fallback := Some(EMPTY), usingFallback := true) else f
  }

  /** A whole call that nobody interrupts. */
  function Ensured(c: Conn, fallbackAllowed: bool, now: Time, done: Time, outcome: Outcome): Conn {
    var begun := Begun(c, fallbackAllowed, now);
    if Attempts(c, now) then Finished(begun, fallbackAllowed, done, outcome) else begun
  }

  /** Closing, up to the await of the client ... */
  function FallbackClosed(c: Conn): Conn {
    if c.fallback.Some? then c.(fallback := None, usingFallback := false) else c
  }

  /**
    ... and after it.  Connection and timeout errors and attribute errors of the client are
    handled; any other error, or a cancellation, still drops the client but escapes before the
    flag is cleared.
  */
  function ClientClosed(c: Conn, hadClient: bool, escapes: bool): Conn {
    c.(client := c.client && !hadClient, initialized := c.initialized && escapes)
  }

  /** A whole close that nobody interrupts; without a client there is nothing that could raise. */
  function Closed(c: Conn, escapes: bool): Conn {
    ClientClosed(FallbackClosed(c), c.client, c.client && escapes)
  }

  // ------------------------------------------------------------------ the code

  class CacheService {
    const fallbackAllowed: bool
    var client: bool
    var inMemory: InMemoryCache?
    var initialized: bool
    var usingFallback: bool
    var lastAttempt: Time
    var retryDelay: Time
    var failures: nat

    ghost function View(): Conn
      reads this, inMemory
    {
      var fallback := if inMemory == null then None else Some(inMemory.cache);
      Conn(client, fallback, initialized, usingFallback, lastAttempt, retryDelay, failures)
    }

    constructor (fallbackAllowed: bool)
      ensures this.fallbackAllowed == fallbackAllowed && View() == START
    {
      this.fallbackAllowed := fallbackAllowed;
      client, inMemory, initialized, usingFallback := false, null, false, false;
      lastAttempt, retryDelay, failures := 0.0, INITIAL_RETRY_DELAY, 0;
    }

    method RecordConnectionSuccess(now: Time)
      modifies this`failures, this`retryDelay, this`lastAttempt
      ensures failures == 0 && retryDelay == INITIAL_RETRY_DELAY && lastAttempt == now
    {
      failures := 0;
      retryDelay := INITIAL_RETRY_DELAY;
      lastAttempt := now;
    }

    method RecordConnectionFailure(now: Time)
      modifies this`failures, this`retryDelay, this`lastAttempt
      ensures failures == old(failures) + 1 && lastAttempt == now
      ensures retryDelay == MinDelay(old(retryDelay) * RETRY_BACKOFF_FACTOR, MAX_RETRY_DELAY)
    {
      failures := failures + 1;
      lastAttempt := now;
      retryDelay := MinDelay(retryDelay * RETRY_BACKOFF_FACTOR, MAX_RETRY_DELAY);
    }

    /** _ensure_connected as far as the await. */
    method BeginAttempt(now: Time) returns (attempting: bool)
      modifies this
      ensures View() == Begun(old(View()), fallbackAllowed, now)
      ensures attempting == Attempts(old(View()), now)
      ensures inMemory == old(inMemory) || (inMemory != null && fresh(inMemory))
    {
      if initialized {
        return false;
      }
      if failures != 0 && now - lastAttempt < retryDelay {
        if fallbackAllowed && inMemory == null {
          inMemory := new InMemoryCache();
          usingFallback := true;
        }
        return false;
      }
      client := true;
      attempting := true;
    }

    /** _ensure_connected from the await on. */
    method FinishAttempt(done: Time, outcome: Outcome) returns (escaped: bool)
      modifies this
      ensures View() == Finished(old(View()), fallbackAllowed, done, outcome)
      ensures escaped == outcome.EscapingError?
      ensures inMemory == old(inMemory) || (inMemory != null && fresh(inMemory))
    {
      escaped := false;
      match outcome {
        case Connects =>
          initialized := true;
          RecordConnectionSuccess(done);
        case EscapingError =>
          escaped := true;
        case _ =>
          client := false;
          RecordConnectionFailure(done);
          if fallbackAllowed {
            inMemory := new InMemoryCache();
            usingFallback := true;
          }
          initialized := true;
      }
    }

    /** One call of _ensure_connected that nobody interrupts. */
    method EnsureConnected(now: Time, done: Time, outcome: Outcome) returns (escaped: bool)
      modifies this
      ensures View() == Ensured(old(View()), fallbackAllowed, now, done, outcome)
      ensures escaped <==> outcome.EscapingError? && Attempts(old(View()), now)
      ensures inMemory == old(inMemory) || (inMemory != null && fresh(inMemory))
    {
      escaped := false;
      var attempting := BeginAttempt(now);
      if attempting {
        escaped := FinishAttempt(done, outcome);
      }
    }

    method CloseFallback() returns (hasClient: bool)
      modifies this, inMemory
      ensures View() == FallbackClosed(old(View())) && hasClient == client
      ensures inMemory == null
      ensures old(inMemory) != null ==> old(inMemory).cache == EMPTY
    {
      if inMemory != null {
        inMemory.Close();
        inMemory := null;
        usingFallback := false;
      }
      hasClient := client;
    }

    method CloseClient(hadClient: bool, escapes: bool)
      requires escapes ==> hadClient
      modifies this
      ensures View() == ClientClosed(old(View()), hadClient, escapes) && inMemory == old(inMemory)
    {
      if hadClient {
        client := false;
        if escapes {
          return;
        }
      }
      initialized := false;
    }

    /** close without interruption; `error` is whether closing the client raises something that is not handled. */
    method Close(error: bool) returns (escaped: bool)
      modifies this, inMemory
      ensures View() == Closed(old(View()), error)
      ensures escaped <==> error && old(client)
      ensures old(inMemory) != null ==> old(inMemory).cache == EMPTY
    {
      var hadClient := CloseFallback();
      escaped := hadClient && error;
      CloseClient(hadClient, escaped);
    }
  }

  // ------------------------------------------------------------------ overlapping calls

  /**
    Where a caller stands.  An attempt remembers when it read the guard, and how many
    outcomes had been recorded and clients dropped by then.
  */
  datatype Phase = Idle | Attempting(since: Time, seen: nat, drops: nat) | Closing(hadClient: bool)

  /**
    `recorded`, `drops` and `streakStart` are history: outcomes recorded, clients dropped,
    time of the first failure in a row.
  */
  datatype State = State(
    conn: Conn,
    callers: map<nat, Phase>,
    now: Time,
    recorded: nat,
    drops: nat,
    streakStart: Time)
  {
    function PhaseOf(w: nat): Phase {
      if w in callers then callers[w] else Idle
    }
  }

  datatype Event =
    | Begin(w: nat)
    | Finish(w: nat, outcome: Outcome)
    | CloseBegins(w: nat)
    | CloseEnds(w: nat, escapes: bool)
    | Tick(elapsed: Time)

  predicate Enabled(s: State, ev: Event) {
    match ev
    case Begin(w) => s.PhaseOf(w).Idle?
    case Finish(w, _) => s.PhaseOf(w).Attempting?
    case CloseBegins(w) => s.PhaseOf(w).Idle?
    case CloseEnds(w, escapes) => s.PhaseOf(w).Closing? && (escapes ==> s.PhaseOf(w).hadClient)
    case Tick(d) => d >= 0.0
  }

  function Move(s: State, w: nat, p: Phase, c: Conn): State {
    s.(conn := c, callers := s.callers[w := p])
  }

  function Step(s: State, fallbackAllowed: bool, ev: Event): State
    requires Enabled(s, ev)
  {
    match ev
    case Begin(w) =>
      var p := if Attempts(s.conn, s.now) then Attempting(s.now, s.recorded, s.drops) else Idle;
      Move(s, w, p, Begun(s.conn, fallbackAllowed, s.now))
    case Finish(w, outcome) =>
      var s' := Move(s, w, Idle, Finished(s.conn, fallbackAllowed, s.now, outcome));
      if outcome.EscapingError? then s'
      else s'.(recorded := s.recorded + 1,
               drops := s.drops + (if outcome.Fails() then 1 else 0),
               streakStart := if s.conn.failures == 0 then s.now else s.streakStart)
    case CloseBegins(w) => Move(s, w, Closing(s.conn.client), FallbackClosed(s.conn))
    case CloseEnds(w, escapes) =>
      var hadClient := s.PhaseOf(w).hadClient;
      Move(s, w, Idle, ClientClosed(s.conn, hadClient, escapes)).(drops := s.drops + if hadClient then 1 else 0)
    case Tick(d) => s.(now := s.now + d)
  }

  predicate Initial(s: State) {
    s.conn == START && s.callers == map[] && s.recorded == 0 && s.drops == 0
  }

  ghost predicate Follows(before: State, fallbackAllowed: bool, ev: Event, after: State) {
    Enabled(before, ev) && after == Step(before, fallbackAllowed, ev)
  }

  /** `states[n]` is the service and its callers after the first `n` events, however the calls overlap. */
  ghost predicate IsRun(fallbackAllowed: bool, evs: seq<Event>, states: seq<State>) {
    && |states| == |evs| + 1
    && Initial(states[0])
    && forall n {:trigger evs[n]} :: 0 <= n < |evs| ==> Follows(states[n], fallbackAllowed, evs[n], states[n + 1])
  }

  /** min(2^n, 60) */
  function Backoff(n: nat): Time {
    if n < 6 then Pow2(n) as Time else MAX_RETRY_DELAY
  }

  lemma BackoffIsCappedPower(n: nat)
    ensures Backoff(n) == MinDelay(Pow2(n) as Time, MAX_RETRY_DELAY)
    ensures Backoff(n + 1) == MinDelay(Backoff(n) * RETRY_BACKOFF_FACTOR, MAX_RETRY_DELAY)
  {
    assert Pow2(3) == 8;
    assert Pow2(4) == 2 * Pow2(3);
    assert Pow2(5) == 2 * Pow2(4);
    assert Pow2(6) == 2 * Pow2(5);
    if n >= 6 { Pow2Grows(6, n); }
    if n >= 5 { Pow2Grows(6, n + 1); }
  }

  predicate Consistent(c: Conn, fallbackAllowed: bool) {
    && c.retryDelay == Backoff(c.failures)
    && (c.usingFallback <==> c.fallback.Some?)
    && (c.usingFallback ==> fallbackAllowed)
  }

  /** What the state owes to an attempt in flight. */
  predicate AttemptOk(s: State, w: nat) {
    var p := s.PhaseOf(w);
    p.Attempting? ==>
      && p.seen <= s.recorded && p.drops <= s.drops
      && p.since <= s.now
      && (p.seen == s.recorded && s.conn.failures > 0 ==> p.since >= s.conn.lastAttempt + s.conn.retryDelay)
      && (p.seen < s.recorded ==> p.since <= s.conn.lastAttempt)
      && (p.drops == s.drops ==> s.conn.client)
  }

  ghost predicate Invariant(s: State, fallbackAllowed: bool) {
    && Consistent(s.conn, fallbackAllowed)
    && (s.recorded == 0 ==> s.conn.failures == 0)
    && (s.recorded > 0 ==> s.conn.lastAttempt <= s.now)
    && forall w: nat :: AttemptOk(s, w)
  }

  lemma StepKeepsInvariant(s: State, fallbackAllowed: bool, ev: Event)
    requires Invariant(s, fallbackAllowed) && Enabled(s, ev)
    ensures Invariant(Step(s, fallbackAllowed, ev), fallbackAllowed)
  {
    var s' := Step(s, fallbackAllowed, ev);
    BackoffIsCappedPower(s.conn.failures);
    assert Backoff(0) == 1.0;
    forall w: nat
      ensures AttemptOk(s', w)
    {
      assert AttemptOk(s, w);
    }
  }

  lemma {:induction false} InvariantHolds(fallbackAllowed: bool, evs: seq<Event>, states: seq<State>, n: nat)
    requires IsRun(fallbackAllowed, evs, states) && n <= |evs|
    ensures Invariant(states[n], fallbackAllowed)
    decreases n
  {
    if n == 0 {
      assert Backoff(0) == 1.0;
    } else {
      InvariantHolds(fallbackAllowed, evs, states, n - 1);
      assert Follows(states[n - 1], fallbackAllowed, evs[n - 1], states[n]);
      StepKeepsInvariant(states[n - 1], fallbackAllowed, evs[n - 1]);
    }
  }

  /**
    In every reachable state, however calls overlap, the delay is min(2^failures, 60)
    seconds, the fallback flag is on exactly when there is a fallback cache, and it is
    never on where it is not allowed.
  */
  lemma EveryStateIsConsistent(fallbackAllowed: bool, evs: seq<Event>, states: seq<State>, n: nat)
    requires IsRun(fallbackAllowed, evs, states) && n <= |evs|
    ensures Consistent(states[n].conn, fallbackAllowed)
  {
    InvariantHolds(fallbackAllowed, evs, states, n);
  }

  // ------------------------------------------------------------------ how far failures are apart

  /** This event records a failed attempt. */
  predicate RecordsFailure(ev: Event) {
    ev.Finish? && ev.outcome.Fails()
  }

  /** It adds to a streak although the last failure of the streak was recorded after its own attempt began. */
  predicate Overlapped(s: State, ev: Event)
    requires Enabled(s, ev)
  {
    RecordsFailure(ev) && s.conn.failures > 0 && s.PhaseOf(ev.w).seen < s.recorded
  }

  /** The attempt behind it began at least min(2^k, 60) s after the last of the `k` failures before it. */
  predicate WaitedItsTurn(s: State, ev: Event)
    requires Enabled(s, ev)
  {
    RecordsFailure(ev) && s.conn.failures > 0 ==>
      s.PhaseOf(ev.w).since >= s.conn.lastAttempt + Backoff(s.conn.failures)
  }

  /**
    When a call attempts a connection, in every run: exactly when the service is not
    initialised and has waited out the backoff of the failures recorded by then, if any.
  */
  lemma AttemptsWaitOutTheBackoffIff(fallbackAllowed: bool, evs: seq<Event>, states: seq<State>, n: nat)
    requires IsRun(fallbackAllowed, evs, states) && n < |evs| && evs[n].Begin?
    ensures
      var c := states[n].conn;
      states[n + 1].PhaseOf(evs[n].w).Attempting? <==>
      !c.initialized && (c.failures == 0 || states[n].now >= c.lastAttempt + Backoff(c.failures))
  {
    InvariantHolds(fallbackAllowed, evs, states, n);
    assert Follows(states[n], fallbackAllowed, evs[n], states[n + 1]);
  }

  /**
    Where a fallback is allowed no handled failure and no backoff leaves a caller without a
    cache: after an attempt that cannot reach Redis or is refused its configuration an empty
    fallback is in use, and while a backoff is waited out there is one.  Elsewhere there never is.
  */
  lemma FailuresFallBack(c: Conn, fallbackAllowed: bool, at: Time, done: Time, outcome: Outcome)
    requires Consistent(c, fallbackAllowed) && !c.initialized
    ensures
      var c' := Ensured(c, fallbackAllowed, at, done, outcome);
      && (Attempts(c, at) && outcome in {Unreachable, BadConfiguration} ==>
            c'.usingFallback == fallbackAllowed && (fallbackAllowed ==> c'.fallback == Some(EMPTY)))
      && (!Attempts(c, at) ==>
            c'.usingFallback == fallbackAllowed
            && (fallbackAllowed ==> c'.fallback == if c.fallback.None? then Some(EMPTY) else c.fallback))
  {
  }

  /**
    Exact: a failure that follows `k` others comes from an attempt that waited min(2^k, 60)
    seconds after the last of them if and only if it began after that one was recorded.
  */
  lemma FailuresAreSpacedIff(fallbackAllowed: bool, evs: seq<Event>, states: seq<State>, n: nat)
    requires IsRun(fallbackAllowed, evs, states) && n < |evs|
    requires Enabled(states[n], evs[n]) && RecordsFailure(evs[n])
    ensures states[n + 1].conn.failures == states[n].conn.failures + 1
    ensures WaitedItsTurn(states[n], evs[n]) <==> !Overlapped(states[n], evs[n])
    ensures WaitedItsTurn(states[n], evs[n]) && states[n].conn.failures > 0 ==>
              states[n + 1].conn.lastAttempt >= states[n].conn.lastAttempt + Backoff(states[n].conn.failures)
  {
    InvariantHolds(fallbackAllowed, evs, states, n);
    assert Follows(states[n], fallbackAllowed, evs[n], states[n + 1]);
    assert AttemptOk(states[n], evs[n].w);
    BackoffIsPositive(states[n].conn.failures);
  }

  lemma BackoffIsPositive(k: nat)
    ensures Backoff(k) >= 1.0
  {
  }

  /** The least time `k` failures in a row can take: the sum of the delays between them. */
  function LeastSpan(k: nat): Time {
    if k <= 1 then 0.0 else LeastSpan(k - 1) + Backoff(k - 1)
  }

  lemma {:induction false} LeastSpanClosedForm(k: nat)
    requires k >= 6
    ensures LeastSpan(k) == 62.0 + 60.0 * (k - 6) as Time
  {
    if k == 6 {
      assert Backoff(1) == 2.0 && Backoff(2) == 4.0 && Backoff(3) == 8.0;
      assert Pow2(4) == 2 * Pow2(3);
      assert Pow2(5) == 2 * Pow2(4);
      assert LeastSpan(3) == 6.0;
      assert LeastSpan(4) == 14.0;
      assert LeastSpan(5) == 30.0;
    } else {
      LeastSpanClosedForm(k - 1);
    }
  }

  /** Among the first `n` events no failure overlapped the one before it. */
  ghost predicate NoOverlap(fallbackAllowed: bool, evs: seq<Event>, states: seq<State>, n: nat)
    requires IsRun(fallbackAllowed, evs, states) && n <= |evs|
  {
    forall i :: 0 <= i < n ==> Enabled(states[i], evs[i]) && !Overlapped(states[i], evs[i])
  }

  /** The same for whole runs. */
  lemma EveryFailureWaitsIff(fallbackAllowed: bool, evs: seq<Event>, states: seq<State>, n: nat)
    requires IsRun(fallbackAllowed, evs, states) && n <= |evs|
    ensures NoOverlap(fallbackAllowed, evs, states, n) <==>
            forall i :: 0 <= i < n ==> Enabled(states[i], evs[i]) && WaitedItsTurn(states[i], evs[i])
  {
    forall i | 0 <= i < n
      ensures Enabled(states[i], evs[i])
      ensures WaitedItsTurn(states[i], evs[i]) <==> !Overlapped(states[i], evs[i])
    {
      assert Follows(states[i], fallbackAllowed, evs[i], states[i + 1]);
      if RecordsFailure(evs[i]) {
        FailuresAreSpacedIff(fallbackAllowed, evs, states, i);
      }
    }
  }

  predicate Spread(s: State) {
    s.conn.failures > 0 ==> s.conn.lastAttempt - s.streakStart >= LeastSpan(s.conn.failures)
  }

  lemma StepKeepsSpread(s: State, fallbackAllowed: bool, ev: Event)
    requires Spread(s) && Enabled(s, ev)
    requires RecordsFailure(ev) && s.conn.failures > 0 ==> s.now >= s.conn.lastAttempt + Backoff(s.conn.failures)
    ensures Spread(Step(s, fallbackAllowed, ev))
  {
    if RecordsFailure(ev) {
      assert LeastSpan(1) == 0.0;
    }
  }

  lemma {:induction false} EveryStateIsSpread(fallbackAllowed: bool, evs: seq<Event>, states: seq<State>, n: nat)
    requires IsRun(fallbackAllowed, evs, states) && n <= |evs|
    requires NoOverlap(fallbackAllowed, evs, states, n)
    ensures Spread(states[n])
    decreases n
  {
    if n > 0 {
      EveryStateIsSpread(fallbackAllowed, evs, states, n - 1);
      assert Follows(states[n - 1], fallbackAllowed, evs[n - 1], states[n]);
      if RecordsFailure(evs[n - 1]) {
        assert !Overlapped(states[n - 1], evs[n - 1]);
        FailuresAreSpacedIff(fallbackAllowed, evs, states, n - 1);
      }
      StepKeepsSpread(states[n - 1], fallbackAllowed, evs[n - 1]);
    }
  }

  /**
    The retry storm bound: in every run without such overlaps, `k` failures in a row spread
    over at least the sum of their delays, which from the sixth on is 62 + 60 (k - 6) s.
  */
  lemma StreaksAreSpread(fallbackAllowed: bool, evs: seq<Event>, states: seq<State>, n: nat)
    requires IsRun(fallbackAllowed, evs, states) && n <= |evs|
    requires NoOverlap(fallbackAllowed, evs, states, n)
    ensures
      var s := states[n];
      && (s.conn.failures > 0 ==> s.conn.lastAttempt - s.streakStart >= LeastSpan(s.conn.failures))
      && (s.conn.failures >= 6 ==> s.conn.lastAttempt - s.streakStart >= 62.0 + 60.0 * (s.conn.failures - 6) as Time)
  {
    EveryStateIsSpread(fallbackAllowed, evs, states, n);
    if states[n].conn.failures >= 6 {
      LeastSpanClosedForm(states[n].conn.failures);
    }
  }

  /** A run can be continued by any event its last state allows. */
  lemma RunGrows(fallbackAllowed: bool, evs: seq<Event>, states: seq<State>, ev: Event)
    requires IsRun(fallbackAllowed, evs, states) && Enabled(states[|evs|], ev)
    ensures IsRun(fallbackAllowed, evs + [ev], states + [Step(states[|evs|], fallbackAllowed, ev)])
  {
  }

  /** `n` callers have read the guard, and the first `k` of them have given up, all at one moment. */
  ghost predicate Herd(s: State, n: nat, k: nat) {
    && k <= n
    && s.now == s.conn.lastAttempt == s.streakStart == 0.0
    && s.conn.failures == k && s.recorded == k
    && (k == 0 ==> !s.conn.initialized)
    && (forall w: nat :: k <= w < n ==> s.PhaseOf(w).Attempting?)
    && (forall w: nat :: w >= n ==> s.PhaseOf(w).Idle?)
  }

  ghost predicate HerdIsReachable(fallbackAllowed: bool, n: nat, k: nat) {
    exists evs, states :: IsRun(fallbackAllowed, evs, states) && Herd(states[|evs|], n, k)
  }

  /**
    Without that condition there is no bound at all: callers that overlap all pass the guard
    before the first failure is recorded, so any number of failures comes at one moment.
  */
  lemma {:induction false} OverlappingFailuresHaveNoGap(fallbackAllowed: bool, n: nat, k: nat)
    requires k <= n
    ensures HerdIsReachable(fallbackAllowed, n, k)
    decreases n + k
  {
    if n == 0 {
      var s := State(START, map[], 0.0, 0, 0, 0.0);
      assert IsRun(fallbackAllowed, [], [s]) && Herd([s][0], 0, 0);
    } else if k == 0 {
      OverlappingFailuresHaveNoGap(fallbackAllowed, n - 1, 0);
      var evs, states :| IsRun(fallbackAllowed, evs, states) && Herd(states[|evs|], n - 1, 0);
      HerdJoins(states[|evs|], fallbackAllowed, n - 1);
      HerdMoves(fallbackAllowed, evs, states, Begin(n - 1), n, 0);
    } else {
      OverlappingFailuresHaveNoGap(fallbackAllowed, n, k - 1);
      var evs, states :| IsRun(fallbackAllowed, evs, states) && Herd(states[|evs|], n, k - 1);
      HerdFails(states[|evs|], fallbackAllowed, n, k - 1);
      HerdMoves(fallbackAllowed, evs, states, Finish(k - 1, Unreachable), n, k);
    }
  }

  lemma HerdJoins(s: State, fallbackAllowed: bool, n: nat)
    requires Herd(s, n, 0)
    ensures Enabled(s, Begin(n)) && Herd(Step(s, fallbackAllowed, Begin(n)), n + 1, 0)
  {
    var s' := Step(s, fallbackAllowed, Begin(n));
    forall w: nat
      ensures w < n + 1 ==> s'.PhaseOf(w).Attempting?
      ensures w >= n + 1 ==> s'.PhaseOf(w).Idle?
    {
      assert w != n ==> s'.PhaseOf(w) == s.PhaseOf(w);
    }
  }

  lemma HerdFails(s: State, fallbackAllowed: bool, n: nat, k: nat)
    requires k < n && Herd(s, n, k)
    ensures Enabled(s, Finish(k, Unreachable)) && Herd(Step(s, fallbackAllowed, Finish(k, Unreachable)), n, k + 1)
  {
    var s' := Step(s, fallbackAllowed, Finish(k, Unreachable));
    forall w: nat
      ensures k + 1 <= w < n ==> s'.PhaseOf(w).Attempting?
      ensures w >= n ==> s'.PhaseOf(w).Idle?
    {
      assert w != k ==> s'.PhaseOf(w) == s.PhaseOf(w);
    }
  }

  lemma HerdMoves(fallbackAllowed: bool, evs: seq<Event>, states: seq<State>, ev: Event, n: nat, k: nat)
    requires IsRun(fallbackAllowed, evs, states) && Enabled(states[|evs|], ev)
    requires Herd(Step(states[|evs|], fallbackAllowed, ev), n, k)
    ensures HerdIsReachable(fallbackAllowed, n, k)
  {
    var more, further := evs + [ev], states + [Step(states[|evs|], fallbackAllowed, ev)];
    RunGrows(fallbackAllowed, evs, states, ev);
    assert IsRun(fallbackAllowed, more, further) && Herd(further[|more|], n, k);
  }

  // ------------------------------------------------------------------ initialised without a client

  /** Initialised, no client, no failure on record: nothing will try again before a close. */
  predicate Stranded(c: Conn) {
    c.initialized && !c.client && c.failures == 0
  }

  /**
    The two ways into it, exactly: an attempt succeeds after its client was dropped while it
    waited, by another caller's failure or by a close; or a close of a connected service
    raises an error that is not handled.
  */
  lemma StrandedIff(fallbackAllowed: bool, evs: seq<Event>, states: seq<State>, n: nat)
    requires IsRun(fallbackAllowed, evs, states) && n < |evs| && !Stranded(states[n].conn)
    ensures
      var c, ev := states[n].conn, evs[n];
      Stranded(states[n + 1].conn) <==>
      || (ev.Finish? && ev.outcome.Connects? && !c.client)
      || (ev.CloseEnds? && ev.escapes && c.initialized && c.failures == 0)
    ensures Stranded(states[n + 1].conn) && evs[n].Finish? ==> states[n].PhaseOf(evs[n].w).drops < states[n].drops
  {
    InvariantHolds(fallbackAllowed, evs, states, n);
    assert Follows(states[n], fallbackAllowed, evs[n], states[n + 1]);
    assert evs[n].Finish? ==> AttemptOk(states[n], evs[n].w);
  }

  /** No new attempt gets it out: only a close that goes through does, or an attempt already in flight that fails. */
  lemma StrandedStays(s: State, fallbackAllowed: bool, ev: Event)
    requires Stranded(s.conn) && Enabled(s, ev)
    ensures !Stranded(Step(s, fallbackAllowed, ev).conn) <==> (ev.CloseEnds? && !ev.escapes) || RecordsFailure(ev)
    ensures ev.Begin? ==> Step(s, fallbackAllowed, ev).PhaseOf(ev.w).Idle?
  {
  }

  const STRANDING_OVERLAP: seq<Event> := [Begin(1), Begin(2), Finish(1, Unreachable), Finish(2, Connects)]
  const STRANDING_CLOSE: seq<Event> := [Begin(1), Finish(1, Connects), CloseBegins(1), CloseEnds(1, true)]

  /** Both ways are open. */
  lemma StrandedIsReachable(fallbackAllowed: bool)
    ensures exists states: seq<State> :: IsRun(fallbackAllowed, STRANDING_OVERLAP, states) && Stranded(states[4].conn)
    ensures exists states: seq<State> :: IsRun(fallbackAllowed, STRANDING_CLOSE, states) && Stranded(states[4].conn)
  {
    StrandedByOverlap(fallbackAllowed);
    StrandedByClose(fallbackAllowed);
  }

  lemma StrandedByOverlap(fallbackAllowed: bool)
    ensures exists states: seq<State> :: IsRun(fallbackAllowed, STRANDING_OVERLAP, states) && Stranded(states[4].conn)
  {
    var s0 := State(START, map[], 0.0, 0, 0, 0.0);
    var s1 := Step(s0, fallbackAllowed, STRANDING_OVERLAP[0]);
    var s2 := Step(s1, fallbackAllowed, STRANDING_OVERLAP[1]);
    var s3 := Step(s2, fallbackAllowed, STRANDING_OVERLAP[2]);
    var s4 := Step(s3, fallbackAllowed, STRANDING_OVERLAP[3]);
    assert IsRun(fallbackAllowed, STRANDING_OVERLAP, [s0, s1, s2, s3, s4]);
  }

  lemma StrandedByClose(fallbackAllowed: bool)
    ensures exists states: seq<State> :: IsRun(fallbackAllowed, STRANDING_CLOSE, states) && Stranded(states[4].conn)
  {
    var s0 := State(START, map[], 0.0, 0, 0, 0.0);
    var s1 := Step(s0, fallbackAllowed, STRANDING_CLOSE[0]);
    var s2 := Step(s1, fallbackAllowed, STRANDING_CLOSE[1]);
    var s3 := Step(s2, fallbackAllowed, STRANDING_CLOSE[2]);
    var s4 := Step(s3, fallbackAllowed, STRANDING_CLOSE[3]);
    assert s2.conn.initialized && s2.conn.failures == 0;
    assert IsRun(fallbackAllowed, STRANDING_CLOSE, [s0, s1, s2, s3, s4]);
  }

  // ------------------------------------------------------------------ attempts that escape

  /** Any number of attempts by one caller, each ending in an error that is not handled. */
  function Escaping(n: nat): seq<Event> {
    seq(2 * n, i => if i % 2 == 0 then Begin(1) else Finish(1, EscapingError))
  }

  function EscapingState(i: nat): State {
    if i == 0 then State(START, map[], 0.0, 0, 0, 0.0)
    else
      State(START.(client := true), map[1 := if i % 2 == 1 then Attempting(0.0, 0, 0) else Idle], 0.0, 0, 0, 0.0)
  }

  lemma EscapingStep(fallbackAllowed: bool, n: nat, i: nat)
    requires i < 2 * n
    ensures Follows(EscapingState(i), fallbackAllowed, Escaping(n)[i], EscapingState(i + 1))
  {
    var s := EscapingState(i);
    assert s.PhaseOf(1) == if 1 in s.callers then s.callers[1] else Idle;
  }

  /**
    An error that is not handled records no failure, so the backoff does not hold back what
    follows: for every n there is a run of n attempts, one after the other, at one moment.
  */
  lemma EscapingAttemptsDoNotWait(fallbackAllowed: bool, n: nat)
    ensures exists states: seq<State> ::
      && IsRun(fallbackAllowed, Escaping(n), states) && states[2 * n].now == states[0].now
      && forall k :: 0 <= k < n ==> states[2 * k + 1].PhaseOf(1).Attempting?
  {
    var states := seq(2 * n + 1, i requires 0 <= i < 2 * n + 1 => EscapingState(i));
    forall i | 0 <= i < 2 * n
      ensures Follows(states[i], fallbackAllowed, Escaping(n)[i], states[i + 1])
    {
      EscapingStep(fallbackAllowed, n, i);
    }
    assert IsRun(fallbackAllowed, Escaping(n), states);
    forall k | 0 <= k < n
      ensures states[2 * k + 1].PhaseOf(1).Attempting?
    {
      assert states[2 * k + 1] == EscapingState(2 * k + 1);
    }
  }

  // ------------------------------------------------------------------ the states one would not expect

  /** A call that nobody interrupts is its two halves back to back. */
  lemma UninterruptedCallIsBeginFinish(s: State, fallbackAllowed: bool, w: nat, took: Time, outcome: Outcome)
    requires s.PhaseOf(w).Idle? && took >= 0.0
    ensures
      var waited := Step(Step(s, fallbackAllowed, Begin(w)), fallbackAllowed, Tick(took));
      var done := if Attempts(s.conn, s.now) then Step(waited, fallbackAllowed, Finish(w, outcome)) else waited;
      done.conn == Ensured(s.conn, fallbackAllowed, s.now, s.now + took, outcome) && done.PhaseOf(w).Idle?
  {
  }

  /** A close drops both caches whatever happens, keeps the backoff, and lets calls connect again unless it raised. */
  lemma CloseDropsTheCaches(c: Conn, fallbackAllowed: bool, escapes: bool)
    requires Consistent(c, fallbackAllowed)
    ensures
      var c' := Closed(c, escapes);
      && !c'.client && c'.fallback.None? && !c'.usingFallback
      && (c'.initialized <==> c.initialized && c.client && escapes)
      && c'.failures == c.failures && c'.retryDelay == c.retryDelay && c'.lastAttempt == c.lastAttempt
  {
  }

  /** One handled attempt, good or bad, is the last until close: later calls change nothing. */
  lemma AttemptsWaitForClose(c: Conn, fallbackAllowed: bool, at: Time, done: Time, outcome: Outcome,
                             at': Time, done': Time, outcome': Outcome)
    requires Attempts(c, at)
    ensures
      var c' := Ensured(c, fallbackAllowed, at, done, outcome);
      && (c'.initialized <==> !outcome.EscapingError?)
      && (c'.initialized ==> Ensured(c', fallbackAllowed, at', done', outcome') == c')
  {
  }

  /**
    A connection that succeeds puts Redis into use exactly when no fallback cache was
    there; a fallback made while waiting out a backoff stays in front of the live client.
  */
  lemma ReconnectUsesRedisIff(c: Conn, fallbackAllowed: bool, at: Time, done: Time)
    requires Consistent(c, fallbackAllowed) && Attempts(c, at)
    ensures
      var c' := Ensured(c, fallbackAllowed, at, done, Connects);
      c'.client && (!c'.usingFallback <==> c.fallback.None?) && c'.fallback == c.fallback
  {
  }

  const STALE_FALLBACK: seq<Event> := [
    Begin(1), Finish(1, Unreachable), CloseBegins(1), CloseEnds(1, false),
    Begin(1), Tick(2.0), Begin(1), Finish(1, Connects)
  ]

  /** The service after the `n`-th of these events. */
  function StaleState(n: nat): State
    requires n <= 8
  {
    match n
    case 0 => State(START, map[], 0.0, 0, 0, 0.0)
    case 1 => State(START.(client := true), map[1 := Attempting(0.0, 0, 0)], 0.0, 0, 0, 0.0)
    case 2 => State(Conn(false, Some(EMPTY), true, true, 0.0, 2.0, 1), map[1 := Idle], 0.0, 1, 1, 0.0)
    case 3 => State(Conn(false, None, true, false, 0.0, 2.0, 1), map[1 := Closing(false)], 0.0, 1, 1, 0.0)
    case 4 => State(Conn(false, None, false, false, 0.0, 2.0, 1), map[1 := Idle], 0.0, 1, 1, 0.0)
    case 5 => State(Conn(false, Some(EMPTY), false, true, 0.0, 2.0, 1), map[1 := Idle], 0.0, 1, 1, 0.0)
    case 6 => StaleState(5).(now := 2.0)
    case 7 => State(Conn(true, Some(EMPTY), false, true, 0.0, 2.0, 1), map[1 := Attempting(2.0, 1, 1)], 2.0, 1, 1, 0.0)
    case _ => State(Conn(true, Some(EMPTY), true, true, 2.0, 1.0, 0), map[1 := Idle], 2.0, 2, 1, 0.0)
  }

  lemma StaleStep(n: nat)
    requires n < 8
    ensures Follows(StaleState(n), true, STALE_FALLBACK[n], StaleState(n + 1))
  {
    var s := StaleState(n);
    assert s.PhaseOf(1) == if 1 in s.callers then s.callers[1] else Idle;
  }

  lemma StaleFallbackIsReachable()
    ensures exists states: seq<State> ::
      IsRun(true, STALE_FALLBACK, states) && states[8].conn.client && states[8].conn.usingFallback
  {
    var states := seq(9, n requires 0 <= n < 9 => StaleState(n));
    forall n | 0 <= n < 8
      ensures Follows(states[n], true, STALE_FALLBACK[n], states[n + 1])
    {
      StaleStep(n);
    }
    assert IsRun(true, STALE_FALLBACK, states);
  }

  // ------------------------------------------------------------------ what the idempotency service gets

  /** Which way IdempotencyService.check goes from this state, given the fates of its commands. */
  function BackendOf(c: Conn, fates: Fates): Backend {
    if c.usingFallback && c.fallback.Some? then InMemoryFallback
    else if !c.client then Unavailable
    else Redis(fates.script, fates.pings, fates.get, fates.setNx)
  }

  datatype Fates = Fates(script: Fate, pings: bool, get: Fate, setNx: Fate)

  /**
    A failed attempt puts an empty cache in place of the fallback in use.  For idempotency:
    a request whose result is stored there is answered DUPLICATE before a retry, and NEW after
    it if and only if the retry fails in a handled way.
  */
  lemma FailedRetryForgetsCompletedWorkIff<J(!new)>(c: Conn, at: Time, done: Time, outcome: Outcome, fates: Fates,
                                                    json: Codec<J>, b: BaseKey, now: Time)
    requires Consistent(c, true) && c.usingFallback && Attempts(c, at)
    requires Usable(c.fallback.value.data, json, b, now)
    ensures
      var c' := Ensured(c, true, at, done, outcome);
      && BackendOf(c, fates) == BackendOf(c', fates) == InMemoryFallback
      && CheckOutcome(c.fallback.value.data, InMemoryFallback, json, b, now).0
         == Ok(IsDuplicate(json.loads(c.fallback.value.data[b].value)))
      && (CheckOutcome(c'.fallback.value.data, InMemoryFallback, json, b, now).0 == Ok(IsNew) <==> outcome.Fails())
  {
  }

  /** One call of _ensure_connected: when it reads the guard, when its attempt ends, and how. */
  datatype Try = Try(at: Time, done: Time, outcome: Outcome)

  /** Every cache command makes sure of the connection first. */
  datatype Tries = Tries(script: Try, ping: Try, get: Try, setNx: Try)

  datatype CallResult<J> = Ends(result: Result<CheckResult<J>, CacheError>) | Escapes

  function Ensuring(c: Conn, t: Try): Conn {
    Ensured(c, false, t.at, t.done, t.outcome)
  }

  predicate EscapesAt(c: Conn, t: Try) {
    Attempts(c, t.at) && t.outcome.EscapingError?
  }

  /** A command issued without a client is not executed. */
  function Through(c: Conn, fate: Fate): Fate {
    if c.client then fate else Refused
  }

  /** IdempotencyService.check where no fallback is allowed, with the connection step of each of its commands. */
  function CheckInProduction<J>(c: Conn, tries: Tries, fates: Fates, s: Store, json: Codec<J>, b: BaseKey, now: Time):
    (Conn, CallResult<J>, Store)
    requires !c.usingFallback
  {
    var c1 := Ensuring(c, tries.script);
    if EscapesAt(c, tries.script) then (c1, Escapes, s)
    else
      var (settled, s1) := ScriptCheck(s, json, b, Through(c1, fates.script), now);
      if settled.Some? then (c1, Ends(Ok(settled.value)), s1)
      else
        var c2 := Ensuring(c1, tries.ping);
        if EscapesAt(c1, tries.ping) then (c2, Escapes, s1)
        else if !c2.client || !fates.pings then (c2, Ends(Err(IdempotencyCacheError)), s1)
        else NonAtomicInProduction(c2, tries, fates, s1, json, b, now)
  }

  function NonAtomicInProduction<J>(c: Conn, tries: Tries, fates: Fates, s: Store, json: Codec<J>, b: BaseKey,
                                    now: Time):
    (Conn, CallResult<J>, Store)
  {
    var c1 := Ensuring(c, tries.get);
    var cached := ReadResult(s, json, b, Through(c1, fates.get), now);
    if EscapesAt(c, tries.get) then (c1, Escapes, s)
    else if cached.Some? then (c1, Ends(Ok(IsDuplicate(cached))), s)
    else
      var c2 := Ensuring(c1, tries.setNx);
      var (acquired, s') := AcquireMarker(s, b, Through(c2, fates.setNx), now);
      if EscapesAt(c1, tries.setNx) then (c2, Escapes, s)
      else (c2, Ends(Ok(if acquired then IsNew else IsInProgress)), s')
  }

  /**
    On an initialised service the connection steps do nothing, and check is what it is with
    Redis, or without any cache.
  */
  lemma InitializedCheck<J(!new)>(c: Conn, tries: Tries, fates: Fates, s: Store, json: Codec<J>, b: BaseKey, now: Time)
    requires c.initialized && !c.usingFallback
    ensures
      var (r, s') := CheckOutcome(s, BackendOf(c, fates), json, b, now);
      CheckInProduction(c, tries, fates, s, json, b, now) == (c, Ends(r), s')
  {
  }

  /**
    How a check ends whose connection was attempted by one of its commands; `later` is what
    it does with Redis from there.
  */
  function AfterAttempt<J>(outcome: Outcome, later: (Result<CheckResult<J>, CacheError>, Store), s: Store):
    (CallResult<J>, Store)
  {
    match outcome
    case Connects => (Ends(later.0), later.1)
    case EscapingError => (Escapes, s)
    case _ => (Ends(Err(IdempotencyCacheError)), s)
  }

  /**
    Production fails closed, exactly: in every reachable state without a client a check is
    refused and touches nothing, unless the connection step of its script, or of its PING when
    the backoff has run out in between, attempts and connects.  From the first it goes on as
    with Redis, from the second as with Redis without the script.
  */
  lemma ProductionWithoutAClient<J(!new)>(evs: seq<Event>, states: seq<State>, n: nat, tries: Tries, fates: Fates,
                                          s: Store, json: Codec<J>, b: BaseKey, now: Time)
    requires IsRun(false, evs, states) && n <= |evs| && !states[n].conn.client
    ensures !states[n].conn.usingFallback
    ensures
      var c := states[n].conn;
      var (_, r, s') := CheckInProduction(c, tries, fates, s, json, b, now);
      var atOnce := CheckOutcome(s, Redis(fates.script, fates.pings, fates.get, fates.setNx), json, b, now);
      var withoutScript := CheckOutcome(s, Redis(Refused, fates.pings, fates.get, fates.setNx), json, b, now);
      (r, s') ==
      if Attempts(c, tries.script.at) then AfterAttempt(tries.script.outcome, atOnce, s)
      else if Attempts(c, tries.ping.at) then AfterAttempt(tries.ping.outcome, withoutScript, s)
      else (Ends(Err(IdempotencyCacheError)), s)
  {
    EveryStateIsConsistent(false, evs, states, n);
    var c := states[n].conn;
    if !Attempts(c, tries.script.at) && Attempts(c, tries.ping.at) {
      AttemptedByPing(c, tries, fates, s, json, b, now);
    } else if Attempts(c, tries.script.at) && tries.script.outcome.Connects? {
      AttemptedByScript(c, tries, fates, s, json, b, now);
    }
  }

  lemma AttemptedByScript<J(!new)>(c: Conn, tries: Tries, fates: Fates, s: Store, json: Codec<J>, b: BaseKey, now: Time)
    requires !c.usingFallback && Attempts(c, tries.script.at) && tries.script.outcome.Connects?
    ensures
      var (_, r, s') := CheckInProduction(c, tries, fates, s, json, b, now);
      var atOnce := CheckOutcome(s, Redis(fates.script, fates.pings, fates.get, fates.setNx), json, b, now);
      (r, s') == (Ends(atOnce.0), atOnce.1)
  {
    var c1 := Ensuring(c, tries.script);
    InitializedCheck(c1, tries, fates, s, json, b, now);
  }

  lemma AttemptedByPing<J(!new)>(c: Conn, tries: Tries, fates: Fates, s: Store, json: Codec<J>, b: BaseKey, now: Time)
    requires !c.usingFallback && !c.client && !Attempts(c, tries.script.at) && Attempts(c, tries.ping.at)
    ensures
      var (_, r, s') := CheckInProduction(c, tries, fates, s, json, b, now);
      var withoutScript := CheckOutcome(s, Redis(Refused, fates.pings, fates.get, fates.setNx), json, b, now);
      (r, s') == AfterAttempt(tries.ping.outcome, withoutScript, s)
  {
    var c1 := Ensuring(c, tries.script);
    assert c1 == c;
  }

  /** So a service that has just been created serves its first request: it connects on the way. */
  lemma FreshServiceServes<J(!new)>(tries: Tries, fates: Fates, s: Store, json: Codec<J>, b: BaseKey, now: Time)
    requires tries.script.outcome.Connects? && fates.script.Answered?
    requires !Holds(s, b, now) && !Holds(s, MarkerOf(b), now)
    ensures
      var (c', r, s') := CheckInProduction(START, tries, fates, s, json, b, now);
      c'.client && r == Ends(Ok(IsNew)) && s' == WithMarker(s, b, now)
  {
    AttemptedByScript(START, tries, fates, s, json, b, now);
  }
}
