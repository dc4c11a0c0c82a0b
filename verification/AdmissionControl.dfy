/**
  Admission control: a lazily created semaphore that rejects instead of queueing.  A
  request is admitted before its handler runs and let go in `finally`, so the handler's
  run is everything that happens between Begin and End.
*/
module AdmissionControl {
  import opened Wrappers

  datatype Decision = Exempt | Rejected | Admitted

  const EXEMPT_PATHS: set<string> := {"/health", "/ready", "/live", "/metrics"}

  function RStripSlashes(path: string): string {
    if path != "" && path[|path| - 1] == '/' then RStripSlashes(path[..|path| - 1]) else path
  }

  predicate EndsWith(s: string, suffix: string) {
    |s| >= |suffix| && s[|s| - |suffix|..] == suffix
  }

  predicate IsExempt(path: string) {
    var clean := RStripSlashes(path);
    exists e :: e in EXEMPT_PATHS && EndsWith(clean, e)
  }

  /** Slashes at the end aside, exempt are the paths that end in one of the probes' paths, whatever stands before. */
  lemma ExemptIff(path: string)
    ensures IsExempt(path) <==>
            exists before: string, e, n: nat {:trigger before + e + Slashes(n)} ::
              e in {"/health", "/ready", "/live", "/metrics"} && path == before + e + Slashes(n)
  {
    if IsExempt(path) {
      var before, e, n := ExemptPathSplits(path);
      assert path == before + e + Slashes(n);
    }
    if before: string, e, n: nat {:trigger before + e + Slashes(n)} :|
      e in {"/health", "/ready", "/live", "/metrics"} && path == before + e + Slashes(n) {
      ProbePathsAreExempt(before, e, n);
    }
  }

  lemma ExemptPathSplits(path: string) returns (before: string, e: string, n: nat)
    requires IsExempt(path)
    ensures e in {"/health", "/ready", "/live", "/metrics"} && path == before + e + Slashes(n)
  {
    var clean := RStripSlashes(path);
    e :| e in EXEMPT_PATHS && EndsWith(clean, e);
    n := StrippedSlashes(path);
    before := clean[..|clean| - |e|];
    assert clean == before + e;
  }

  lemma ProbePathsAreExempt(before: string, e: string, n: nat)
    requires e in {"/health", "/ready", "/live", "/metrics"}
    ensures IsExempt(before + e + Slashes(n))
  {
    assert e[|e| - 1] != '/' && (before + e)[|before + e| - 1] == e[|e| - 1];
    SlashesAreStripped(before + e, n);
    assert EndsWith(before + e, e);
  }

  function Slashes(n: nat): string {
    seq(n, _ => '/')
  }

  lemma {:induction false} StrippedSlashes(path: string) returns (n: nat)
    ensures path == RStripSlashes(path) + Slashes(n)
  {
    if path != "" && path[|path| - 1] == '/' {
      n := StrippedSlashes(path[..|path| - 1]);
      assert Slashes(n + 1) == Slashes(n) + "/";
      n := n + 1;
    } else {
      n := 0;
      assert path + Slashes(0) == path;
    }
  }

  lemma {:induction false} SlashesAreStripped(s: string, n: nat)
    requires s != "" && s[|s| - 1] != '/'
    ensures RStripSlashes(s + Slashes(n)) == s
  {
    if n > 0 {
      assert (s + Slashes(n))[..|s| + n - 1] == s + Slashes(n - 1);
      SlashesAreStripped(s, n - 1);
    } else {
      assert s + Slashes(0) == s;
    }
  }

  /** The middleware's fields; the semaphore is created by the first request that is not exempt. */
  datatype Gate = Gate(max: nat, semaphore: Option<nat>, current: int, rejected: nat)

  function Begun(g: Gate, path: string): (Gate, Decision) {
    if IsExempt(path) then (g, Exempt)
    else
      var value := if g.semaphore.Some? then g.semaphore.value else g.max;
      if value == 0 then (g.(semaphore := Some(0), rejected := g.rejected + 1), Rejected)
      else (g.(semaphore := Some(value - 1), current := g.current + 1), Admitted)
  }

  function Ended(g: Gate): Gate {
    g.(semaphore := if g.semaphore.Some? then Some(g.semaphore.value + 1) else None, current := g.current - 1)
  }

  class Semaphore {
    var value: nat
    constructor (value: nat)
      ensures this.value == value
    {
      this.value := value;
    }
  }

  class AdmissionControlMiddleware {
    const maxConcurrent: nat
    var semaphore: Semaphore?
    var currentRequests: int
    var totalRejected: nat

    ghost function View(): Gate
      reads this, semaphore
    {
      Gate(maxConcurrent, if semaphore == null then None else Some(semaphore.value), currentRequests, totalRejected)
    }

    /** `max_concurrent or SETTINGS...`: zero means the default. */
    constructor (maxConcurrent: Option<nat>, default: nat)
      ensures
        var max := if maxConcurrent.None? || maxConcurrent.value == 0 then default else maxConcurrent.value;
        View() == Gate(max, None, 0, 0)
    {
      this.maxConcurrent := if maxConcurrent.None? || maxConcurrent.value == 0 then default else maxConcurrent.value;
      semaphore, currentRequests, totalRejected := null, 0, 0;
    }

    method GetSemaphore() returns (s: Semaphore)
      modifies this`semaphore
      ensures s == semaphore && (old(semaphore) != null ==> s == old(semaphore))
      ensures old(semaphore) == null ==> fresh(s) && s.value == maxConcurrent
    {
      if semaphore == null {
        semaphore := new Semaphore(maxConcurrent);
      }
      s := semaphore;
    }

    /** dispatch up to call_next: the check and the acquire have no await in between. */
    method Begin(path: string) returns (d: Decision)
      modifies this, semaphore
      ensures (View(), d) == Begun(old(View()), path)
    {
      if IsExempt(path) {
        return Exempt;
      }
      var s := GetSemaphore();
      if s.value == 0 {
        totalRejected := totalRejected + 1;
        return Rejected;
      }
      s.value := s.value - 1;
      currentRequests := currentRequests + 1;
      d := Admitted;
    }

    /** dispatch's finally, for an admitted request: the same whether the handler returned, raised or was cancelled. */
    method End()
      requires semaphore != null
      modifies this`currentRequests, semaphore
      ensures View() == Ended(old(View()))
    {
      currentRequests := currentRequests - 1;
      semaphore.value := semaphore.value + 1;
    }
  }

  // ------------------------------------------------------------------ runs

  datatype Ending = Returns | Raises | Cancelled

  /** Requests are numbered by arrival; a finish names the request and how its handler ended. */
  datatype Event = Arrive(path: string) | Finish(request: nat, how: Ending)

  datatype Traffic = Traffic(
    gate: Gate,
    arrivals: nat,
    exempt: set<nat>,
    admitted: set<nat>,
    rejected: nat,
    finished: nat)

  predicate Enabled(t: Traffic, ev: Event) {
    ev.Finish? ==> ev.request in t.exempt || ev.request in t.admitted
  }

  function Step(t: Traffic, ev: Event): Traffic
    requires Enabled(t, ev)
  {
    match ev
    case Arrive(path) =>
      var (gate, d) := Begun(t.gate, path);
      var t' := t.(gate := gate, arrivals := t.arrivals + 1);
      (match d
       case Exempt => t'.(exempt := t.exempt + {t.arrivals})
       case Rejected => t'.(rejected := t.rejected + 1)
       case Admitted => t'.(admitted := t.admitted + {t.arrivals}))
    case Finish(r, _) =>
      var t' := t.(finished := t.finished + 1);
      if r in t.admitted then t'.(gate := Ended(t.gate), admitted := t.admitted - {r})
      else t'.(exempt := t.exempt - {r})
  }

  predicate Executable(t: Traffic, evs: seq<Event>)
    decreases |evs|
  {
    evs == [] || (Enabled(t, evs[0]) && Executable(Step(t, evs[0]), evs[1..]))
  }

  function Run(t: Traffic, evs: seq<Event>): Traffic
    requires Executable(t, evs)
    decreases |evs|
  {
    if evs == [] then t else Run(Step(t, evs[0]), evs[1..])
  }

  function Fresh(max: nat): Traffic {
    Traffic(Gate(max, None, 0, 0), 0, {}, {}, 0, 0)
  }

  ghost predicate Conserved(t: Traffic) {
    && (t.gate.semaphore.Some? ==> t.gate.semaphore.value + t.gate.current == t.gate.max)
    && (t.gate.semaphore.None? ==> t.admitted == {})
    && t.gate.current == |t.admitted| && |t.admitted| <= t.gate.max
    && t.gate.rejected == t.rejected
    && t.exempt !! t.admitted
    && (forall r :: r in t.exempt || r in t.admitted ==> r < t.arrivals)
    && t.arrivals == t.rejected + t.finished + |t.exempt| + |t.admitted|
  }

  lemma ArrivalIsCounted(t: Traffic, path: string)
    requires Conserved(t)
    ensures Conserved(Step(t, Arrive(path))) && Step(t, Arrive(path)).gate.max == t.gate.max
  {
    var id := t.arrivals;
    assert id !in t.exempt && id !in t.admitted;
    match Begun(t.gate, path).1 {
      case Exempt => assert |t.exempt + {id}| == |t.exempt| + 1;
      case Admitted => assert |t.admitted + {id}| == |t.admitted| + 1;
      case Rejected =>
    }
  }

  lemma FinishIsCounted(t: Traffic, r: nat, how: Ending)
    requires Conserved(t) && Enabled(t, Finish(r, how))
    ensures Conserved(Step(t, Finish(r, how))) && Step(t, Finish(r, how)).gate.max == t.gate.max
  {
    if r in t.admitted {
      assert |t.admitted - {r}| == |t.admitted| - 1;
    } else {
      assert |t.exempt - {r}| == |t.exempt| - 1;
    }
  }

  lemma {:induction false} RunKeepsConserved(t: Traffic, evs: seq<Event>)
    requires Conserved(t) && Executable(t, evs)
    ensures Conserved(Run(t, evs)) && Run(t, evs).gate.max == t.gate.max
    decreases |evs|
  {
    if evs != [] {
      match evs[0] {
        case Arrive(path) => ArrivalIsCounted(t, path);
        case Finish(r, how) => FinishIsCounted(t, r, how);
      }
      RunKeepsConserved(Step(t, evs[0]), evs[1..]);
    }
  }

  /**
    In every reachable state semaphore plus current requests is the maximum, the counter is
    the number of admitted requests whose handler still runs, and every arrival is counted
    once as rejected, finished or in flight, however handlers end.
  */
  lemma NothingIsLost(max: nat, evs: seq<Event>)
    requires Executable(Fresh(max), evs)
    ensures Conserved(Run(Fresh(max), evs)) && Run(Fresh(max), evs).gate.max == max
  {
    RunKeepsConserved(Fresh(max), evs);
  }

  /** A request is rejected if and only if it is not exempt and the maximum number of admitted requests is in flight. */
  lemma RejectedIffFull(max: nat, evs: seq<Event>, path: string)
    requires Executable(Fresh(max), evs)
    ensures
      var t := Run(Fresh(max), evs);
      Begun(t.gate, path).1.Rejected? <==> !IsExempt(path) && |t.admitted| == max
  {
    NothingIsLost(max, evs);
  }
}
