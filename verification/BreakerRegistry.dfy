/**
  The circuit-breaker registry's two double-checked locks, one atomic read, write or lock
  operation at a time: get_instance for the singleton, then get_factory on it; and reset,
  under the first of the locks.  Any number of threads; `Advance(t)` lets thread t take its
  next step.
*/
module BreakerRegistry {
  import opened Wrappers

  datatype Kind = Database | Redis | ExternalApi

  /** Where a thread stands in `get_instance().get_factory(kind)`, or in `reset()`. */
  datatype Pc =
    | Outside
    | CheckInstance(kind: Kind)
    | WantInstanceLock(kind: Kind)
    | RecheckInstance(kind: Kind)
    | ConstructRegistry(kind: Kind)
    | AssignInstance(kind: Kind, made: nat)
    | ReleaseInstanceLock(kind: Kind)
    | ReadInstance(kind: Kind)
    | CheckFactory(kind: Kind, reg: nat)
    | WantLock(kind: Kind, reg: nat)
    | RecheckFactory(kind: Kind, reg: nat)
    | AssignFactory(kind: Kind, reg: nat, fac: nat)
    | ReleaseLock(kind: Kind, reg: nat)
    | ReadFactory(kind: Kind, reg: nat)
    | Returned(kind: Kind, reg: nat, fac: nat)
    | Failed
    | WantResetLock
    | ResetCheck
    | ResetClear
    | ResetForget
    | ResetRelease
  {
    predicate HoldsInstanceLock() {
      RecheckInstance? || ConstructRegistry? || AssignInstance? || ReleaseInstanceLock? || HoldsResetLock()
    }
    predicate HoldsResetLock() { ResetCheck? || ResetClear? || ResetForget? || ResetRelease? }
    predicate Resets() { WantResetLock? || HoldsResetLock() }
    predicate HoldsLockOf(r: nat) { (RecheckFactory? || AssignFactory? || ReleaseLock?) && reg == r }
    predicate HasRegistry() {
      CheckFactory? || WantLock? || RecheckFactory? || AssignFactory? || ReleaseLock? || ReadFactory? || Returned?
    }
    predicate Busy() { !Outside? && !Returned? && !Failed? }
  }

  datatype Registry = Registry(factories: map<Kind, nat>, lock: Option<nat>)

  /**
    Registries are numbered as they are constructed; `made` logs for which registry and kind
    each factory was constructed.
  */
  datatype State = State(
    instance: Option<nat>,
    instanceLock: Option<nat>,
    registries: seq<Registry>,
    made: seq<(nat, Kind)>,
    pcs: map<nat, Pc>)
  {
    function At(t: nat): Pc {
      if t in pcs then pcs[t] else Outside
    }
  }

  datatype Event = Call(t: nat, kind: Kind) | CallReset(t: nat) | Advance(t: nat)

  const START := State(None, None, [], [], map[])

  predicate RegistryExists(s: State, pc: Pc) {
    (pc.HasRegistry() && !pc.Returned?) ==> pc.reg < |s.registries|
  }

  predicate Enabled(s: State, ev: Event) {
    match ev
    case Call(t, _) => s.At(t).Outside? || s.At(t).Returned?
    case CallReset(t) => s.At(t).Outside? || s.At(t).Returned?
    case Advance(t) =>
      && s.At(t).Busy()
      && RegistryExists(s, s.At(t))
      && (s.At(t).WantInstanceLock? || s.At(t).WantResetLock? ==> s.instanceLock.None?)
      && (s.At(t).ResetClear? ==> s.instance.Some? && s.instance.value < |s.registries|)
      && (s.At(t).WantLock? ==> s.registries[s.At(t).reg].lock.None?)
  }

  function Goto(s: State, t: nat, pc: Pc): State {
    s.(pcs := s.pcs[t := pc])
  }

  function WithRegistry(s: State, r: nat, reg: Registry): State
    requires r < |s.registries|
  {
    s.(registries := s.registries[r := reg])
  }

  function Step(s: State, ev: Event): State
    requires Enabled(s, ev)
  {
    match ev
    case Call(t, kind) => Goto(s, t, CheckInstance(kind))
    case CallReset(t) => Goto(s, t, WantResetLock)
    case Advance(t) =>
      if s.At(t).HasRegistry() then InGetFactory(s, t)
      else if s.At(t).Resets() then InReset(s, t)
      else InGetInstance(s, t)
  }

  function InGetInstance(s: State, t: nat): State {
    match s.At(t)
    case CheckInstance(k) => Goto(s, t, if s.instance.None? then WantInstanceLock(k) else ReadInstance(k))
    case WantInstanceLock(k) => Goto(s.(instanceLock := Some(t)), t, RecheckInstance(k))
    case RecheckInstance(k) => Goto(s, t, if s.instance.None? then ConstructRegistry(k) else ReleaseInstanceLock(k))
    case ConstructRegistry(k) =>
      Goto(s.(registries := s.registries + [Registry(map[], None)]), t, AssignInstance(k, |s.registries|))
    case AssignInstance(k, r) => Goto(s.(instance := Some(r)), t, ReleaseInstanceLock(k))
    case ReleaseInstanceLock(k) => Goto(s.(instanceLock := None), t, ReadInstance(k))
    case ReadInstance(k) => Goto(s, t, if s.instance.Some? then CheckFactory(k, s.instance.value) else Failed)
    case _ => s
  }

  function InGetFactory(s: State, t: nat): State
    requires RegistryExists(s, s.At(t))
  {
    match s.At(t)
    case CheckFactory(k, r) =>
      Goto(s, t, if k in s.registries[r].factories then ReadFactory(k, r) else WantLock(k, r))
    case WantLock(k, r) => Goto(WithRegistry(s, r, s.registries[r].(lock := Some(t))), t, RecheckFactory(k, r))
    case RecheckFactory(k, r) =>
      if k in s.registries[r].factories then Goto(s, t, ReleaseLock(k, r))
      else Goto(s.(made := s.made + [(r, k)]), t, AssignFactory(k, r, |s.made|))
    case AssignFactory(k, r, f) =>
      var reg := s.registries[r];
      Goto(WithRegistry(s, r, reg.(factories := reg.factories[k := f])), t, ReleaseLock(k, r))
    case ReleaseLock(k, r) => Goto(WithRegistry(s, r, s.registries[r].(lock := None)), t, ReadFactory(k, r))
    case ReadFactory(k, r) =>
      var reg := s.registries[r];
      Goto(s, t, if k in reg.factories then Returned(k, r, reg.factories[k]) else Failed)
    case _ => s
  }

  function InReset(s: State, t: nat): State
    requires s.At(t).ResetClear? ==> s.instance.Some? && s.instance.value < |s.registries|
  {
    match s.At(t)
    case WantResetLock => Goto(s.(instanceLock := Some(t)), t, ResetCheck)
    case ResetCheck => Goto(s, t, if s.instance.None? then ResetForget else ResetClear)
    case ResetClear =>
      var r := s.instance.value;
      Goto(WithRegistry(s, r, s.registries[r].(factories := map[])), t, ResetForget)
    case ResetForget => Goto(s.(instance := None), t, ResetRelease)
    case ResetRelease => Goto(s.(instanceLock := None), t, Outside)
    case _ => s
  }

  predicate Executable(s: State, evs: seq<Event>)
    decreases |evs|
  {
    evs == [] || (Enabled(s, evs[0]) && Executable(Step(s, evs[0]), evs[1..]))
  }

  function Run(s: State, evs: seq<Event>): State
    requires Executable(s, evs)
    decreases |evs|
  {
    if evs == [] then s else Run(Step(s, evs[0]), evs[1..])
  }

  // ------------------------------------------------------------------ the invariant, without resets

  predicate NoResets(evs: seq<Event>) {
    forall i :: 0 <= i < |evs| ==> !evs[i].CallReset?
  }

  /** What each thread may rely on where it stands. */
  predicate ThreadOk(s: State, t: nat) {
    var pc := s.At(t);
    && (pc.HoldsInstanceLock() <==> s.instanceLock == Some(t))
    && (pc.ConstructRegistry? ==> s.registries == [])
    && (pc.AssignInstance? ==> s.instance.None? && pc.made == 0 && |s.registries| == 1)
    && (pc.ReleaseInstanceLock? || pc.ReadInstance? || pc.HasRegistry() ==> s.instance.Some?)
    && (pc.HasRegistry() ==> pc.reg == 0)
    && (s.registries != [] ==> (pc.HoldsLockOf(0) <==> s.registries[0].lock == Some(t)))
    && (pc.AssignFactory? && s.registries != [] ==>
          pc.kind !in s.registries[0].factories && pc.fac < |s.made| && s.made[pc.fac].1 == pc.kind)
    && ((pc.ReleaseLock? || pc.ReadFactory? || pc.Returned?) && s.registries != [] ==>
          pc.kind in s.registries[0].factories)
    && (pc.Returned? && s.registries != [] && pc.kind in s.registries[0].factories ==>
          s.registries[0].factories[pc.kind] == pc.fac)
    && !pc.Failed? && !pc.Resets()
  }

  /** At most one registry; while it is constructed but not assigned, the thread at AssignInstance holds the lock. */
  predicate SingletonOk(s: State) {
    && |s.registries| <= 1
    && (s.instance.Some? ==> s.instance == Some(0) && |s.registries| == 1)
    && (s.instance.None? && s.registries != [] ==> s.instanceLock.Some? && s.At(s.instanceLock.value).AssignInstance?)
  }

  /**
    Each factory ever made belongs to the one registry, to a kind of its own, and is in its
    table or about to be put there.
  */
  predicate FactoriesOk(s: State) {
    && (s.made != [] ==> s.registries != [])
    && (forall i :: 0 <= i < |s.made| ==> FactoryPlaced(s, i))
    && (forall i, j :: 0 <= i < j < |s.made| ==> s.made[i].1 != s.made[j].1)
    && (s.registries != [] ==> forall k :: k in s.registries[0].factories ==>
          s.registries[0].factories[k] < |s.made| && s.made[s.registries[0].factories[k]].1 == k)
  }

  predicate FactoryPlaced(s: State, i: nat)
    requires i < |s.made| && s.registries != []
  {
    var (r, k) := s.made[i];
    var reg := s.registries[0];
    && r == 0
    && (|| (k in reg.factories && reg.factories[k] == i)
        || (reg.lock.Some? && s.At(reg.lock.value) == AssignFactory(k, 0, i)))
  }

  ghost predicate Inv(s: State) {
    SingletonOk(s) && FactoriesOk(s) && forall t: nat :: ThreadOk(s, t)
  }

  /** The thread that moves: at the call, in get_instance and in get_factory. */
  lemma CallerIsOk(s: State, t: nat, kind: Kind)
    requires SingletonOk(s) && ThreadOk(s, t) && Enabled(s, Call(t, kind))
    ensures ThreadOk(Step(s, Call(t, kind)), t)
  {
  }

  lemma MoverInGetInstance(s: State, t: nat)
    requires SingletonOk(s) && ThreadOk(s, t) && Enabled(s, Advance(t)) && !s.At(t).HasRegistry()
    requires s.instanceLock.Some? ==> ThreadOk(s, s.instanceLock.value)
    requires s.registries != [] && s.registries[0].lock.Some? ==> ThreadOk(s, s.registries[0].lock.value)
    ensures ThreadOk(InGetInstance(s, t), t)
  {
  }

  lemma MoverInGetFactory(s: State, t: nat)
    requires SingletonOk(s) && FactoriesOk(s) && ThreadOk(s, t)
    requires Enabled(s, Advance(t)) && s.At(t).HasRegistry()
    ensures ThreadOk(InGetFactory(s, t), t)
  {
  }

  /** Everybody else: the locks keep the mover's writes away from what they rely on. */
  lemma Bystander(s: State, ev: Event, t: nat)
    requires SingletonOk(s) && ThreadOk(s, ev.t) && ThreadOk(s, t) && Enabled(s, ev) && !ev.CallReset? && t != ev.t
    requires s.instanceLock.Some? ==> ThreadOk(s, s.instanceLock.value)
    ensures ThreadOk(Step(s, ev), t)
  {
    assert Step(s, ev).At(t) == s.At(t);
  }

  lemma StepKeepsThreads(s: State, ev: Event, t: nat)
    requires Inv(s) && Enabled(s, ev) && !ev.CallReset?
    ensures ThreadOk(Step(s, ev), t)
  {
    assert ThreadOk(s, t) && ThreadOk(s, ev.t);
    if t != ev.t {
      Bystander(s, ev, t);
    } else if ev.Call? {
      CallerIsOk(s, t, ev.kind);
    } else if s.At(t).HasRegistry() {
      MoverInGetFactory(s, t);
    } else {
      MoverInGetInstance(s, t);
    }
  }

  lemma StepKeepsSingleton(s: State, ev: Event)
    requires Inv(s) && Enabled(s, ev) && !ev.CallReset?
    ensures SingletonOk(Step(s, ev))
  {
    assert ThreadOk(s, ev.t);
    if s.instanceLock.Some? {
      assert ThreadOk(s, s.instanceLock.value);
    }
  }

  /** A factory that is in its table stays there, and one that is about to be put there is or still is. */
  lemma FactoryStaysPlaced(s: State, ev: Event, i: nat)
    requires SingletonOk(s) && i < |s.made| && s.registries != [] && FactoryPlaced(s, i)
    requires ThreadOk(s, ev.t) && Enabled(s, ev)
    requires s.registries[0].lock.Some? ==> ThreadOk(s, s.registries[0].lock.value)
    ensures Step(s, ev).registries != [] && Step(s, ev).made[i] == s.made[i] && FactoryPlaced(Step(s, ev), i)
  {
  }

  /** A factory is made under the lock, when its kind is not in the table and nobody else is about to put it there. */
  lemma NewFactoryIsTheFirst(s: State, ev: Event, j: nat)
    requires SingletonOk(s) && j < |s.made| && s.registries != [] && FactoryPlaced(s, j)
    requires ThreadOk(s, ev.t) && Enabled(s, ev) && |Step(s, ev).made| > |s.made|
    ensures Step(s, ev).made[|s.made|].1 != s.made[j].1
  {
  }

  lemma NewFactoryIsPlaced(s: State, ev: Event)
    requires SingletonOk(s) && ThreadOk(s, ev.t) && Enabled(s, ev) && |Step(s, ev).made| > |s.made|
    ensures s.registries != [] && |Step(s, ev).made| == |s.made| + 1 && FactoryPlaced(Step(s, ev), |s.made|)
  {
  }

  /** The table only gains the entry of a factory made for that kind. */
  lemma TableStaysRight(s: State, ev: Event)
    requires SingletonOk(s) && FactoriesOk(s) && ThreadOk(s, ev.t) && Enabled(s, ev)
    ensures
      var s' := Step(s, ev);
      s'.registries != [] ==> forall k :: k in s'.registries[0].factories ==>
        s'.registries[0].factories[k] < |s'.made| && s'.made[s'.registries[0].factories[k]].1 == k
  {
  }

  lemma StepKeepsFactories(s: State, ev: Event)
    requires Inv(s) && Enabled(s, ev) && !ev.CallReset?
    ensures FactoriesOk(Step(s, ev))
  {
    assert ThreadOk(s, ev.t);
    TableStaysRight(s, ev);
    var s' := Step(s, ev);
    assert |s'.made| >= |s.made|;
    if |s'.made| > |s.made| { NewFactoryIsPlaced(s, ev); }
    if s.registries != [] && s.registries[0].lock.Some? {
      assert ThreadOk(s, s.registries[0].lock.value);
    }
    forall i | 0 <= i < |s.made|
      ensures s'.registries != [] && s'.made[i] == s.made[i] && FactoryPlaced(s', i)
      ensures |s'.made| > |s.made| ==> s'.made[|s.made|].1 != s.made[i].1
    {
      FactoryStaysPlaced(s, ev, i);
      if |s'.made| > |s.made| { NewFactoryIsTheFirst(s, ev, i); }
    }
  }

  lemma {:induction false} InvariantHolds(s: State, evs: seq<Event>)
    requires Inv(s) && Executable(s, evs) && NoResets(evs)
    ensures Inv(Run(s, evs))
    decreases |evs|
  {
    if evs != [] {
      var s' := Step(s, evs[0]);
      StepKeepsSingleton(s, evs[0]);
      StepKeepsFactories(s, evs[0]);
      forall t: nat ensures ThreadOk(s', t) { StepKeepsThreads(s, evs[0], t); }
      InvariantHolds(s', evs[1..]);
    }
  }

  // ------------------------------------------------------------------ what it gives

  /**
    Over all interleavings of any number of threads that do not reset: at most one registry and
    at most one factory per kind is ever constructed, every call of a kind returns that factory of that
    registry, and no unlocked read finds nothing.
  */
  lemma OneRegistryOneFactoryPerKind(evs: seq<Event>)
    requires Executable(START, evs) && NoResets(evs)
    ensures
      var s := Run(START, evs);
      && |s.registries| <= 1
      && (forall i, j :: 0 <= i < |s.made| && 0 <= j < |s.made| && s.made[i].1 == s.made[j].1 ==> i == j)
      && (forall t: nat, u: nat ::
            s.At(t).Returned? && s.At(u).Returned? && s.At(t).kind == s.At(u).kind ==> s.At(t) == s.At(u))
      && (forall t: nat :: s.At(t).Returned? ==>
            && s.instance == Some(s.At(t).reg)
            && s.At(t).fac < |s.made| && s.made[s.At(t).fac] == (s.At(t).reg, s.At(t).kind))
      && (forall t: nat :: !s.At(t).Failed?)
  {
    InvariantHolds(START, evs);
    var s := Run(START, evs);
    forall t: nat | s.At(t).Returned?
      ensures s.At(t).reg == 0 && s.instance == Some(0)
      ensures s.At(t).fac < |s.made| && s.made[s.At(t).fac] == (0, s.At(t).kind)
      ensures s.At(t).kind in s.registries[0].factories && s.registries[0].factories[s.At(t).kind] == s.At(t).fac
    {
      assert ThreadOk(s, t);
      assert FactoryPlaced(s, s.registries[0].factories[s.At(t).kind]);
    }
    forall t: nat ensures !s.At(t).Failed? { assert ThreadOk(s, t); }
  }

  // ------------------------------------------------------------------ what a call gets, resets or not

  predicate HasKind(pc: Pc) {
    !pc.Outside? && !pc.Failed? && !pc.Resets()
  }

  /** The kind a thread asked for in its last call, `asked` before the run. */
  function LastAsked(evs: seq<Event>, t: nat, asked: Option<Kind>): Option<Kind> {
    if evs == [] then asked
    else LastAsked(evs[1..], t, if evs[0].Call? && evs[0].t == t then Some(evs[0].kind) else asked)
  }

  lemma {:induction false} ThreadsKeepTheirKind(s: State, evs: seq<Event>, t: nat, asked: Option<Kind>)
    requires Executable(s, evs) && (HasKind(s.At(t)) ==> asked == Some(s.At(t).kind))
    ensures HasKind(Run(s, evs).At(t)) ==> LastAsked(evs, t, asked) == Some(Run(s, evs).At(t).kind)
    decreases |evs|
  {
    if evs != [] {
      var s', ev := Step(s, evs[0]), evs[0];
      StepKeepsKind(s, ev, t);
      ThreadsKeepTheirKind(s', evs[1..], t, if ev.Call? && ev.t == t then Some(ev.kind) else asked);
    }
  }

  lemma StepKeepsKind(s: State, ev: Event, t: nat)
    requires Enabled(s, ev)
    ensures HasKind(Step(s, ev).At(t)) ==>
              if ev.Call? && ev.t == t then Step(s, ev).At(t).kind == ev.kind
              else HasKind(s.At(t)) && Step(s, ev).At(t).kind == s.At(t).kind
  {
  }

  /** Every factory in a table, about to be put there, or returned was made by that registry for that kind. */
  predicate MadeFor(s: State, fac: nat, r: nat, k: Kind) {
    fac < |s.made| && s.made[fac] == (r, k)
  }

  predicate TablesRight(s: State) {
    forall r, k :: 0 <= r < |s.registries| && k in s.registries[r].factories ==>
      MadeFor(s, s.registries[r].factories[k], r, k)
  }

  predicate HandsRight(s: State, t: nat) {
    var pc := s.At(t);
    pc.AssignFactory? || pc.Returned? ==> MadeFor(s, pc.fac, pc.reg, pc.kind)
  }

  lemma StepKeepsTablesRight(s: State, ev: Event)
    requires TablesRight(s) && HandsRight(s, ev.t) && Enabled(s, ev)
    ensures TablesRight(Step(s, ev))
  {
    if ev.Advance? && s.At(ev.t).HasRegistry() {
      FactoryStepKeepsTables(s, ev.t);
    }
  }

  lemma FactoryStepKeepsTables(s: State, t: nat)
    requires TablesRight(s) && HandsRight(s, t) && Enabled(s, Advance(t)) && s.At(t).HasRegistry()
    ensures TablesRight(InGetFactory(s, t))
  {
  }

  lemma StepKeepsHandsRight(s: State, ev: Event, t: nat)
    requires TablesRight(s) && HandsRight(s, t) && Enabled(s, ev)
    ensures HandsRight(Step(s, ev), t)
  {
  }

  lemma {:induction false} FactoriesAreRight(s: State, evs: seq<Event>, t: nat)
    requires Executable(s, evs) && TablesRight(s) && forall u: nat :: HandsRight(s, u)
    ensures HandsRight(Run(s, evs), t)
    decreases |evs|
  {
    if evs != [] {
      StepKeepsTablesRight(s, evs[0]);
      forall u: nat ensures HandsRight(Step(s, evs[0]), u) { StepKeepsHandsRight(s, evs[0], u); }
      FactoriesAreRight(Step(s, evs[0]), evs[1..], t);
    }
  }

  /**
    A call gets what it asked for, over every run, resets or not: a factory that was made
    for the kind of that call.
  */
  lemma CallsGetWhatTheyAskedFor(evs: seq<Event>, t: nat)
    requires Executable(START, evs) && Run(START, evs).At(t).Returned?
    ensures
      var s := Run(START, evs);
      && LastAsked(evs, t, None) == Some(s.At(t).kind)
      && MadeFor(s, s.At(t).fac, s.At(t).reg, s.At(t).kind)
  {
    ThreadsKeepTheirKind(START, evs, t, None);
    FactoriesAreRight(START, evs, t);
  }

  // ------------------------------------------------------------------ with resets

  /** What holds of a thread in every run, whatever is reset when. */
  predicate Sound(s: State, t: nat) {
    var pc := s.At(t);
    && (pc.HoldsInstanceLock() <==> s.instanceLock == Some(t))
    && (pc.HasRegistry() ==> pc.reg < |s.registries|)
    && (forall r :: 0 <= r < |s.registries| ==> (pc.HoldsLockOf(r) <==> s.registries[r].lock == Some(t)))
    && (pc.AssignInstance? ==> pc.made < |s.registries|)
    && (pc.ReleaseInstanceLock? || pc.ResetClear? ==> s.instance.Some?)
  }

  ghost predicate AllSound(s: State) {
    InstanceExists(s) && forall t: nat :: Sound(s, t)
  }

  predicate InstanceExists(s: State) {
    s.instance.Some? ==> s.instance.value < |s.registries|
  }

  lemma CallerStaysSound(s: State, ev: Event)
    requires Sound(s, ev.t) && Enabled(s, ev) && !ev.Advance? && InstanceExists(s)
    ensures Sound(Step(s, ev), ev.t) && InstanceExists(Step(s, ev))
  {
  }

  lemma SoundInGetInstance(s: State, t: nat)
    requires Sound(s, t) && Enabled(s, Advance(t)) && !s.At(t).HasRegistry() && !s.At(t).Resets() && InstanceExists(s)
    requires s.instanceLock.Some? ==> Sound(s, s.instanceLock.value)
    ensures Sound(InGetInstance(s, t), t) && InstanceExists(InGetInstance(s, t))
  {
  }

  lemma SoundInGetFactory(s: State, t: nat)
    requires Sound(s, t) && Enabled(s, Advance(t)) && s.At(t).HasRegistry() && InstanceExists(s)
    ensures Sound(InGetFactory(s, t), t) && InstanceExists(InGetFactory(s, t))
  {
  }

  lemma SoundInReset(s: State, t: nat)
    requires Sound(s, t) && Enabled(s, Advance(t)) && s.At(t).Resets() && InstanceExists(s)
    ensures Sound(InReset(s, t), t) && InstanceExists(InReset(s, t))
  {
  }

  lemma BystanderStaysSound(s: State, ev: Event, t: nat)
    requires Sound(s, t) && Sound(s, ev.t) && Enabled(s, ev) && t != ev.t
    ensures Sound(Step(s, ev), t)
  {
    assert Step(s, ev).At(t) == s.At(t);
  }

  lemma {:induction false} EveryStateIsSound(s: State, evs: seq<Event>)
    requires AllSound(s) && Executable(s, evs)
    ensures AllSound(Run(s, evs))
    decreases |evs|
  {
    if evs != [] {
      StepKeepsSound(s, evs[0]);
      EveryStateIsSound(Step(s, evs[0]), evs[1..]);
    }
  }

  lemma StepKeepsSound(s: State, ev: Event)
    requires AllSound(s) && Enabled(s, ev)
    ensures AllSound(Step(s, ev))
  {
    assert Sound(s, ev.t);
    if !ev.Advance? {
      CallerStaysSound(s, ev);
    } else if s.At(ev.t).HasRegistry() {
      SoundInGetFactory(s, ev.t);
    } else if s.At(ev.t).Resets() {
      SoundInReset(s, ev.t);
    } else {
      SoundInGetInstance(s, ev.t);
    }
    forall t: nat
      ensures Sound(Step(s, ev), t)
    {
      if t != ev.t { BystanderStaysSound(s, ev, t); }
    }
  }

  /** Nobody waits for ever, resets or not: as long as some call has not returned, some thread can take a step. */
  lemma NoDeadlock(evs: seq<Event>, t: nat)
    requires Executable(START, evs) && Run(START, evs).At(t).Busy()
    ensures exists u: nat :: Enabled(Run(START, evs), Advance(u))
  {
    EveryStateIsSound(START, evs);
    var s := Run(START, evs);
    assert Sound(s, t);
    if (s.At(t).WantInstanceLock? || s.At(t).WantResetLock?) && s.instanceLock.Some? {
      assert Sound(s, s.instanceLock.value);
      assert Enabled(s, Advance(s.instanceLock.value));
    } else if s.At(t).WantLock? && s.registries[s.At(t).reg].lock.Some? {
      assert Sound(s, s.registries[s.At(t).reg].lock.value);
      assert Enabled(s, Advance(s.registries[s.At(t).reg].lock.value));
    } else {
      assert Enabled(s, Advance(t));
    }
  }

  /** The thread has not failed, and the unlocked read it is about to make will find something. */
  predicate Ready(s: State, t: nat) {
    var pc := s.At(t);
    && !pc.Failed?
    && (pc.ReadInstance? ==> s.instance.Some?)
    && ((pc.ReleaseLock? || pc.ReadFactory?) && pc.reg < |s.registries| ==> pc.kind in s.registries[pc.reg].factories)
  }

  ghost predicate AllReady(s: State) {
    forall t: nat :: Ready(s, t)
  }

  /**
    This event is a step of a reset that takes away what thread t is about to read: the table
    is cleared while t is at ReleaseLock or ReadFactory of that registry, or the singleton is
    forgotten while t is at ReadInstance.
  */
  predicate Strikes(s: State, ev: Event, t: nat) {
    && ev.Advance?
    && if s.At(t).ReadInstance? then s.At(ev.t).ResetForget?
       else
         && (s.At(t).ReleaseLock? || s.At(t).ReadFactory?)
         && s.At(ev.t).ResetClear? && s.instance == Some(s.At(t).reg)
  }

  /** Exact: an event takes a thread's read away if and only if it is such a step. */
  lemma StrikesIff(s: State, ev: Event, t: nat)
    requires AllSound(s) && AllReady(s) && Enabled(s, ev)
    ensures !Ready(Step(s, ev), t) <==> Strikes(s, ev, t)
  {
    assert Sound(s, t) && Sound(s, ev.t) && Ready(s, t) && Ready(s, ev.t);
    if t == ev.t {
      MoverIsReady(s, ev);
    } else {
      BystanderIsReadyIff(s, ev, t);
    }
  }

  lemma MoverIsReady(s: State, ev: Event)
    requires Sound(s, ev.t) && Ready(s, ev.t) && Enabled(s, ev)
    requires InstanceExists(s)
    ensures Ready(Step(s, ev), ev.t)
  {
  }

  lemma BystanderIsReadyIff(s: State, ev: Event, t: nat)
    requires Sound(s, ev.t) && Sound(s, t) && Ready(s, t) && Enabled(s, ev) && t != ev.t && InstanceExists(s)
    ensures !Ready(Step(s, ev), t) <==> Strikes(s, ev, t)
  {
    assert Step(s, ev).At(t) == s.At(t);
    if ev.Advance? {
      if s.At(ev.t).HasRegistry() {
        FactoryStepsSpareReaders(s, ev.t, t);
      } else if s.At(ev.t).Resets() {
        ResetStepsStrikeIff(s, ev.t, t);
      } else {
        InstanceStepsSpareReaders(s, ev.t, t);
      }
    }
  }

  lemma InstanceStepsSpareReaders(s: State, u: nat, t: nat)
    requires Sound(s, t) && Ready(s, t) && t != u && !s.At(u).HasRegistry() && !s.At(u).Resets()
    ensures Ready(InGetInstance(s, u), t)
  {
    assert InGetInstance(s, u).At(t) == s.At(t);
  }

  lemma FactoryStepsSpareReaders(s: State, u: nat, t: nat)
    requires Sound(s, t) && Ready(s, t) && t != u && Enabled(s, Advance(u)) && s.At(u).HasRegistry()
    ensures Ready(InGetFactory(s, u), t)
  {
    assert InGetFactory(s, u).At(t) == s.At(t);
  }

  lemma ResetStepsStrikeIff(s: State, u: nat, t: nat)
    requires Sound(s, u) && Sound(s, t) && Ready(s, t) && t != u && Enabled(s, Advance(u)) && s.At(u).Resets()
    requires InstanceExists(s)
    ensures !Ready(InReset(s, u), t) <==> Strikes(s, Advance(u), t)
  {
    assert InReset(s, u).At(t) == s.At(t);
  }

  /** No reset step of the run takes a read away. */
  ghost predicate Unstruck(s: State, evs: seq<Event>)
    requires Executable(s, evs)
    decreases |evs|
  {
    evs == [] || ((forall t: nat :: !Strikes(s, evs[0], t)) && Unstruck(Step(s, evs[0]), evs[1..]))
  }

  lemma {:induction false} UnstruckStaysReady(s: State, evs: seq<Event>)
    requires AllSound(s) && AllReady(s) && Executable(s, evs) && Unstruck(s, evs)
    ensures AllReady(Run(s, evs))
    decreases |evs|
  {
    if evs != [] {
      StepKeepsSound(s, evs[0]);
      forall t: nat
        ensures Ready(Step(s, evs[0]), t)
      {
        StrikesIff(s, evs[0], t);
      }
      UnstruckStaysReady(Step(s, evs[0]), evs[1..]);
    }
  }

  /** With any number of resets, as long as none strikes a reader no unlocked read ever finds nothing. */
  lemma NobodyFailsUnstruck(evs: seq<Event>, t: nat)
    requires Executable(START, evs) && Unstruck(START, evs)
    ensures !Run(START, evs).At(t).Failed?
  {
    UnstruckStaysReady(START, evs);
    assert Ready(Run(START, evs), t);
  }

  /** The thread's next steps on its own: one read, after the release of the lock if it still holds it. */
  function OwnSteps(s: State, t: nat): seq<Event> {
    if s.At(t).ReleaseLock? then [Advance(t)] + [Advance(t)] else [Advance(t)]
  }

  /** A struck thread that moves next fails. */
  lemma StruckThreadFails(s: State, t: nat)
    requires AllSound(s) && !Ready(s, t) && !s.At(t).Failed?
    ensures Executable(s, OwnSteps(s, t)) && Unstruck(s, OwnSteps(s, t)) && Run(s, OwnSteps(s, t)).At(t).Failed?
  {
    assert Sound(s, t);
    var s1 := Step(s, Advance(t));
    assert [Advance(t)][1..] == [];
    if s.At(t).ReleaseLock? {
      assert OwnSteps(s, t)[1..] == [Advance(t)];
      var s2 := Step(s1, Advance(t));
      assert s2.At(t).Failed?;
      assert Run(s1, [Advance(t)]) == Run(s2, []) == s2;
      assert Run(s, OwnSteps(s, t)) == Run(s1, [Advance(t)]);
    } else {
      assert s1.At(t).Failed?;
      assert Run(s, OwnSteps(s, t)) == Run(s1, []) == s1;
    }
  }

  ghost predicate SomebodyCanFail(s: State) {
    exists evs: seq<Event>, t: nat :: Executable(s, evs) && Unstruck(s, evs) && Run(s, evs).At(t).Failed?
  }

  /**
    A reset step makes a failure possible if and only if it strikes somebody: otherwise no
    continuation, unless another reset strikes, has a read that finds nothing.
  */
  lemma ResetBreaksTheUnlockedReadsIff(s: State, ev: Event)
    requires AllSound(s) && AllReady(s) && Enabled(s, ev)
    ensures SomebodyCanFail(Step(s, ev)) <==> exists t: nat :: Strikes(s, ev, t)
  {
    var s' := Step(s, ev);
    StepKeepsSound(s, ev);
    if t: nat :| Strikes(s, ev, t) {
      StrikesIff(s, ev, t);
      assert s'.At(t) == s.At(t) && Ready(s, t);
      StruckThreadFails(s', t);
    } else {
      forall t: nat ensures Ready(s', t) { StrikesIff(s, ev, t); }
      forall evs: seq<Event>, t: nat | Executable(s', evs) && Unstruck(s', evs)
        ensures !Run(s', evs).At(t).Failed?
      {
        UnstruckStaysReady(s', evs);
        assert Ready(Run(s', evs), t);
      }
    }
  }

  /** A reset that nobody interrupts: the table is cleared and the singleton forgotten. */
  function Reset(s: State, u: nat): State
    requires InstanceExists(s)
  {
    var cleared := match s.instance
      case None => s
      case Some(r) => WithRegistry(s, r, s.registries[r].(factories := map[]));
    Goto(cleared.(instance := None), u, Outside)
  }

  /** The steps after the lock is taken: check, clear if there is anything to clear, forget, release. */
  lemma ResetIsItsSteps(s: State, u: nat)
    requires InstanceExists(s) && s.At(u).ResetCheck?
    ensures
      var checked := InReset(s, u);
      var cleared := if s.instance.Some? then InReset(checked, u) else checked;
      InReset(InReset(cleared, u), u) == Reset(s, u).(instanceLock := None)
  {
    var checked := InReset(s, u);
    var cleared := if s.instance.Some? then InReset(checked, u) else checked;
    assert cleared.At(u) == ResetForget && cleared.pcs == s.pcs[u := ResetForget];
    var forgotten := InReset(cleared, u);
    assert forgotten.pcs == s.pcs[u := ResetRelease];
    assert InReset(forgotten, u).pcs == s.pcs[u := Outside];
  }

  /** Between a thread's last check and the unlocked read that relies on it. */
  predicate InWindow(pc: Pc) {
    pc.ReadInstance? || pc.ReleaseLock? || pc.ReadFactory?
  }

  /**
    The first reset of a run, uninterrupted, leaves some thread with nothing to read if and
    only if one stands in that window.
  */
  lemma FirstResetBreaksIff(s: State, u: nat, t: nat)
    requires Inv(s) && Enabled(s, CallReset(u))
    ensures !Ready(Reset(s, u), t) <==> InWindow(s.At(t))
  {
    assert ThreadOk(s, t) && ThreadOk(s, u);
    assert Reset(s, u).At(t) == if t == u then Outside else s.At(t);
  }
}
