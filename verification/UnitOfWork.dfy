/**
  The unit of work: who opens, commits and closes a session.  The database is the list of
  committed rows, a session holds the rows written but not committed, and closing a
  session discards them.

  __aexit__ imports an exception class that does not exist before it looks at the
  exception, so an exceptional exit raises there: it never reaches the explicit rollback,
  never records a timeout, and what undoes the writes is the close in `finally`.
*/
module UnitsOfWork {
  type Row = string

  datatype RollbackOutcome = RolledBack | RollbackTimesOut | RollbackErrors

  /** What the driver answers to a commit. */
  datatype CommitOutcome = Succeeds | Fails(rollback: RollbackOutcome) | CommitTimesOut

  /** Committed rows, and rows written on the session since. */
  datatype Db = Db(rows: seq<Row>, pending: seq<Row>)

  function Committed(d: Db, outcome: CommitOutcome): Db {
    match outcome
    case Succeeds => Db(d.rows + d.pending, [])
    case Fails(r) => if r.RolledBack? then Db(d.rows, []) else d
    case CommitTimesOut => d
  }

  function RollenBack(d: Db, outcome: RollbackOutcome): Db {
    if outcome.RolledBack? then Db(d.rows, []) else d
  }

  // ------------------------------------------------------------------ programs

  /** How an inner unit gets its parent's session: configure_for_shared_session, or as a constructor argument. */
  datatype Sharing = Configured | ByConstructor(autoCommit: bool)

  /** The body of an `async with` block.  `exit` is what the driver answers if the inner unit's exit commits. */
  datatype Block =
    | Done
    | Raise
    | Write(row: Row, rest: Block)
    | Commit(outcome: CommitOutcome, rest: Block)
    | Rollback(dropped: RollbackOutcome, rest: Block)
    | SetAutoCommit(on: bool, rest: Block)
    | Nested(inner: Block, sharing: Sharing, exit: CommitOutcome, caught: bool, rest: Block)

  /** The state a body leaves, whether it leaves by an exception, and its unit's auto_commit. */
  datatype Ending = Ending(db: Db, raised: bool, autoCommit: bool)

  function Eval(b: Block, d: Db, auto: bool): Ending
    decreases b, 0
  {
    match b
    case Done => Ending(d, false, auto)
    case Raise => Ending(d, true, auto)
    case Write(row, rest) => Eval(rest, d.(pending := d.pending + [row]), auto)
    case Commit(outcome, rest) =>
      if outcome.Succeeds? then Eval(rest, Committed(d, outcome), auto) else Ending(Committed(d, outcome), true, auto)
    case Rollback(outcome, rest) => Eval(rest, RollenBack(d, outcome), auto)
    case SetAutoCommit(on, rest) => Eval(rest, d, on)
    case Nested(inner, sharing, exit, caught, rest) =>
      var (d', raised) := EvalUnit(inner, sharing, exit, d);
      if raised && !caught then Ending(d', true, auto) else Eval(rest, d', auto)
  }

  /** Leaving a unit: commit if the body ended well and auto_commit is on. */
  function Exited(e: Ending, exit: CommitOutcome): (Db, bool) {
    if e.raised || !e.autoCommit then (e.db, e.raised) else (Committed(e.db, exit), !exit.Succeeds?)
  }

  predicate StartsAutoCommit(sharing: Sharing) {
    sharing.ByConstructor? && sharing.autoCommit
  }

  /** An inner unit: its body, then its exit. */
  function EvalUnit(b: Block, sharing: Sharing, exit: CommitOutcome, d: Db): (Db, bool)
    decreases b, 1
  {
    Exited(Eval(b, d, StartsAutoCommit(sharing)), exit)
  }

  /** The owner: what its exit leaves in the database; closing discards the rest. */
  function EvalOwner(b: Block, rows: seq<Row>, auto: bool, commit: CommitOutcome): (seq<Row>, bool) {
    var (d, raised) := Exited(Eval(b, Db(rows, []), auto), commit);
    (d.rows, raised)
  }

  /** Every inner unit shares by configure_for_shared_session, and nobody calls commit or touches auto_commit. */
  predicate LeavesCommitToOwner(b: Block) {
    match b
    case Write(_, rest) => LeavesCommitToOwner(rest)
    case Commit(_, _) => false
    case Rollback(_, rest) => LeavesCommitToOwner(rest)
    case SetAutoCommit(_, _) => false
    case Nested(inner, sharing, _, _, rest) =>
      sharing.Configured? && LeavesCommitToOwner(inner) && LeavesCommitToOwner(rest)
    case _ => true
  }

  // ------------------------------------------------------------------ what a program does, without any state

  /** A row is written, or a rollback or a commit goes through. */
  datatype Action = Wrote(row: Row) | Dropped | Applied

  /** What happens on the session in order, whether it ends by an exception, and the unit's auto_commit then. */
  datatype Log = Log(actions: seq<Action>, raised: bool, autoCommit: bool)

  function CommitActions(outcome: CommitOutcome): seq<Action> {
    match outcome
    case Succeeds => [Applied]
    case Fails(r) => if r.RolledBack? then [Dropped] else []
    case CommitTimesOut => []
  }

  function Preceded(actions: seq<Action>, log: Log): Log {
    log.(actions := actions + log.actions)
  }

  function LogOf(b: Block, auto: bool): Log
    decreases b, 0
  {
    match b
    case Done => Log([], false, auto)
    case Raise => Log([], true, auto)
    case Write(row, rest) => Preceded([Wrote(row)], LogOf(rest, auto))
    case Commit(outcome, rest) =>
      if outcome.Succeeds? then Preceded([Applied], LogOf(rest, auto)) else Log(CommitActions(outcome), true, auto)
    case Rollback(outcome, rest) => Preceded(if outcome.RolledBack? then [Dropped] else [], LogOf(rest, auto))
    case SetAutoCommit(on, rest) => LogOf(rest, on)
    case Nested(inner, sharing, exit, caught, rest) =>
      var unit := UnitLog(inner, StartsAutoCommit(sharing), exit);
      if unit.raised && !caught then Log(unit.actions, true, auto) else Preceded(unit.actions, LogOf(rest, auto))
  }

  /** A whole unit: its body, and the commit of its exit if there is one. */
  function UnitLog(b: Block, auto: bool, exit: CommitOutcome): Log
    decreases b, 1
  {
    var body := LogOf(b, auto);
    if body.raised || !body.autoCommit then body
    else Log(body.actions + CommitActions(exit), !exit.Succeeds?, body.autoCommit)
  }

  function Perform(a: Action, d: Db): Db {
    match a
    case Wrote(row) => Db(d.rows, d.pending + [row])
    case Dropped => Db(d.rows, [])
    case Applied => Db(d.rows + d.pending, [])
  }

  function Replay(actions: seq<Action>, d: Db): Db {
    if actions == [] then d else Replay(actions[1..], Perform(actions[0], d))
  }

  /** The rows written, in order. */
  function Rows(actions: seq<Action>): seq<Row> {
    if actions == [] then [] else (if actions[0].Wrote? then [actions[0].row] else []) + Rows(actions[1..])
  }

  /** Rows queued now will be committed: no rollback comes before the next commit. */
  predicate Settles(actions: seq<Action>) {
    actions != [] && !actions[0].Dropped? && (actions[0].Applied? || Settles(actions[1..]))
  }

  /** The rows whose writing is followed by a commit before any rollback. */
  function Landed(actions: seq<Action>): seq<Row> {
    if actions == [] then []
    else
      (if actions[0].Wrote? && Settles(actions[1..]) then [actions[0].row] else []) + Landed(actions[1..])
  }

  /** The place after the last rollback, 0 if there is none. */
  function LastDrop(actions: seq<Action>): (cut: nat)
    ensures cut <= |actions|
  {
    if actions == [] then 0
    else
      var later := LastDrop(actions[1..]);
      if later > 0 then later + 1 else if actions[0].Dropped? then 1 else 0
  }

  // ------------------------------------------------------------------ the code

  class Database {
    var rows: seq<Row>

    constructor (rows: seq<Row>)
      ensures this.rows == rows
    {
      this.rows := rows;
    }
  }

  class Session {
    const db: Database
    var pending: seq<Row>
    var open: bool

    ghost function View(): Db
      reads this, db
    {
      Db(db.rows, pending)
    }

    constructor (db: Database)
      ensures this.db == db && pending == [] && open
    {
      this.db, pending, open := db, [], true;
    }

    method Add(row: Row)
      modifies this`pending
      ensures pending == old(pending) + [row]
    {
      pending := pending + [row];
    }

    method Commit(succeeds: bool) returns (raised: bool)
      modifies this`pending, db
      ensures raised <==> !succeeds
      ensures View() == if succeeds then Db(old(db.rows) + old(pending), []) else old(View())
    {
      if succeeds {
        db.rows := db.rows + pending;
        pending := [];
      }
      raised := !succeeds;
    }

    method Rollback(outcome: RollbackOutcome)
      modifies this`pending
      ensures pending == if outcome.RolledBack? then [] else old(pending)
    {
      if outcome.RolledBack? {
        pending := [];
      }
    }

    method Close()
      modifies this
      ensures pending == [] && !open
    {
      pending := [];
      open := false;
    }
  }

  class UnitOfWork {
    var session: Session?
    const factory: Database?
    var ownsSession: bool
    var autoCommit: bool
    var timeoutOccurred: bool
    var repositories: set<string>

    constructor (session: Session?, factory: Database?, autoCommit: bool := true)
      ensures this.session == session && this.factory == factory && this.autoCommit == autoCommit
      ensures (ownsSession <==> session == null) && !timeoutOccurred && repositories == {}
    {
      this.session := session;
      this.factory := factory;
      this.autoCommit := autoCommit;
      ownsSession := session == null;
      timeoutOccurred := false;
      repositories := {};
    }

    method ConfigureForSharedSession(shared: Session)
      modifies this
      ensures session == shared && !ownsSession && !autoCommit
      ensures repositories == old(repositories) && timeoutOccurred == old(timeoutOccurred)
    {
      session := shared;
      autoCommit := false;
      ownsSession := false;
    }

    /** `registers` is whether _register_repositories goes through; without a factory an owner cannot start. */
    method Enter(names: set<string>, registers: bool) returns (entered: bool)
      modifies this`session, this`repositories, session
      ensures entered <==> registers && (ownsSession ==> factory != null)
      ensures ownsSession && factory != null ==>
                session != null && fresh(session) && session.db == factory && session.pending == []
      ensures ownsSession && factory != null ==> (session.open <==> registers)
      ensures !ownsSession || factory == null ==> session == old(session)
      ensures !ownsSession && session != null ==> unchanged(session)
      ensures repositories == if entered then old(repositories) + names else old(repositories)
    {
      if ownsSession {
        if factory == null {
          if session != null {
            session.Close();
          }
          return false;
        }
        session := new Session(factory);
      }
      if !registers {
        if session != null && ownsSession {
          session.Close();
        }
        return false;
      }
      repositories := repositories + names;
      entered := true;
    }

    method Rollback(outcome: RollbackOutcome) returns (raised: bool)
      modifies this`timeoutOccurred, session
      ensures raised <==> session == null
      ensures session != null ==> session.open == old(session.open)
      ensures session != null ==> session.pending == if outcome.RolledBack? then [] else old(session.pending)
      ensures timeoutOccurred == (old(timeoutOccurred) || (!raised && outcome.RollbackTimesOut?))
    {
      if session == null {
        return true;
      }
      session.Rollback(outcome);
      if outcome.RollbackTimesOut? {
        timeoutOccurred := true;
      }
      raised := false;
    }

    /** Commit, or roll back and raise; without a session it raises at once. */
    method Commit(outcome: CommitOutcome) returns (raised: bool)
      modifies this`timeoutOccurred, session, if session == null then {} else {session.db}
      ensures session != null ==> session.open == old(session.open)
      ensures raised <==> session == null || !outcome.Succeeds?
      ensures session != null ==> session.View() == Committed(old(session.View()), outcome)
      ensures timeoutOccurred == (old(timeoutOccurred) ||
              (session != null && (outcome.CommitTimesOut? || outcome == Fails(RollbackTimesOut))))
    {
      if session == null {
        return true;
      }
      if outcome.CommitTimesOut? {
        timeoutOccurred := true;
        return true;
      }
      raised := session.Commit(outcome.Succeeds?);
      if raised {
        var _ := Rollback(outcome.rollback);
      }
    }

    method Cleanup()
      modifies this`session, this`repositories, session
      ensures session == null && repositories == {}
      ensures old(session) != null ==> !old(session).open && old(session).pending == []
    {
      if session != null {
        session.Close();
        session := null;
      }
      repositories := {};
    }

    /** `exception` is whether the body ended by one; the result is whether the exit raises. */
    method Exit(exception: bool, commit: CommitOutcome) returns (raised: bool)
      modifies this`session, this`repositories, this`timeoutOccurred, session
      modifies if session == null then {} else {session.db}
      ensures repositories == {}
      ensures raised <==> exception || (autoCommit && (old(session) == null || !commit.Succeeds?))
      ensures old(session) != null ==>
                var before := old(session.View());
                var after := if !exception && autoCommit then Committed(before, commit) else before;
                && old(session).db.rows == after.rows
                && old(session).pending == (if ownsSession then [] else after.pending)
                && (old(session).open <==> old(session.open) && !ownsSession)
      ensures session == if ownsSession then null else old(session)
      ensures exception ==> timeoutOccurred == old(timeoutOccurred)
    {
      raised := false;
      if exception {
        raised := true;
      } else if autoCommit {
        raised := Commit(commit);
      }
      if ownsSession {
        Cleanup();
      } else {
        repositories := {};
      }
    }
  }

  // ------------------------------------------------------------------ running programs on the code

  /** Runs a body inside a unit that has been entered. */
  method RunBody(u: UnitOfWork, session: Session, b: Block) returns (raised: bool)
    requires u.session == session
    modifies session, session.db, u`timeoutOccurred, u`autoCommit
    ensures session.open == old(session.open)
    ensures Ending(session.View(), raised, u.autoCommit) == Eval(b, old(session.View()), old(u.autoCommit))
    decreases b, 0
  {
    match b {
      case Done => raised := false;
      case Raise => raised := true;
      case Write(row, rest) =>
        session.Add(row);
        raised := RunBody(u, session, rest);
      case Commit(outcome, rest) =>
        raised := u.Commit(outcome);
        if !raised {
          raised := RunBody(u, session, rest);
        }
      case Rollback(outcome, rest) =>
        var _ := u.Rollback(outcome);
        raised := RunBody(u, session, rest);
      case SetAutoCommit(on, rest) =>
        u.autoCommit := on;
        raised := RunBody(u, session, rest);
      case Nested(inner, sharing, exit, caught, rest) =>
        raised := RunInner(session, inner, sharing, exit);
        if !raised || caught {
          raised := RunBody(u, session, rest);
        }
    }
  }

  /** An inner unit on its parent's session: enter, body, exit.  The session stays open. */
  method RunInner(session: Session, b: Block, sharing: Sharing, exit: CommitOutcome) returns (raised: bool)
    modifies session, session.db
    ensures (session.View(), raised) == EvalUnit(b, sharing, exit, old(session.View()))
    ensures session.open == old(session.open)
    decreases b, 1
  {
    var u: UnitOfWork;
    match sharing {
      case Configured =>
        u := new UnitOfWork(null, null);
        u.ConfigureForSharedSession(session);
      case ByConstructor(autoCommit) =>
        u := new UnitOfWork(session, null, autoCommit);
    }
    var entered := u.Enter({}, true);
    raised := RunBody(u, session, b);
    raised := u.Exit(raised, exit);
  }

  /** An owner from start to finish: its session is opened, and closed whatever happens. */
  method RunOwner(db: Database, b: Block, auto: bool, commit: CommitOutcome) returns (raised: bool, session: Session)
    modifies db
    ensures (db.rows, raised) == EvalOwner(b, old(db.rows), auto, commit)
    ensures fresh(session) && !session.open && session.pending == []
  {
    var u := new UnitOfWork(null, db, auto);
    var entered := u.Enter({}, true);
    session := u.session;
    raised := RunBody(u, session, b);
    raised := u.Exit(raised, commit);
  }

  // ------------------------------------------------------------------ what reaches the database, for every program

  lemma {:induction false} ReplayAcross(a: seq<Action>, b: seq<Action>, d: Db)
    ensures Replay(a + b, d) == Replay(b, Replay(a, d))
  {
    if a == [] {
      assert a + b == b;
    } else {
      assert (a + b)[1..] == a[1..] + b;
      ReplayAcross(a[1..], b, Perform(a[0], d));
    }
  }

  lemma CommitIsReplayed(outcome: CommitOutcome, d: Db)
    ensures Replay(CommitActions(outcome), d) == Committed(d, outcome)
  {
    assert forall a: Action :: Replay([a], d) == Perform(a, d);
  }

  /** Running a program and replaying its log come to the same. */
  lemma {:induction false} EvalIsReplay(b: Block, d: Db, auto: bool)
    ensures
      var log := LogOf(b, auto);
      Eval(b, d, auto) == Ending(Replay(log.actions, d), log.raised, log.autoCommit)
    decreases b, 0
  {
    match b {
      case Write(row, rest) =>
        EvalIsReplay(rest, d.(pending := d.pending + [row]), auto);
        ReplayAcross([Wrote(row)], LogOf(rest, auto).actions, d);
        assert Replay([Wrote(row)], d) == Perform(Wrote(row), d);
      case Commit(outcome, rest) =>
        CommitIsReplayed(outcome, d);
        if outcome.Succeeds? {
          EvalIsReplay(rest, Committed(d, outcome), auto);
          ReplayAcross([Applied], LogOf(rest, auto).actions, d);
        }
      case Rollback(outcome, rest) =>
        EvalIsReplay(rest, RollenBack(d, outcome), auto);
        var first := if outcome.RolledBack? then [Dropped] else [];
        ReplayAcross(first, LogOf(rest, auto).actions, d);
        assert Replay([Dropped], d) == Perform(Dropped, d);
      case SetAutoCommit(on, rest) =>
        EvalIsReplay(rest, d, on);
      case Nested(inner, sharing, exit, caught, rest) =>
        UnitIsReplay(inner, sharing, exit, d);
        var unit := UnitLog(inner, StartsAutoCommit(sharing), exit);
        EvalIsReplay(rest, Replay(unit.actions, d), auto);
        ReplayAcross(unit.actions, LogOf(rest, auto).actions, d);
      case _ =>
    }
  }

  lemma {:induction false} UnitIsReplay(b: Block, sharing: Sharing, exit: CommitOutcome, d: Db)
    ensures
      var log := UnitLog(b, StartsAutoCommit(sharing), exit);
      EvalUnit(b, sharing, exit, d) == (Replay(log.actions, d), log.raised)
    decreases b, 1
  {
    var body := LogOf(b, StartsAutoCommit(sharing));
    EvalIsReplay(b, d, StartsAutoCommit(sharing));
    CommitIsReplayed(exit, Replay(body.actions, d));
    ReplayAcross(body.actions, CommitActions(exit), d);
  }

  /** What was queued before and what is written on the way land by one and the same rule. */
  lemma {:induction false} ReplayLands(actions: seq<Action>, d: Db)
    ensures Replay(actions, d).rows == d.rows + (if Settles(actions) then d.pending else []) + Landed(actions)
  {
    if actions != [] {
      ReplayLands(actions[1..], Perform(actions[0], d));
    }
  }

  /**
    For every program, with commits and rollbacks wherever it likes: what the owner leaves in
    the database are exactly the rows whose writing is followed by a commit that goes through
    before any rollback that does, in order.
  */
  lemma OwnerAppliesWhatIsCommittedFirst(b: Block, rows: seq<Row>, auto: bool, commit: CommitOutcome)
    ensures
      var log := UnitLog(b, auto, commit);
      EvalOwner(b, rows, auto, commit) == (rows + Landed(log.actions), log.raised)
  {
    var d := Db(rows, []);
    UnitIsReplayed(b, auto, commit, d);
    ReplayLands(UnitLog(b, auto, commit).actions, d);
    assert rows + [] == rows;
  }

  lemma UnitIsReplayed(b: Block, auto: bool, exit: CommitOutcome, d: Db)
    ensures
      var log := UnitLog(b, auto, exit);
      Exited(Eval(b, d, auto), exit) == (Replay(log.actions, d), log.raised)
  {
    var body := LogOf(b, auto);
    EvalIsReplay(b, d, auto);
    CommitIsReplayed(exit, Replay(body.actions, d));
    ReplayAcross(body.actions, CommitActions(exit), d);
  }

  /** The rule said by places: some commit comes with no rollback before it. */
  lemma {:induction false} SettlesIff(actions: seq<Action>)
    ensures Settles(actions) <==>
            exists j :: 0 <= j < |actions| && actions[j].Applied? && forall k :: 0 <= k < j ==> !actions[k].Dropped?
  {
    if actions != [] {
      var rest := actions[1..];
      SettlesIff(rest);
      if Settles(rest) && actions[0].Wrote? {
        var j :| 0 <= j < |rest| && rest[j].Applied? && forall k :: 0 <= k < j ==> !rest[k].Dropped?;
        assert actions[j + 1].Applied? && forall k :: 0 <= k < j + 1 ==> k == 0 || actions[k] == rest[k - 1];
      }
      if j :| 0 <= j < |actions| && actions[j].Applied? && forall k :: 0 <= k < j ==> !actions[k].Dropped? {
        if j > 0 {
          assert rest[j - 1].Applied? && forall k :: 0 <= k < j - 1 ==> rest[k] == actions[k + 1];
        }
      }
    }
  }

  // ------------------------------------------------------------------ who reaches the database early

  /** Some commit on the way goes through while rows are queued. */
  ghost predicate CommitsRows(actions: seq<Action>, d: Db) {
    exists j :: 0 <= j < |actions| && actions[j].Applied? && Replay(actions[..j], d).pending != []
  }

  lemma {:induction false} ReplayGrowsIff(actions: seq<Action>, d: Db)
    ensures |Replay(actions, d).rows| >= |d.rows|
    ensures Replay(actions, d).rows != d.rows <==> CommitsRows(actions, d)
    ensures |Replay(actions, d).rows| == |d.rows| <==> !CommitsRows(actions, d)
  {
    if actions != [] {
      var last := |actions| - 1;
      var before := actions[..last];
      ReplayGrowsIff(before, d);
      assert actions == before + [actions[last]];
      ReplayOneMore(before, actions[last], d);
      var mid := Replay(before, d);
      forall j | 0 <= j < last
        ensures actions[..j] == before[..j]
      {
      }
      if j :| 0 <= j < last && before[j].Applied? && Replay(before[..j], d).pending != [] {
        assert actions[j].Applied? && actions[..j] == before[..j];
      }
      if actions[last].Applied? && mid.pending != [] {
        assert Replay(actions[..last], d).pending != [];
      }
    }
  }

  /**
    A body reaches the database before its unit's exit if and only if some commit inside
    goes through while rows are queued.
  */
  lemma BodyCommitsIff(b: Block, d: Db, auto: bool)
    ensures Eval(b, d, auto).db.rows != d.rows <==> CommitsRows(LogOf(b, auto).actions, d)
  {
    EvalIsReplay(b, d, auto);
    ReplayGrowsIff(LogOf(b, auto).actions, d);
  }

  /**
    An owner that fails, by its body or by its commit, leaves nothing behind if and only if
    no commit inside did so.
  */
  lemma FailedOwnerIsCleanIff(b: Block, rows: seq<Row>, auto: bool, commit: CommitOutcome)
    requires EvalOwner(b, rows, auto, commit).1
    ensures EvalOwner(b, rows, auto, commit).0 == rows <==> !CommitsRows(LogOf(b, auto).actions, Db(rows, []))
  {
    BodyCommitsIff(b, Db(rows, []), auto);
  }

  /** The same for an inner unit, whose own exit may be the commit. */
  lemma InnerUnitCommitsIff(b: Block, sharing: Sharing, exit: CommitOutcome, d: Db)
    ensures EvalUnit(b, sharing, exit, d).0.rows != d.rows <==>
            CommitsRows(UnitLog(b, StartsAutoCommit(sharing), exit).actions, d)
  {
    UnitIsReplay(b, sharing, exit, d);
    ReplayGrowsIff(UnitLog(b, StartsAutoCommit(sharing), exit).actions, d);
  }

  // ------------------------------------------------------------------ all or nothing

  lemma {:induction false} QuietLog(b: Block, auto: bool)
    requires LeavesCommitToOwner(b)
    ensures LogOf(b, auto).autoCommit == auto
    ensures forall i :: 0 <= i < |LogOf(b, auto).actions| ==> !LogOf(b, auto).actions[i].Applied?
    decreases b
  {
    match b {
      case Write(_, rest) => QuietLog(rest, auto);
      case Rollback(_, rest) => QuietLog(rest, auto);
      case Nested(inner, sharing, exit, _, rest) =>
        QuietLog(inner, false);
        QuietLog(rest, auto);
      case _ =>
    }
  }

  lemma ReplayOneMore(before: seq<Action>, a: Action, d: Db)
    ensures Replay(before + [a], d) == Perform(a, Replay(before, d))
  {
    ReplayAcross(before, [a], d);
    assert Replay([a], Replay(before, d)) == Perform(a, Replay(before, d));
  }

  /**
    What is queued in the end: the rows written since the last rollback, after those queued
    before if there was none.
  */
  function Queue(actions: seq<Action>, pending: seq<Row>): seq<Row> {
    (if LastDrop(actions) == 0 then pending else []) + Rows(actions[LastDrop(actions)..])
  }

  lemma {:induction false} QuietReplay(actions: seq<Action>, d: Db)
    requires forall i :: 0 <= i < |actions| ==> !actions[i].Applied?
    ensures Replay(actions, d) == Db(d.rows, Queue(actions, d.pending))
  {
    if actions == [] {
      assert d.pending + [] == d.pending;
    } else {
      QuietReplay(actions[1..], Perform(actions[0], d));
      QueueOfTheRest(actions, d);
    }
  }

  lemma QueueOfTheRest(actions: seq<Action>, d: Db)
    requires actions != [] && !actions[0].Applied?
    ensures Queue(actions, d.pending) == Queue(actions[1..], Perform(actions[0], d).pending)
  {
    var rest := actions[1..];
    var later := LastDrop(rest);
    if later > 0 {
      assert actions[later + 1..] == rest[later..];
    } else {
      assert rest[0..] == rest && actions[0..] == actions;
      var first := if actions[0].Wrote? then [actions[0].row] else [];
      assert d.pending + (first + Rows(rest)) == d.pending + first + Rows(rest);
    }
  }

  lemma {:induction false} RowsAcross(a: seq<Action>, b: seq<Action>)
    ensures Rows(a + b) == Rows(a) + Rows(b)
  {
    if a == [] {
      assert a + b == b;
    } else {
      assert (a + b)[1..] == a[1..] + b;
      RowsAcross(a[1..], b);
    }
  }

  /**
    Until the owner exits, a body with configured inner units and no commit leaves the
    database as it was; queued are the rows written since the last rollback that went
    through, whoever called it, after those queued before if there was none.
  */
  lemma BodiesOnlyQueue(b: Block, d: Db, auto: bool)
    requires LeavesCommitToOwner(b)
    ensures
      Eval(b, d, auto).db == Db(d.rows, Queue(LogOf(b, auto).actions, d.pending))
  {
    QuietLog(b, auto);
    EvalIsReplay(b, d, auto);
    QuietReplay(LogOf(b, auto).actions, d);
  }

  /** Rows were dropped by a rollback, and others written after the last one. */
  ghost predicate Torn(actions: seq<Action>) {
    && (exists i :: 0 <= i < LastDrop(actions) && actions[i].Wrote?)
    && (exists k :: LastDrop(actions) <= k < |actions| && actions[k].Wrote?)
  }

  lemma TornIff(actions: seq<Action>)
    ensures
      var dropped, kept := Rows(actions[..LastDrop(actions)]), Rows(actions[LastDrop(actions)..]);
      && Rows(actions) == dropped + kept
      && (Torn(actions) <==> dropped != [] && kept != [])
  {
    var cut := LastDrop(actions);
    var dropped, kept := actions[..cut], actions[cut..];
    assert actions == dropped + kept;
    RowsAcross(dropped, kept);
    NoRowsBetweenIff(actions, 0, cut);
    NoRowsBetweenIff(actions, cut, |actions|);
    assert actions[0..cut] == dropped && actions[cut..|actions|] == kept;
  }

  /** Of `all`, which is `dropped` and then `kept`, the second part is all or nothing when one of them is empty. */
  lemma PartIsAllOrNothingIff(rows: seq<Row>, dropped: seq<Row>, kept: seq<Row>, all: seq<Row>)
    requires all == dropped + kept
    ensures rows + kept == rows || rows + kept == rows + all <==> dropped == [] || kept == []
  {
    assert |rows + all| == |rows| + |dropped| + |kept|;
    if dropped == [] {
      assert all == kept;
    }
    if kept == [] {
      assert rows + kept == rows;
    }
  }

  /**
    Nested units under one owner: with configured inner units and no commit of their own the
    owner's exit applies the rows written since the last rollback, exactly when no exception
    leaves the body, auto_commit is on and the commit goes through, and nothing otherwise.
  */
  lemma OwnerAppliesTheRest(b: Block, rows: seq<Row>, auto: bool, commit: CommitOutcome)
    requires LeavesCommitToOwner(b)
    ensures
      var log := LogOf(b, auto);
      EvalOwner(b, rows, auto, commit).0
      == if Applies(log, commit) then rows + Rows(log.actions[LastDrop(log.actions)..]) else rows
  {
    var log := LogOf(b, auto);
    QuietLog(b, auto);
    EvalIsReplay(b, Db(rows, []), auto);
    BodiesOnlyQueue(b, Db(rows, []), auto);
    assert [] + Rows(log.actions[LastDrop(log.actions)..]) == Rows(log.actions[LastDrop(log.actions)..]);
  }

  /** The owner's exit commits, and its commit goes through. */
  predicate Applies(body: Log, commit: CommitOutcome) {
    !body.raised && body.autoCommit && commit.Succeeds?
  }

  /** That is every write or none if and only if nothing is applied or no rollback tore the writes apart. */
  lemma OwnerIsAllOrNothingIff(b: Block, rows: seq<Row>, auto: bool, commit: CommitOutcome)
    requires LeavesCommitToOwner(b)
    ensures
      var log := LogOf(b, auto);
      var after := EvalOwner(b, rows, auto, commit).0;
      after == rows || after == rows + Rows(log.actions) <==> !Applies(log, commit) || !Torn(log.actions)
  {
    var actions := LogOf(b, auto).actions;
    OwnerAppliesTheRest(b, rows, auto, commit);
    TornIff(actions);
    PartIsAllOrNothingIff(rows, Rows(actions[..LastDrop(actions)]), Rows(actions[LastDrop(actions)..]), Rows(actions));
  }

  lemma {:induction false} NoRowsBetweenIff(actions: seq<Action>, lo: nat, hi: nat)
    requires lo <= hi <= |actions|
    ensures Rows(actions[lo..hi]) == [] <==> forall i :: lo <= i < hi ==> !actions[i].Wrote?
    decreases hi - lo
  {
    if lo < hi {
      assert actions[lo..hi][1..] == actions[lo + 1..hi];
      NoRowsBetweenIff(actions, lo + 1, hi);
    }
  }

  // ------------------------------------------------------------------ what breaks it

  /** A rollback by an inner unit drops its parent's rows too: an owner that goes on commits the other half. */
  lemma InnerRollbackTearsTheOwner(first: Row, second: Row, rows: seq<Row>)
    ensures
      var inner := Rollback(RolledBack, Done);
      var body := Write(first, Nested(inner, Configured, Succeeds, false, Write(second, Done)));
      LeavesCommitToOwner(body) && EvalOwner(body, rows, true, Succeeds) == (rows + [second], false)
  {
    var inner := Rollback(RolledBack, Done);
    var rest := Write(second, Done);
    var nested := Nested(inner, Configured, Succeeds, false, rest);
    assert [] + [first] == [first] && [] + [second] == [second];
    assert Eval(Done, Db(rows, []), false) == Ending(Db(rows, []), false, false);
    assert Eval(inner, Db(rows, [first]), false) == Ending(Db(rows, []), false, false);
    assert EvalUnit(inner, Configured, Succeeds, Db(rows, [first])) == (Db(rows, []), false);
    assert Eval(Done, Db(rows, [second]), true) == Ending(Db(rows, [second]), false, true);
    assert Eval(rest, Db(rows, []), true) == Ending(Db(rows, [second]), false, true);
    assert Eval(nested, Db(rows, [first]), true) == Eval(rest, Db(rows, []), true);
    assert Eval(Write(first, nested), Db(rows, []), true) == Eval(nested, Db(rows, []).(pending := [] + [first]), true);
    assert LeavesCommitToOwner(rest) && LeavesCommitToOwner(inner) && LeavesCommitToOwner(nested);
  }

  /**
    A unit that shares its session with auto_commit off, by configure or by argument, leaves
    the database to its parent.
  */
  lemma SharingWithoutAutoCommitOnlyQueues(b: Block, sharing: Sharing, exit: CommitOutcome, d: Db)
    requires LeavesCommitToOwner(b) && sharing in {Configured, ByConstructor(false)}
    ensures EvalUnit(b, sharing, exit, d).0 == Db(d.rows, Queue(LogOf(b, false).actions, d.pending))
  {
    QuietLog(b, false);
    BodiesOnlyQueue(b, d, false);
    EvalIsReplay(b, d, false);
  }

  /**
    A unit given its session through the constructor keeps auto_commit on and commits its
    parent's rows with its own.
  */
  lemma ConstructorSharingCommits(inner: Block, exit: CommitOutcome, d: Db)
    requires LeavesCommitToOwner(inner) && !LogOf(inner, true).raised && exit.Succeeds?
    ensures EvalUnit(inner, ByConstructor(true), exit, d)
            == (Db(d.rows + Queue(LogOf(inner, true).actions, d.pending), []), false)
  {
    QuietLog(inner, true);
    BodiesOnlyQueue(inner, d, true);
    EvalIsReplay(inner, d, true);
  }

  /** So the owner's later exception undoes nothing of it. */
  lemma ConstructorSharingBreaksAtomicity(row: Row, inner: Block, exit: CommitOutcome, rows: seq<Row>,
                                          commit: CommitOutcome)
    requires LeavesCommitToOwner(inner) && !LogOf(inner, true).raised && exit.Succeeds?
    ensures EvalOwner(Write(row, Nested(inner, ByConstructor(true), exit, false, Raise)), rows, true, commit)
            == (rows + Queue(LogOf(inner, true).actions, [row]), true)
  {
    var unit := Nested(inner, ByConstructor(true), exit, false, Raise);
    var d := Db(rows, [row]);
    assert Db(rows, []).(pending := [] + [row]) == d;
    ConstructorSharingCommits(inner, exit, d);
    var d' := EvalUnit(inner, ByConstructor(true), exit, d).0;
    assert Eval(Raise, d', true) == Ending(d', true, true);
    assert Eval(unit, d, true) == Ending(d', true, true);
    assert Eval(Write(row, unit), Db(rows, []), true) == Eval(unit, d, true);
  }

  /** An inner unit does not undo its own writes when it fails: a parent that swallows the exception commits them. */
  lemma SwallowedFailureIsCommitted(inner: Block, rows: seq<Row>)
    requires LeavesCommitToOwner(inner) && LogOf(inner, false).raised
    ensures
      var log := LogOf(inner, false).actions;
      EvalOwner(Nested(inner, Configured, Succeeds, true, Done), rows, true, Succeeds)
      == (rows + Rows(log[LastDrop(log)..]), false)
  {
    var body := Nested(inner, Configured, Succeeds, true, Done);
    var log := LogOf(inner, false);
    assert UnitLog(inner, false, Succeeds) == log;
    assert LogOf(Done, true) == Log([], false, true);
    assert log.actions + [] == log.actions;
    assert LogOf(body, true) == Log(log.actions, false, true);
    OwnerAppliesTheRest(body, rows, true, Succeeds);
    EvalIsReplay(body, Db(rows, []), true);
  }
}
