/**
 * Background index maintenance reported by several processes: one advisory lock a database, one shared report file,
 * and readiness read from both (`background_refresh.rs`).
 */
module Refresh {
  import opened Wrappers

  // ----- reports -----

  datatype ReportState = Running | Updated | SkippedFresh | SkippedBusy | Cancelled | Failed

  datatype FailureKind = StorageFull

  datatype Progress = Progress(filesProcessed: nat, filesDiscovered: nat, sessionsUpdated: nat)

  datatype Report = Report(
    database: Option<string>,
    state: ReportState,
    startedAt: int,
    finishedAt: Option<int>,
    pid: nat,
    progress: Option<Progress>,
    failureKind: Option<FailureKind>)

  /** The report file: missing, unreadable, or holding a report. */
  datatype File = Missing | Malformed | Recorded(report: Report)

  /** A `Running` report of another process for this database: what a held lock protects. */
  predicate Protected(file: File, database: string, pid: nat) {
    file.Recorded? && file.report.state.Running? && file.report.pid != pid && file.report.database == Some(database)
  }

  /** `write_best_effort`, when the lock can be probed and the file written. */
  function Written(file: File, lockHeld: bool, database: string, report: Report): File {
    if Protected(file, database, report.pid) && lockHeld then file else Recorded(report)
  }

  // ----- processes -----

  /** How a refresh ends. */
  datatype Outcome =
    | Refreshed(files: nat, sessions: nat)
    | Fresh
    | Busy
    | Stopped
    | Broken(kind: Option<FailureKind>)

  datatype Phase =
    | Contending
    | Elected
    | Working
    | Finishing(elected: bool, outcome: Outcome)
    | Gone

  datatype Process = Process(database: string, startedAt: int, phase: Phase, progress: Option<Progress>)

  datatype World = World(processes: map<nat, Process>, locks: map<string, nat>, file: File)

  /** A report as a process starts it. */
  function RunningReport(pid: nat, p: Process): Report {
    Report(Some(p.database), Running, p.startedAt, None, pid, p.progress, None)
  }

  function FinalState(outcome: Outcome): ReportState {
    match outcome
    case Refreshed(_, _) => Updated
    case Fresh => SkippedFresh
    case Busy => SkippedBusy
    case Stopped => Cancelled
    case Broken(_) => Failed
  }

  /** The report a process ends with. */
  function FinalReport(pid: nat, p: Process, outcome: Outcome, now: int): Report {
    var progress := if outcome.Refreshed? then Some(Progress(outcome.files, outcome.files, outcome.sessions))
      else p.progress;
    Report(Some(p.database), FinalState(outcome), p.startedAt, Some(now), pid, progress,
           if outcome.Broken? then outcome.kind else None)
  }

  /**
   * One atomic step of one process.  `written` is false when a progress report is not due yet, or when probing the lock
   * or writing the file failed.
   */
  datatype Event =
    | Start(pid: nat, database: string, now: int)
    | Lose(pid: nat, outcome: Outcome)
    | Elect(pid: nat)
    | RecordElection(pid: nat, written: bool)
    | RecordProgress(pid: nat, progress: Progress, written: bool)
    | Release(pid: nat, outcome: Outcome)
    | Publish(pid: nat, now: int, written: bool)
    | Crash(pid: nat)

  predicate PhaseIs(w: World, pid: nat, phase: Phase) {
    pid in w.processes && w.processes[pid].phase == phase
  }

  predicate Enabled(w: World, e: Event) {
    match e
    case Start(pid, _, _) => pid !in w.processes || w.processes[pid].phase.Gone?
    case Lose(pid, outcome) => PhaseIs(w, pid, Contending) && !outcome.Refreshed?
    case Elect(pid) => PhaseIs(w, pid, Contending) && w.processes[pid].database !in w.locks
    case RecordElection(pid, _) => PhaseIs(w, pid, Elected)
    case RecordProgress(pid, _, _) => PhaseIs(w, pid, Working)
    case Release(pid, _) => PhaseIs(w, pid, Working)
    case Publish(pid, _, _) => pid in w.processes && w.processes[pid].phase.Finishing?
    case Crash(pid) => pid in w.processes && !w.processes[pid].phase.Gone?
  }

  predicate Holds(phase: Phase) {
    phase.Elected? || phase.Working?
  }

  function WithPhase(w: World, pid: nat, phase: Phase): World
    requires pid in w.processes
  {
    w.(processes := w.processes[pid := w.processes[pid].(phase := phase)])
  }

  /** The file after a process writes a report, if the write takes place. */
  function FileAfter(w: World, pid: nat, report: Report, written: bool): File
    requires pid in w.processes
  {
    var database := w.processes[pid].database;
    if written then Written(w.file, database in w.locks, database, report) else w.file
  }

  function Unlocked(w: World, pid: nat): map<string, nat>
    requires pid in w.processes
  {
    if Holds(w.processes[pid].phase) then w.locks - {w.processes[pid].database} else w.locks
  }

  function Next(w: World, e: Event): World
    requires Enabled(w, e)
  {
    match e
    case Start(pid, database, now) => w.(processes := w.processes[pid := Process(database, now, Contending, None)])
    case Lose(pid, outcome) => WithPhase(w, pid, Finishing(false, outcome))
    case Elect(pid) => WithPhase(w, pid, Elected).(locks := w.locks[w.processes[pid].database := pid])
    case RecordElection(pid, written) =>
      WithPhase(w, pid, Working).(file := FileAfter(w, pid, RunningReport(pid, w.processes[pid]), written))
    case RecordProgress(pid, progress, written) =>
      var p := w.processes[pid].(progress := Some(progress));
      w.(processes := w.processes[pid := p], file := FileAfter(w, pid, RunningReport(pid, p), written))
    case Release(pid, outcome) => WithPhase(w, pid, Finishing(true, outcome)).(locks := Unlocked(w, pid))
    case Publish(pid, now, written) =>
      var p := w.processes[pid];
      var publishes := p.phase.elected || !p.phase.outcome.Busy?;
      WithPhase(w, pid, Gone).(file := FileAfter(w, pid, FinalReport(pid, p, p.phase.outcome, now),
        publishes && written))
    case Crash(pid) => WithPhase(w, pid, Gone).(locks := Unlocked(w, pid))
  }

  ghost predicate Runs(w: World, events: seq<Event>)
    decreases |events|
  {
    events == [] || (Enabled(w, events[0]) && Runs(Next(w, events[0]), events[1..]))
  }

  ghost function After(w: World, events: seq<Event>): World
    requires Runs(w, events)
    decreases |events|
  {
    if events == [] then w else After(Next(w, events[0]), events[1..])
  }

  /** A process holds the lock of its database exactly while it is elected or working. */
  predicate LocksExact(w: World) {
    && (forall pid | pid in w.processes && Holds(w.processes[pid].phase) ::
          w.processes[pid].database in w.locks && w.locks[w.processes[pid].database] == pid)
    && (forall database | database in w.locks ::
          var pid := w.locks[database];
          pid in w.processes && Holds(w.processes[pid].phase) && w.processes[pid].database == database)
  }

  lemma LocksStep(w: World, e: Event)
    requires LocksExact(w) && Enabled(w, e)
    ensures LocksExact(Next(w, e))
  {
    hide Written;
  }

  /** Mutual exclusion: at every moment of every run at most one process of a database is elected or working. */
  lemma {:induction false} MutualExclusion(w: World, events: seq<Event>, a: nat, b: nat)
    requires LocksExact(w) && Runs(w, events)
    ensures LocksExact(After(w, events))
    ensures var all := After(w, events).processes;
            (a in all && b in all && Holds(all[a].phase) && Holds(all[b].phase)
              && all[a].database == all[b].database) ==> a == b
    decreases |events|
  {
    if events != [] {
      LocksStep(w, events[0]);
      MutualExclusion(Next(w, events[0]), events[1..], a, b);
    }
  }

  // ----- what a held lock protects -----

  /** The process acts on this database. */
  predicate OnDatabase(w: World, e: Event, database: string) {
    match e
    case Start(_, other, _) => other == database
    case _ => e.pid in w.processes && w.processes[e.pid].database == database
  }

  /** The step gives up the lock its process holds. */
  predicate GivesUp(w: World, e: Event) {
    (e.Release? || e.Crash?) && e.pid in w.processes && Holds(w.processes[e.pid].phase)
  }

  ghost predicate AllOn(w: World, events: seq<Event>, database: string)
    requires Runs(w, events)
    decreases |events|
  {
    events == [] || (OnDatabase(w, events[0], database) && AllOn(Next(w, events[0]), events[1..], database))
  }

  ghost predicate NoneGivesUp(w: World, events: seq<Event>)
    requires Runs(w, events)
    decreases |events|
  {
    events == [] || (!GivesUp(w, events[0]) && NoneGivesUp(Next(w, events[0]), events[1..]))
  }

  /** The file holds a `Running` report of one process for this database. */
  predicate RunningOf(file: File, pid: nat, database: string) {
    file.Recorded? && file.report.state.Running? && file.report.pid == pid && file.report.database == Some(database)
  }

  /** While the lock is held, no step of another process on the database changes a `Running` report. */
  lemma OthersPreserve(w: World, e: Event, owner: nat, database: string)
    requires LocksExact(w) && Enabled(w, e) && OnDatabase(w, e, database)
    requires RunningOf(w.file, owner, database) && database in w.locks && e.pid != owner
    ensures Next(w, e).file == w.file
    ensures !GivesUp(w, e) ==> database in Next(w, e).locks && Next(w, e).locks[database] == w.locks[database]
  {
  }

  /** The step replaces the report file, unless a report there is protected. */
  predicate WritesReport(w: World, e: Event) {
    match e
    case RecordElection(_, written) => written
    case RecordProgress(_, _, written) => written
    case Publish(pid, _, written) =>
      written && PhaseFinishing(w, pid) && (w.processes[pid].phase.elected || !w.processes[pid].phase.outcome.Busy?)
    case _ => false
  }

  predicate PhaseFinishing(w: World, pid: nat) {
    pid in w.processes && w.processes[pid].phase.Finishing?
  }

  /**
   * While the lock of its database is held, another process's step leaves a `Running` report as it is exactly when the
   * step writes no report or belongs to the same database: the file is shared, but a lock protects one database.
   */
  lemma OthersPreserveExactly(w: World, e: Event, owner: nat, database: string)
    requires LocksExact(w) && Enabled(w, e)
    requires RunningOf(w.file, owner, database) && database in w.locks && e.pid != owner
    ensures Next(w, e).file == w.file <==> (WritesReport(w, e) ==> w.processes[e.pid].database == database)
  {
  }

  /**
   * Over every run of processes on one database: while its lock stays held, a `Running` report of one process stays
   * exactly as it is as long as that process takes no step, whoever holds the lock.
   */
  lemma {:induction false} RunningReportFrozen(w: World, events: seq<Event>, owner: nat, database: string)
    requires LocksExact(w) && Runs(w, events) && AllOn(w, events, database) && NoneGivesUp(w, events)
    requires RunningOf(w.file, owner, database) && database in w.locks
    requires forall e | e in events :: e.pid != owner
    ensures After(w, events).file == w.file
    decreases |events|
  {
    if events != [] {
      assert events[0] in events;
      OthersPreserve(w, events[0], owner, database);
      LocksStep(w, events[0]);
      RunningReportFrozen(Next(w, events[0]), events[1..], owner, database);
    }
  }

  lemma HolderKeepsRunning(w: World, e: Event, holder: nat, database: string)
    requires LocksExact(w) && Enabled(w, e) && OnDatabase(w, e, database) && !GivesUp(w, e)
    requires RunningOf(w.file, holder, database) && database in w.locks && w.locks[database] == holder
    ensures RunningOf(Next(w, e).file, holder, database)
    ensures database in Next(w, e).locks && Next(w, e).locks[database] == holder
  {
    if e.pid != holder {
      OthersPreserve(w, e, holder, database);
    }
  }

  /**
   * Once the lock holder's own `Running` report is on disk it stays the holder's `Running` report through every step of
   * every process on the database, its own progress included, until the holder releases the lock or dies.
   */
  lemma {:induction false} HolderReportSurvives(w: World, events: seq<Event>, holder: nat, database: string)
    requires LocksExact(w) && Runs(w, events) && AllOn(w, events, database) && NoneGivesUp(w, events)
    requires RunningOf(w.file, holder, database) && database in w.locks && w.locks[database] == holder
    ensures var end := After(w, events);
            RunningOf(end.file, holder, database) && database in end.locks && end.locks[database] == holder
    decreases |events|
  {
    if events != [] {
      HolderKeepsRunning(w, events[0], holder, database);
      LocksStep(w, events[0]);
      HolderReportSurvives(Next(w, events[0]), events[1..], holder, database);
    }
  }

  // ----- a contender that finds the lock taken -----

  /** The process has no part in the lock, and can only end without a report. */
  predicate OnlyBusy(w: World, pid: nat) {
    pid in w.processes ==> var phase := w.processes[pid].phase; phase in {Contending, Finishing(false, Busy), Gone}
  }

  /** The steps of a process that is never elected and only ever loses to a busy lock. */
  predicate NeverElected(e: Event, pid: nat) {
    e.pid == pid ==> !e.Elect? && (e.Lose? ==> e.outcome.Busy?)
  }

  ghost predicate SilentOver(w: World, events: seq<Event>, pid: nat)
    requires Runs(w, events)
    decreases |events|
  {
    events == [] ||
    (var next := Next(w, events[0]);
     (events[0].pid == pid ==> next.file == w.file && next.locks == w.locks) && SilentOver(next, events[1..], pid))
  }

  /** A contender that is never elected and finds the lock busy leaves the report and every lock alone, in every run. */
  lemma {:induction false} BusyContenderSilent(w: World, events: seq<Event>, pid: nat)
    requires Runs(w, events) && OnlyBusy(w, pid)
    requires forall e | e in events :: NeverElected(e, pid)
    ensures SilentOver(w, events, pid)
    decreases |events|
  {
    if events != [] {
      assert NeverElected(events[0], pid);
      BusyContenderSilent(Next(w, events[0]), events[1..], pid);
    }
  }

  // ----- winning does not always publish -----

  /**
   * The report of a newly elected process reaches the file exactly when the file does not hold another process's
   * `Running` report for the same database: the lock that would protect such a report is the winner's own.
   */
  lemma ElectionPublishesExactly(w: World, pid: nat)
    requires LocksExact(w) && PhaseIs(w, pid, Elected)
    ensures var p := w.processes[pid];
            Next(w, RecordElection(pid, true)).file == Recorded(RunningReport(pid, p)) <==>
            !Protected(w.file, p.database, pid)
  {
  }

  ghost predicate Reaches(w: World, end: World) {
    exists events :: Runs(w, events) && After(w, events) == end
  }

  lemma {:induction false} OneMore(w: World, events: seq<Event>, e: Event)
    requires Runs(w, events) && Enabled(After(w, events), e)
    ensures Runs(w, events + [e]) && After(w, events + [e]) == Next(After(w, events), e)
    decreases |events|
  {
    hide Enabled, Next;
    var all := events + [e];
    if events == [] {
      assert all[1..] == [];
    } else {
      assert all[1..] == events[1..] + [e];
      OneMore(Next(w, events[0]), events[1..], e);
    }
  }

  lemma ReachesNext(w: World, mid: World, e: Event)
    requires Reaches(w, mid) && Enabled(mid, e)
    ensures Reaches(w, Next(mid, e))
  {
    hide Runs, After, Enabled, Next;
    var events :| Runs(w, events) && After(w, events) == mid;
    OneMore(w, events, e);
  }

  lemma ReachesItself(w: World)
    ensures Reaches(w, w)
  {
    assert Runs(w, []) && After(w, []) == w;
  }

  const NOTHING_YET: World := World(map[], map[], Missing)

  /** The world after process 1 was elected, reported and died. */
  function AfterDeath(database: string): World {
    var p := Process(database, 0, Gone, None);
    World(map[1 := p], map[], Recorded(RunningReport(1, p)))
  }

  lemma ReachesDeath(database: string)
    ensures Reaches(NOTHING_YET, AfterDeath(database))
  {
    hide Reaches;
    var w := NOTHING_YET;
    ReachesItself(w);
    var p := Process(database, 0, Contending, None);
    var w1 := World(map[1 := p], map[], Missing);
    ReachesNext(w, w, Start(1, database, 0));
    ReachesNext(w, w1, Elect(1));
    var w2 := World(map[1 := p.(phase := Elected)], map[database := 1], Missing);
    assert Next(w1, Elect(1)) == w2;
    ReachesNext(w, w2, RecordElection(1, true));
    var w3 := World(map[1 := p.(phase := Working)], map[database := 1], Recorded(RunningReport(1, p)));
    assert Next(w2, RecordElection(1, true)) == w3;
    ReachesNext(w, w3, Crash(1));
    assert Next(w3, Crash(1)) == AfterDeath(database);
  }

  /** A process that died while working leaves a report that hides its successor's. */
  lemma ElectionCanBeHidden(database: string)
    ensures exists end ::
              Reaches(NOTHING_YET, end) && PhaseIs(end, 2, Working) && end.locks == map[database := 2]
                && RunningOf(end.file, 1, database)
  {
    hide Reaches;
    var w := NOTHING_YET;
    ReachesDeath(database);
    var dead := AfterDeath(database);
    var p := Process(database, 5, Contending, None);
    ReachesNext(w, dead, Start(2, database, 5));
    var w1 := dead.(processes := dead.processes[2 := p]);
    ReachesNext(w, w1, Elect(2));
    var w2 := w1.(processes := dead.processes[2 := p.(phase := Elected)], locks := map[database := 2]);
    assert Next(w1, Elect(2)) == w2;
    ReachesNext(w, w2, RecordElection(2, true));
    var w3 := Next(w2, RecordElection(2, true));
    assert Reaches(w, w3) && PhaseIs(w3, 2, Working);
  }

  // ----- readiness -----

  datatype RefreshState = Indexing | Postponed | UpToDate | NotStarted | FailedWithRecovery

  datatype Status = Status(state: RefreshState, retryAfterMs: Option<nat>)

  const CONTENDED_RETRY_INTERVAL_MS: nat := 1_000
  const STORAGE_RETRY_INTERVAL_MS: nat := 60_000

  datatype ProbeFailure = ProbeFailure

  function IdleStatus(succeeded: bool): Status {
    Status(if succeeded then UpToDate else NotStarted, None)
  }

  function StatusFromReport(report: Report, runningLockIsHeld: bool): Status {
    match report.state
    case Running => Status(if runningLockIsHeld then Indexing else Postponed, Some(CONTENDED_RETRY_INTERVAL_MS))
    case Updated => Status(UpToDate, None)
    case SkippedFresh => Status(UpToDate, None)
    case SkippedBusy => Status(Postponed, Some(CONTENDED_RETRY_INTERVAL_MS))
    case Cancelled => Status(Postponed, Some(CONTENDED_RETRY_INTERVAL_MS))
    case Failed =>
      if report.failureKind.Some? then Status(Postponed, Some(STORAGE_RETRY_INTERVAL_MS))
        else Status(FailedWithRecovery, None)
  }

  function ReportFor(file: File, database: string): Option<Report> {
    if file.Recorded? && file.report.database == Some(database) then Some(file.report) else None
  }

  function EventTime(report: Report): int {
    if report.finishedAt.Some? then report.finishedAt.value else report.startedAt
  }

  /** A success recorded in the database after the report's own time makes the report history. */
  predicate Superseded(report: Report, lastSuccess: Option<int>) {
    lastSuccess.Some? && lastSuccess.value > EventTime(report)
  }

  /** Readiness, from the file, the success marker and a probe of the lock (nothing when the probe fails). */
  function Readiness(file: File, database: string, hasSessions: bool, lastSuccess: Option<int>, lock: Option<bool>)
      : Result<Status, ProbeFailure>
  {
    if file.Malformed? then Ok(Status(FailedWithRecovery, None))
    else
      match ReportFor(file, database)
      case None =>
        if hasSessions || lastSuccess.Some? then Ok(IdleStatus(lastSuccess.Some?))
        else if lock.None? then Err(ProbeFailure)
        else if lock.value then Ok(Status(Postponed, Some(CONTENDED_RETRY_INTERVAL_MS)))
        else Ok(IdleStatus(false))
      case Some(report) =>
        if report.state.Running? && lock.None? then Err(ProbeFailure)
        else
          var held := report.state.Running? && lock.value;
          if Superseded(report, lastSuccess) && !held then Ok(IdleStatus(true)) else Ok(StatusFromReport(report, held))
  }

  /**
   * Readiness says indexing exactly when the file holds a `Running` report for this database and the lock is held; it
   * says to wait exactly when it says indexing or postponed; a newer success hides every other report.
   */
  lemma ReadinessExact(file: File, database: string, hasSessions: bool, lastSuccess: Option<int>, lock: Option<bool>)
    ensures var r := Readiness(file, database, hasSessions, lastSuccess, lock);
            var report := ReportFor(file, database);
            && (r.Ok? && r.value.state.Indexing? <==> report.Some? && report.value.state.Running? && lock == Some(true))
            && (r.Ok? ==> (r.value.retryAfterMs.Some? <==> r.value.state in {Indexing, Postponed}))
            && (r.Ok? && r.value.state.NotStarted? <==>
                  !file.Malformed? && report.None? && lastSuccess.None? && (hasSessions || lock == Some(false)))
            && (report.Some? && Superseded(report.value, lastSuccess) && r.Ok? && !r.value.state.Indexing? ==>
              r.value.state.UpToDate?)
            && (r.Ok? && r.value.state.FailedWithRecovery? <==>
                  file.Malformed? ||
                  (report.Some? && report.value.state.Failed? && report.value.failureKind.None?
                    && !Superseded(report.value, lastSuccess)))
  {
  }

  function ReadinessIn(w: World, database: string, hasSessions: bool, lastSuccess: Option<int>)
      : Result<Status, ProbeFailure>
  {
    Readiness(w.file, database, hasSessions, lastSuccess, Some(database in w.locks))
  }

  /** From a published election until the lock is given up, every reader is told that indexing is running. */
  lemma ReadersSeeIndexing(w: World, events: seq<Event>, holder: nat, database: string, hasSessions: bool,
      lastSuccess: Option<int>)
    requires LocksExact(w) && Runs(w, events) && AllOn(w, events, database) && NoneGivesUp(w, events)
    requires RunningOf(w.file, holder, database) && database in w.locks && w.locks[database] == holder
    ensures var r := ReadinessIn(After(w, events), database, hasSessions, lastSuccess); r.Ok? && r.value.state.Indexing?
  {
    HolderReportSurvives(w, events, holder, database);
  }

  /** Without a holder no reader is told that indexing is running. */
  lemma NoHolderNotIndexing(w: World, database: string, hasSessions: bool, lastSuccess: Option<int>)
    requires database !in w.locks
    ensures var r := ReadinessIn(w, database, hasSessions, lastSuccess); r.Ok? && !r.value.state.Indexing?
  {
  }

  /**
   * Readiness says up to date exactly after a success that hides the report or that no report follows, or on a
   * report of an update or of nothing to do; and postponed exactly on the reports that leave work, unless a
   * success hides them, or on a writer that has neither report nor snapshot yet.  A full disk is retried after a
   * minute, all else a second.
   */
  lemma ReadinessFreshOrPostponed(file: File, database: string, hasSessions: bool, lastSuccess: Option<int>,
      lock: Option<bool>)
    ensures var r := Readiness(file, database, hasSessions, lastSuccess, lock);
            var report := ReportFor(file, database);
            var state := if report.Some? then report.value.state else Running;
            var hidden := report.Some? && lastSuccess.Some? &&
              lastSuccess.value > (if report.value.finishedAt.Some? then report.value.finishedAt.value
                else report.value.startedAt);
            && (r.Err? <==>
                  && !file.Malformed?
                  && lock.None?
                  && state.Running?
                  && (report.Some? || (!hasSessions && lastSuccess.None?)))
            && (r.Ok? && r.value.state.UpToDate? <==>
                  && !file.Malformed?
                  && if report.None? then lastSuccess.Some?
                     else if state.Running? then hidden && lock == Some(false)
                     else hidden || state.Updated? || state.SkippedFresh?)
            && (r.Ok? && r.value.state.Postponed? <==>
                  && !file.Malformed?
                  && if report.None? then !hasSessions && lastSuccess.None? && lock == Some(true)
                     else
                       && !hidden
                       && if state.Running? then lock == Some(false)
                          else
                            || state.SkippedBusy?
                            || state.Cancelled?
                            || (state.Failed? && report.value.failureKind.Some?))
            && (r.Ok? && r.value.retryAfterMs.Some? ==>
                  r.value.retryAfterMs.value == if report.Some? && state.Failed? then 60_000 else 1_000)
  {
  }

  /** What a reader is told of an outcome. */
  function Told(outcome: Outcome): Status {
    match outcome
    case Refreshed(_, _) => Status(UpToDate, None)
    case Fresh => Status(UpToDate, None)
    case Busy => Status(Postponed, Some(1_000))
    case Stopped => Status(Postponed, Some(1_000))
    case Broken(Some(StorageFull)) => Status(Postponed, Some(60_000))
    case Broken(None) => Status(FailedWithRecovery, None)
  }

  /**
   * Once a process has published its outcome every reader is told just that, until something newer is written: the
   * report carries the process, its times and, after a refresh, its counts.
   */
  lemma ReadersSeeOutcome(w: World, pid: nat, now: int, hasSessions: bool, lastSuccess: Option<int>, lock: Option<bool>)
    requires PhaseFinishing(w, pid)
    requires w.processes[pid].phase.elected || !w.processes[pid].phase.outcome.Busy?
    requires Protected(w.file, w.processes[pid].database, pid) ==> w.processes[pid].database !in w.locks
    requires lastSuccess.Some? ==> lastSuccess.value <= now
    ensures var p := w.processes[pid];
            var file := Next(w, Publish(pid, now, true)).file;
            && Readiness(file, p.database, hasSessions, lastSuccess, lock) == Ok(Told(p.phase.outcome))
            && file.Recorded? && file.report.pid == pid && file.report.database == Some(p.database)
            && file.report.startedAt == p.startedAt && file.report.finishedAt == Some(now)
            && (p.phase.outcome.Refreshed? ==>
                  file.report.progress ==
                    Some(Progress(p.phase.outcome.files, p.phase.outcome.files, p.phase.outcome.sessions)))
  {
  }

  /**
   * A published election and published progress name the process, its database and its start, with the counts so
   * far.
   */
  lemma RunningReportsExact(w: World, pid: nat, progress: Progress)
    requires pid in w.processes && !Protected(w.file, w.processes[pid].database, pid)
    ensures var p := w.processes[pid];
            && (p.phase.Elected? ==>
                  Next(w, RecordElection(pid, true)).file ==
                    Recorded(Report(Some(p.database), Running, p.startedAt, None, pid, p.progress, None)))
            && (p.phase.Working? ==>
                  Next(w, RecordProgress(pid, progress, true)).file ==
                    Recorded(Report(Some(p.database), Running, p.startedAt, None, pid, Some(progress), None)))
  {
  }
}
