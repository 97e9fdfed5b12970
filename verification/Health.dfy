/** The health of a dataset, derived from records kept elsewhere, and the alert pass over its changes. */
module Health {
  import opened Common

  datatype Status = Failing | Overdue | Stale | Unknown | Healthy

  datatype Failure = Failure(code: string, subject: string)

  datatype BuildStatus = Queued | Running | Succeeded | Failed

  datatype Expectation = Expectation(passed: bool, severity: string)

  /** The latest build task of a dataset and its parent build. */
  datatype Task = Task(status: BuildStatus, failure: Option<Failure>, expectations: seq<Expectation>,
                       buildStatus: BuildStatus, buildFailure: Option<Failure>)

  datatype Action = Build | Sync

  datatype Trigger = Cron(nextRun: Option<real>) | Upstream(dataset: string, watermark: Option<int>) | Manual

  datatype Schedule = Schedule(name: string, enabled: bool, action: Action, targets: seq<string>, source: string,
                               trigger: Trigger, lastRunAt: string, lastFailed: bool, lastFailure: Option<Failure>)

  datatype Source = Source(name: string, lastSyncFailed: bool, lastFailure: Option<Failure>)

  /** Everything the derivation reads about one dataset: `version` holds the parsed time of the latest one. */
  datatype Records = Records(task: Option<Task>, version: Option<Option<real>>, freshWithin: Option<real>,
                             schedules: seq<Schedule>, source: Option<Source>, latestVersions: map<string, int>)

  datatype Report = Report(status: Status, failure: Option<Failure>, scheduleOverdue: bool, syncFailing: bool,
                           lastScheduledRun: Option<string>, overdueSchedules: seq<string>)

  // ----- the parts of the derivation -----

  predicate Targets(s: Schedule, name: string, source: Option<Source>) {
    s.enabled &&
    ((s.action == Build && (s.targets == [] || name in s.targets))
     || (s.action == Sync && source.Some? && s.source == source.value.name))
  }

  /** `_schedule_overdue`. */
  predicate ScheduleOverdue(s: Schedule, latest: map<string, int>, now: real, slack: real) {
    match s.trigger
    case Cron(next) => next.Some? && now - next.value > slack
    case Upstream(dataset, watermark) =>
      dataset in latest && latest[dataset] - (if watermark.Some? then watermark.value else 0) > 1
    case Manual => false
  }

  predicate AnyOverdue(name: string, r: Records, now: real, slack: real) {
    exists s :: s in r.schedules && Targets(s, name, r.source) && ScheduleOverdue(s, r.latestVersions, now, slack)
  }

  function OverdueNames(name: string, r: Records, schedules: seq<Schedule>, now: real, slack: real): seq<string> {
    if schedules == [] then []
    else
      var s := schedules[|schedules| - 1];
      OverdueNames(name, r, schedules[..|schedules| - 1], now, slack)
      + if Targets(s, name, r.source) && ScheduleOverdue(s, r.latestVersions, now, slack) then [s.name] else []
  }

  predicate RunFailed(s: Schedule) {
    s.action == Build && s.lastFailed
  }

  predicate AnyRunFailed(name: string, r: Records) {
    exists s :: s in r.schedules && Targets(s, name, r.source) && RunFailed(s)
  }

  /** A task whose build failed underneath it has failed, whatever its own row still says. */
  predicate TaskFailed(r: Records) {
    r.task.Some? && (r.task.value.status == Failed
                     || (r.task.value.buildStatus == Failed && r.task.value.status != Succeeded))
  }

  predicate ErrorIn(expectations: seq<Expectation>) {
    exists e :: e in expectations && !e.passed && e.severity == "error"
  }

  predicate ExpectationFailed(r: Records) {
    r.task.Some? && ErrorIn(r.task.value.expectations)
  }

  predicate SyncFailing(r: Records) {
    r.source.Some? && r.source.value.lastSyncFailed
  }

  predicate IsStale(r: Records, now: real) {
    r.freshWithin.Some? &&
    (r.version.None? || r.version.value.None? || now - r.version.value.value > r.freshWithin.value)
  }

  function StatusOf(name: string, r: Records, now: real, slack: real): Status {
    if TaskFailed(r) || ExpectationFailed(r) || SyncFailing(r) || AnyRunFailed(name, r) then Failing
    else if AnyOverdue(name, r, now, slack) then Overdue
    else if IsStale(r, now) then Stale
    else if r.version.None? && r.task.None? && r.freshWithin.None? then Unknown
    else Healthy
  }

  // ----- what a status says -----

  /** An enabled schedule that builds this dataset, by name or with everything, or that syncs its source. */
  ghost predicate Concerns(s: Schedule, name: string, source: Option<Source>) {
    && s.enabled
    && match s.action
       case Build => |s.targets| == 0 || exists i :: 0 <= i < |s.targets| && s.targets[i] == name
       case Sync => source.Some? && source.value.name == s.source
  }

  /** A cron schedule past its time by more than the slack, or one on an upstream that is two versions ahead or more. */
  ghost predicate Late(s: Schedule, latest: map<string, int>, now: real, slack: real) {
    || (s.trigger.Cron? && s.trigger.nextRun.Some? && now > s.trigger.nextRun.value + slack)
    || (s.trigger.Upstream? && s.trigger.dataset in latest
        && latest[s.trigger.dataset] >= 2 + (if s.trigger.watermark.Some? then s.trigger.watermark.value else 0))
  }

  /** Something has failed: the latest task or the build under it, an expectation, the sync, or a scheduled build. */
  ghost predicate HasFailed(name: string, r: Records) {
    || TaskBroken(r)
    || (r.task.Some? && exists e :: e in r.task.value.expectations && !e.passed && e.severity == "error")
    || (r.source.Some? && r.source.value.lastSyncFailed)
    || exists s :: s in r.schedules && Concerns(s, name, r.source) && s.action == Build && s.lastFailed
  }

  ghost predicate TaskBroken(r: Records) {
    && r.task.Some?
    && (r.task.value.status == Failed || (r.task.value.buildStatus == Failed && r.task.value.status != Succeeded))
  }

  ghost predicate IsLate(name: string, r: Records, now: real, slack: real) {
    exists s :: s in r.schedules && Concerns(s, name, r.source) && Late(s, r.latestVersions, now, slack)
  }

  /** A declared freshness that is not kept: nothing built yet, or built too long ago. */
  ghost predicate PromiseBroken(r: Records, now: real) {
    && r.freshWithin.Some?
    && !(r.version.Some? && r.version.value.Some? && now <= r.version.value.value + r.freshWithin.value)
  }

  /** Each status, exactly, by what the records say; the worst of what applies. */
  lemma StatusExactly(name: string, r: Records, now: real, slack: real)
    ensures var s := StatusOf(name, r, now, slack);
            && (s == Failing <==> HasFailed(name, r))
            && (s == Overdue <==> !HasFailed(name, r) && IsLate(name, r, now, slack))
            && (s == Stale <==> !HasFailed(name, r) && !IsLate(name, r, now, slack) && PromiseBroken(r, now))
            && (s == Unknown <==>
                  && !HasFailed(name, r) && !IsLate(name, r, now, slack)
                  && r.version.None? && r.task.None? && r.freshWithin.None?)
  {
    forall s: Schedule
      ensures Targets(s, name, r.source) <==> Concerns(s, name, r.source)
      ensures ScheduleOverdue(s, r.latestVersions, now, slack) <==> Late(s, r.latestVersions, now, slack)
    {
    }
  }

  ghost predicate IsOverdue(name: string, r: Records, s: Schedule, now: real, slack: real) {
    Concerns(s, name, r.source) && Late(s, r.latestVersions, now, slack)
  }

  /** The positions, each once and in order, with the names found there. */
  ghost predicate NamedAt(ks: seq<nat>, schedules: seq<Schedule>, names: seq<string>) {
    && |ks| == |names|
    && (forall i :: 0 <= i < |ks| ==> ks[i] < |schedules| && schedules[ks[i]].name == names[i])
    && forall i, j :: 0 <= i < j < |ks| ==> ks[i] < ks[j]
  }

  /** The names a report gives as overdue are those of the schedules that are, each once, in order. */
  lemma {:induction false} OverdueNamesExactly(name: string, r: Records, schedules: seq<Schedule>, now: real,
      slack: real)
    returns (ks: seq<nat>)
    ensures NamedAt(ks, schedules, OverdueNames(name, r, schedules, now, slack))
    ensures forall k :: 0 <= k < |schedules| ==> (k in ks <==> IsOverdue(name, r, schedules[k], now, slack))
  {
    if schedules == [] {
      ks := [];
    } else {
      var k := |schedules| - 1;
      var front := OverdueNamesExactly(name, r, schedules[..k], now, slack);
      var names := OverdueNames(name, r, schedules[..k], now, slack);
      var last := IsOverdue(name, r, schedules[k], now, slack);
      ks := front + if last then [k] else [];
      NamedOnward(front, schedules, names, last);
      assert OverdueNames(name, r, schedules, now, slack) == names + if last then [schedules[k].name] else [];
      forall n | 0 <= n < k
        ensures n in ks <==> IsOverdue(name, r, schedules[n], now, slack)
      {
        assert schedules[..k][n] == schedules[n];
      }
    }
  }

  lemma NamedOnward(front: seq<nat>, schedules: seq<Schedule>, names: seq<string>, last: bool)
    requires schedules != [] && NamedAt(front, schedules[..|schedules| - 1], names)
    ensures var k := |schedules| - 1;
            && NamedAt(front + (if last then [k] else []), schedules,
                       names + if last then [schedules[k].name] else [])
            && (k in front + (if last then [k] else []) <==> last)
  {
  }

  // ----- the derivation as it runs -----

  /** The i-th schedule is the first one of this dataset whose latest run failed. */
  ghost predicate FirstFailed(name: string, r: Records, i: nat) {
    && i < |r.schedules| && Concerns(r.schedules[i], name, r.source) && RunFailed(r.schedules[i])
    && forall j :: 0 <= j < i ==> !(Concerns(r.schedules[j], name, r.source) && RunFailed(r.schedules[j]))
  }

  lemma FirstFailedOnce(name: string, r: Records, i: nat, j: nat)
    requires FirstFailed(name, r, i) && FirstFailed(name, r, j)
    ensures i == j
  {
  }

  /** The schedules of this dataset whose latest run failed. */
  function FailedOf(name: string, source: Option<Source>, schedules: seq<Schedule>): seq<Schedule> {
    if schedules == [] then []
    else
      var s := schedules[|schedules| - 1];
      FailedOf(name, source, schedules[..|schedules| - 1])
      + if Targets(s, name, source) && RunFailed(s) then [s] else []
  }

  lemma {:induction false} FailedOfExactly(name: string, r: Records, n: nat)
    requires n <= |r.schedules|
    ensures var failed := FailedOf(name, r.source, r.schedules[..n]);
            && (failed == [] ==>
                  forall j :: 0 <= j < n ==> !(Concerns(r.schedules[j], name, r.source) && RunFailed(r.schedules[j])))
            && (failed != [] ==> exists i: nat :: i < n && FirstFailed(name, r, i) && failed[0] == r.schedules[i])
  {
    if n > 0 {
      FailedOfExactly(name, r, n - 1);
      assert r.schedules[..n][..n - 1] == r.schedules[..n - 1];
      var s := r.schedules[n - 1];
      if FailedOf(name, r.source, r.schedules[..n - 1]) == [] && Targets(s, name, r.source) && RunFailed(s) {
        assert FirstFailed(name, r, n - 1);
      }
    }
  }

  lemma {:induction false} AllFailed(name: string, r: Records)
    ensures var failed := FailedOf(name, r.source, r.schedules);
            && (failed != [] <==> AnyRunFailed(name, r))
            && (failed == [] ==> forall i: nat :: !FirstFailed(name, r, i))
            && (failed != [] ==> exists i: nat :: FirstFailed(name, r, i) && failed[0] == r.schedules[i])
            && forall i: nat, j: nat :: FirstFailed(name, r, i) && FirstFailed(name, r, j) ==> i == j
  {
    FailedOfExactly(name, r, |r.schedules|);
    assert r.schedules[..|r.schedules|] == r.schedules;
    forall i: nat, j: nat | FirstFailed(name, r, i) && FirstFailed(name, r, j)
      ensures i == j
    {
      FirstFailedOnce(name, r, i, j);
    }
  }

  method OverSchedules(name: string, r: Records, now: real, slack: real)
    returns (overdue: bool, overdueNames: seq<string>, failed: seq<Schedule>, lastRun: Option<string>)
    ensures overdue == AnyOverdue(name, r, now, slack) && (failed != [] <==> AnyRunFailed(name, r))
    ensures failed == FailedOf(name, r.source, r.schedules)
    ensures overdueNames == OverdueNames(name, r, r.schedules, now, slack)
    ensures LastRunIs(name, r.source, r.schedules, lastRun)
  {
    overdue, overdueNames, failed, lastRun := false, [], [], None;
    for i := 0 to |r.schedules|
      invariant overdue <==> AnyOverdue(name, r.(schedules := r.schedules[..i]), now, slack)
      invariant failed == FailedOf(name, r.source, r.schedules[..i])
      invariant overdueNames == OverdueNames(name, r, r.schedules[..i], now, slack)
      invariant LastRunIs(name, r.source, r.schedules[..i], lastRun)
    {
      var s := r.schedules[i];
      StepOver(name, r, now, slack, i, lastRun);
      assert r.schedules[..i + 1][..i] == r.schedules[..i];
      if Targets(s, name, r.source) {
        if s.lastRunAt != "" && (lastRun.None? || Above(s.lastRunAt, lastRun.value)) {
          lastRun := Some(s.lastRunAt);
        }
        if ScheduleOverdue(s, r.latestVersions, now, slack) {
          overdue := true;
          overdueNames := overdueNames + [s.name];
        }
        if RunFailed(s) {
          failed := failed + [s];
        }
      }
    }
    assert r.schedules[..|r.schedules|] == r.schedules;
    assert r.(schedules := r.schedules) == r;
    AllFailed(name, r);
  }

  /** The failure recorded for a schedule or a source, under the dataset's own name. */
  ghost predicate Resubjected(shown: Option<Failure>, recorded: Failure, name: string) {
    shown.Some? && shown.value.code == recorded.code && shown.value.subject == "dataset:" + name
  }

  /**
   The failure a report carries: the broken task's or its build's; else that of the first schedule whose run failed;
   else, where that has none recorded, the failing sync's. The last two under the dataset's name.
   */
  ghost predicate ShowsFailure(name: string, r: Records, shown: Option<Failure>) {
    if TaskBroken(r) then
      shown == if r.task.value.failure.Some? then r.task.value.failure else r.task.value.buildFailure
    else if exists i: nat :: FirstFailed(name, r, i) && r.schedules[i].lastFailure.Some? then
      exists i: nat :: && FirstFailed(name, r, i) && r.schedules[i].lastFailure.Some?
                       && Resubjected(shown, r.schedules[i].lastFailure.value, name)
    else if r.source.Some? && r.source.value.lastSyncFailed && r.source.value.lastFailure.Some? then
      Resubjected(shown, r.source.value.lastFailure.value, name)
    else shown.None?
  }

  method WhichFailure(name: string, r: Records, failed: seq<Schedule>) returns (failure: Option<Failure>)
    requires failed == FailedOf(name, r.source, r.schedules)
    ensures ShowsFailure(name, r, failure)
  {
    AllFailed(name, r);
    if TaskFailed(r) {
      return if r.task.value.failure.Some? then r.task.value.failure else r.task.value.buildFailure;
    }
    if failed != [] && failed[0].lastFailure.Some? {
      return Some(failed[0].lastFailure.value.(subject := "dataset:" + name));
    }
    if r.source.Some? && r.source.value.lastSyncFailed && r.source.value.lastFailure.Some? {
      return Some(r.source.value.lastFailure.value.(subject := "dataset:" + name));
    }
    return None;
  }

  /** `_one`: flags and lists accumulated over the expectations and the schedules. */
  method One(name: string, r: Records, now: real, slack: real) returns (report: Report)
    ensures report.status == StatusOf(name, r, now, slack)
    ensures report.scheduleOverdue == AnyOverdue(name, r, now, slack) && report.syncFailing == SyncFailing(r)
    ensures report.overdueSchedules == OverdueNames(name, r, r.schedules, now, slack)
    ensures ShowsFailure(name, r, report.failure)
    // A failure that is not the build task's own never carries a schedule's or a source's name.
    ensures report.failure.Some? && !TaskFailed(r) ==> report.failure.value.subject == "dataset:" + name
    ensures LastRunIs(name, r.source, r.schedules, report.lastScheduledRun)
  {
    var expError := r.task.Some? && ErrorIn(r.task.value.expectations);
    var overdue, overdueNames, failed, lastRun := OverSchedules(name, r, now, slack);
    var syncFailing := r.source.Some? && r.source.value.lastSyncFailed;
    var taskFailed := TaskFailed(r);
    var failure := WhichFailure(name, r, failed);
    var status :=
      if taskFailed || expError || syncFailing || failed != [] then Failing
      else if overdue then Overdue
      else if IsStale(r, now) then Stale
      else if r.version.None? && r.task.None? && r.freshWithin.None? then Unknown
      else Healthy;
    return Report(status, failure, overdue, syncFailing, lastRun, overdueNames);
  }

  /** The latest run, as text, of the schedules that target the dataset. */
  ghost predicate LastRunIs(name: string, source: Option<Source>, schedules: seq<Schedule>, lastRun: Option<string>) {
    && (lastRun.Some? ==> exists s :: s in schedules && Targets(s, name, source) && s.lastRunAt == lastRun.value)
    && (lastRun.Some? ==> forall s :: s in schedules && Targets(s, name, source) ==> !Above(s.lastRunAt, lastRun.value))
    && (lastRun.None? ==> forall s :: s in schedules && Targets(s, name, source) ==> s.lastRunAt == "")
  }

  lemma StepOver(name: string, r: Records, now: real, slack: real, i: nat, lastRun: Option<string>)
    requires i < |r.schedules| && LastRunIs(name, r.source, r.schedules[..i], lastRun)
    ensures var before, after := r.(schedules := r.schedules[..i]), r.(schedules := r.schedules[..i + 1]);
            var s := r.schedules[i];
            && (AnyOverdue(name, after, now, slack) <==>
                  AnyOverdue(name, before, now, slack)
                  || (Targets(s, name, r.source) && ScheduleOverdue(s, r.latestVersions, now, slack)))
            && (AnyRunFailed(name, after) <==>
                  AnyRunFailed(name, before) || (Targets(s, name, r.source) && RunFailed(s)))
            && (LastRunIs(name, r.source, r.schedules[..i + 1],
                  if Targets(s, name, r.source) && s.lastRunAt != ""
                    && (lastRun.None? || Above(s.lastRunAt, lastRun.value))
                  then Some(s.lastRunAt) else lastRun))
  {
    var s := r.schedules[i];
    assert r.schedules[..i + 1] == r.schedules[..i] + [s];
    assert forall x :: x in r.schedules[..i + 1] <==> x in r.schedules[..i] || x == s;
    AboveStrict(s.lastRunAt);
    forall x | x in r.schedules[..i] && lastRun.Some? && Above(s.lastRunAt, lastRun.value)
      && Above(x.lastRunAt, s.lastRunAt)
      ensures Above(x.lastRunAt, lastRun.value)
    {
      AboveTransitive(x.lastRunAt, s.lastRunAt, lastRun.value);
    }
  }

  // ----- severity -----

  function Severity(s: Status): nat {
    match s
    case Failing => 4
    case Overdue => 3
    case Stale => 2
    case Unknown => 1
    case Healthy => 0
  }

  /** With the records fixed, things only get worse: later, or under more schedules, in any order. */
  lemma SeverityNeverFalls(name: string, r: Records, r': Records, now: real, now': real, slack: real)
    requires now <= now' && r' == r.(schedules := r'.schedules)
    requires forall s :: s in r.schedules ==> s in r'.schedules
    ensures Severity(StatusOf(name, r, now, slack)) <= Severity(StatusOf(name, r', now', slack))
  {
    if AnyOverdue(name, r, now, slack) {
      var s :| s in r.schedules && Targets(s, name, r.source) && ScheduleOverdue(s, r.latestVersions, now, slack);
      assert s in r'.schedules && ScheduleOverdue(s, r'.latestVersions, now', slack);
    }
    if AnyRunFailed(name, r) {
      var s :| s in r.schedules && Targets(s, name, r.source) && RunFailed(s);
      assert s in r'.schedules;
    }
  }

  lemma OrderDoesNotMatter(name: string, r: Records, r': Records, now: real, slack: real)
    requires r' == r.(schedules := r'.schedules) && multiset(r.schedules) == multiset(r'.schedules)
    ensures StatusOf(name, r, now, slack) == StatusOf(name, r', now, slack)
  {
    assert forall s :: s in r.schedules <==> s in multiset(r.schedules);
    assert forall s :: s in r'.schedules <==> s in multiset(r'.schedules);
    SeverityNeverFalls(name, r, r', now, now, slack);
    SeverityNeverFalls(name, r', r, now, now, slack);
  }

  /** What a clean bill of health rules out. */
  lemma HealthyMeans(name: string, r: Records, now: real, slack: real)
    requires StatusOf(name, r, now, slack) == Healthy
    ensures forall s :: s in r.schedules && Targets(s, name, r.source) ==>
              !ScheduleOverdue(s, r.latestVersions, now, slack) && !RunFailed(s)
    ensures r.freshWithin.Some? ==>
              r.version.Some? && r.version.value.Some? && now - r.version.value.value <= r.freshWithin.value
    ensures r.version.Some? || r.task.Some?
  {
    forall s | s in r.schedules && Targets(s, name, r.source)
      ensures !ScheduleOverdue(s, r.latestVersions, now, slack) && !RunFailed(s)
    {
      assert !AnyOverdue(name, r, now, slack) && !AnyRunFailed(name, r);
    }
  }

  // ----- alerts -----

  datatype Event = DatasetFailing | DatasetOverdue | DatasetStale | DatasetHealthy

  datatype Fired = Fired(dataset: string, event: Event, status: Status)

  predicate IsRed(s: Status) {
    s == Failing || s == Overdue || s == Stale
  }

  /** The event of a change of status, if it has one: unknown and healthy change places in silence. */
  function EventOf(before: Option<Status>, after: Status): Option<Event> {
    match after
    case Failing => Some(DatasetFailing)
    case Overdue => Some(DatasetOverdue)
    case Stale => Some(DatasetStale)
    case Healthy => if before.Some? && IsRed(before.value) then Some(DatasetHealthy) else None
    case Unknown => None
  }

  predicate IsRedEvent(e: Event) {
    e != DatasetHealthy
  }

  type States = map<string, Status>

  function Known(states: States, name: string): Option<Status> {
    if name in states then Some(states[name]) else None
  }

  /** What one dataset's record does in a pass. */
  function Observed(states: States, name: string, status: Status): (States, seq<Fired>) {
    if Known(states, name) == Some(status) then (states, [])
    else
      var e := EventOf(Known(states, name), status);
      (states[name := status], if e.Some? then [Fired(name, e.value, status)] else [])
  }

  datatype Observation = Observation(dataset: string, status: Status)

  /** A pass looks each dataset up in the states as they stood before it; names come once. */
  function Pass(states: States, current: seq<Observation>): (States, seq<Fired>) {
    if current == [] then (states, [])
    else
      var (s, fired) := Pass(states, current[..|current| - 1]);
      var o := current[|current| - 1];
      var (s', more) := Observed(s, o.dataset, o.status);
      (s', fired + more)
  }

  predicate NamedOnce(current: seq<Observation>) {
    forall i, j :: 0 <= i < j < |current| ==> current[i].dataset != current[j].dataset
  }

  lemma {:induction false} PassOne(states: States, current: seq<Observation>, i: nat)
    requires i < |current|
    ensures var (s, fired) := Pass(states, current[..i]);
            var (s', more) := Observed(s, current[i].dataset, current[i].status);
            Pass(states, current[..i + 1]) == (s', fired + more)
  {
    assert current[..i + 1][..i] == current[..i];
  }

  lemma {:induction false} PassNone(states: States)
    ensures Pass(states, []) == (states, [])
  {
  }

  class Alerts {
    var states: States
    var events: seq<Fired>

    constructor ()
      ensures states == map[] && events == []
    {
      states, events := map[], [];
    }

    /** `evaluate_and_alert`. */
    method EvaluateAndAlert(current: seq<Observation>) returns (fired: seq<Event>)
      requires NamedOnce(current)
      modifies this
      ensures states == Pass(old(states), current).0
      ensures events == old(events) + Pass(old(states), current).1
      ensures |fired| == |events| - |old(events)|
      ensures forall i :: 0 <= i < |fired| ==> fired[i] == events[|old(events)| + i].event
    {
      hide Pass;
      var previous := states;
      fired := [];
      PassNone(previous);
      assert current[..0] == [] && events == old(events) + [];
      for i := 0 to |current|
        invariant states == Pass(previous, current[..i]).0
        invariant events == old(events) + Pass(previous, current[..i]).1
        invariant forall j :: i <= j < |current| ==>
                    Known(states, current[j].dataset) == Known(previous, current[j].dataset)
        invariant |fired| == |events| - |old(events)|
        invariant forall j :: 0 <= j < |fired| ==> fired[j] == events[|old(events)| + j].event
      {
        var o := current[i];
        PassOne(previous, current, i);
        var before := if o.dataset in previous then Some(previous[o.dataset]) else None;
        if before != Some(o.status) {
          states := states[o.dataset := o.status];
          var event: Option<Event> := None;
          if o.status == Failing {
            event := Some(DatasetFailing);
          } else if o.status == Overdue {
            event := Some(DatasetOverdue);
          } else if o.status == Stale {
            event := Some(DatasetStale);
          } else if o.status == Healthy && before.Some? && IsRed(before.value) {
            event := Some(DatasetHealthy);
          }
          assert event == EventOf(before, o.status);
          if event.Some? {
            events := events + [Fired(o.dataset, event.value, o.status)];
            fired := fired + [event.value];
          }
        }
      }
      assert current[..|current|] == current;
    }
  }

  // ----- what a run of passes leaves behind -----

  /** One dataset's events, oldest first. */
  function EventsFor(events: seq<Fired>, name: string): seq<Event> {
    if events == [] then []
    else
      var f := events[|events| - 1];
      EventsFor(events[..|events| - 1], name) + if f.dataset == name then [f.event] else []
  }

  lemma {:induction false} EventsForConcat(a: seq<Fired>, b: seq<Fired>, name: string)
    ensures EventsFor(a + b, name) == EventsFor(a, name) + EventsFor(b, name)
  {
    if b == [] {
      assert a + b == a;
    } else {
      EventsForConcat(a, b[..|b| - 1], name);
      assert (a + b)[..|a + b| - 1] == a + b[..|b| - 1];
    }
  }

  function StatusIn(current: seq<Observation>, name: string): Option<Status> {
    if current == [] then None
    else if current[|current| - 1].dataset == name then Some(current[|current| - 1].status)
    else StatusIn(current[..|current| - 1], name)
  }

  function EventsOf(before: Option<Status>, after: Option<Status>): seq<Event> {
    if after.None? || before == after || EventOf(before, after.value).None? then []
    else [EventOf(before, after.value).value]
  }

  lemma {:induction false} ObservedExactly(states: States, o: Observation, name: string)
    ensures var (s, fired) := Observed(states, o.dataset, o.status);
            && Known(s, name) == (if o.dataset == name then Some(o.status) else Known(states, name))
            && EventsFor(fired, name)
               == (if o.dataset == name then EventsOf(Known(states, name), Some(o.status)) else [])
  {
    var (_, fired) := Observed(states, o.dataset, o.status);
    if fired != [] {
      assert fired[..0] == [];
    }
  }

  /**
   A pass is exact for each dataset: the persisted status becomes the derived one, and the events fired for it
   are the one its change of status calls for, or none.
   */
  lemma {:induction false} PassExactly(states: States, current: seq<Observation>, name: string)
    requires NamedOnce(current)
    ensures var (s, fired) := Pass(states, current);
            && Known(s, name)
               == (if StatusIn(current, name).Some? then StatusIn(current, name) else Known(states, name))
            && EventsFor(fired, name) == EventsOf(Known(states, name), StatusIn(current, name))
  {
    if current != [] {
      var n := |current| - 1;
      var front, o := current[..n], current[n];
      PassExactly(states, front, name);
      var (s, fired) := Pass(states, front);
      ObservedExactly(s, o, name);
      EventsForConcat(fired, Observed(s, o.dataset, o.status).1, name);
      if o.dataset == name {
        NotNamed(front, name);
      }
    }
  }

  lemma {:induction false} NotNamed(current: seq<Observation>, name: string)
    requires forall i :: 0 <= i < |current| ==> current[i].dataset != name
    ensures StatusIn(current, name) == None
  {
    if current != [] {
      NotNamed(current[..|current| - 1], name);
    }
  }

  function AfterPasses(states: States, events: seq<Fired>, passes: seq<seq<Observation>>): (States, seq<Fired>)
    decreases |passes|
  {
    if passes == [] then (states, events)
    else
      var (s, fired) := Pass(states, passes[0]);
      AfterPasses(s, events + fired, passes[1..])
  }

  /** Every recovery comes straight after a red event. */
  predicate RecoveriesFollowRed(es: seq<Event>) {
    forall i :: 0 <= i < |es| && es[i] == DatasetHealthy ==> i > 0 && IsRedEvent(es[i - 1])
  }

  function RedEvent(s: Status): Event
    requires IsRed(s)
  {
    match s
    case Failing => DatasetFailing
    case Overdue => DatasetOverdue
    case Stale => DatasetStale
  }

  /** A dataset persisted as red has that red event as its last one. */
  predicate InStep(known: Option<Status>, es: seq<Event>) {
    && RecoveriesFollowRed(es)
    && (known.Some? && IsRed(known.value) ==> es != [] && es[|es| - 1] == RedEvent(known.value))
  }

  lemma ChangeKeepsInStep(known: Option<Status>, es: seq<Event>, after: Option<Status>)
    requires InStep(known, es)
    ensures InStep(if after.Some? then after else known, es + EventsOf(known, after))
  {
    var es' := es + EventsOf(known, after);
    if es' != es {
      assert es'[..|es|] == es;
      assert es'[|es|] == EventOf(known, after.value).value;
    }
  }

  /** Over any run of passes: a recovery event always closes the red event fired just before it. */
  lemma {:induction false} RunKeepsInStep(states: States, events: seq<Fired>, passes: seq<seq<Observation>>,
      name: string)
    requires forall p :: p in passes ==> NamedOnce(p)
    requires InStep(Known(states, name), EventsFor(events, name))
    ensures var (s, es) := AfterPasses(states, events, passes); InStep(Known(s, name), EventsFor(es, name))
    decreases |passes|
  {
    if passes != [] {
      var (s, fired) := Pass(states, passes[0]);
      assert passes[0] in passes;
      PassExactly(states, passes[0], name);
      EventsForConcat(events, fired, name);
      ChangeKeepsInStep(Known(states, name), EventsFor(events, name), StatusIn(passes[0], name));
      RunKeepsInStep(s, events + fired, passes[1..], name);
    }
  }

  /** The statuses a run derives for one dataset. */
  function Derived(passes: seq<seq<Observation>>, name: string): seq<Status> {
    if passes == [] then []
    else
      (if StatusIn(passes[0], name).Some? then [StatusIn(passes[0], name).value] else []) + Derived(passes[1..], name)
  }

  /** The events of a sequence of statuses. */
  function Edges(before: Option<Status>, statuses: seq<Status>): seq<Event>
    decreases |statuses|
  {
    if statuses == [] then [] else EventsOf(before, Some(statuses[0])) + Edges(Some(statuses[0]), statuses[1..])
  }

  /** A dataset's event history depends on its own statuses alone, whatever happens to the others beside it. */
  lemma {:induction false} HistoryIsItsOwn(states: States, events: seq<Fired>, passes: seq<seq<Observation>>,
      name: string)
    requires forall p :: p in passes ==> NamedOnce(p)
    ensures EventsFor(AfterPasses(states, events, passes).1, name)
            == EventsFor(events, name) + Edges(Known(states, name), Derived(passes, name))
    decreases |passes|
  {
    if passes != [] {
      var (s, fired) := Pass(states, passes[0]);
      assert passes[0] in passes;
      assert EventsFor(events + fired, name)
             == EventsFor(events, name) + EventsOf(Known(states, name), StatusIn(passes[0], name))
        && Known(s, name)
           == (if StatusIn(passes[0], name).Some? then StatusIn(passes[0], name) else Known(states, name))
      by {
        PassExactly(states, passes[0], name);
        EventsForConcat(events, fired, name);
      }
      HistoryIsItsOwn(s, events + fired, passes[1..], name);
      JoinHistory(Known(states, name), StatusIn(passes[0], name), Derived(passes[1..], name), EventsFor(events, name));
    }
  }

  /** The persisted status is the last one derived. */
  lemma {:induction false} PersistedIsLast(states: States, events: seq<Fired>, passes: seq<seq<Observation>>,
      name: string)
    requires forall p :: p in passes ==> NamedOnce(p)
    ensures var derived := Derived(passes, name);
            Known(AfterPasses(states, events, passes).0, name)
            == if derived == [] then Known(states, name) else Some(derived[|derived| - 1])
    decreases |passes|
  {
    if passes != [] {
      var (s, fired) := Pass(states, passes[0]);
      assert passes[0] in passes;
      PassExactly(states, passes[0], name);
      PersistedIsLast(s, events + fired, passes[1..], name);
    }
  }

  lemma JoinHistory(known: Option<Status>, now: Option<Status>, rest: seq<Status>, past: seq<Event>)
    ensures (past + EventsOf(known, now)) + Edges(if now.Some? then now else known, rest)
            == past + Edges(known, (if now.Some? then [now.value] else []) + rest)
  {
    var first := EventsOf(known, now);
    if now.Some? {
      EdgesCons(known, now.value, rest);
      assert (past + first) + Edges(now, rest) == past + (first + Edges(now, rest));
    } else {
      assert [] + rest == rest && past + first == past;
    }
  }

  lemma {:induction false} EdgesCons(before: Option<Status>, now: Status, rest: seq<Status>)
    ensures Edges(before, [now] + rest) == EventsOf(before, Some(now)) + Edges(Some(now), rest)
  {
    assert ([now] + rest)[1..] == rest;
  }

  /** A pass in which no status moved changes nothing and fires nothing. */
  lemma {:induction false} QuietPass(states: States, current: seq<Observation>)
    requires forall o :: o in current ==> Known(states, o.dataset) == Some(o.status)
    ensures Pass(states, current) == (states, [])
  {
    if current != [] {
      assert current[|current| - 1] in current;
      QuietPass(states, current[..|current| - 1]);
      var none: seq<Fired> := [];
      assert none + none == none;
    }
  }

  /** Statuses that are none of the red ones. */
  predicate NoRed(statuses: seq<Status>) {
    forall s :: s in statuses ==> !IsRed(s)
  }

  /** Without a red status before or within, nothing fires. */
  lemma {:induction false} CalmIsSilent(before: Status, statuses: seq<Status>)
    requires !IsRed(before) && NoRed(statuses)
    ensures Edges(Some(before), statuses) == []
    decreases |statuses|
  {
    if statuses != [] {
      assert statuses[0] in statuses;
      CalmIsSilent(statuses[0], statuses[1..]);
    }
  }

  /** After the last red status an alert is closed exactly when the very next status is healthy. */
  lemma {:induction false} LastRedClosesExactly(red: Status, statuses: seq<Status>)
    requires IsRed(red) && NoRed(statuses)
    ensures Edges(Some(red), statuses) == if statuses != [] && statuses[0] == Healthy then [DatasetHealthy] else []
  {
    if statuses != [] {
      assert statuses[0] in statuses;
      CalmIsSilent(statuses[0], statuses[1..]);
    }
  }

  /**
   When an alert is closed, exactly, over whole runs: of a dataset persisted as red and red no more in any later
   pass, the run fires one recovery if the first status derived is healthy, and nothing otherwise. By way of
   unknown, a dataset turns healthy in silence.
   */
  lemma {:induction false} RecoveryExactly(states: States, events: seq<Fired>, passes: seq<seq<Observation>>,
      name: string)
    requires forall p :: p in passes ==> NamedOnce(p)
    requires Known(states, name).Some? && IsRed(Known(states, name).value) && NoRed(Derived(passes, name))
    ensures var derived := Derived(passes, name);
            EventsFor(AfterPasses(states, events, passes).1, name)
            == EventsFor(events, name) + if derived != [] && derived[0] == Healthy then [DatasetHealthy] else []
  {
    HistoryIsItsOwn(states, events, passes, name);
    LastRedClosesExactly(Known(states, name).value, Derived(passes, name));
  }
}
