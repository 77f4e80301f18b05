// The dashboard: three grouped queries merged into one summary per student.
module Dashboard {
  import opened Events
  import opened Order
  import opened Sums
  import opened Snapshots
  import opened Variation

  // A build or run event: its student, its time and its exit code.
  datatype Act = Act(student: string, at: int, exitCode: int)
  type Acts = map<EventId, Act>

  // A row of a grouped query: the student, the figures, and the first and last time.
  datatype Grouped<Figures> = Grouped(student: string, figures: Figures, first: int, last: int)

  datatype BuildFigures = BuildFigures(count: nat, failed: nat)
  datatype SizeFigures = SizeFigures(total: int, max: int)

  type BuildGroup = Grouped<BuildFigures>
  type RunGroup = Grouped<nat>
  type SizeGroup = Grouped<SizeFigures>

  datatype Summary = Summary(
    buildCount: nat, buildFailCount: nat, runCount: nat, totalSizeChange: int, maxSingleChange: int,
    firstActivity: Option<int>, lastActivity: Option<int>)

  const BLANK := Summary(0, 0, 0, 0, 0, None, None)

  function Of(acts: Acts, student: string): set<EventId> {
    set e | e in acts && acts[e].student == student
  }

  function Times(acts: Acts, student: string): set<int> {
    set e | e in acts && acts[e].student == student :: acts[e].at
  }

  function SnapTimes(t: Snaps, student: string): set<int> {
    set e | e in t && t[e].student == student :: t[e].at
  }

  function Students(acts: Acts): set<string> { set e | e in acts :: acts[e].student }
  function SnapStudents(t: Snaps): set<string> { set e | e in t :: t[e].student }

  ghost predicate IsMin(x: int, s: set<int>) { x in s && forall y | y in s :: x <= y }
  ghost predicate IsMax(x: int, s: set<int>) { x in s && forall y | y in s :: y <= x }

  predicate More(a: int, b: int) { a > b }

  ghost function Least(s: set<int>): (m: int)
    requires s != {}
    ensures IsMin(m, s)
  {
    MinOf(s, IntLess)
  }

  ghost function Greatest(s: set<int>): (m: int)
    requires s != {}
    ensures IsMax(m, s)
  {
    MinOf(s, More)
  }

  // ---- what the grouped queries return --------------------------------------------------------

  lemma ActsHaveTimes(acts: Acts, student: string)
    requires student in Students(acts)
    ensures Times(acts, student) != {}
  {
    var e :| e in acts && acts[e].student == student;
    assert acts[e].at in Times(acts, student);
  }

  lemma SnapsHaveTimes(t: Snaps, student: string)
    requires student in SnapStudents(t)
    ensures SnapTimes(t, student) != {}
  {
    var e :| e in t && t[e].student == student;
    assert t[e].at in SnapTimes(t, student);
  }

  function FailedOf(acts: Acts, student: string): set<EventId> {
    set e | e in acts && acts[e].student == student && acts[e].exitCode != 0
  }

  // count(id), sum(exit_code != 0), min and max of occurred_at
  ghost function BuildGroupOf(acts: Acts, student: string): BuildGroup
    requires student in Students(acts)
  {
    ActsHaveTimes(acts, student);
    Grouped(student, BuildFigures(|Of(acts, student)|, |FailedOf(acts, student)|),
            Least(Times(acts, student)), Greatest(Times(acts, student)))
  }

  ghost function RunGroupOf(acts: Acts, student: string): RunGroup
    requires student in Students(acts)
  {
    ActsHaveTimes(acts, student);
    Grouped(student, |Of(acts, student)|, Least(Times(acts, student)), Greatest(Times(acts, student)))
  }

  // sum, max of the size changes
  ghost function SizeGroupOf(t: Snaps, student: string): SizeGroup
    requires SnapsOk(t) && student in SnapStudents(t)
  {
    SnapsHaveTimes(t, student);
    Grouped(student, SizeFigures(TotalSizeChange(t, student), MaxSingleChange(t, student)),
            Least(SnapTimes(t, student)), Greatest(SnapTimes(t, student)))
  }

  function Names<Figures>(rows: seq<Grouped<Figures>>): (r: seq<string>)
    ensures |r| == |rows| && forall i | 0 <= i < |rows| :: rows[i].student == r[i]
  {
    seq(|rows|, i requires 0 <= i < |rows| => rows[i].student)
  }

  // GROUP BY, in whatever order: one row for each student among the keys that has any event.
  ghost predicate Groups(students: seq<string>, present: set<string>, keys: set<string>) {
    && (forall i, j | 0 <= i < j < |students| :: students[i] != students[j])
    && (forall s :: s in students <==> s in present && s in keys)
  }

  ghost predicate BuildQuery(acts: Acts, keys: set<string>, rows: seq<BuildGroup>) {
    && Groups(Names(rows), Students(acts), keys)
    && forall i | 0 <= i < |rows| :: rows[i].student in Students(acts) && rows[i] == BuildGroupOf(acts, rows[i].student)
  }

  ghost predicate RunQuery(acts: Acts, keys: set<string>, rows: seq<RunGroup>) {
    && Groups(Names(rows), Students(acts), keys)
    && forall i | 0 <= i < |rows| :: rows[i].student in Students(acts) && rows[i] == RunGroupOf(acts, rows[i].student)
  }

  ghost predicate SizeQuery(t: Snaps, keys: set<string>, rows: seq<SizeGroup>)
    requires SnapsOk(t)
  {
    && Groups(Names(rows), SnapStudents(t), keys)
    && forall i | 0 <= i < |rows| :: rows[i].student in SnapStudents(t) && rows[i] == SizeGroupOf(t, rows[i].student)
  }

  // ---- merging -----------------------------------------------------------------------------------

  function Earliest(a: Option<int>, b: int): Option<int> {
    if a.Some? && a.value <= b then a else Some(b)
  }

  function Latest(a: Option<int>, b: int): Option<int> {
    if a.Some? && a.value >= b then a else Some(b)
  }

  ghost predicate IsFirst(o: Option<int>, s: set<int>) {
    match o case None => s == {} case Some(x) => IsMin(x, s)
  }

  ghost predicate IsLast(o: Option<int>, s: set<int>) {
    match o case None => s == {} case Some(x) => IsMax(x, s)
  }

  lemma MergeTimes(first: Option<int>, last: Option<int>, s: set<int>, lo: int, hi: int, t: set<int>)
    requires IsFirst(first, s) && IsLast(last, s) && IsMin(lo, t) && IsMax(hi, t)
    ensures IsFirst(Earliest(first, lo), s + t) && IsLast(Latest(last, hi), s + t)
  {
  }

  // What a summary says of a student, given how far the three loops have come.
  ghost predicate Says(m: Summary, builds: Acts, runs: Acts, t: Snaps, student: string) {
    var times := Times(builds, student) + Times(runs, student) + SnapTimes(t, student);
    && SnapsOk(t)
    && m.buildCount == |Of(builds, student)|
    && m.buildFailCount == |FailedOf(builds, student)|
    && m.runCount == |Of(runs, student)|
    && m.totalSizeChange == TotalSizeChange(t, student)
    && m.maxSingleChange == MaxSingleChange(t, student)
    && IsFirst(m.firstActivity, times) && IsLast(m.lastActivity, times)
  }

  /** A summary in plain terms: how many builds, how many of them with an exit code other than zero, how many runs, the
      sum and the greatest of the size changes, and the first and the last time of any event of the student. */
  lemma SaysMeaning(m: Summary, builds: Acts, runs: Acts, t: Snaps, student: string)
    requires Says(m, builds, runs, t, student)
    ensures m.buildCount == |set e | e in builds && builds[e].student == student|
    ensures m.buildFailCount == |set e | e in builds && builds[e].student == student && builds[e].exitCode != 0|
    ensures m.runCount == |set e | e in runs && runs[e].student == student|
    ensures SnapsOk(t)
    ensures m.totalSizeChange == Sum(AbsDeltas(t, student)) && m.maxSingleChange == MaxOf(AbsDeltas(t, student))
    ensures m.firstActivity.Some? ==> HappenedAt(builds, runs, t, student, m.firstActivity.value)
    ensures m.lastActivity.Some? ==> HappenedAt(builds, runs, t, student, m.lastActivity.value)
    ensures forall at | HappenedAt(builds, runs, t, student, at) ::
      && m.firstActivity.Some? && m.firstActivity.value <= at
      && m.lastActivity.Some? && at <= m.lastActivity.value
  {
    hide SnapsOk, TotalSizeChange, MaxSingleChange, HappenedAt, Times, SnapTimes, Of, FailedOf;
    CountsMeaning(builds, student);
    CountsMeaning(runs, student);
    FiguresMeaning(t, student);
    forall at { TimesMeaning(builds, runs, t, student, at); }
  }

  lemma CountsMeaning(acts: Acts, student: string)
    ensures |Of(acts, student)| == |set e | e in acts && acts[e].student == student|
    ensures |FailedOf(acts, student)| == |set e | e in acts && acts[e].student == student && acts[e].exitCode != 0|
  {
    assert Of(acts, student) == set e | e in acts && acts[e].student == student;
    assert FailedOf(acts, student) == set e | e in acts && acts[e].student == student && acts[e].exitCode != 0;
  }

  lemma FiguresMeaning(t: Snaps, student: string)
    requires SnapsOk(t)
    ensures TotalSizeChange(t, student) == Sum(AbsDeltas(t, student))
    ensures MaxSingleChange(t, student) == MaxOf(AbsDeltas(t, student))
  {
  }

  lemma TimesMeaning(builds: Acts, runs: Acts, t: Snaps, student: string, at: int)
    ensures HappenedAt(builds, runs, t, student, at) <==>
      at in Times(builds, student) + Times(runs, student) + SnapTimes(t, student)
  {
  }

  // The student has an event of some kind at that time.
  ghost predicate HappenedAt(builds: Acts, runs: Acts, t: Snaps, student: string, at: int) {
    || (exists e | e in builds :: builds[e].student == student && builds[e].at == at)
    || (exists e | e in runs :: runs[e].student == student && runs[e].at == at)
    || (exists e | e in t :: t[e].student == student && t[e].at == at)
  }

  // One student's summary after each of the three loops has gone through some rows.
  function AfterBuilds(rows: seq<BuildGroup>, key: string): Summary {
    if rows == [] then BLANK else
      var m, g := AfterBuilds(rows[..|rows| - 1], key), rows[|rows| - 1];
      if g.student != key then m
      else m.(buildCount := g.figures.count, buildFailCount := g.figures.failed,
              firstActivity := Some(g.first), lastActivity := Some(g.last))
  }

  function AfterRuns(before: Summary, rows: seq<RunGroup>, key: string): Summary {
    if rows == [] then before else
      var m, g := AfterRuns(before, rows[..|rows| - 1], key), rows[|rows| - 1];
      if g.student != key then m
      else m.(runCount := g.figures, firstActivity := Earliest(m.firstActivity, g.first),
              lastActivity := Latest(m.lastActivity, g.last))
  }

  function AfterSizes(before: Summary, rows: seq<SizeGroup>, key: string): Summary {
    if rows == [] then before else
      var m, g := AfterSizes(before, rows[..|rows| - 1], key), rows[|rows| - 1];
      if g.student != key then m
      else m.(totalSizeChange := g.figures.total, maxSingleChange := g.figures.max,
              firstActivity := Earliest(m.firstActivity, g.first), lastActivity := Latest(m.lastActivity, g.last))
  }

  lemma {:induction false} BuildsOnce(rows: seq<BuildGroup>, key: string)
    requires forall i, j | 0 <= i < j < |rows| :: rows[i].student != rows[j].student
    ensures forall i | 0 <= i < |rows| && rows[i].student == key ::
      AfterBuilds(rows, key) == BLANK.(
        buildCount := rows[i].figures.count, buildFailCount := rows[i].figures.failed,
        firstActivity := Some(rows[i].first), lastActivity := Some(rows[i].last))
    ensures (forall i | 0 <= i < |rows| :: rows[i].student != key) ==> AfterBuilds(rows, key) == BLANK
  {
    if rows != [] { BuildsOnce(rows[..|rows| - 1], key); }
  }

  lemma {:induction false} RunsOnce(before: Summary, rows: seq<RunGroup>, key: string)
    requires forall i, j | 0 <= i < j < |rows| :: rows[i].student != rows[j].student
    ensures forall i | 0 <= i < |rows| && rows[i].student == key ::
      AfterRuns(before, rows, key) == before.(runCount := rows[i].figures,
        firstActivity := Earliest(before.firstActivity, rows[i].first),
        lastActivity := Latest(before.lastActivity, rows[i].last))
    ensures (forall i | 0 <= i < |rows| :: rows[i].student != key) ==> AfterRuns(before, rows, key) == before
  {
    if rows != [] { RunsOnce(before, rows[..|rows| - 1], key); }
  }

  lemma {:induction false} SizesOnce(before: Summary, rows: seq<SizeGroup>, key: string)
    requires forall i, j | 0 <= i < j < |rows| :: rows[i].student != rows[j].student
    ensures forall i | 0 <= i < |rows| && rows[i].student == key ::
      AfterSizes(before, rows, key) == before.(
        totalSizeChange := rows[i].figures.total, maxSingleChange := rows[i].figures.max,
        firstActivity := Earliest(before.firstActivity, rows[i].first),
        lastActivity := Latest(before.lastActivity, rows[i].last))
    ensures (forall i | 0 <= i < |rows| :: rows[i].student != key) ==> AfterSizes(before, rows, key) == before
  {
    if rows != [] { SizesOnce(before, rows[..|rows| - 1], key); }
  }

  lemma BuildsSay(builds: Acts, rows: seq<BuildGroup>, keys: set<string>, key: string)
    requires BuildQuery(builds, keys, rows) && key in keys
    ensures var m := AfterBuilds(rows, key);
      && m.buildCount == |Of(builds, key)| && m.runCount == m.totalSizeChange == m.maxSingleChange == 0
      && m.buildFailCount == |FailedOf(builds, key)|
      && IsFirst(m.firstActivity, Times(builds, key)) && IsLast(m.lastActivity, Times(builds, key))
  {
    var names := Names(rows);
    assert forall i, j | 0 <= i < j < |rows| :: names[i] != names[j];
    BuildsOnce(rows, key);
    if key in names {
      var i :| 0 <= i < |rows| && names[i] == key;
      assert rows[i] == BuildGroupOf(builds, key);
    } else {
      assert forall i | 0 <= i < |rows| :: names[i] != key;
      assert key !in Students(builds);
      assert Of(builds, key) == {} && Times(builds, key) == {};
    }
  }

  lemma RunsSay(runs: Acts, before: Summary, times: set<int>, rows: seq<RunGroup>, keys: set<string>, key: string)
    requires RunQuery(runs, keys, rows) && key in keys
    requires before.runCount == 0 && IsFirst(before.firstActivity, times) && IsLast(before.lastActivity, times)
    ensures var m := AfterRuns(before, rows, key);
      && m.runCount == |Of(runs, key)|
      && m == before.(runCount := m.runCount, firstActivity := m.firstActivity, lastActivity := m.lastActivity)
      && IsFirst(m.firstActivity, times + Times(runs, key)) && IsLast(m.lastActivity, times + Times(runs, key))
  {
    hide IsFirst, IsLast;
    var names := Names(rows);
    assert forall i, j | 0 <= i < j < |rows| :: names[i] != names[j];
    RunsOnce(before, rows, key);
    if key in names {
      var i :| 0 <= i < |rows| && names[i] == key;
      assert rows[i] == RunGroupOf(runs, key);
      MergeTimes(before.firstActivity, before.lastActivity, times, rows[i].first, rows[i].last, Times(runs, key));
    } else {
      assert forall i | 0 <= i < |rows| :: names[i] != key;
      assert key !in Students(runs);
      assert Of(runs, key) == {} && times + Times(runs, key) == times;
    }
  }

  lemma SizesSay(t: Snaps, before: Summary, times: set<int>, rows: seq<SizeGroup>, keys: set<string>, key: string)
    requires SnapsOk(t) && SizeQuery(t, keys, rows) && key in keys
    requires before.totalSizeChange == before.maxSingleChange == 0
    requires IsFirst(before.firstActivity, times) && IsLast(before.lastActivity, times)
    ensures var m := AfterSizes(before, rows, key);
      && m.totalSizeChange == TotalSizeChange(t, key) && m.maxSingleChange == MaxSingleChange(t, key)
      && m.buildCount == before.buildCount && m.buildFailCount == before.buildFailCount && m.runCount == before.runCount
      && IsFirst(m.firstActivity, times + SnapTimes(t, key)) && IsLast(m.lastActivity, times + SnapTimes(t, key))
  {
    hide IsFirst, IsLast, SnapsOk, TotalSizeChange, MaxSingleChange;
    var names := Names(rows);
    assert forall i, j | 0 <= i < j < |rows| :: names[i] != names[j];
    SizesOnce(before, rows, key);
    if key in names {
      var i :| 0 <= i < |rows| && names[i] == key;
      assert rows[i] == SizeGroupOf(t, key);
      MergeTimes(before.firstActivity, before.lastActivity, times, rows[i].first, rows[i].last, SnapTimes(t, key));
    } else {
      assert forall i | 0 <= i < |rows| :: names[i] != key;
      assert key !in SnapStudents(t);
      NothingChanged(t, key);
      assert times + SnapTimes(t, key) == times;
    }
  }

  lemma NothingChanged(t: Snaps, key: string)
    requires SnapsOk(t) && key !in SnapStudents(t)
    ensures TotalSizeChange(t, key) == 0 && MaxSingleChange(t, key) == 0 && SnapTimes(t, key) == {}
  {
    assert AbsDeltas(t, key) == map[];
  }

  /** One summary for each distinct requested student, whether or not anything is known of them: the
      counts, the size changes, and the first and last time over all three kinds of events, none if
      there are no events. The rows are what the three grouped queries return. */
  method DashboardSummaries(studentKeys: seq<string>, buildRows: seq<BuildGroup>, runRows: seq<RunGroup>,
                            snapshotRows: seq<SizeGroup>, ghost builds: Acts, ghost runs: Acts, ghost t: Snaps)
    returns (summaries: map<string, Summary>)
    requires SnapsOk(t)
    requires var keys := set k | k in studentKeys;
      BuildQuery(builds, keys, buildRows) && RunQuery(runs, keys, runRows) && SizeQuery(t, keys, snapshotRows)
    ensures summaries.Keys == set k | k in studentKeys
    ensures forall key | key in summaries :: Says(summaries[key], builds, runs, t, key)
    ensures forall key | key in summaries ::
      && summaries[key].buildCount == |set e | e in builds && builds[e].student == key|
      && summaries[key].buildFailCount == |set e | e in builds && builds[e].student == key && builds[e].exitCode != 0|
      && summaries[key].runCount == |set e | e in runs && runs[e].student == key|
  {
    hide *;
    var blank := map key | key in studentKeys :: BLANK;
    ghost var keys := set k | k in studentKeys;
    assert blank.Keys == keys;
    QueriedKeys(builds, runs, t, buildRows, runRows, snapshotRows, keys);
    var afterBuilds := MergeBuilds(blank, buildRows);
    var afterRuns := MergeRuns(afterBuilds, runRows);
    summaries := MergeSizes(afterRuns, snapshotRows);
    forall key | key in summaries ensures Says(summaries[key], builds, runs, t, key) {
      AllSay(builds, runs, t, buildRows, runRows, snapshotRows, keys, key);
    }
    forall key | key in summaries { SaysMeaning(summaries[key], builds, runs, t, key); }
  }

  lemma QueriedKeys(builds: Acts, runs: Acts, t: Snaps, buildRows: seq<BuildGroup>, runRows: seq<RunGroup>,
                    snapshotRows: seq<SizeGroup>, keys: set<string>)
    requires SnapsOk(t)
    requires BuildQuery(builds, keys, buildRows) && RunQuery(runs, keys, runRows) && SizeQuery(t, keys, snapshotRows)
    ensures forall i | 0 <= i < |buildRows| :: buildRows[i].student in keys
    ensures forall i | 0 <= i < |runRows| :: runRows[i].student in keys
    ensures forall i | 0 <= i < |snapshotRows| :: snapshotRows[i].student in keys
  {
    hide SnapsOk, BuildGroupOf, RunGroupOf, SizeGroupOf;
    assert forall i | 0 <= i < |buildRows| :: Names(buildRows)[i] in Names(buildRows);
    assert forall i | 0 <= i < |runRows| :: Names(runRows)[i] in Names(runRows);
    assert forall i | 0 <= i < |snapshotRows| :: Names(snapshotRows)[i] in Names(snapshotRows);
  }

  // The first loop: build counts, and the first times known.
  method MergeBuilds(before: map<string, Summary>, rows: seq<BuildGroup>) returns (summaries: map<string, Summary>)
    requires forall key | key in before :: before[key] == BLANK
    requires forall i | 0 <= i < |rows| :: rows[i].student in before
    ensures summaries.Keys == before.Keys
    ensures forall key | key in summaries :: summaries[key] == AfterBuilds(rows, key)
  {
    summaries := before;
    for i := 0 to |rows|
      invariant summaries.Keys == before.Keys
      invariant forall key | key in summaries :: summaries[key] == AfterBuilds(rows[..i], key)
    {
      var g := rows[i];
      assert rows[..i + 1][..i] == rows[..i];
      summaries := summaries[g.student := summaries[g.student].(
        buildCount := g.figures.count, buildFailCount := g.figures.failed,
        firstActivity := Some(g.first), lastActivity := Some(g.last))];
    }
    assert rows[..|rows|] == rows;
  }

  // The second loop: run counts, and times merged with those of the builds.
  method MergeRuns(before: map<string, Summary>, rows: seq<RunGroup>) returns (summaries: map<string, Summary>)
    requires forall i | 0 <= i < |rows| :: rows[i].student in before
    ensures summaries.Keys == before.Keys
    ensures forall key | key in summaries :: summaries[key] == AfterRuns(before[key], rows, key)
  {
    summaries := before;
    for i := 0 to |rows|
      invariant summaries.Keys == before.Keys
      invariant forall key | key in summaries :: summaries[key] == AfterRuns(before[key], rows[..i], key)
    {
      var g := rows[i];
      assert rows[..i + 1][..i] == rows[..i];
      var row := summaries[g.student];
      summaries := summaries[g.student := row.(
        runCount := g.figures, firstActivity := Earliest(row.firstActivity, g.first),
        lastActivity := Latest(row.lastActivity, g.last))];
    }
    assert rows[..|rows|] == rows;
  }

  // The third loop: size changes, and times merged with those of both.
  method MergeSizes(before: map<string, Summary>, rows: seq<SizeGroup>) returns (summaries: map<string, Summary>)
    requires forall i | 0 <= i < |rows| :: rows[i].student in before
    ensures summaries.Keys == before.Keys
    ensures forall key | key in summaries :: summaries[key] == AfterSizes(before[key], rows, key)
  {
    summaries := before;
    for i := 0 to |rows|
      invariant summaries.Keys == before.Keys
      invariant forall key | key in summaries :: summaries[key] == AfterSizes(before[key], rows[..i], key)
    {
      var g := rows[i];
      assert rows[..i + 1][..i] == rows[..i];
      var row := summaries[g.student];
      summaries := summaries[g.student := row.(
        totalSizeChange := g.figures.total, maxSingleChange := g.figures.max,
        firstActivity := Earliest(row.firstActivity, g.first), lastActivity := Latest(row.lastActivity, g.last))];
    }
    assert rows[..|rows|] == rows;
  }

  lemma AllSay(builds: Acts, runs: Acts, t: Snaps, buildRows: seq<BuildGroup>, runRows: seq<RunGroup>,
               snapshotRows: seq<SizeGroup>, keys: set<string>, key: string)
    requires SnapsOk(t) && key in keys
    requires BuildQuery(builds, keys, buildRows) && RunQuery(runs, keys, runRows) && SizeQuery(t, keys, snapshotRows)
    ensures var m := AfterSizes(AfterRuns(AfterBuilds(buildRows, key), runRows, key), snapshotRows, key);
      Says(m, builds, runs, t, key)
  {
    hide BuildQuery, RunQuery, SizeQuery, SnapsOk, IsFirst, IsLast, TotalSizeChange, MaxSingleChange;
    BuildsSay(builds, buildRows, keys, key);
    var a := AfterBuilds(buildRows, key);
    RunsSay(runs, a, Times(builds, key), runRows, keys, key);
    var b := AfterRuns(a, runRows, key);
    SizesSay(t, b, Times(builds, key) + Times(runs, key), snapshotRows, keys, key);
  }

  /** A student has one summary: what it says is decided by the builds, the runs, the times of the
      snapshots and the two figures of the size changes. */
  lemma SummaryDecided(builds: Acts, runs: Acts, s: Snaps, t: Snaps, student: string, m: Summary, n: Summary)
    requires Says(m, builds, runs, s, student) && Says(n, builds, runs, t, student)
    requires SnapTimes(s, student) == SnapTimes(t, student)
    requires TotalSizeChange(s, student) == TotalSizeChange(t, student)
    requires MaxSingleChange(s, student) == MaxSingleChange(t, student)
    ensures m == n
  {
    hide SnapsOk, TotalSizeChange, MaxSingleChange, Times, SnapTimes, Of, FailedOf;
  }
}
