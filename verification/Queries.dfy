// What the endpoints see of the event tables, and when two states of them answer the same.
module Queries {
  import opened Events
  import opened EventStore
  import opened AssignmentKey
  import opened Snapshots
  import opened Trends
  import opened Variation
  import opened Ties
  import opened Dashboard

  // ---- rows by event id ----------------------------------------------------------------------------

  lemma SameIdSameRow(t: Table, a: Row, b: Row)
    requires UniqueEvents(t) && a in t.rows && b in t.rows
    ensures a.values.eventId == b.values.eventId ==> a == b
    ensures a.rowId == b.rowId ==> a == b
  {
    var i :| 0 <= i < |t.rows| && t.rows[i] == a;
    var j :| 0 <= j < |t.rows| && t.rows[j] == b;
    assert i < j ==> t.rows[i].rowId < t.rows[j].rowId;
    assert j < i ==> t.rows[j].rowId < t.rows[i].rowId;
  }

  function Ids(t: Table): set<EventId> {
    set row | row in t.rows :: row.values.eventId
  }

  // The row of an event; there is only one, see RowIsOf.
  ghost function RowOf(t: Table, id: EventId): (row: Row)
    requires id in Ids(t)
    ensures row in t.rows && row.values.eventId == id
  {
    var row :| row in t.rows && row.values.eventId == id;
    row
  }

  lemma RowIsOf(t: Table, row: Row)
    requires UniqueEvents(t) && row in t.rows
    ensures row.values.eventId in Ids(t) && RowOf(t, row.values.eventId) == row
  {
    SameIdSameRow(t, row, RowOf(t, row.values.eventId));
  }

  lemma IdsAreEvents(t: Table, id: EventId)
    ensures id in Ids(t) <==> HasEvent(t, id)
  {
    if HasEvent(t, id) {
      var row :| row in t.rows && row.values.eventId == id;
      assert row.values.eventId in Ids(t);
    }
  }

  ghost function Payloads(t: Table): map<EventId, Payload> {
    map id | id in Ids(t) :: RowOf(t, id).values.payload
  }

  // ---- what the queries select --------------------------------------------------------------------

  predicate Selects(scope: Scope, p: Payload) {
    p.detail.SnapshotDetail? && InScope(scope, p.assignmentId, p.classDiv, p.hwName)
  }

  function SnapOf(row: Row): Snap
    requires row.values.payload.detail.SnapshotDetail?
  {
    var p := row.values.payload;
    Snap(row.rowId, p.studentKey, p.detail.relativePath, p.detail.fileSize, p.occurredAt)
  }

  // The snapshots of an assignment.
  ghost function SnapsOf(t: Table, scope: Scope): Snaps {
    map id | id in Ids(t) && Selects(scope, RowOf(t, id).values.payload) :: SnapOf(RowOf(t, id))
  }

  predicate SelectsAct(scope: Scope, p: Payload) {
    !p.detail.SnapshotDetail? && InScope(scope, p.assignmentId, p.classDiv, p.hwName)
  }

  function ActOf(p: Payload): Act
    requires !p.detail.SnapshotDetail?
  {
    Act(p.studentKey, p.occurredAt, p.detail.exitCode)
  }

  // The builds or runs of an assignment.
  ghost function ActsOf(t: Table, scope: Scope): Acts {
    map id | id in Ids(t) && SelectsAct(scope, RowOf(t, id).values.payload) :: ActOf(RowOf(t, id).values.payload)
  }

  // The assignment asked for, by its id or by class division and name.
  lemma ScopeFields(scope: Scope, p: Payload)
    ensures InScope(scope, p.assignmentId, p.classDiv, p.hwName) <==>
      match scope
      case ById(id) => p.assignmentId == id
      case ByName(classDiv, hwName) => p.classDiv == classDiv && p.hwName == hwName
  {
  }

  /** What the queries see of a stored row: a snapshot of the assignment with the student, the path, the size and the
      time it carries, and with its row id. */
  lemma SnapsMeaning(ts: Tables, scope: Scope, row: Row)
    requires Queryable(ts) && row in ts.snapshot.rows
    ensures var p, id := row.values.payload, row.values.eventId;
      id in SnapsOf(ts.snapshot, scope) <==>
        && p.detail.SnapshotDetail?
        && (match scope
            case ById(assignmentId) => p.assignmentId == assignmentId
            case ByName(classDiv, hwName) => p.classDiv == classDiv && p.hwName == hwName)
    ensures var p, s := row.values.payload, SnapsOf(ts.snapshot, scope);
      row.values.eventId in s ==>
        var e := s[row.values.eventId];
        && p.detail.SnapshotDetail? && e.rowId == row.rowId
        && e.student == p.studentKey && e.path == p.detail.relativePath
        && e.size == p.detail.fileSize && e.at == p.occurredAt
  {
    hide InScope, RowOf, UniqueEvents, AllAllowed;
    assert UniqueEvents(ts.Of(Snapshot));
    RowIsOf(ts.snapshot, row);
    ScopeFields(scope, row.values.payload);
  }

  /** And a build or run of the assignment with the student, the time and the exit code it carries. */
  lemma ActsMeaning(ts: Tables, kind: Kind, scope: Scope, row: Row)
    requires Queryable(ts) && row in ts.Of(kind).rows
    ensures var p, id := row.values.payload, row.values.eventId;
      id in ActsOf(ts.Of(kind), scope) <==>
        && !p.detail.SnapshotDetail?
        && (match scope
            case ById(assignmentId) => p.assignmentId == assignmentId
            case ByName(classDiv, hwName) => p.classDiv == classDiv && p.hwName == hwName)
    ensures var p, s := row.values.payload, ActsOf(ts.Of(kind), scope);
      row.values.eventId in s ==>
        && !p.detail.SnapshotDetail?
        && s[row.values.eventId] == Act(p.studentKey, p.occurredAt, p.detail.exitCode)
  {
    hide InScope, RowOf, UniqueEvents, AllAllowed;
    assert UniqueEvents(ts.Of(kind));
    RowIsOf(ts.Of(kind), row);
    ScopeFields(scope, row.values.payload);
  }

  // Ids are unique and the size constraint holds.
  ghost predicate Queryable(ts: Tables) {
    WellFormed(ts) && AllAllowed(ts)
  }

  lemma SnapsOfOk(ts: Tables, scope: Scope)
    requires Queryable(ts)
    ensures SnapsOk(SnapsOf(ts.snapshot, scope))
  {
    var t := ts.Of(Snapshot);
    var s := SnapsOf(t, scope);
    forall e | e in s ensures s[e].size >= 0 {
      assert RowOf(t, e) in ts.Of(Snapshot).rows;
    }
    forall a, b | a in s && b in s && s[a].rowId == s[b].rowId ensures a == b {
      SameIdSameRow(t, RowOf(t, a), RowOf(t, b));
    }
  }

  ghost function SnapsIn(ts: Tables, scope: Scope): (t: Snaps)
    requires Queryable(ts)
    ensures SnapsOk(t)
  {
    SnapsOfOk(ts, scope);
    SnapsOf(ts.snapshot, scope)
  }

  ghost function StudentSnaps(ts: Tables, scope: Scope, student: string): (t: Snaps)
    requires Queryable(ts)
    ensures SnapsOk(t) && OneStudent(t)
  {
    StudentIsBeginning(SnapsIn(ts, scope), student);
    OfStudent(SnapsIn(ts, scope), student)
  }

  // ---- what the endpoints answer ------------------------------------------------------------------

  // m is what the dashboard says of the student.
  ghost predicate DashboardSays(ts: Tables, scope: Scope, student: string, m: Summary)
    requires Queryable(ts)
  {
    Says(m, ActsOf(ts.build, scope), ActsOf(ts.run, scope), SnapsIn(ts, scope), student)
  }

  ghost predicate SameTrendsFrom(ts: Tables, us: Tables, scope: Scope, student: string)
    requires Queryable(ts) && Queryable(us)
  {
    forall width | width > 0 ::
      TrendsOf(StudentSnaps(ts, scope, student), width) == TrendsOf(StudentSnaps(us, scope, student), width)
  }

  ghost predicate SameDashboardFrom(ts: Tables, us: Tables, scope: Scope, student: string)
    requires Queryable(ts) && Queryable(us)
  {
    forall m, n | DashboardSays(ts, scope, student, m) && DashboardSays(us, scope, student, n) :: m == n
  }

  ghost predicate SameGraphFrom(ts: Tables, us: Tables, scope: Scope, student: string)
    requires Queryable(ts) && Queryable(us)
  {
    forall start, end ::
      GraphSum(SnapsIn(ts, scope), start, end, student) == GraphSum(SnapsIn(us, scope), start, end, student)
  }

  // Trends for every interval, all figures of the dashboard, graph for every range.
  ghost predicate SameAnswers(ts: Tables, us: Tables, scope: Scope, student: string)
    requires Queryable(ts) && Queryable(us)
  {
    && SameTrendsFrom(ts, us, scope, student)
    && SameDashboardFrom(ts, us, scope, student)
    && SameGraphFrom(ts, us, scope, student)
  }

  /** The same answers are the same trends for every interval, the same summary and the same graph for every range. */
  lemma AnswersMeaning(ts: Tables, us: Tables, scope: Scope, student: string)
    requires Queryable(ts) && Queryable(us)
    ensures SameAnswers(ts, us, scope, student) <==>
      && (forall width | width > 0 ::
            TrendsOf(StudentSnaps(ts, scope, student), width) == TrendsOf(StudentSnaps(us, scope, student), width))
      && (forall m, n | DashboardSays(ts, scope, student, m) && DashboardSays(us, scope, student, n) :: m == n)
      && (forall start, end ::
            GraphSum(SnapsIn(ts, scope), start, end, student) == GraphSum(SnapsIn(us, scope), start, end, student))
  {
    hide TrendsOf, GraphSum, StudentSnaps, SnapsIn, Queryable, DashboardSays;
  }

  ghost predicate SamePayloadsIn(ts: Tables, us: Tables) {
    forall kind: Kind :: Payloads(ts.Of(kind)) == Payloads(us.Of(kind))
  }

  // Everything but the row id of a snapshot comes from its payload.
  lemma SameSnaps(t: Table, u: Table, scope: Scope)
    requires Payloads(t) == Payloads(u)
    ensures SameButRowIds(SnapsOf(t, scope), SnapsOf(u, scope))
  {
    hide InScope, RowOf;
    SamePayloadRows(t, u);
  }

  lemma SamePayloadRows(t: Table, u: Table)
    requires Payloads(t) == Payloads(u)
    ensures Ids(t) == Ids(u)
    ensures forall id | id in Ids(t) :: RowOf(t, id).values.payload == RowOf(u, id).values.payload
  {
    assert Payloads(t).Keys == Ids(t) && Payloads(u).Keys == Ids(u);
    forall id | id in Ids(t) ensures RowOf(t, id).values.payload == RowOf(u, id).values.payload {
      assert Payloads(t)[id] == Payloads(u)[id];
    }
  }

  lemma SameActs(t: Table, u: Table, scope: Scope)
    requires Payloads(t) == Payloads(u)
    ensures ActsOf(t, scope) == ActsOf(u, scope)
  {
    hide InScope, RowOf;
    SamePayloadRows(t, u);
  }

  lemma SameSnapTimes(a: Snaps, b: Snaps, student: string)
    requires SameButRowIds(a, b)
    ensures SnapTimes(a, student) == SnapTimes(b, student)
  {
    forall e | e in a ensures a[e].at == b[e].at && a[e].student == b[e].student { Agree(a, b, e); }
  }

  /** Tables that hold the same payloads under the same ids answer the same about a student whose ties agree,
      whatever their row ids. */
  lemma SamePayloadsSameAnswers(ts: Tables, us: Tables, scope: Scope, student: string)
    requires Queryable(ts) && Queryable(us) && SamePayloadsIn(ts, us)
    requires TiesAgree(StudentSnaps(ts, scope, student))
    ensures SameAnswers(ts, us, scope, student)
  {
    hide UniqueEvents, Queryable, SnapsOf, ActsOf, Payloads, TrendsOf, GraphSum, SnapsOk, TiesAgree, SameButRowIds;
    hide OfStudent, Says, TotalSizeChange, MaxSingleChange, SnapTimes;
    var s, t := SnapsIn(ts, scope), SnapsIn(us, scope);
    assert Payloads(ts.Of(Snapshot)) == Payloads(us.Of(Snapshot));
    SameSnaps(ts.snapshot, us.snapshot, scope);
    SameOfStudent(s, t, student);
    forall width | width > 0
      ensures TrendsOf(StudentSnaps(ts, scope, student), width) == TrendsOf(StudentSnaps(us, scope, student), width)
    {
      TiesAgreeIff(StudentSnaps(ts, scope, student));
      SameTrends(StudentSnaps(ts, scope, student), StudentSnaps(us, scope, student), width);
    }
    forall start, end ensures GraphSum(s, start, end, student) == GraphSum(t, start, end, student) {
      SameGraphSum(s, t, start, end, student);
    }
    SameDashboard(ts, us, scope, student);
  }

  lemma SameStudentSnaps(ts: Tables, us: Tables, scope: Scope, student: string)
    requires Queryable(ts) && Queryable(us) && SamePayloadsIn(ts, us)
    ensures SameButRowIds(StudentSnaps(ts, scope, student), StudentSnaps(us, scope, student))
  {
    hide SnapsOf, Payloads, SnapsOk, SameButRowIds, OfStudent;
    assert Payloads(ts.Of(Snapshot)) == Payloads(us.Of(Snapshot));
    SameSnaps(ts.snapshot, us.snapshot, scope);
    SameOfStudent(SnapsIn(ts, scope), SnapsIn(us, scope), student);
  }

  lemma SameDashboard(ts: Tables, us: Tables, scope: Scope, student: string)
    requires Queryable(ts) && Queryable(us) && SamePayloadsIn(ts, us)
    requires SameButRowIds(SnapsIn(ts, scope), SnapsIn(us, scope)) && TiesAgree(StudentSnaps(ts, scope, student))
    ensures SameDashboardFrom(ts, us, scope, student)
  {
    hide UniqueEvents, Queryable, SnapsOf, ActsOf, Payloads, SnapsOk, TiesAgree, SameButRowIds;
    hide OfStudent, Says, TotalSizeChange, MaxSingleChange, SnapTimes;
    var s, t := SnapsIn(ts, scope), SnapsIn(us, scope);
    SameFigures(s, t, student);
    SameSnapTimes(s, t, student);
    assert Payloads(ts.Of(Build)) == Payloads(us.Of(Build)) && Payloads(ts.Of(Run)) == Payloads(us.Of(Run));
    SameActs(ts.build, us.build, scope);
    SameActs(ts.run, us.run, scope);
    forall m, n | DashboardSays(ts, scope, student, m) && DashboardSays(us, scope, student, n) ensures m == n {
      SummaryDecided(ActsOf(ts.build, scope), ActsOf(ts.run, scope), s, t, student, m, n);
    }
  }

  // ---- one student's rows -------------------------------------------------------------------------

  // The row shows among the snapshots of the student.
  predicate Shows(scope: Scope, student: string, row: Row) {
    Selects(scope, row.values.payload) && row.values.payload.studentKey == student
  }

  lemma StudentRow(ts: Tables, scope: Scope, student: string, e: EventId)
    requires Queryable(ts)
    ensures var u := StudentSnaps(ts, scope, student);
      e in u <==> e in Ids(ts.snapshot) && Shows(scope, student, RowOf(ts.snapshot, e))
    ensures var u := StudentSnaps(ts, scope, student);
      e in u ==> Shows(scope, student, RowOf(ts.snapshot, e)) && u[e] == SnapOf(RowOf(ts.snapshot, e))
  {
    hide InScope, Queryable, RowOf, SnapsOk;
  }
}
