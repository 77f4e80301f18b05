// Total variation of file sizes, as the dashboard and the graph endpoint compute it.
module Variation {
  import opened Events
  import opened Sums
  import opened Snapshots
  import opened Trends

  function Abs(x: int): int { if x < 0 then -x else x }

  function OfStudent(t: Snaps, student: string): Snaps {
    map e | e in t && t[e].student == student :: t[e]
  }

  // abs(file_size - lag(file_size, 1, 0)) for the rows of one student
  ghost function AbsDeltas(t: Snaps, student: string): map<EventId, int>
    requires SnapsOk(t)
  {
    map e | e in t && t[e].student == student :: Abs(Delta(t, e))
  }

  // max(size_change), 0 for no rows
  ghost function MaxOf(m: map<string, int>): int {
    if m == map[] then 0 else
      var k :| k in m;
      var rest := MaxOf(m - {k});
      if m[k] > rest then m[k] else rest
  }

  lemma {:induction false} MaxOfMeaning(m: map<string, int>)
    requires forall k | k in m :: m[k] >= 0
    ensures forall k | k in m :: m[k] <= MaxOf(m)
    ensures m != map[] ==> exists k | k in m :: m[k] == MaxOf(m)
    decreases |m|
  {
    if m != map[] {
      var j :| j in m && MaxOf(m) == (if m[j] > MaxOf(m - {j}) then m[j] else MaxOf(m - {j}));
      MaxOfMeaning(m - {j});
      forall k | k in m ensures m[k] <= MaxOf(m) {
        assert k == j || k in m - {j};
      }
      if m - {j} != map[] {
        var k :| k in m - {j} && (m - {j})[k] == MaxOf(m - {j});
        assert k in m && m[k] == MaxOf(m - {j});
      }
    }
  }

  // The dashboard's total_size_change and max_single_change.
  ghost function TotalSizeChange(t: Snaps, student: string): int
    requires SnapsOk(t)
  {
    Sum(AbsDeltas(t, student))
  }

  ghost function MaxSingleChange(t: Snaps, student: string): int
    requires SnapsOk(t)
  {
    MaxOf(AbsDeltas(t, student))
  }

  // The graph endpoint: the range is selected first, and a file's first row in it has no predecessor.
  function InRange(t: Snaps, start: int, end: int): Snaps {
    map e | e in t && start <= t[e].at <= end :: t[e]
  }

  ghost function GraphDeltas(r: Snaps, student: string): map<EventId, int>
    requires SnapsOk(r)
  {
    map e | e in r && r[e].student == student && Lag(r, e).Some? :: Abs(r[e].size - Lag(r, e).value)
  }

  // None when the student has no row in the answer.
  ghost function GraphSum(t: Snaps, start: int, end: int, student: string): Option<int>
    requires SnapsOk(t)
  {
    var r := InRange(t, start, end);
    assert SnapsOk(r);
    if GraphDeltas(r, student) == map[] then None else Some(Sum(GraphDeltas(r, student)))
  }

  /** The change of a row is how far its size lies from the previous one, or from zero, either way. */
  lemma ChangeMeaning(t: Snaps, student: string, e: EventId)
    requires SnapsOk(t)
    ensures e in AbsDeltas(t, student) <==> e in t && t[e].student == student
    ensures e in AbsDeltas(t, student) ==>
      var before := if Lag(t, e).Some? then Lag(t, e).value else 0;
      AbsDeltas(t, student)[e] == if t[e].size >= before then t[e].size - before else before - t[e].size
  {
    hide Lag;
  }

  /** The graph counts the changes of those rows of the student within the range, ends included, that have an earlier
      row of the same file within the range, each from the latest such row. */
  lemma GraphMeaning(t: Snaps, start: int, end: int, student: string, e: EventId)
    requires SnapsOk(t)
    ensures SnapsOk(InRange(t, start, end))
    ensures var r := InRange(t, start, end);
      e in r <==> e in t && start <= t[e].at && t[e].at <= end
    ensures var r := InRange(t, start, end);
      e in GraphDeltas(r, student) <==>
        && e in r && t[e].student == student
        && exists a | a in r :: t[a].student == t[e].student && t[a].path == t[e].path
             && (t[a].at < t[e].at || (t[a].at == t[e].at && t[a].rowId < t[e].rowId))
    ensures var r := InRange(t, start, end);
      e in GraphDeltas(r, student) ==>
        GraphDeltas(r, student)[e]
          == if t[e].size >= Lag(r, e).value then t[e].size - Lag(r, e).value else Lag(r, e).value - t[e].size
  {
    hide Lag;
    var r := InRange(t, start, end);
    assert SnapsOk(r);
    if e in r { LagMeaning(r, e); }
  }

  lemma StudentIsBeginning(t: Snaps, student: string)
    requires SnapsOk(t)
    ensures var u := OfStudent(t, student); SnapsOk(u) && OneStudent(u) && Beginning(u, t)
  {
  }

  lemma AbsDeltasOfStudent(t: Snaps, student: string)
    requires SnapsOk(t)
    ensures SnapsOk(OfStudent(t, student))
    ensures AbsDeltas(t, student) == AbsDeltas(OfStudent(t, student), student)
    ensures AbsDeltas(t, student).Keys == OfStudent(t, student).Keys
    ensures forall e | e in OfStudent(t, student) :: AbsDeltas(t, student)[e] == Abs(Delta(OfStudent(t, student), e))
  {
    var u := OfStudent(t, student);
    StudentIsBeginning(t, student);
    forall e | e in u ensures Delta(u, e) == Delta(t, e) { LagInBeginning(u, t, e); }
  }

  // Within a range that covers the student, the graph sees the same predecessors.
  lemma GraphOfStudent(t: Snaps, start: int, end: int, student: string)
    requires SnapsOk(t) && forall e | e in t && t[e].student == student :: start <= t[e].at <= end
    ensures SnapsOk(InRange(t, start, end)) && SnapsOk(OfStudent(t, student))
    ensures GraphDeltas(InRange(t, start, end), student) == GraphDeltas(OfStudent(t, student), student)
  {
    hide Lag;
    var r, u := InRange(t, start, end), OfStudent(t, student);
    assert SnapsOk(r);
    StudentIsBeginning(t, student);
    StudentIsBeginning(r, student);
    assert OfStudent(r, student) == u;
    forall e | e in u ensures Lag(u, e) == Lag(r, e) { LagInBeginning(u, r, e); }
    SameGraph(r, u, student);
  }

  lemma SameGraph(r: Snaps, u: Snaps, student: string)
    requires SnapsOk(r) && SnapsOk(u) && u == OfStudent(r, student)
    requires forall e | e in u :: Lag(u, e) == Lag(r, e)
    ensures GraphDeltas(r, student) == GraphDeltas(u, student)
  {
    hide Lag, SnapsOk;
  }

  /** Total variation agrees across the endpoints: over a range that covers all of a student's snapshots,
      the dashboard's total is the graph's sum plus the first size of each file. */
  lemma DashboardIsGraphPlusFirst(t: Snaps, start: int, end: int, student: string)
    requires SnapsOk(t) && forall e | e in t && t[e].student == student :: start <= t[e].at <= end
    ensures SnapsOk(OfStudent(t, student))
    ensures TotalSizeChange(t, student) ==
      (match GraphSum(t, start, end, student) case None => 0 case Some(sum) => sum)
      + Sum(FirstSizes(OfStudent(t, student)))
  {
    hide Sum, SnapsOk, Lag;
    var u := OfStudent(t, student);
    AbsDeltasOfStudent(t, student);
    GraphOfStudent(t, start, end, student);
    var d := AbsDeltas(t, student);
    var firsts := FirstSizes(u).Keys;
    SumSplit(d, firsts);
    assert Restrict(d, firsts) == FirstSizes(u) by { FirstsRestricted(t, student); }
    assert d - firsts == GraphDeltas(u, student) by { OthersRestricted(t, student); }
    SumEmpty();
  }

  lemma FirstsRestricted(t: Snaps, student: string)
    requires SnapsOk(t) && SnapsOk(OfStudent(t, student))
    ensures Restrict(AbsDeltas(t, student), FirstSizes(OfStudent(t, student)).Keys) == FirstSizes(OfStudent(t, student))
  {
    hide Lag;
    AbsDeltasOfStudent(t, student);
  }

  lemma OthersRestricted(t: Snaps, student: string)
    requires SnapsOk(t) && SnapsOk(OfStudent(t, student))
    ensures var u := OfStudent(t, student);
      AbsDeltas(t, student) - FirstSizes(u).Keys == GraphDeltas(u, student)
  {
    hide Lag, SnapsOk;
    AbsDeltasOfStudent(t, student);
    var u := OfStudent(t, student);
    var a, b := AbsDeltas(t, student) - FirstSizes(u).Keys, GraphDeltas(u, student);
    assert a.Keys == b.Keys;
    forall e | e in a ensures a[e] == b[e] {}
  }

  /** The total is at least the greatest single change, and at least the final total of the student's
      trends, for every interval. */
  lemma TotalBounds(t: Snaps, student: string, width: int)
    requires SnapsOk(t) && width > 0
    ensures TotalSizeChange(t, student) >= MaxSingleChange(t, student) >= 0
    ensures SnapsOk(OfStudent(t, student))
    ensures var rows := TrendsOf(OfStudent(t, student), width);
      OfStudent(t, student) != map[] ==> |rows| > 0 && TotalSizeChange(t, student) >= rows[|rows| - 1].totalSize
  {
    hide Sum, SnapsOk, Delta, TrendsOf, LatestSizes, MaxOf;
    var u := OfStudent(t, student);
    var d := AbsDeltas(t, student);
    StudentIsBeginning(t, student);
    AbsDeltasOfStudent(t, student);
    SumNonNegative(d);
    MaxOfMeaning(d);
    if d == map[] { MaxOfNothing(); }
    SumBounds(Deltas(u), d);
    if u != map[] {
      FinalTotal(u, width);
      DeltasTelescope(u);
    }
  }

  lemma MaxOfNothing()
    ensures MaxOf(map[]) == 0
  {
  }
}
