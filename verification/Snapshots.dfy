// The window functions over the snapshot table: the previous size of a file, and what the
// differences add up to.
module Snapshots {
  import opened Events
  import opened Order
  import opened Sums

  datatype Snap = Snap(rowId: nat, student: string, path: string, size: int, at: int)

  // Snapshots by event id: the rows a query selects, before it orders or groups them.
  type Snaps = map<EventId, Snap>

  ghost predicate SnapsOk(t: Snaps) {
    && (forall a, b | a in t && b in t && t[a].rowId == t[b].rowId :: a == b)
    && (forall a | a in t :: t[a].size >= 0)
  }

  // ORDER BY occurred_at, id
  predicate Older(t: Snaps, a: EventId, b: EventId) {
    a in t && b in t && (t[a].at < t[b].at || (t[a].at == t[b].at && t[a].rowId < t[b].rowId))
  }

  function Later(t: Snaps): (EventId, EventId) -> bool {
    (a, b) => Older(t, b, a)
  }

  lemma LaterTotal(t: Snaps, s: set<EventId>)
    requires SnapsOk(t) && s <= t.Keys
    ensures TotalOn(Later(t), s)
  {
  }

  // The last of some rows in the order of the window.
  ghost function Last(t: Snaps, s: set<EventId>): (e: EventId)
    requires SnapsOk(t) && s <= t.Keys && s != {}
    ensures e in s && forall a | a in s && a != e :: Older(t, a, e)
  {
    LaterTotal(t, s);
    assert forall a | a in s :: Later(t)(MinOf(s, Later(t)), a) ==> Older(t, a, MinOf(s, Later(t)));
    MinOf(s, Later(t))
  }

  predicate SameFile(a: Snap, b: Snap) { a.student == b.student && a.path == b.path }

  // The rows of the partition of e that come before it.
  function Preceding(t: Snaps, e: EventId): set<EventId>
    requires e in t
  {
    set a | a in t && SameFile(t[a], t[e]) && Older(t, a, e)
  }

  // lag(file_size) OVER (PARTITION BY student_key, relative_path ORDER BY occurred_at, id)
  ghost function Lag(t: Snaps, e: EventId): Option<int>
    requires SnapsOk(t) && e in t
  {
    if Preceding(t, e) == {} then None else Some(t[Last(t, Preceding(t, e))].size)
  }

  // file_size - lag(file_size, 1, 0)
  ghost function Delta(t: Snaps, e: EventId): int
    requires SnapsOk(t) && e in t
  {
    t[e].size - (match Lag(t, e) case None => 0 case Some(size) => size)
  }

  ghost function Deltas(t: Snaps): map<EventId, int>
    requires SnapsOk(t)
  {
    map e | e in t :: Delta(t, e)
  }

  /** The previous size of a row is that of the latest row before it, by time and then row id, of the same student and
      path; there is none exactly when no such row is before it. */
  lemma LagMeaning(t: Snaps, e: EventId)
    requires SnapsOk(t) && e in t
    ensures Lag(t, e).None? <==> forall a | a in t && t[a].student == t[e].student && t[a].path == t[e].path ::
      t[e].at < t[a].at || (t[e].at == t[a].at && t[e].rowId <= t[a].rowId)
    ensures Lag(t, e).Some? ==> exists p | p in t ::
      && t[p].student == t[e].student && t[p].path == t[e].path && Lag(t, e).value == t[p].size
      && (t[p].at < t[e].at || (t[p].at == t[e].at && t[p].rowId < t[e].rowId))
      && forall a | a in t && t[a].student == t[e].student && t[a].path == t[e].path ::
           || t[a].at < t[p].at || (t[a].at == t[p].at && t[a].rowId <= t[p].rowId)
           || t[e].at < t[a].at || (t[e].at == t[a].at && t[e].rowId <= t[a].rowId)
    ensures Delta(t, e) == t[e].size - if Lag(t, e).Some? then Lag(t, e).value else 0
  {
    var s := Preceding(t, e);
    if s != {} {
      var p := Last(t, s);
      forall a | a in t && t[a].student == t[e].student && t[a].path == t[e].path
        ensures || t[a].at < t[p].at || (t[a].at == t[p].at && t[a].rowId <= t[p].rowId)
                || t[e].at < t[a].at || (t[e].at == t[a].at && t[e].rowId <= t[a].rowId)
      {
        assert Older(t, a, e) ==> a in s;
      }
    } else {
      forall a | a in t && t[a].student == t[e].student && t[a].path == t[e].path
        ensures t[e].at < t[a].at || (t[e].at == t[a].at && t[e].rowId <= t[a].rowId)
      {
        assert Older(t, a, e) ==> a in s;
      }
    }
  }

  // ---- leaving out rows -----------------------------------------------------------------------

  // u keeps of every file it touches a beginning: with a row, all rows of that file before it.
  ghost predicate Beginning(u: Snaps, t: Snaps) {
    && (forall e | e in u :: e in t && u[e] == t[e])
    && (forall a, e | e in u && a in t && SameFile(t[a], t[e]) && Older(t, a, e) :: a in u)
  }

  /** A row's previous size does not depend on rows of other files or later rows. */
  lemma LagInBeginning(u: Snaps, t: Snaps, e: EventId)
    requires SnapsOk(t) && SnapsOk(u) && Beginning(u, t) && e in u
    ensures Lag(u, e) == Lag(t, e) && Delta(u, e) == Delta(t, e)
  {
    assert Preceding(u, e) == Preceding(t, e);
    var s := Preceding(t, e);
    if s != {} {
      var x, y := Last(u, s), Last(t, s);
      assert x != y ==> Older(t, x, y) && Older(u, y, x);
    }
  }

  // ---- what the differences add up to -------------------------------------------------------------

  function Paths(t: Snaps): set<string> {
    set e | e in t :: t[e].path
  }

  function OfPath(t: Snaps, path: string): set<EventId> {
    set e | e in t && t[e].path == path
  }

  // The size of the latest snapshot of each path.
  ghost function LatestSizes(t: Snaps): map<string, int>
    requires SnapsOk(t)
  {
    map path | path in Paths(t) :: LatestSize(t, path)
  }

  ghost function LatestSize(t: Snaps, path: string): int
    requires SnapsOk(t) && path in Paths(t)
  {
    var s := OfPath(t, path);
    assert s != {} by { var e :| e in t && t[e].path == path; assert e in s; }
    t[Last(t, s)].size
  }

  /** There is a latest size for exactly the paths with a snapshot, and it is the size of the one that is last by time
      and then row id. */
  lemma LatestMeaning(t: Snaps, path: string)
    requires SnapsOk(t)
    ensures path in LatestSizes(t) <==> exists e :: e in t && t[e].path == path
    ensures path in LatestSizes(t) ==> exists e | e in t ::
      && t[e].path == path && LatestSizes(t)[path] == t[e].size
      && forall a | a in t && t[a].path == path :: t[a].at < t[e].at || (t[a].at == t[e].at && t[a].rowId <= t[e].rowId)
  {
    if path in Paths(t) {
      var s := OfPath(t, path);
      var some :| some in t && t[some].path == path;
      assert some in s;
      var e := Last(t, s);
      assert LatestSizes(t)[path] == t[e].size;
      forall a | a in t && t[a].path == path
        ensures t[a].at < t[e].at || (t[a].at == t[e].at && t[a].rowId <= t[e].rowId)
      {
        assert a in s;
      }
    }
  }

  // The size of the first snapshot of each path: those whose previous size is missing.
  ghost function FirstSizes(t: Snaps): map<EventId, int>
    requires SnapsOk(t)
  {
    map e | e in t && Lag(t, e).None? :: t[e].size
  }

  predicate OneStudent(t: Snaps) {
    forall a, b | a in t && b in t :: t[a].student == t[b].student
  }

  lemma WithoutLast(t: Snaps, x: EventId)
    requires SnapsOk(t) && t != map[] && x == Last(t, t.Keys)
    ensures var u := t - {x};
      && SnapsOk(u) && Beginning(u, t) && Deltas(u) == Deltas(t) - {x} && FirstSizes(u) == FirstSizes(t) - {x}
  {
    hide Lag;
    var u := t - {x};
    LastLeft(t, x);
    forall e | e in u ensures Lag(u, e) == Lag(t, e) && Delta(u, e) == Delta(t, e) { LagInBeginning(u, t, e); }
  }

  lemma LastLeft(t: Snaps, x: EventId)
    requires SnapsOk(t) && t != map[] && x == Last(t, t.Keys)
    ensures SnapsOk(t - {x}) && Beginning(t - {x}, t)
  {
  }

  // The predecessors of the last row of all are the other rows of its path.
  lemma LastPreceding(t: Snaps, x: EventId)
    requires SnapsOk(t) && OneStudent(t) && t != map[] && x == Last(t, t.Keys)
    ensures Preceding(t, x) == OfPath(t, t[x].path) - {x}
    ensures LatestSize(t, t[x].path) == t[x].size
  {
    var s := OfPath(t, t[x].path);
    assert x in s;
    assert Last(t, s) == x;
  }

  // Another file's latest size does not change when the last row of all goes.
  lemma OtherLatest(t: Snaps, x: EventId, q: string)
    requires SnapsOk(t) && SnapsOk(t - {x}) && x in t && q != t[x].path
    ensures q in Paths(t - {x}) <==> q in Paths(t)
    ensures q in Paths(t) ==> LatestSize(t - {x}, q) == LatestSize(t, q)
  {
    hide SnapsOk;
    var u := t - {x};
    assert OfPath(u, q) == OfPath(t, q);
    PathHasRows(u, q);
    PathHasRows(t, q);
    if q in Paths(t) { LastAgrees(u, t, OfPath(t, q)); }
  }

  // The last row's own file: its latest size was the previous size of that row.
  lemma OwnLatest(t: Snaps, x: EventId)
    requires SnapsOk(t) && SnapsOk(t - {x}) && OneStudent(t) && t != map[] && x == Last(t, t.Keys)
    ensures var u, p := t - {x}, t[x].path;
      && (Lag(t, x).Some? <==> p in Paths(u))
      && (p in Paths(u) ==> LatestSize(u, p) == Lag(t, x).value)
  {
    hide SnapsOk;
    var u, p := t - {x}, t[x].path;
    LastPreceding(t, x);
    assert OfPath(u, p) == Preceding(t, x);
    PathHasRows(u, p);
    if p in Paths(u) { LastAgrees(u, t, OfPath(u, p)); }
  }

  lemma LatestWithoutLast(t: Snaps, x: EventId)
    requires SnapsOk(t) && SnapsOk(t - {x}) && x in t
    ensures LatestSizes(t - {x}) - {t[x].path} == LatestSizes(t) - {t[x].path}
  {
    hide SnapsOk, LatestSize, Paths;
    var u, p := t - {x}, t[x].path;
    forall q | q != p
      ensures q in Paths(u) <==> q in Paths(t)
      ensures q in Paths(t) ==> LatestSize(u, q) == LatestSize(t, q)
    {
      OtherLatest(t, x, q);
    }
    var a, b := LatestSizes(u) - {p}, LatestSizes(t) - {p};
    assert a.Keys == b.Keys;
    assert a == b;
  }

  lemma PathHasRows(t: Snaps, q: string)
    ensures q in Paths(t) <==> OfPath(t, q) != {}
  {
    if q in Paths(t) {
      var e :| e in t && t[e].path == q;
      assert e in OfPath(t, q);
    }
    if OfPath(t, q) != {} {
      var e :| e in OfPath(t, q);
      assert t[e].path in Paths(t);
    }
  }

  lemma LastAgrees(u: Snaps, t: Snaps, s: set<EventId>)
    requires SnapsOk(u) && SnapsOk(t) && s != {} && s <= u.Keys
    requires forall e | e in u :: e in t && u[e] == t[e]
    ensures Last(u, s) == Last(t, s)
  {
    var x, y := Last(u, s), Last(t, s);
    assert !Older(u, y, x) || !Older(t, x, y);
  }

  // What the last row of all adds to the latest sizes.
  lemma LatestStep(t: Snaps, x: EventId)
    requires SnapsOk(t) && SnapsOk(t - {x}) && OneStudent(t) && t != map[] && x == Last(t, t.Keys)
    ensures Sum(LatestSizes(t)) == Sum(LatestSizes(t - {x})) + Delta(t, x)
  {
    hide SnapsOk, Sum, LatestSize, Lag, Last, Paths, OneStudent;
    var u, p := t - {x}, t[x].path;
    LatestWithoutLast(t, x);
    OwnLatest(t, x);
    LastPreceding(t, x);
    assert p in Paths(t) by { OwnPath(t, x); }
    SumRemove(LatestSizes(t), p);
    if p in Paths(u) {
      SumRemove(LatestSizes(u), p);
    } else {
      assert LatestSizes(u) - {p} == LatestSizes(u);
    }
  }

  lemma OwnPath(t: Snaps, x: EventId)
    requires x in t
    ensures t[x].path in Paths(t)
  {
  }

  /** Telescoping: for one student, the differences to the previous size of the same file add up to the
      sizes of the latest snapshots of all files. */
  lemma {:induction false} DeltasTelescope(t: Snaps)
    requires SnapsOk(t) && OneStudent(t)
    ensures Sum(Deltas(t)) == Sum(LatestSizes(t))
    decreases |t|
  {
    hide SnapsOk, Sum, LatestSizes, Delta, Last;
    if t == map[] {
      SumEmpty();
      NoRows();
    } else {
      var x := Last(t, t.Keys);
      WithoutLast(t, x);
      DeltasTelescope(t - {x});
      SumRemove(Deltas(t), x);
      LatestStep(t, x);
    }
  }

  lemma NoRows()
    ensures SnapsOk(map[]) && Deltas(map[]) == map[] && LatestSizes(map[]) == map[] && FirstSizes(map[]) == map[]
  {
  }
}
