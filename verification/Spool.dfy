// The durable queue of a collector: one SQLite table keyed by event id.
module Spool {
  import opened Events
  import opened Order

  datatype SpoolRow = SpoolRow(kind: Kind, payload: Payload, attempts: nat, nextAttemptAt: int, createdAt: int)
  type Rows = map<EventId, SpoolRow>

  function Enqueued(rows: Rows, id: EventId, kind: Kind, payload: Payload, now: int): Rows {
    if id in rows then rows else rows[id := SpoolRow(kind, payload, 0, 0, now)]
  }

  function Due(rows: Rows, now: int): set<EventId> {
    set id | id in rows && rows[id].nextAttemptAt <= now
  }

  // ORDER BY created_at, event_id
  predicate EarlierRow(rows: Rows, a: EventId, b: EventId) {
    a in rows && b in rows &&
    (rows[a].createdAt < rows[b].createdAt || (rows[a].createdAt == rows[b].createdAt && StrLess(a, b)))
  }

  function Earlier(rows: Rows): (EventId, EventId) -> bool {
    (a, b) => EarlierRow(rows, a, b)
  }

  lemma EarlierTotal(rows: Rows, s: set<EventId>)
    requires s <= rows.Keys
    ensures TotalOn(Earlier(rows), s)
  {
    StrTotal(s);
  }

  // A negative LIMIT is no limit in SQLite.
  function Limited<T>(s: seq<T>, limit: int): seq<T> {
    if limit < 0 || |s| <= limit then s else s[..limit]
  }

  function Pending(rows: Rows, limit: int, now: int): (r: seq<EventId>)
    ensures forall id :: id in r ==> id in rows && id in Due(rows, now)
  {
    EarlierTotal(rows, Due(rows, now));
    Limited(SortSet(Due(rows, now), Earlier(rows)), limit)
  }

  function Acknowledged(rows: Rows, ids: seq<EventId>): Rows {
    map id | id in rows && id !in ids :: rows[id]
  }

  // One UPDATE per id, in order; until(i) is the time at which the i-th listed row is due again.
  function Deferred(rows: Rows, ids: seq<EventId>, until: nat -> int): Rows {
    if ids == [] then rows else
      var n := |ids| - 1;
      var before := Deferred(rows, ids[..n], until);
      if ids[n] in before
      then before[ids[n] := before[ids[n]].(attempts := before[ids[n]].attempts + 1, nextAttemptAt := until(n))]
      else before
  }

  // The retry delay after the i-th reading of the clock.
  function Delayed(clock: nat -> int, retrySeconds: int): nat -> int {
    (i: nat) => clock(i) + retrySeconds
  }

  class EventSpool {
    var rows: Rows

    constructor ()
      ensures rows == map[]
    {
      rows := map[];
    }

    method Enqueue(id: EventId, kind: Kind, payload: Payload, now: int)
      modifies this
      ensures rows == Enqueued(old(rows), id, kind, payload, now)
      ensures id in old(rows) ==> rows == old(rows)
      ensures id !in old(rows) ==>
        && rows.Keys == old(rows).Keys + {id} && (forall other | other in old(rows) :: rows[other] == old(rows)[other])
        && rows[id].kind == kind && rows[id].payload == payload && rows[id].attempts == 0 && rows[id].createdAt == now
        && rows[id].nextAttemptAt == 0
    {
      if id !in rows {
        rows := rows[id := SpoolRow(kind, payload, 0, 0, now)];
      }
    }

    /** The rows that are due, oldest first and at most `limit` of them. */
    method PendingRecords(limit: int, now: int) returns (ids: seq<EventId>)
      ensures ids == Pending(rows, limit, now)
      ensures forall id | id in ids :: id in rows && rows[id].nextAttemptAt <= now
    {
      var due := Due(rows, now);
      EarlierTotal(rows, due);
      ids := Limited(SortSet(due, Earlier(rows)), limit);
    }

    method Acknowledge(ids: seq<EventId>)
      modifies this
      ensures rows == Acknowledged(old(rows), ids)
      ensures forall id :: id in rows <==> id in old(rows) && id !in ids
      ensures forall id | id in rows :: rows[id] == old(rows)[id]
    {
      for i := 0 to |ids|
        invariant rows == Acknowledged(old(rows), ids[..i])
      {
        rows := rows - {ids[i]};
        assert ids[..i + 1] == ids[..i] + [ids[i]];
      }
      assert ids[..|ids|] == ids;
    }

    // The clock is read anew for each listed id.
    method RetryLater(ids: seq<EventId>, clock: nat -> int, retrySeconds: int)
      modifies this
      ensures rows == Deferred(old(rows), ids, Delayed(clock, retrySeconds))
      ensures rows.Keys == old(rows).Keys
      ensures forall id | id in rows ::
        && rows[id].kind == old(rows)[id].kind && rows[id].payload == old(rows)[id].payload
        && rows[id].createdAt == old(rows)[id].createdAt
        && rows[id].attempts == old(rows)[id].attempts + multiset(ids)[id]
        && (id !in ids ==> rows[id] == old(rows)[id])
      ensures forall i | 0 <= i < |ids| && ids[i] in rows && (forall j | i < j < |ids| :: ids[j] != ids[i]) ::
        rows[ids[i]].nextAttemptAt == clock(i) + retrySeconds
    {
      for i := 0 to |ids|
        invariant rows == Deferred(old(rows), ids[..i], Delayed(clock, retrySeconds))
      {
        assert ids[..i + 1][..i] == ids[..i];
        if ids[i] in rows {
          rows := rows[ids[i] := rows[ids[i]].(attempts := rows[ids[i]].attempts + 1,
                                               nextAttemptAt := clock(i) + retrySeconds)];
        }
      }
      assert ids[..|ids|] == ids;
      var until := Delayed(clock, retrySeconds);
      DeferredMeaning(old(rows), ids, until);
      forall i | 0 <= i < |ids| && ids[i] in rows && (forall j | i < j < |ids| :: ids[j] != ids[i])
        ensures rows[ids[i]].nextAttemptAt == clock(i) + retrySeconds
      {
        DueAsLastListed(old(rows), ids, until, i);
      }
    }

    method Contains(id: EventId) returns (found: bool)
      ensures found == (id in rows)
    {
      found := id in rows;
    }
  }

  // ---- what the operations mean --------------------------------------------------

  lemma PendingSplit(rows: Rows, limit: int, now: int)
    ensures var r := Pending(rows, limit, now);
      && Sorted(r, Earlier(rows))
      && (forall i, j | 0 <= i < j < |r| :: r[i] != r[j])
      && (forall id | id in r :: id in Due(rows, now))
      && (forall d, id | d in Due(rows, now) && d !in r && id in r :: EarlierRow(rows, id, d))
      && |r| == if 0 <= limit < |Due(rows, now)| then limit else |Due(rows, now)|
  {
    hide EarlierRow, TotalOn;
    var due := Due(rows, now);
    EarlierTotal(rows, due);
    var all := SortSet(due, Earlier(rows));
    var r := Pending(rows, limit, now);
    forall i, j | 0 <= i < j < |r| ensures r[i] != r[j] {
      assert Earlier(rows)(all[i], all[j]);
    }
    forall d, id | d in due && d !in r && id in r ensures EarlierRow(rows, id, d) {
      var i :| 0 <= i < |r| && r[i] == id;
      var j :| 0 <= j < |all| && all[j] == d;
      assert i < j && Earlier(rows)(all[i], all[j]);
    }
  }

  /** Pending is a duplicate-free prefix of the due rows in (created_at, event_id) order:
      every due row it leaves out comes after every row it lists, and it is as long as it can be. */
  lemma PendingIsOldestFirst(rows: Rows, limit: int, now: int)
    ensures Due(rows, now) == set id | id in rows && rows[id].nextAttemptAt <= now
    ensures var r, due := Pending(rows, limit, now), set id | id in rows && rows[id].nextAttemptAt <= now;
      && Sorted(r, Earlier(rows))
      && (forall i, j | 0 <= i < j < |r| :: r[i] != r[j])
      && (forall id | id in r :: id in due)
      && (forall i, j | 0 <= i < j < |r| ::
            rows[r[i]].createdAt < rows[r[j]].createdAt
            || (rows[r[i]].createdAt == rows[r[j]].createdAt && StrLess(r[i], r[j])))
      && (forall d, id | d in due && d !in r && id in r ::
            EarlierRow(rows, id, d) &&
            (rows[id].createdAt < rows[d].createdAt || (rows[id].createdAt == rows[d].createdAt && StrLess(id, d))))
      && |r| == if 0 <= limit < |due| then limit else |due|
  {
    hide TotalOn, StrLess, Pending;
    PendingSplit(rows, limit, now);
    var r := Pending(rows, limit, now);
    forall i, j | 0 <= i < j < |r| ensures EarlierRow(rows, r[i], r[j]) { assert Earlier(rows)(r[i], r[j]); }
  }

  /** Deferring never adds or removes a row, never touches what it carries, counts one attempt per listing, and
      leaves every row alone that is not listed. */
  lemma {:induction false} DeferredMeaning(rows: Rows, ids: seq<EventId>, until: nat -> int)
    ensures var r := Deferred(rows, ids, until);
      && r.Keys == rows.Keys
      && (forall id | id in rows :: r[id].kind == rows[id].kind && r[id].payload == rows[id].payload
                                    && r[id].createdAt == rows[id].createdAt)
      && (forall id | id in rows :: r[id].attempts == rows[id].attempts + multiset(ids)[id])
      && (forall id | id in rows && id !in ids :: r[id] == rows[id])
  {
    if ids != [] {
      var n := |ids| - 1;
      DeferredMeaning(rows, ids[..n], until);
      assert ids == ids[..n] + [ids[n]];
    }
  }

  /** And a listed row is due again at the time of its last listing. */
  lemma {:induction false} DueAsLastListed(rows: Rows, ids: seq<EventId>, until: nat -> int, i: nat)
    requires i < |ids| && ids[i] in rows && forall j | i < j < |ids| :: ids[j] != ids[i]
    ensures ids[i] in Deferred(rows, ids, until) && Deferred(rows, ids, until)[ids[i]].nextAttemptAt == until(i)
  {
    var n := |ids| - 1;
    DeferredMeaning(rows, ids[..n], until);
    if i < n { DueAsLastListed(rows, ids[..n], until, i); }
  }

  ghost predicate Later(until: nat -> int, now: int) {
    forall i: nat :: until(i) > now
  }

  // A clock that does not run back and a positive delay.
  lemma DelayedIsLater(clock: nat -> int, retrySeconds: int, now: int)
    requires retrySeconds > 0 && forall i: nat :: clock(i) >= now
    ensures Later(Delayed(clock, retrySeconds), now)
  {
  }

  // Rows postponed beyond now are not due now.
  lemma {:induction false} NotDueYet(rows: Rows, ids: seq<EventId>, until: nat -> int, now: int)
    requires Later(until, now)
    ensures var r := Deferred(rows, ids, until); forall id | id in r && id in ids :: r[id].nextAttemptAt > now
  {
    if ids != [] {
      var n := |ids| - 1;
      NotDueYet(rows, ids[..n], until, now);
      DeferredMeaning(rows, ids[..n], until);
      assert ids == ids[..n] + [ids[n]];
    }
  }
}
