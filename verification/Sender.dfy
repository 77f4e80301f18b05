// The sending side of a collector: spool first, then post due batches.
module Sender {
  import opened Events
  import opened Order
  import opened Spool

  // What one attempt sees of the outside world: the course ids that resolve, by event,
  // and how the post ends. A timeout, a status of 400 or more and an unreadable body all raise.
  type Courses = map<EventId, int>
  datatype Reply = Raised | Answer(acknowledged: set<EventId>)

  function Within(ids: seq<EventId>, s: set<EventId>): seq<EventId> {
    if ids == [] then [] else
      var before, id := Within(ids[..|ids| - 1], s), ids[|ids| - 1];
      if id in s then before + [id] else before
  }

  function Outside(ids: seq<EventId>, s: set<EventId>): seq<EventId> {
    if ids == [] then [] else
      var before, id := Outside(ids[..|ids| - 1], s), ids[|ids| - 1];
      if id !in s then before + [id] else before
  }

  lemma {:induction false} WithinMembers(ids: seq<EventId>, s: set<EventId>)
    ensures forall id :: id in Within(ids, s) <==> id in ids && id in s
    ensures forall id :: id in Outside(ids, s) <==> id in ids && id !in s
  {
    if ids != [] {
      var init, last := ids[..|ids| - 1], ids[|ids| - 1];
      WithinMembers(init, s);
      assert forall id :: id in ids <==> id in init || id == last;
    }
  }

  lemma SortedThen(ids: seq<EventId>, last: EventId, less: (EventId, EventId) -> bool)
    requires Sorted(ids, less) && forall id | id in ids :: less(id, last)
    ensures Sorted(ids + [last], less)
  {
  }

  // Picking out keeps the order, and so never lists an id twice that was listed once.
  lemma {:induction false} WithinSorted(ids: seq<EventId>, s: set<EventId>, less: (EventId, EventId) -> bool)
    requires Sorted(ids, less)
    ensures Sorted(Within(ids, s), less) && Sorted(Outside(ids, s), less)
  {
    if ids != [] {
      var init, last := ids[..|ids| - 1], ids[|ids| - 1];
      assert Sorted(init, less);
      assert forall id | id in init :: less(id, last);
      WithinMembers(init, s);
      WithinSorted(init, s, less);
      if last in s {
        SortedThen(Within(init, s), last, less);
      } else {
        SortedThen(Outside(init, s), last, less);
      }
    }
  }

  function Entry(rows: Rows, courses: Courses, id: EventId): Item
    requires id in rows && id in courses
  {
    Item(rows[id].kind, Values(id, courses[id], rows[id].payload))
  }

  function Request(rows: Rows, ids: seq<EventId>, courses: Courses): (r: seq<Item>)
    requires forall id | id in ids :: id in rows && id in courses
    ensures |r| == |ids| && forall i | 0 <= i < |r| :: r[i] == Entry(rows, courses, ids[i])
  {
    if ids == [] then [] else
      Request(rows, ids[..|ids| - 1], courses) + [Entry(rows, courses, ids[|ids| - 1])]
  }

  // The spool after one flush.
  function Flushed(rows: Rows, limit: int, now: int, until: nat -> int, courses: Courses, reply: Reply): Rows {
    var batch := Pending(rows, limit, now);
    var attempted := Within(batch, courses.Keys);
    if batch == [] then rows
    else if attempted == [] then Deferred(rows, batch, until)
    else match reply
      case Raised => Deferred(rows, attempted, until)
      case Answer(acknowledged) =>
        Deferred(Acknowledged(rows, Within(attempted, acknowledged)), Outside(attempted, acknowledged), until)
  }

  class SnapshotSender {
    const spool: EventSpool
    const batchSize: int
    const retrySeconds: int

    constructor (spool: EventSpool, batchSize: int, retrySeconds: int)
      ensures this.spool == spool && this.batchSize == batchSize && this.retrySeconds == retrySeconds
    {
      this.spool := spool;
      this.batchSize := batchSize;
      this.retrySeconds := retrySeconds;
    }

    // The batch to post: the records whose course resolves, in the order given.
    method Assemble(records: seq<EventId>, courses: Courses) returns (events: seq<Item>, attemptedIds: seq<EventId>)
      requires forall id | id in records :: id in spool.rows
      ensures attemptedIds == Within(records, courses.Keys)
      ensures forall id | id in attemptedIds :: id in spool.rows && id in courses
      ensures events == Request(spool.rows, attemptedIds, courses)
    {
      events, attemptedIds := [], [];
      for i := 0 to |records|
        invariant attemptedIds == Within(records[..i], courses.Keys)
        invariant forall id | id in attemptedIds :: id in spool.rows && id in courses
        invariant events == Request(spool.rows, attemptedIds, courses)
      {
        var id := records[i];
        assert id in records;
        assert records[..i + 1][..i] == records[..i];
        if id in courses {
          assert (attemptedIds + [id])[..|attemptedIds|] == attemptedIds;
          events := events + [Entry(spool.rows, courses, id)];
          attemptedIds := attemptedIds + [id];
        }
      }
      assert records[..|records|] == records;
    }

    /** One pass over the due records; returns the number of records acknowledged and the batch posted. The
        clock is read once for the selection and then once for each row that is postponed. */
    method FlushOnce(now: int, clock: nat -> int, courses: Courses, reply: Reply) returns (sent: nat, posted: seq<Item>)
      modifies spool
      ensures spool.rows == Flushed(old(spool.rows), batchSize, now, Delayed(clock, retrySeconds), courses, reply)
      ensures var attempted := Within(Pending(old(spool.rows), batchSize, now), courses.Keys);
        && (forall id | id in attempted :: id in old(spool.rows) && id in courses)
        && posted == Request(old(spool.rows), attempted, courses)
        && sent == if reply.Answer? then |Within(attempted, reply.acknowledged)| else 0
    {
      hide Pending, Deferred, Acknowledged, Due, Request;
      var records := spool.PendingRecords(batchSize, now);
      var events, attemptedIds := Assemble(records, courses);
      posted := events;
      if records == [] {
        return 0, posted;
      }
      if events == [] {
        spool.RetryLater(records, clock, retrySeconds);
        return 0, posted;
      }
      match reply
      case Raised =>
        spool.RetryLater(attemptedIds, clock, retrySeconds);
        return 0, posted;
      case Answer(acknowledged) =>
        var completed := Within(attemptedIds, acknowledged);
        spool.Acknowledge(completed);
        spool.RetryLater(Outside(attemptedIds, acknowledged), clock, retrySeconds);
        return |completed|, posted;
    }

    /** True exactly when the record is no longer waiting in the spool. A new record whose course resolves, and which
        fits into the batch beside what was due, is posted at once and its answer decides. */
    method RegisterSnapshot(id: EventId, payload: Payload, enqueuedAt: int, now: int, clock: nat -> int,
                            courses: Courses, reply: Reply)
      returns (stored: bool, posted: seq<Item>)
      modifies spool
      ensures spool.rows == Flushed(Enqueued(old(spool.rows), id, Snapshot, payload, enqueuedAt), batchSize, now,
                                    Delayed(clock, retrySeconds), courses, reply)
      ensures stored <==> id !in spool.rows
      ensures Fits(old(spool.rows), id, batchSize, now) && id in courses ==>
        && Item(Snapshot, Values(id, courses[id], payload)) in posted
        && (stored <==> reply.Answer? && id in reply.acknowledged)
      ensures old(spool.rows) == map[] && id in courses && batchSize != 0 && now >= 0
          && reply.Answer? && id in reply.acknowledged
        ==> stored && posted == [Item(Snapshot, Values(id, courses[id], payload))] && spool.rows == map[]
    {
      hide Flushed, Pending, Request, Within, Fits;
      ghost var until := Delayed(clock, retrySeconds);
      if id in courses && Fits(spool.rows, id, batchSize, now) {
        FreshIsPosted(spool.rows, id, Snapshot, payload, enqueuedAt, batchSize, now, until, courses, reply);
      }
      if id in courses && batchSize != 0 && now >= 0 {
        OnlyFreshIsPosted(id, Snapshot, payload, enqueuedAt, batchSize, now, until, courses, reply);
      }
      spool.Enqueue(id, Snapshot, payload, enqueuedAt);
      var _, batch := FlushOnce(now, clock, courses, reply);
      var waiting := spool.Contains(id);
      return !waiting, batch;
    }
  }

  // A new id, and room for it in a batch beside the rows that are due.
  ghost predicate Fits(rows: Rows, id: EventId, limit: int, now: int) {
    && id !in rows && now >= 0
    && (limit < 0 || |set other | other in rows && rows[other].nextAttemptAt <= now| < limit)
  }

  /** An event enqueued into a spool with room is posted by the very next flush with what was handed over, and waits
      afterwards exactly when it was not acknowledged. */
  lemma FreshIsPosted(before: Rows, id: EventId, kind: Kind, payload: Payload, enqueuedAt: int, limit: int, now: int,
                      until: nat -> int, courses: Courses, reply: Reply)
    requires Fits(before, id, limit, now) && id in courses
    ensures var rows := Enqueued(before, id, kind, payload, enqueuedAt);
      var attempted := Within(Pending(rows, limit, now), courses.Keys);
      && (forall other | other in attempted :: other in rows && other in courses)
      && Item(kind, Values(id, courses[id], payload)) in Request(rows, attempted, courses)
      && (id !in Flushed(rows, limit, now, until, courses, reply) <==> reply.Answer? && id in reply.acknowledged)
  {
    hide Pending, Flushed, Within, Fits, Completed;
    var rows := Enqueued(before, id, kind, payload, enqueuedAt);
    FitsIsFresh(before, id, limit, now);
    var attempted := Within(Pending(rows, limit, now), courses.Keys);
    WithinMembers(Pending(rows, limit, now), courses.Keys);
    FreshIsPicked(before, id, kind, payload, enqueuedAt, limit, now);
    var k :| 0 <= k < |attempted| && attempted[k] == id;
    assert Request(rows, attempted, courses)[k] == Item(kind, Values(id, courses[id], payload));
    FlushedIds(rows, limit, now, until, courses, reply);
  }

  lemma FitsIsFresh(rows: Rows, id: EventId, limit: int, now: int)
    requires Fits(rows, id, limit, now)
    ensures id !in rows
  {
  }

  /** From an empty spool nothing else is posted, and the acknowledgement leaves the spool empty. */
  lemma OnlyFreshIsPosted(id: EventId, kind: Kind, payload: Payload, enqueuedAt: int, limit: int, now: int,
                          until: nat -> int, courses: Courses, reply: Reply)
    requires id in courses && limit != 0 && now >= 0
    ensures var rows := Enqueued(map[], id, kind, payload, enqueuedAt);
      var attempted := Within(Pending(rows, limit, now), courses.Keys);
      && Fits(map[], id, limit, now) && rows.Keys == {id} && attempted == [id]
      && Request(rows, attempted, courses) == [Item(kind, Values(id, courses[id], payload))]
      && (reply.Answer? && id in reply.acknowledged ==>
            Flushed(rows, limit, now, until, courses, reply) == map[])
  {
    hide Pending, Flushed, Within, Completed;
    var rows := Enqueued(map[], id, kind, payload, enqueuedAt);
    var attempted := Within(Pending(rows, limit, now), courses.Keys);
    FreshIsPicked(map[], id, kind, payload, enqueuedAt, limit, now);
    WithinMembers(Pending(rows, limit, now), courses.Keys);
    AttemptedOnce(rows, limit, now, courses);
    assert rows.Keys == {id} && id in attempted;
    OnlyOne(attempted, id);
    FlushedIds(rows, limit, now, until, courses, reply);
  }

  lemma OnlyOne(ids: seq<EventId>, id: EventId)
    requires Distinct(ids) && id in ids && forall other | other in ids :: other == id
    ensures ids == [id]
  {
    DistinctCount(ids);
    assert (set other | other in ids) == {id};
    assert ids[0] in ids;
  }

  lemma FreshIsPicked(before: Rows, id: EventId, kind: Kind, payload: Payload, enqueuedAt: int, limit: int, now: int)
    requires Fits(before, id, limit, now)
    ensures id in Pending(Enqueued(before, id, kind, payload, enqueuedAt), limit, now)
  {
    hide Pending;
    var rows := Enqueued(before, id, kind, payload, enqueuedAt);
    PendingIsOldestFirst(rows, limit, now);
    var due := set other | other in before && before[other].nextAttemptAt <= now;
    assert Due(rows, now) == due + {id};
    if id !in Pending(rows, limit, now) {
      PendingCount(rows, limit, now);
    }
  }

  lemma PendingCount(rows: Rows, limit: int, now: int)
    ensures |Pending(rows, limit, now)| == |Due(rows, now)| ==>
      forall id :: id in Due(rows, now) ==> id in Pending(rows, limit, now)
  {
    hide Pending;
    var batch := Pending(rows, limit, now);
    PendingIsOldestFirst(rows, limit, now);
    DistinctCount(batch);
    SubsetOfSameSize((set id | id in batch), Due(rows, now));
  }

  lemma SubsetOfSameSize(a: set<EventId>, b: set<EventId>)
    requires a <= b
    ensures |a| == |b| ==> a == b
  {
    assert b == a + (b - a);
  }

  lemma FlushedIds(rows: Rows, limit: int, now: int, until: nat -> int, courses: Courses, reply: Reply)
    ensures forall id :: id in Flushed(rows, limit, now, until, courses, reply) <==>
      id in rows && id !in Completed(rows, limit, now, courses, reply)
    ensures forall id :: id in Completed(rows, limit, now, courses, reply) <==>
      id in Pending(rows, limit, now) && id in courses && reply.Answer? && id in reply.acknowledged
  {
    hide Pending, Deferred, Flushed, Touched;
    var late := FlushedAsRemoveAndDefer(rows, limit, now, until, courses, reply);
    DeferredMeaning(Acknowledged(rows, Completed(rows, limit, now, courses, reply)), late, until);
    var attempted := Within(Pending(rows, limit, now), courses.Keys);
    WithinMembers(Pending(rows, limit, now), courses.Keys);
    if reply.Answer? { WithinMembers(attempted, reply.acknowledged); }
  }

  // ---- one flush in plain terms ----------------------------------------------------

  ghost predicate Distinct(ids: seq<EventId>) {
    forall i, j | 0 <= i < j < |ids| :: ids[i] != ids[j]
  }

  lemma DistinctThen(ids: seq<EventId>, last: EventId)
    requires Distinct(ids) && last !in ids
    ensures Distinct(ids + [last])
  {
  }

  lemma {:induction false} WithinDistinct(ids: seq<EventId>, s: set<EventId>)
    requires Distinct(ids)
    ensures Distinct(Within(ids, s)) && Distinct(Outside(ids, s))
  {
    if ids != [] {
      var init, last := ids[..|ids| - 1], ids[|ids| - 1];
      assert Distinct(init) && last !in init;
      WithinDistinct(init, s);
      WithinMembers(init, s);
      if last in s {
        DistinctThen(Within(init, s), last);
      } else {
        DistinctThen(Outside(init, s), last);
      }
    }
  }

  // The row counts one more attempt and is due again the delay after some reading of the clock.
  ghost predicate TriedAgain(row: SpoolRow, before: SpoolRow, clock: nat -> int, retrySeconds: int) {
    && row == before.(attempts := before.attempts + 1, nextAttemptAt := row.nextAttemptAt)
    && exists i: nat :: row.nextAttemptAt == clock(i) + retrySeconds
  }

  lemma AttemptedOnce(rows: Rows, limit: int, now: int, courses: Courses)
    ensures var batch := Pending(rows, limit, now);
      && Distinct(batch) && Distinct(Within(batch, courses.Keys))
      && |Within(batch, courses.Keys)| == |(set id | id in batch) * courses.Keys|
  {
    hide Pending;
    var batch := Pending(rows, limit, now);
    PendingIsOldestFirst(rows, limit, now);
    WithinDistinct(batch, courses.Keys);
    WithinMembers(batch, courses.Keys);
    DistinctCount(Within(batch, courses.Keys));
    assert (set id | id in Within(batch, courses.Keys)) == (set id | id in batch) * courses.Keys;
  }

  lemma AttemptedInOrder(rows: Rows, limit: int, now: int, courses: Courses)
    ensures var attempted := Within(Pending(rows, limit, now), courses.Keys);
      forall i, j | 0 <= i < j < |attempted| :: EarlierRow(rows, attempted[i], attempted[j])
  {
    hide Pending, EarlierRow;
    var batch, attempted := Pending(rows, limit, now), Within(Pending(rows, limit, now), courses.Keys);
    PendingIsOldestFirst(rows, limit, now);
    WithinSorted(batch, courses.Keys, Earlier(rows));
    forall i, j | 0 <= i < j < |attempted| ensures EarlierRow(rows, attempted[i], attempted[j]) {
      assert Earlier(rows)(attempted[i], attempted[j]);
    }
  }

  /** The batch posted: the selected records whose course resolves, each once and with what its row carries, in order
      of creation and id. */
  lemma PostedMeaning(rows: Rows, limit: int, now: int, courses: Courses)
    ensures var batch, attempted := Pending(rows, limit, now), Within(Pending(rows, limit, now), courses.Keys);
      && (forall id :: id in attempted <==> id in batch && id in courses)
      && |attempted| == |(set id | id in batch) * courses.Keys|
      && (forall id | id in attempted :: id in rows && id in courses)
      && (forall i, j | 0 <= i < j < |attempted| ::
            rows[attempted[i]].createdAt < rows[attempted[j]].createdAt
            || (rows[attempted[i]].createdAt == rows[attempted[j]].createdAt && StrLess(attempted[i], attempted[j])))
      && var posted := Request(rows, attempted, courses);
      && |posted| == |attempted|
      && (forall i | 0 <= i < |posted| :: posted[i].kind == rows[attempted[i]].kind
            && posted[i].values.eventId == attempted[i] && posted[i].values.courseId == courses[attempted[i]]
            && posted[i].values.payload == rows[attempted[i]].payload)
  {
    hide Pending, StrLess, Within, Request;
    WithinMembers(Pending(rows, limit, now), courses.Keys);
    AttemptedOnce(rows, limit, now, courses);
    AttemptedInOrder(rows, limit, now, courses);
  }

  /** The spool after a flush: the acknowledged attempts are gone; the other attempts, or the whole batch when no
      course resolved, count one more attempt and are due the retry delay after some reading of the clock; every
      other row is as it was. */
  lemma FlushMeaning(rows: Rows, limit: int, now: int, clock: nat -> int, retrySeconds: int, courses: Courses,
                     reply: Reply)
    ensures var r, batch := Flushed(rows, limit, now, Delayed(clock, retrySeconds), courses, reply),
                            Pending(rows, limit, now);
      var noneResolves := forall id | id in batch :: id !in courses;
      && (forall id :: id in r <==>
            id in rows && !(id in batch && id in courses && reply.Answer? && id in reply.acknowledged))
      && (forall id | id in r && id in batch && (id in courses || noneResolves) ::
            && r[id].kind == rows[id].kind && r[id].payload == rows[id].payload
            && r[id].createdAt == rows[id].createdAt && r[id].attempts == rows[id].attempts + 1
            && exists i: nat :: r[id].nextAttemptAt == clock(i) + retrySeconds)
      && (forall id | id in r && !(id in batch && (id in courses || noneResolves)) :: r[id] == rows[id])
  {
    hide Pending, Flushed;
    FlushTries(rows, limit, now, clock, retrySeconds, courses, reply);
  }

  lemma FlushTries(rows: Rows, limit: int, now: int, clock: nat -> int, retrySeconds: int, courses: Courses,
                     reply: Reply)
    ensures var r, batch := Flushed(rows, limit, now, Delayed(clock, retrySeconds), courses, reply),
                            Pending(rows, limit, now);
      var noneResolves := forall id | id in batch :: id !in courses;
      && (forall id :: id in r <==>
            id in rows && !(id in batch && id in courses && reply.Answer? && id in reply.acknowledged))
      && (forall id | id in r && id in batch && (id in courses || noneResolves) ::
            TriedAgain(r[id], rows[id], clock, retrySeconds))
      && (forall id | id in r && !(id in batch && (id in courses || noneResolves)) :: r[id] == rows[id])
  {
    hide Pending, Within, Outside, Deferred, Flushed, Acknowledged, TriedAgain;
    var batch, until := Pending(rows, limit, now), Delayed(clock, retrySeconds);
    var attempted := Within(batch, courses.Keys);
    WithinMembers(batch, courses.Keys);
    if reply.Answer? { WithinMembers(attempted, reply.acknowledged); }
    var late := FlushedAsRemoveAndDefer(rows, limit, now, until, courses, reply);
    var done := Completed(rows, limit, now, courses, reply);
    assert attempted != [] ==> attempted[0] in attempted;
    RemoveAndRetry(rows, done, late, clock, retrySeconds);
  }

  lemma RemoveAndRetry(rows: Rows, done: seq<EventId>, late: seq<EventId>, clock: nat -> int, retrySeconds: int)
    requires Distinct(late)
    ensures var r := Deferred(Acknowledged(rows, done), late, Delayed(clock, retrySeconds));
      && (forall id :: id in r <==> id in rows && id !in done)
      && (forall id | id in r && id in late :: TriedAgain(r[id], rows[id], clock, retrySeconds))
      && (forall id | id in r && id !in late :: r[id] == rows[id])
  {
    hide Deferred, TriedAgain;
    var left := Acknowledged(rows, done);
    DeferredMeaning(left, late, Delayed(clock, retrySeconds));
    forall id | id in left && id in late
      ensures TriedAgain(Deferred(left, late, Delayed(clock, retrySeconds))[id], rows[id], clock, retrySeconds)
    {
      TriedOnce(left, late, clock, retrySeconds, id);
    }
  }

  lemma TriedOnce(rows: Rows, ids: seq<EventId>, clock: nat -> int, retrySeconds: int, id: EventId)
    requires Distinct(ids) && id in rows && id in ids
    ensures var r := Deferred(rows, ids, Delayed(clock, retrySeconds));
      id in r && TriedAgain(r[id], rows[id], clock, retrySeconds)
  {
    hide Deferred;
    var until := Delayed(clock, retrySeconds);
    DeferredMeaning(rows, ids, until);
    var i: nat :| i < |ids| && ids[i] == id;
    DueAsLastListed(rows, ids, until, i);
    ListedOnce(ids, i);
    assert until(i) == clock(i) + retrySeconds;
  }

  lemma ListedOnce(ids: seq<EventId>, k: nat)
    requires k < |ids| && Distinct(ids)
    ensures multiset(ids)[ids[k]] == 1
  {
    assert ids == ids[..k] + [ids[k]] + ids[k + 1..];
    assert ids[k] !in ids[..k] && ids[k] !in ids[k + 1..];
  }

  // ---- progress ------------------------------------------------------------------

  // The ids one flush deals with: those it posts, or the whole batch when no course resolves.
  function Touched(rows: Rows, limit: int, now: int, courses: Courses): seq<EventId> {
    var batch := Pending(rows, limit, now);
    var attempted := Within(batch, courses.Keys);
    if attempted == [] then batch else attempted
  }

  // What removing some rows and postponing others does to the due set.
  lemma RemoveAndDefer(rows: Rows, removed: seq<EventId>, late: seq<EventId>, until: nat -> int, now: int)
    requires Later(until, now)
    ensures var r := Deferred(Acknowledged(rows, removed), late, until);
      && (forall id :: id in r <==> id in rows && id !in removed)
      && (forall id | id in r :: r[id].kind == rows[id].kind && r[id].payload == rows[id].payload)
      && (forall id | id in r && id !in late :: r[id] == rows[id])
      && (forall id :: id in Due(r, now) <==> id in Due(rows, now) && id !in removed && id !in late)
  {
    DeferredMeaning(Acknowledged(rows, removed), late, until);
    NotDueYet(Acknowledged(rows, removed), late, until, now);
  }

  function Completed(rows: Rows, limit: int, now: int, courses: Courses, reply: Reply): seq<EventId> {
    if reply.Answer? then Within(Within(Pending(rows, limit, now), courses.Keys), reply.acknowledged) else []
  }

  lemma NoneGone(rows: Rows)
    ensures Acknowledged(rows, []) == rows
  {
  }

  // One flush is one removal followed by one postponement, and together they cover what it touched.
  lemma FlushedAsRemoveAndDefer(rows: Rows, limit: int, now: int, until: nat -> int, courses: Courses, reply: Reply)
    returns (late: seq<EventId>)
    ensures var done := Completed(rows, limit, now, courses, reply);
      && Flushed(rows, limit, now, until, courses, reply) == Deferred(Acknowledged(rows, done), late, until)
      && (forall id :: id in Touched(rows, limit, now, courses) <==> id in done || id in late)
      && Distinct(late)
  {
    hide Pending, Outside, Acknowledged;
    AttemptedOnce(rows, limit, now, courses);
    var batch := Pending(rows, limit, now);
    var attempted := Within(batch, courses.Keys);
    NoneGone(rows);
    if attempted == [] {
      late := batch;
    } else if reply.Raised? {
      late := attempted;
    } else {
      late := Outside(attempted, reply.acknowledged);
      WithinMembers(attempted, reply.acknowledged);
      WithinDistinct(attempted, reply.acknowledged);
    }
  }

  /** One flush removes exactly the acknowledged attempts, takes every id it touched out of the
      due set when the retry delay is positive, and leaves every other row as it was. */
  lemma FlushEffect(rows: Rows, limit: int, now: int, until: nat -> int, courses: Courses, reply: Reply)
    requires Later(until, now)
    ensures var r, touched := Flushed(rows, limit, now, until, courses, reply), Touched(rows, limit, now, courses);
      && (forall id :: id in Due(r, now) <==> id in Due(rows, now) && id !in touched)
      && (forall id :: id in r <==> (id in rows && id !in Completed(rows, limit, now, courses, reply)))
      && (forall id | id in r :: r[id].kind == rows[id].kind && r[id].payload == rows[id].payload)
      && (forall id | id in r && id !in touched :: r[id] == rows[id])
  {
    hide Pending, Completed, Within, Outside, Deferred, Acknowledged;
    var late := FlushedAsRemoveAndDefer(rows, limit, now, until, courses, reply);
    RemoveAndDefer(rows, Completed(rows, limit, now, courses, reply), late, until, now);
  }

  // What a flush touches is due, and is something whenever anything is due.
  lemma TouchedIsDue(rows: Rows, limit: int, now: int, courses: Courses)
    ensures forall id | id in Touched(rows, limit, now, courses) :: id in Due(rows, now)
    ensures limit != 0 && Due(rows, now) != {} ==> Touched(rows, limit, now, courses) != []
  {
    WithinMembers(Pending(rows, limit, now), courses.Keys);
    PendingIsOldestFirst(rows, limit, now);
  }

  /** At a fixed clock a flush of a nonempty due set strictly shrinks it, whatever resolves and
      however the post ends. */
  lemma FlushShrinksDue(rows: Rows, limit: int, now: int, until: nat -> int, courses: Courses, reply: Reply)
    requires limit != 0 && Later(until, now) && Due(rows, now) != {}
    ensures Due(Flushed(rows, limit, now, until, courses, reply), now) < Due(rows, now)
  {
    hide Pending, Completed, Within, Touched, Flushed, Due;
    FlushEffect(rows, limit, now, until, courses, reply);
    TouchedIsDue(rows, limit, now, courses);
    var touched := Touched(rows, limit, now, courses);
    assert touched[0] in touched && touched[0] in Due(rows, now);
  }

  /** So it does when the clock does not run back during the flush and the retry delay is positive. */
  lemma FlushOnTime(rows: Rows, limit: int, now: int, clock: nat -> int, retrySeconds: int, courses: Courses,
                    reply: Reply)
    requires limit != 0 && retrySeconds > 0 && (forall i: nat :: clock(i) >= now) && Due(rows, now) != {}
    ensures Due(Flushed(rows, limit, now, Delayed(clock, retrySeconds), courses, reply), now) < Due(rows, now)
  {
    hide Due, Flushed;
    DelayedIsLater(clock, retrySeconds, now);
    FlushShrinksDue(rows, limit, now, Delayed(clock, retrySeconds), courses, reply);
  }

  // k flushes at a fixed clock with every course resolved and every posted id acknowledged.
  function FlushTimes(rows: Rows, limit: int, now: int, until: nat -> int, courses: Courses, k: nat): Rows
    decreases k
  {
    if k == 0 then rows
    else FlushTimes(Flushed(rows, limit, now, until, courses, Answer(courses.Keys)), limit, now, until, courses, k - 1)
  }

  lemma FullFlush(rows: Rows, limit: int, now: int, until: nat -> int, courses: Courses)
    requires limit > 0 && Later(until, now) && rows.Keys <= courses.Keys
    ensures var r := Flushed(rows, limit, now, until, courses, Answer(courses.Keys));
      && r.Keys <= rows.Keys && Due(r, now) <= Due(rows, now)
      && r.Keys - Due(r, now) == rows.Keys - Due(rows, now)
      && |Due(r, now)| == if |Due(rows, now)| <= limit then 0 else |Due(rows, now)| - limit
  {
    hide Pending, Completed, Within, Outside, Deferred, Acknowledged, Touched, Flushed, Due;
    var reply := Answer(courses.Keys);
    FlushEffect(rows, limit, now, until, courses, reply);
    PendingIsOldestFirst(rows, limit, now);
    var batch := Pending(rows, limit, now);
    var gone := set id | id in batch;
    DistinctCount(batch);
    TouchedAll(rows, limit, now, courses);
    TouchedIsDue(rows, limit, now, courses);
    var r := Flushed(rows, limit, now, until, courses, reply);
    assert gone <= Due(rows, now);
    assert Due(r, now) == Due(rows, now) - gone;
    assert r.Keys == rows.Keys - gone;
  }

  lemma TouchedAll(rows: Rows, limit: int, now: int, courses: Courses)
    requires rows.Keys <= courses.Keys
    ensures forall id :: id in Touched(rows, limit, now, courses) <==> id in Pending(rows, limit, now)
    ensures forall id ::
      id in Completed(rows, limit, now, courses, Answer(courses.Keys)) <==> id in Pending(rows, limit, now)
  {
    var batch := Pending(rows, limit, now);
    WithinMembers(batch, courses.Keys);
    WithinMembers(Within(batch, courses.Keys), courses.Keys);
  }

  lemma {:induction false} DistinctCount(s: seq<EventId>)
    requires Distinct(s)
    ensures |set id | id in s| == |s|
  {
    if s != [] {
      DistinctCount(s[1..]);
      assert (set id | id in s) == {s[0]} + set id | id in s[1..];
    }
  }

  /** With every course resolved and an answering backend, k flushes leave n - k * limit of n due
      records, so the due records are gone after exactly ceil(n / limit) flushes and not before,
      and nothing but due records has left the spool. */
  lemma DrainsInCeiling(rows: Rows, limit: int, now: int, until: nat -> int, courses: Courses, k: nat)
    requires limit > 0 && Later(until, now) && rows.Keys <= courses.Keys
    ensures var r, n := FlushTimes(rows, limit, now, until, courses, k), |Due(rows, now)|;
      && |Due(r, now)| == (if n <= k * limit then 0 else n - k * limit)
      && r.Keys - Due(r, now) == rows.Keys - Due(rows, now)
      && (Due(r, now) == {} <==> k >= (n + limit - 1) / limit)
  {
    hide Due, FlushTimes, Later;
    RestLeft(rows, limit, now, until, courses, k);
    CeilingBound(|Due(rows, now)|, limit, k);
  }

  lemma {:induction false} RestLeft(rows: Rows, limit: int, now: int, until: nat -> int, courses: Courses, k: nat)
    requires limit > 0 && Later(until, now) && rows.Keys <= courses.Keys
    ensures var r := FlushTimes(rows, limit, now, until, courses, k);
      && |Due(r, now)| == Rest(|Due(rows, now)|, limit, k) && r.Keys - Due(r, now) == rows.Keys - Due(rows, now)
    decreases k
  {
    hide Flushed, Due, Later, Rest;
    var n := |Due(rows, now)|;
    RestAfter(n, limit, k);
    if k > 0 {
      var next := Flushed(rows, limit, now, until, courses, Answer(courses.Keys));
      FullFlush(rows, limit, now, until, courses);
      RestLeft(next, limit, now, until, courses, k - 1);
    }
  }

  // What k batches leave of n records.
  function Rest(n: nat, limit: int, k: nat): int {
    if n <= k * limit then 0 else n - k * limit
  }

  lemma RestAfter(n: nat, limit: int, k: nat)
    requires limit > 0
    ensures Rest(n, limit, 0) == n
    ensures k > 0 ==> Rest(if n <= limit then 0 else n - limit, limit, k - 1) == Rest(n, limit, k)
  {
    if k > 0 {
      assert (k - 1) * limit + limit == k * limit;
      AtLeast(k, 1, limit);
    }
  }

  lemma CeilingBound(n: nat, limit: int, k: nat)
    requires limit > 0
    ensures n <= k * limit <==> k >= (n + limit - 1) / limit
  {
    var q, rem := (n + limit - 1) / limit, (n + limit - 1) % limit;
    assert n + limit - 1 == q * limit + rem;
    if k >= q {
      AtLeast(k, q, limit);
    } else {
      AtLeast(q, k + 1, limit);
      assert (k + 1) * limit == k * limit + limit;
    }
  }

  lemma AtLeast(a: int, b: int, m: int)
    requires m > 0 && a >= b
    ensures a * m >= b * m
  {
    assert (a - b) * m >= 0;
    assert (a - b) * m == a * m - b * m;
  }
}
