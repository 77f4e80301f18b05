// A collector's flushes against the batch endpoint: what is due reaches the tables.
module Drain {
  import opened Events
  import opened Spool
  import opened Sender
  import opened EventStore
  import opened BatchEndpoint

  datatype Ends = Ends(rows: Rows, tables: Tables)

  function Attempted(rows: Rows, limit: int, now: int, courses: Courses): (ids: seq<EventId>)
    ensures forall id | id in ids :: id in rows && id in courses
  {
    WithinMembers(Pending(rows, limit, now), courses.Keys);
    Within(Pending(rows, limit, now), courses.Keys)
  }

  function Posted(rows: Rows, limit: int, now: int, courses: Courses): seq<Item> {
    Request(rows, Attempted(rows, limit, now, courses), courses)
  }

  function IdsOf(items: seq<Item>): set<EventId> {
    set item | item in items :: item.values.eventId
  }

  // What the endpoint answers to a request when the database does not fail, as the sender sees it.
  function ReplyTo(d: Dialect, tables: Tables, request: seq<Item>): Reply {
    if RequestValid(request) && Batch(d, tables, request).Some? then Answer(IdsOf(request)) else Raised
  }

  function TablesAfter(d: Dialect, tables: Tables, request: seq<Item>): Tables {
    if RequestValid(request) && Batch(d, tables, request).Some? then Batch(d, tables, request).value else tables
  }

  // One flush; an empty batch is not posted, and the empty request is not valid.
  function Round(e: Ends, d: Dialect, limit: int, now: int, until: nat -> int, courses: Courses): Ends {
    var request := Posted(e.rows, limit, now, courses);
    Ends(Flushed(e.rows, limit, now, until, courses, ReplyTo(d, e.tables, request)), TablesAfter(d, e.tables, request))
  }

  /** The methods do that: the sender posts its batch to the endpoint and goes on with the answer it gets. */
  method FlushAgainst(sender: SnapshotSender, backend: Backend, now: int, clock: nat -> int, courses: Courses)
    requires WellFormed(backend.db.tables)
    modifies sender.spool, backend.db, backend.cache
    ensures WellFormed(backend.db.tables)
    ensures var e := Round(old(Ends(sender.spool.rows, backend.db.tables)), backend.dialect, sender.batchSize, now,
                           Delayed(clock, sender.retrySeconds), courses);
      && sender.spool.rows == e.rows
      && SameRows(e.tables, backend.db.tables)
  {
    hide Pending, Flushed, Within, SchemaValid, Batch, WellFormed, Request;
    var rows, tables := sender.spool.rows, backend.db.tables;
    var request := Posted(rows, sender.batchSize, now, courses);
    ValidIsStored(backend.dialect, tables, request);
    var response := backend.RegisterEventBatch(request, None);
    var reply := if response.Acknowledged? then Answer(set id | id in response.ids) else Raised;
    if response.Acknowledged? {
      assert (set id | id in response.ids) == IdsOf(request) by { AcknowledgedIds(request, response.ids); }
    }
    var _, posted := sender.FlushOnce(now, clock, courses, reply);
    assert posted == request;
  }

  lemma AcknowledgedIds(request: seq<Item>, ids: seq<EventId>)
    requires |ids| == |request| && forall i | 0 <= i < |request| :: ids[i] == request[i].values.eventId
    ensures (set id | id in ids) == IdsOf(request)
  {
    forall id ensures id in ids <==> id in IdsOf(request) {
      if id in ids {
        var i :| 0 <= i < |ids| && ids[i] == id;
        assert request[i] in request;
      }
      if id in IdsOf(request) {
        var item :| item in request && item.values.eventId == id;
        var i :| 0 <= i < |request| && request[i] == item;
        assert ids[i] == id;
      }
    }
  }

  lemma ValidIsStored(d: Dialect, tables: Tables, request: seq<Item>)
    ensures RequestValid(request) ==> Batch(d, tables, request).Some?
  {
    hide Batch;
    if RequestValid(request) {
      forall i | 0 <= i < |request| ensures !Refused(request[i].values) { assert SchemaValid(request[i]); }
      AcceptableBatchSucceeds(d, tables, request);
    }
  }

  // ---- draining ------------------------------------------------------------------------------------

  function Rounds(e: Ends, d: Dialect, limit: int, now: int, until: nat -> int, courses: Courses, k: nat): Ends
    decreases k
  {
    if k == 0 then e else Rounds(Round(e, d, limit, now, until, courses), d, limit, now, until, courses, k - 1)
  }

  // Every waiting event has a course and a payload the schemas accept.
  ghost predicate Deliverable(rows: Rows, courses: Courses) {
    forall id | id in rows :: id in courses && SchemaValid(Entry(rows, courses, id))
  }

  lemma {:induction false} AllWithin(ids: seq<EventId>, s: set<EventId>)
    requires forall id | id in ids :: id in s
    ensures Within(ids, s) == ids && Outside(ids, s) == []
  {
    if ids != [] {
      var init, last := ids[..|ids| - 1], ids[|ids| - 1];
      assert ids == init + [last];
      AllWithin(init, s);
    }
  }

  lemma PostedMembers(rows: Rows, limit: int, now: int, courses: Courses)
    requires rows.Keys <= courses.Keys
    ensures Attempted(rows, limit, now, courses) == Pending(rows, limit, now)
    ensures forall id :: id in IdsOf(Posted(rows, limit, now, courses)) <==> id in Pending(rows, limit, now)
    ensures forall item :: item in Posted(rows, limit, now, courses) <==>
      exists id | id in Pending(rows, limit, now) :: id in rows && id in courses && item == Entry(rows, courses, id)
  {
    hide Pending;
    var ids, items := Attempted(rows, limit, now, courses), Posted(rows, limit, now, courses);
    assert forall id | id in Pending(rows, limit, now) :: id in courses.Keys;
    AllWithin(Pending(rows, limit, now), courses.Keys);
    forall i | 0 <= i < |ids| ensures items[i] == Entry(rows, courses, ids[i]) && items[i] in items && ids[i] in ids {}
  }

  lemma PostedValid(rows: Rows, limit: int, now: int, courses: Courses)
    requires Deliverable(rows, courses) && 0 < limit <= 500 && Posted(rows, limit, now, courses) != []
    ensures RequestValid(Posted(rows, limit, now, courses))
  {
    hide Pending, SchemaValid;
    var ids, items := Attempted(rows, limit, now, courses), Posted(rows, limit, now, courses);
    PostedMembers(rows, limit, now, courses);
    PendingIsOldestFirst(rows, limit, now);
    forall i | 0 <= i < |items| ensures SchemaValid(items[i]) { assert ids[i] in ids; }
  }

  // An answer that covers what was attempted is a full one.
  lemma FullAnswer(rows: Rows, limit: int, now: int, until: nat -> int, courses: Courses, answered: set<EventId>)
    requires rows.Keys <= courses.Keys && forall id | id in Pending(rows, limit, now) :: id in answered
    ensures Flushed(rows, limit, now, until, courses, Answer(answered))
      == Flushed(rows, limit, now, until, courses, Answer(courses.Keys))
  {
    hide Pending, Deferred, Spool.Acknowledged, Within, Outside;
    var batch := Pending(rows, limit, now);
    AllWithin(batch, courses.Keys);
    AllWithin(batch, answered);
  }

  // With deliverable events a round is a flush that is answered in full, and its batch is stored.
  lemma RoundAnswered(e: Ends, d: Dialect, limit: int, now: int, until: nat -> int, courses: Courses)
    requires Deliverable(e.rows, courses) && 0 < limit <= 500
    ensures Round(e, d, limit, now, until, courses).rows
      == Flushed(e.rows, limit, now, until, courses, Answer(courses.Keys))
    ensures var request, ts := Posted(e.rows, limit, now, courses), Round(e, d, limit, now, until, courses).tables;
      if request == [] then ts == e.tables else Batch(d, e.tables, request) == Some(ts)
  {
    hide Pending, Flushed, Posted, SchemaValid, Batch;
    var request := Posted(e.rows, limit, now, courses);
    if request == [] {
      NothingPosted(e.rows, limit, now, until, courses);
    } else {
      PostedMembers(e.rows, limit, now, courses);
      PostedValid(e.rows, limit, now, courses);
      ValidIsStored(d, e.tables, request);
      FullAnswer(e.rows, limit, now, until, courses, IdsOf(request));
    }
  }

  lemma NothingPosted(rows: Rows, limit: int, now: int, until: nat -> int, courses: Courses)
    requires rows.Keys <= courses.Keys && Posted(rows, limit, now, courses) == []
    ensures forall reply :: Flushed(rows, limit, now, until, courses, reply) == rows
  {
    hide Pending;
    PostedMembers(rows, limit, now, courses);
  }

  // The event of a row that was waiting is stored; its table row carries the waiting payload, or was there before.
  ghost predicate StoredFrom(before: Ends, tables: Tables, id: EventId)
    requires id in before.rows
  {
    var kind := before.rows[id].kind;
    && HasEvent(tables.Of(kind), id)
    && forall row | row in tables.Of(kind).rows && row.values.eventId == id ::
         row.values.payload == before.rows[id].payload || row in before.tables.Of(kind).rows
  }

  // The spool keeps a part of the rows as they carry, and what has left it is stored.
  ghost predicate Moved(before: Ends, e: Ends) {
    && WellFormed(e.tables)
    && (forall id | id in e.rows :: id in before.rows
          && e.rows[id].kind == before.rows[id].kind && e.rows[id].payload == before.rows[id].payload)
    && (forall id | id in before.rows && id !in e.rows :: StoredFrom(before, e.tables, id))
    && (forall kind: Kind, row | row in e.tables.Of(kind).rows ::
          row in before.tables.Of(kind).rows
          || (row.values.eventId in before.rows && row.values.payload == before.rows[row.values.eventId].payload))
  }

  lemma RoundMoves(before: Ends, e: Ends, d: Dialect, limit: int, now: int, until: nat -> int, courses: Courses)
    requires Moved(before, e) && Deliverable(e.rows, courses) && 0 < limit <= 500 && Later(until, now)
    ensures Moved(before, Round(e, d, limit, now, until, courses))
  {
    hide Pending, Flushed, SchemaValid, Batch, Round, UniqueEvents, HasEvent, Posted, Completed, Touched, Due;
    var f := Round(e, d, limit, now, until, courses);
    RoundAnswered(e, d, limit, now, until, courses);
    FlushEffect(e.rows, limit, now, until, courses, Answer(courses.Keys));
    TouchedAll(e.rows, limit, now, courses);
    var request := Posted(e.rows, limit, now, courses);
    PostedMembers(e.rows, limit, now, courses);
    if request != [] { StoredRound(before, e, d, request, f.tables, courses); }
    forall id | id in before.rows && id !in f.rows ensures StoredFrom(before, f.tables, id) {
      if id in e.rows {
        assert id in Pending(e.rows, limit, now);
        assert Entry(e.rows, courses, id) in request;
      }
    }
  }

  // What a stored batch of waiting events does to the tables.
  lemma StoredRound(before: Ends, e: Ends, d: Dialect, request: seq<Item>, ts: Tables, courses: Courses)
    requires Moved(before, e) && Batch(d, e.tables, request) == Some(ts) && e.rows.Keys <= courses.Keys
    requires forall item | item in request ::
      item.values.eventId in e.rows && item == Entry(e.rows, courses, item.values.eventId)
    ensures WellFormed(ts)
    ensures forall kind: Kind, row | row in ts.Of(kind).rows ::
      row in before.tables.Of(kind).rows
      || (row.values.eventId in before.rows && row.values.payload == before.rows[row.values.eventId].payload)
    ensures forall id | id in before.rows && id !in e.rows :: StoredFrom(before, ts, id)
    ensures forall item | item in request :: StoredFrom(before, ts, item.values.eventId)
  {
    hide UniqueEvents, HasEvent, Batch, Mentions;
    BatchMembership(d, e.tables, request);
    forall kind: Kind, row | row in ts.Of(kind).rows
      ensures row in before.tables.Of(kind).rows
        || (row.values.eventId in before.rows && row.values.payload == before.rows[row.values.eventId].payload)
    {
      BatchRowOrigin(d, e.tables, request, kind, row);
    }
    forall item | item in request ensures StoredFrom(before, ts, item.values.eventId) {
      MentionedMember(request, item);
    }
  }

  lemma {:induction false} RoundsMove(before: Ends, e: Ends, d: Dialect, limit: int, now: int, until: nat -> int,
                                      courses: Courses, k: nat)
    requires Moved(before, e) && Deliverable(e.rows, courses) && 0 < limit <= 500 && Later(until, now)
    ensures Moved(before, Rounds(e, d, limit, now, until, courses, k))
    ensures Rounds(e, d, limit, now, until, courses, k).rows == FlushTimes(e.rows, limit, now, until, courses, k)
    decreases k
  {
    hide Moved, Round, Flushed, Deliverable, Later;
    if k > 0 {
      var f := Round(e, d, limit, now, until, courses);
      OneRound(before, e, d, limit, now, until, courses);
      RoundsMove(before, f, d, limit, now, until, courses, k - 1);
    }
  }

  lemma OneRound(before: Ends, e: Ends, d: Dialect, limit: int, now: int, until: nat -> int, courses: Courses)
    requires Moved(before, e) && Deliverable(e.rows, courses) && 0 < limit <= 500 && Later(until, now)
    ensures var f := Round(e, d, limit, now, until, courses);
      && Moved(before, f) && Deliverable(f.rows, courses)
      && f.rows == Flushed(e.rows, limit, now, until, courses, Answer(courses.Keys))
  {
    hide Moved, Round, Flushed, Deliverable, Later;
    RoundMoves(before, e, d, limit, now, until, courses);
    RoundAnswered(e, d, limit, now, until, courses);
    StillDeliverable(e.rows, limit, now, until, courses);
  }

  lemma StillDeliverable(rows: Rows, limit: int, now: int, until: nat -> int, courses: Courses)
    requires Deliverable(rows, courses) && Later(until, now)
    ensures Deliverable(Flushed(rows, limit, now, until, courses, Answer(courses.Keys)), courses)
  {
    hide Flushed, SchemaValid, Completed, Touched, Due;
    FlushEffect(rows, limit, now, until, courses, Answer(courses.Keys));
  }

  /** Sender and endpoint together: when every waiting event has a course and a valid payload, the batch size is at most
      the endpoint's 500 and the database does not fail, k flushes leave n - k * limit of n due events in the
      spool, so none is left after exactly ceil(n / limit) flushes; all that has left the spool is stored,
      with its payload unless its id was stored before; and what is not due stays. */
  lemma DrainsIntoTables(e: Ends, d: Dialect, limit: int, now: int, until: nat -> int, courses: Courses, k: nat)
    requires WellFormed(e.tables) && 0 < limit <= 500 && forall i: nat :: until(i) > now
    requires forall id | id in e.rows ::
      id in courses && SchemaValid(Item(e.rows[id].kind, Values(id, courses[id], e.rows[id].payload)))
    ensures var r, n := Rounds(e, d, limit, now, until, courses, k), |Due(e.rows, now)|;
      && |Due(r.rows, now)| == (if n <= k * limit then 0 else n - k * limit)
      && (Due(r.rows, now) == {} <==> k >= (n + limit - 1) / limit)
      && r.rows.Keys - Due(r.rows, now) == e.rows.Keys - Due(e.rows, now)
      && WellFormed(r.tables)
      && (forall id | id in e.rows && id !in r.rows ::
            var kind := e.rows[id].kind;
            && (exists row | row in r.tables.Of(kind).rows :: row.values.eventId == id)
            && forall row | row in r.tables.Of(kind).rows && row.values.eventId == id ::
                 row.values.payload == e.rows[id].payload || row in e.tables.Of(kind).rows)
  {
    hide Rounds, Due, SchemaValid, StoredFrom, WellFormed;
    DrainedAndStored(e, d, limit, now, until, courses, k);
    var r := Rounds(e, d, limit, now, until, courses, k);
    forall id | id in e.rows && id !in r.rows
      ensures var kind := e.rows[id].kind;
        && (exists row | row in r.tables.Of(kind).rows :: row.values.eventId == id)
        && forall row | row in r.tables.Of(kind).rows && row.values.eventId == id ::
             row.values.payload == e.rows[id].payload || row in e.tables.Of(kind).rows
    {
      StoredMeaning(e, r.tables, id);
    }
  }

  lemma StoredMeaning(before: Ends, tables: Tables, id: EventId)
    requires id in before.rows && StoredFrom(before, tables, id)
    ensures var kind := before.rows[id].kind;
      && (exists row | row in tables.Of(kind).rows :: row.values.eventId == id)
      && forall row | row in tables.Of(kind).rows && row.values.eventId == id ::
           row.values.payload == before.rows[id].payload || row in before.tables.Of(kind).rows
  {
  }

  lemma DrainedAndStored(e: Ends, d: Dialect, limit: int, now: int, until: nat -> int, courses: Courses, k: nat)
    requires WellFormed(e.tables) && Deliverable(e.rows, courses) && 0 < limit <= 500 && Later(until, now)
    ensures var r, n := Rounds(e, d, limit, now, until, courses, k), |Due(e.rows, now)|;
      && |Due(r.rows, now)| == (if n <= k * limit then 0 else n - k * limit)
      && (Due(r.rows, now) == {} <==> k >= (n + limit - 1) / limit)
      && r.rows.Keys - Due(r.rows, now) == e.rows.Keys - Due(e.rows, now)
      && WellFormed(r.tables)
      && (forall id | id in e.rows && id !in r.rows :: StoredFrom(e, r.tables, id))
  {
    hide Flushed, Due, SchemaValid, StoredFrom, WellFormed;
    RoundsMove(e, e, d, limit, now, until, courses, k);
    DrainsInCeiling(e.rows, limit, now, until, courses, k);
  }
}
