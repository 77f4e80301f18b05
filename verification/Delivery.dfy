// The delivery protocol between one collector and the backend, as steps that interleave freely:
// enqueues during a flush, requests that commit after the collector gave up on them, answers
// that are lost, crashes that forget everything but the spool, and other collectors writing.
module Delivery {
  import opened Events
  import opened Spool
  import opened Sender
  import opened EventStore

  // Where the one flush that holds the lock stands. Picked keeps the records as they were read.
  datatype Phase =
    | Idle
    | Picked(batch: seq<EventId>, copy: Rows)
    | Waiting(request: nat)
    | Deferring(ids: seq<EventId>)

  // sent: every request ever posted; it stays there, since it may reach the backend at any time.
  // answered: the requests the backend has committed and acknowledged.
  // first: history of the first payload the spool accepted, by table and event id.
  // foreign: event ids used by other collectors.
  datatype State = State(
    spool: Rows,
    phase: Phase,
    sent: seq<seq<Item>>,
    answered: set<nat>,
    tables: Tables,
    first: map<(Kind, EventId), Payload>,
    foreign: set<EventId>)

  const INIT := State(map[], Idle, [], {}, EMPTY, map[], {})

  datatype Step =
    | Enqueue(id: EventId, kind: Kind, payload: Payload, now: int)
    | Pick(limit: int, at: int)
    | DeferAll(courses: Courses, until: nat -> int)
    | Post(courses: Courses)
    | Commit(request: nat, dialect: Dialect)
    | BackendFails(after: Tables)
    | Receive(acknowledged: set<EventId>)
    | Postpone(until: nat -> int)
    | GiveUp(until: nat -> int)
    | Crash
    | Elsewhere(dialect: Dialect, items: seq<Item>)

  function ItemIds(items: seq<Item>): seq<EventId> {
    seq(|items|, i requires 0 <= i < |items| => items[i].values.eventId)
  }

  function IdSet(items: seq<Item>): set<EventId> {
    set item | item in items :: item.values.eventId
  }

  ghost predicate Enabled(s: State, step: Step) {
    match step
    case Enqueue(id, _, _, _) => id !in s.foreign
    case Pick(_, _) => s.phase.Idle?
    case DeferAll(courses, _) => s.phase.Picked? && Within(s.phase.batch, courses.Keys) == []
    case Post(courses) => s.phase.Picked? && Within(s.phase.batch, courses.Keys) != []
    case Commit(request, d) => request < |s.sent| && Batch(d, s.tables, s.sent[request]).Some?
    case BackendFails(after) => SameRows(s.tables, after) && IdsOnlyGrow(s.tables, after)
    case Receive(_) => s.phase.Waiting? && s.phase.request in s.answered && s.phase.request < |s.sent|
    case Postpone(_) => s.phase.Deferring?
    case GiveUp(_) => s.phase.Waiting? && s.phase.request < |s.sent|
    case Crash => true
    case Elsewhere(d, items) =>
      Batch(d, s.tables, items).Some? &&
      forall kind: Kind, id | id in IdSet(items) :: (kind, id) !in s.first
  }

  // The request that Post sends. Only records present in the copy are picked, see PhaseOk.
  function Outgoing(batch: seq<EventId>, copy: Rows, courses: Courses): seq<Item> {
    var attempted := Within(batch, courses.Keys);
    if forall id | id in attempted :: id in copy && id in courses then Request(copy, attempted, courses) else []
  }

  ghost function Apply(s: State, step: Step): State
    requires Enabled(s, step)
  {
    match step
    case Enqueue(id, kind, payload, now) =>
      s.(spool := Enqueued(s.spool, id, kind, payload, now),
         first := if id in s.spool || (kind, id) in s.first then s.first else s.first[(kind, id) := payload])
    case Pick(limit, now) =>
      var batch := Pending(s.spool, limit, now);
      if batch == [] then s else s.(phase := Picked(batch, s.spool))
    case DeferAll(_, until) => s.(spool := Deferred(s.spool, s.phase.batch, until), phase := Idle)
    case Post(courses) =>
      s.(phase := Waiting(|s.sent|), sent := s.sent + [Outgoing(s.phase.batch, s.phase.copy, courses)])
    case Commit(request, d) =>
      s.(tables := Batch(d, s.tables, s.sent[request]).value, answered := s.answered + {request})
    case BackendFails(after) => s.(tables := after)
    case Receive(acknowledged) =>
      var attempted := ItemIds(s.sent[s.phase.request]);
      s.(spool := Acknowledged(s.spool, Within(attempted, acknowledged)),
         phase := Deferring(Outside(attempted, acknowledged)))
    case Postpone(until) => s.(spool := Deferred(s.spool, s.phase.ids, until), phase := Idle)
    case GiveUp(until) =>
      s.(spool := Deferred(s.spool, ItemIds(s.sent[s.phase.request]), until), phase := Idle)
    case Crash => s.(phase := Idle)
    case Elsewhere(d, items) =>
      s.(tables := Batch(d, s.tables, items).value, foreign := s.foreign + IdSet(items))
  }

  ghost predicate Legal(s: State, steps: seq<Step>)
    decreases |steps|
  {
    steps == [] || (Enabled(s, steps[0]) && Legal(Apply(s, steps[0]), steps[1..]))
  }

  /** What can happen at any time: an enqueue of an id of one's own, a crash, a request that was ever posted reaching
      the backend, once more or for the first time, a flush when none is under way, and the sender giving up on its
      request or getting the answer to it. */
  lemma AlwaysPossible(s: State, kind: Kind, payload: Payload, now: int, limit: int, until: nat -> int, d: Dialect)
    ensures Enabled(s, Crash)
    ensures forall id | id !in s.foreign :: Enabled(s, Enqueue(id, kind, payload, now))
    ensures forall n | 0 <= n < |s.sent| && Batch(d, s.tables, s.sent[n]).Some? :: Enabled(s, Commit(n, d))
    ensures s.phase == Idle ==> Enabled(s, Pick(limit, now))
    ensures s.phase.Waiting? && s.phase.request < |s.sent| ==> Enabled(s, GiveUp(until))
    ensures forall ids | s.phase.Waiting? && s.phase.request < |s.sent| && s.phase.request in s.answered ::
      Enabled(s, Receive(ids))
    ensures forall courses: Courses | s.phase.Picked? ::
      Enabled(s, Post(courses)) || Enabled(s, DeferAll(courses, until))
  {
    hide Batch, Within;
  }

  ghost function Run(s: State, steps: seq<Step>): State
    requires Legal(s, steps)
    decreases |steps|
  {
    if steps == [] then s else Run(Apply(s, steps[0]), steps[1..])
  }

  // ---- invariant -------------------------------------------------------------------

  ghost predicate Waits(s: State, kind: Kind, id: EventId) {
    id in s.spool && s.spool[id].kind == kind
  }

  ghost predicate Stored(s: State, kind: Kind, id: EventId) {
    HasEvent(s.tables.Of(kind), id)
  }

  // Every accepted event is stored, or waits with the payload first accepted for it.
  ghost predicate Accounted(s: State) {
    forall kind: Kind, id | (kind, id) in s.first ::
      Stored(s, kind, id) || (Waits(s, kind, id) && s.spool[id].payload == s.first[(kind, id)])
  }

  ghost predicate SpoolAccepted(s: State) {
    forall id | id in s.spool :: (s.spool[id].kind, id) in s.first
  }

  ghost predicate RowFaithful(s: State, kind: Kind, row: Row) {
    var key := (kind, row.values.eventId);
    if key in s.first then row.values.payload == s.first[key] else row.values.eventId in s.foreign
  }

  ghost predicate RowsFaithful(s: State) {
    forall kind: Kind, row | row in s.tables.Of(kind).rows :: RowFaithful(s, kind, row)
  }

  ghost predicate ItemFaithful(s: State, item: Item) {
    var key := (item.kind, item.values.eventId);
    key in s.first && (Stored(s, key.0, key.1) || item.values.payload == s.first[key])
  }

  ghost predicate SentFaithful(s: State) {
    forall n, item | 0 <= n < |s.sent| && item in s.sent[n] :: ItemFaithful(s, item)
  }

  ghost predicate AnsweredStored(s: State) {
    forall n | n in s.answered :: n < |s.sent| &&
      forall item | item in s.sent[n] :: Stored(s, item.kind, item.values.eventId)
  }

  ghost predicate PhaseOk(s: State) {
    match s.phase
    case Picked(batch, copy) =>
      forall id | id in batch :: id in copy && Waits(s, copy[id].kind, id) && s.spool[id].payload == copy[id].payload
    case Waiting(n) =>
      n < |s.sent| && forall item | item in s.sent[n] :: Waits(s, item.kind, item.values.eventId)
    case _ => true
  }

  ghost predicate ForeignApart(s: State) {
    forall kind: Kind, id | (kind, id) in s.first :: id !in s.foreign
  }

  ghost predicate Inv(s: State) {
    && WellFormed(s.tables) && ForeignApart(s)
    && Accounted(s) && SpoolAccepted(s) && RowsFaithful(s)
    && SentFaithful(s) && AnsweredStored(s) && PhaseOk(s)
  }

  // Nothing stored, accepted or sent is ever taken back.
  ghost predicate Grows(s: State, t: State) {
    && (forall kind: Kind, id | Stored(s, kind, id) :: Stored(t, kind, id))
    && (forall key | key in s.first :: key in t.first && t.first[key] == s.first[key])
    && s.sent <= t.sent
  }

  lemma {:induction false} IdsOfItems(items: seq<Item>)
    ensures forall id :: id in ItemIds(items) <==> id in IdSet(items)
  {
    forall id ensures id in ItemIds(items) <==> id in IdSet(items) {
      if id in ItemIds(items) {
        var i :| 0 <= i < |items| && ItemIds(items)[i] == id;
        assert items[i] in items;
      }
      if id in IdSet(items) {
        var item :| item in items && item.values.eventId == id;
        var i :| 0 <= i < |items| && items[i] == item;
        assert ItemIds(items)[i] == id;
      }
    }
  }

  // A spool that keeps kind and payload of every row, and every row, keeps what the invariant says of it.
  ghost predicate SameRecords(rows: Rows, after: Rows) {
    forall id | id in rows ::
      id in after && after[id].kind == rows[id].kind && after[id].payload == rows[id].payload
  }

  lemma SpoolOnlyKeepsInv(s: State, rows: Rows, phase: Phase)
    requires Inv(s) && SameRecords(s.spool, rows) && SameRecords(rows, s.spool)
    requires phase == s.phase || phase.Idle?
    ensures Inv(s.(spool := rows, phase := phase))
  {
    hide WellFormed;
    var t := s.(spool := rows, phase := phase);
    assert forall kind: Kind, id :: Waits(t, kind, id) <==> Waits(s, kind, id);
    assert forall kind: Kind, id :: Stored(t, kind, id) <==> Stored(s, kind, id);
    assert forall kind: Kind, row :: RowFaithful(t, kind, row) <==> RowFaithful(s, kind, row);
    assert forall item :: ItemFaithful(t, item) <==> ItemFaithful(s, item);
  }

  lemma DeferKeepsInv(s: State, ids: seq<EventId>, until: nat -> int)
    requires Inv(s)
    ensures Inv(s.(spool := Deferred(s.spool, ids, until), phase := Idle))
  {
    hide *;
    DeferredSame(s.spool, ids, until);
    SpoolOnlyKeepsInv(s, Deferred(s.spool, ids, until), Idle);
  }

  lemma DeferredSame(rows: Rows, ids: seq<EventId>, until: nat -> int)
    ensures SameRecords(rows, Deferred(rows, ids, until)) && SameRecords(Deferred(rows, ids, until), rows)
  {
    DeferredMeaning(rows, ids, until);
  }

  // ---- one step at a time ------------------------------------------------------------

  lemma EnqueueKeepsInv(s: State, id: EventId, kind: Kind, payload: Payload, now: int)
    requires Inv(s) && id !in s.foreign
    ensures var t := Apply(s, Enqueue(id, kind, payload, now)); Inv(t) && Grows(s, t)
  {
    hide WellFormed, HasEvent;
    var t := Apply(s, Enqueue(id, kind, payload, now));
    assert forall k: Kind, e :: Stored(t, k, e) <==> Stored(s, k, e);
    if id !in s.spool {
      forall k: Kind, e | (k, e) in t.first
        ensures Stored(t, k, e) || (Waits(t, k, e) && t.spool[e].payload == t.first[(k, e)])
      {
        if (k, e) in s.first {
          assert Stored(s, k, e) || (Waits(s, k, e) && s.spool[e].payload == s.first[(k, e)]);
        }
      }
      forall k: Kind, row | row in t.tables.Of(k).rows ensures RowFaithful(t, k, row) {
        assert RowFaithful(s, k, row);
      }
      forall n, item | 0 <= n < |t.sent| && item in t.sent[n] ensures ItemFaithful(t, item) {
        assert ItemFaithful(s, item);
      }
      assert forall k: Kind, e | Waits(s, k, e) :: Waits(t, k, e) && t.spool[e] == s.spool[e];
    }
  }

  lemma PhaseOnlyKeepsInv(s: State, phase: Phase)
    requires Inv(s) && PhaseOk(s.(phase := phase))
    ensures var t := s.(phase := phase); Inv(t) && Grows(s, t)
  {
    hide WellFormed, HasEvent, PhaseOk;
    var t := s.(phase := phase);
    assert forall k: Kind, e :: Stored(t, k, e) <==> Stored(s, k, e);
    assert forall k: Kind, e :: Waits(t, k, e) <==> Waits(s, k, e);
    assert forall k: Kind, row :: RowFaithful(t, k, row) <==> RowFaithful(s, k, row);
    assert forall item :: ItemFaithful(t, item) <==> ItemFaithful(s, item);
  }

  lemma PickKeepsInv(s: State, limit: int, now: int)
    requires Inv(s) && s.phase.Idle?
    ensures var t := Apply(s, Pick(limit, now)); Inv(t) && Grows(s, t)
  {
    hide Inv, Pending, Due;
    var batch := Pending(s.spool, limit, now);
    SelfGrows(s);
    if batch != [] { PhaseOnlyKeepsInv(s, Picked(batch, s.spool)); }
  }

  // The posted entries are the records read, which still wait unchanged in the spool.
  lemma OutgoingMembers(s: State, courses: Courses, item: Item)
    requires Inv(s) && s.phase.Picked?
    requires item in Outgoing(s.phase.batch, s.phase.copy, courses)
    ensures var id := item.values.eventId;
      id in s.phase.batch && Waits(s, item.kind, id) && item.values.payload == s.spool[id].payload
  {
    hide WellFormed, HasEvent, Accounted, RowsFaithful, SentFaithful;
    var attempted := Within(s.phase.batch, courses.Keys);
    WithinMembers(s.phase.batch, courses.Keys);
    var items := Request(s.phase.copy, attempted, courses);
    var i :| 0 <= i < |items| && items[i] == item;
    assert attempted[i] in attempted;
    assert item == Entry(s.phase.copy, courses, attempted[i]);
  }

  lemma PostKeepsInv(s: State, courses: Courses)
    requires Inv(s) && Enabled(s, Post(courses))
    ensures var t := Apply(s, Post(courses)); Inv(t) && Grows(s, t)
  {
    hide WellFormed, HasEvent, Outgoing;
    var t := Apply(s, Post(courses));
    var n := |s.sent|;
    assert forall k: Kind, e :: Stored(t, k, e) <==> Stored(s, k, e);
    assert forall k: Kind, row :: RowFaithful(t, k, row) <==> RowFaithful(s, k, row);
    forall item | item in t.sent[n] ensures ItemFaithful(t, item) && Waits(t, item.kind, item.values.eventId) {
      OutgoingMembers(s, courses, item);
      assert (item.kind, item.values.eventId) in s.first;
    }
    forall m, item | 0 <= m < |t.sent| && item in t.sent[m] ensures ItemFaithful(t, item) {
      if m < n { assert ItemFaithful(s, item); }
    }
    assert forall m | m in t.answered :: m < n && t.sent[m] == s.sent[m];
  }

  // Tables that gain only entries that are faithful, or come from elsewhere, keep the invariant.
  lemma TablesKeepInv(s: State, d: Dialect, items: seq<Item>, ours: bool)
    requires Inv(s) && Batch(d, s.tables, items).Some?
    requires ours ==> forall item | item in items :: ItemFaithful(s, item)
    requires !ours ==> forall kind: Kind, id | id in IdSet(items) :: (kind, id) !in s.first
    ensures var t := s.(tables := Batch(d, s.tables, items).value,
                        foreign := if ours then s.foreign else s.foreign + IdSet(items));
      && Inv(t) && Grows(s, t)
      && forall item | item in items :: Stored(t, item.kind, item.values.eventId)
  {
    hide UniqueEvents, HasEvent, Batch, Mentions, Waits;
    var us := Batch(d, s.tables, items).value;
    var t := s.(tables := us, foreign := if ours then s.foreign else s.foreign + IdSet(items));
    BatchMembership(d, s.tables, items);
    assert forall k: Kind, e | Stored(s, k, e) :: Stored(t, k, e);
    forall k: Kind, row | row in us.Of(k).rows ensures RowFaithful(t, k, row) {
      BatchRowOrigin(d, s.tables, items, k, row);
      if row in s.tables.Of(k).rows {
        assert RowFaithful(s, k, row);
      } else if ours {
        assert ItemFaithful(s, Item(k, row.values));
      } else {
        assert Item(k, row.values) in items && row.values.eventId in IdSet(items);
      }
    }
    forall item | item in items ensures Stored(t, item.kind, item.values.eventId) {
      MentionedMember(items, item);
    }
    forall n, item | 0 <= n < |t.sent| && item in t.sent[n] ensures ItemFaithful(t, item) {
      assert ItemFaithful(s, item);
    }
    assert forall k: Kind, e :: Waits(t, k, e) <==> Waits(s, k, e) by { SameSpool(s, t); }
  }

  lemma SameSpool(s: State, t: State)
    requires s.spool == t.spool
    ensures forall k: Kind, e :: Waits(t, k, e) <==> Waits(s, k, e)
  {
  }

  lemma CommitKeepsInv(s: State, request: nat, d: Dialect)
    requires Inv(s) && Enabled(s, Commit(request, d))
    ensures var t := Apply(s, Commit(request, d)); Inv(t) && Grows(s, t)
  {
    hide UniqueEvents, HasEvent, Batch, Waits, IdSet;
    var items := s.sent[request];
    TablesKeepInv(s, d, items, true);
    var mid := s.(tables := Batch(d, s.tables, items).value);
    var t := Apply(s, Commit(request, d));
    SameButAnswered(mid, t, request);
  }

  lemma SameButAnswered(s: State, t: State, request: nat)
    requires Inv(s) && t == s.(answered := s.answered + {request}) && request < |s.sent|
    requires forall item | item in s.sent[request] :: Stored(s, item.kind, item.values.eventId)
    ensures Inv(t)
  {
    hide WellFormed, HasEvent;
    assert forall k: Kind, e :: Stored(t, k, e) <==> Stored(s, k, e);
    assert forall k: Kind, e :: Waits(t, k, e) <==> Waits(s, k, e);
    assert forall k: Kind, row :: RowFaithful(t, k, row) <==> RowFaithful(s, k, row);
    assert forall item :: ItemFaithful(t, item) <==> ItemFaithful(s, item);
  }

  lemma BackendFailsKeepsInv(s: State, after: Tables)
    requires Inv(s) && SameRows(s.tables, after) && IdsOnlyGrow(s.tables, after)
    ensures var t := s.(tables := after); Inv(t) && Grows(s, t)
  {
    hide UniqueEvents, HasEvent;
    var t := s.(tables := after);
    forall kind: Kind ensures UniqueEvents(after.Of(kind)) {
      SameRowsMeaning(s.tables.Of(kind), after.Of(kind));
    }
    forall k: Kind, e ensures Stored(t, k, e) <==> Stored(s, k, e) {
      SameRowsMeaning(s.tables.Of(k), after.Of(k));
    }
    assert forall k: Kind, e :: Waits(t, k, e) <==> Waits(s, k, e);
    assert forall k: Kind, row :: RowFaithful(t, k, row) <==> RowFaithful(s, k, row);
    assert forall item :: ItemFaithful(t, item) <==> ItemFaithful(s, item);
  }

  // Acknowledged entries are stored, so their rows may leave the spool.
  lemma ReceiveKeepsInv(s: State, acknowledged: set<EventId>)
    requires Inv(s) && Enabled(s, Receive(acknowledged))
    ensures var t := Apply(s, Receive(acknowledged)); Inv(t) && Grows(s, t)
  {
    hide WellFormed, HasEvent;
    var t := Apply(s, Receive(acknowledged));
    var items := s.sent[s.phase.request];
    IdsOfItems(items);
    WithinMembers(ItemIds(items), acknowledged);
    assert forall k: Kind, e :: Stored(t, k, e) <==> Stored(s, k, e);
    assert forall k: Kind, row :: RowFaithful(t, k, row) <==> RowFaithful(s, k, row);
    assert forall item :: ItemFaithful(t, item) <==> ItemFaithful(s, item);
    forall k: Kind, e | (k, e) in t.first
      ensures Stored(t, k, e) || (Waits(t, k, e) && t.spool[e].payload == t.first[(k, e)])
    {
      assert forall item | item in items ::
        Waits(s, item.kind, item.values.eventId) && Stored(s, item.kind, item.values.eventId);
      assert Stored(s, k, e) || (Waits(s, k, e) && s.spool[e].payload == s.first[(k, e)]);
    }
  }

  /** Every step keeps the invariant and takes nothing back. */
  lemma StepKeepsInv(s: State, step: Step)
    requires Inv(s) && Enabled(s, step)
    ensures Inv(Apply(s, step)) && Grows(s, Apply(s, step))
  {
    match step
    case Enqueue(id, kind, payload, now) => EnqueueKeepsInv(s, id, kind, payload, now);
    case Pick(limit, now) => PickKeepsInv(s, limit, now);
    case DeferAll(_, until) => DeferKeepsInv(s, s.phase.batch, until);
    case Post(courses) => PostKeepsInv(s, courses);
    case Commit(request, d) => CommitKeepsInv(s, request, d);
    case BackendFails(after) => BackendFailsKeepsInv(s, after);
    case Receive(acknowledged) => ReceiveKeepsInv(s, acknowledged);
    case Postpone(until) => DeferKeepsInv(s, s.phase.ids, until);
    case GiveUp(until) => DeferKeepsInv(s, ItemIds(s.sent[s.phase.request]), until);
    case Crash => SpoolOnlyKeepsInv(s, s.spool, Idle);
    case Elsewhere(d, items) => TablesKeepInv(s, d, items, false);
  }

  // ---- whole runs ---------------------------------------------------------------------

  lemma GrowsTransitive(s: State, t: State, u: State)
    requires Grows(s, t) && Grows(t, u)
    ensures Grows(s, u)
  {
    hide HasEvent;
    assert forall kind: Kind, id | Stored(s, kind, id) :: Stored(t, kind, id);
  }

  /** Every run keeps the invariant, and nothing stored, accepted or sent is ever taken back. */
  lemma {:induction false} RunKeepsInv(s: State, steps: seq<Step>)
    requires Inv(s) && Legal(s, steps)
    ensures Inv(Run(s, steps)) && Grows(s, Run(s, steps))
    decreases |steps|
  {
    hide Inv, Grows, Enabled, Apply;
    if steps == [] {
      SelfGrows(s);
    } else {
      StepKeepsInv(s, steps[0]);
      RunKeepsInv(Apply(s, steps[0]), steps[1..]);
      GrowsTransitive(s, Apply(s, steps[0]), Run(s, steps));
    }
  }

  lemma SelfGrows(s: State)
    ensures Grows(s, s)
  {
  }

  lemma InitOk()
    ensures Inv(INIT)
  {
  }

  /** Exactly once, nothing lost: in every run from the start, with crashes, lost and late answers,
      rejected batches and partly resolved ones, an event the spool accepted waits in the spool or has
      a row in its table; it never has two rows; and its row carries the payload first accepted for it. */
  lemma DeliverySafety(steps: seq<Step>, kind: Kind, id: EventId)
    requires Legal(INIT, steps) && (kind, id) in Run(INIT, steps).first
    ensures var s := Run(INIT, steps); var rows := s.tables.Of(kind).rows;
      && ((id in s.spool && s.spool[id].kind == kind) || exists i | 0 <= i < |rows| :: rows[i].values.eventId == id)
      && (forall i, j | 0 <= i < |rows| && 0 <= j < |rows|
            && rows[i].values.eventId == id && rows[j].values.eventId == id :: i == j)
      && (forall i | 0 <= i < |rows| && rows[i].values.eventId == id :: rows[i].values.payload == s.first[(kind, id)])
  {
    InitOk();
    RunKeepsInv(INIT, steps);
    var s := Run(INIT, steps);
    var rows := s.tables.Of(kind).rows;
    assert Stored(s, kind, id) || Waits(s, kind, id);
    if Stored(s, kind, id) {
      var row :| row in rows && row.values.eventId == id;
      var i :| 0 <= i < |rows| && rows[i] == row;
    }
    forall i | 0 <= i < |rows| && rows[i].values.eventId == id
      ensures rows[i].values.payload == s.first[(kind, id)]
    {
      assert RowFaithful(s, kind, rows[i]);
    }
    assert UniqueEvents(s.tables.Of(kind));
  }

  /** An id leaves the spool only in a step after which its row is in the table of its kind. */
  lemma LeavesSpoolOnlyStored(steps: seq<Step>, step: Step, id: EventId)
    requires Legal(INIT, steps) && Enabled(Run(INIT, steps), step)
    requires id in Run(INIT, steps).spool && id !in Apply(Run(INIT, steps), step).spool
    ensures var s := Run(INIT, steps); HasEvent(s.tables.Of(s.spool[id].kind), id)
  {
    hide WellFormed, HasEvent, RowsFaithful;
    InitOk();
    RunKeepsInv(INIT, steps);
    var s := Run(INIT, steps);
    assert Inv(s);
    match step
    case Receive(acknowledged) =>
      var items := s.sent[s.phase.request];
      IdsOfItems(items);
      WithinMembers(ItemIds(items), acknowledged);
      var item :| item in items && item.values.eventId == id;
      assert Waits(s, item.kind, id) && Stored(s, item.kind, id);
    case DeferAll(_, until) => DeferredSame(s.spool, s.phase.batch, until);
    case Postpone(until) => DeferredSame(s.spool, s.phase.ids, until);
    case GiveUp(until) => DeferredSame(s.spool, ItemIds(s.sent[s.phase.request]), until);
    case _ =>
  }

  /** What a positive answer of register_snapshot or send_event means: once an event with a fresh id
      has been enqueued, then at any later point of the run at which its id is not in the spool,
      it is stored in its table with exactly the payload that was handed over. */
  lemma RegisteredMeansStored(before: seq<Step>, kind: Kind, id: EventId, payload: Payload, now: int, after: seq<Step>)
    requires Legal(INIT, before)
    requires var s := Run(INIT, before);
      id !in s.spool && (kind, id) !in s.first && id !in s.foreign
      && Legal(Apply(s, Enqueue(id, kind, payload, now)), after)
    requires var s := Run(INIT, before); id !in Run(Apply(s, Enqueue(id, kind, payload, now)), after).spool
    ensures var t := Run(Apply(Run(INIT, before), Enqueue(id, kind, payload, now)), after);
      exists row | row in t.tables.Of(kind).rows :: row.values.eventId == id && row.values.payload == payload
  {
    InitOk();
    RunKeepsInv(INIT, before);
    var s := Run(INIT, before);
    var s' := Apply(s, Enqueue(id, kind, payload, now));
    StepKeepsInv(s, Enqueue(id, kind, payload, now));
    RunKeepsInv(s', after);
    var t := Run(s', after);
    assert t.first[(kind, id)] == payload;
    assert Stored(t, kind, id);
    var row :| row in t.tables.Of(kind).rows && row.values.eventId == id;
    assert RowFaithful(t, kind, row);
  }

  // An event waits in the spool or is stored.
  ghost predicate Kept(s: State, kind: Kind, id: EventId) {
    Waits(s, kind, id) || Stored(s, kind, id)
  }

  lemma EnqueuedKeptIff(s: State, id: EventId, kind: Kind, payload: Payload, now: int)
    requires Inv(s) && Enabled(s, Enqueue(id, kind, payload, now))
    ensures var t := Apply(s, Enqueue(id, kind, payload, now));
      && (Kept(t, kind, id) <==> id !in s.spool || s.spool[id].kind == kind || Stored(s, kind, id))
      && (Kept(t, kind, id) ==> Stored(t, kind, id) || (kind, id) in t.first)
  {
    hide WellFormed, HasEvent, RowsFaithful, SentFaithful;
  }

  lemma KeptStays(s: State, t: State, kind: Kind, id: EventId)
    requires Inv(t) && Grows(s, t) && (Stored(s, kind, id) || (kind, id) in s.first)
    ensures Kept(t, kind, id)
  {
    hide WellFormed, HasEvent, RowsFaithful, SentFaithful;
  }

  /** Exactly when an enqueued event is not lost: at every later point of every run it waits in the spool or
      has a row, if and only if at its enqueue its id was not waiting for another table, or it was
      stored already. INSERT OR IGNORE drops it otherwise. */
  lemma EnqueueKeptIff(before: seq<Step>, id: EventId, kind: Kind, payload: Payload, now: int)
    requires Legal(INIT, before) && Enabled(Run(INIT, before), Enqueue(id, kind, payload, now))
    ensures var s := Run(INIT, before); var t := Apply(s, Enqueue(id, kind, payload, now));
      (forall after | Legal(t, after) :: Kept(Run(t, after), kind, id))
      <==> id !in s.spool || s.spool[id].kind == kind || Stored(s, kind, id)
  {
    hide Inv, Enabled, Apply, Legal, Run, Grows, Stored, Waits, Kept;
    InitOk();
    RunKeepsInv(INIT, before);
    var s := Run(INIT, before);
    var t := Apply(s, Enqueue(id, kind, payload, now));
    StepKeepsInv(s, Enqueue(id, kind, payload, now));
    EnqueuedKeptIff(s, id, kind, payload, now);
    Done(t);
    if Kept(t, kind, id) {
      forall after | Legal(t, after) ensures Kept(Run(t, after), kind, id) {
        RunKeepsInv(t, after);
        KeptStays(t, Run(t, after), kind, id);
      }
    }
  }

  /** The case above does happen: the same id enqueued for a second kind while the first still waits. */
  lemma EnqueueCanDrop(payload: Payload)
    ensures var steps := [Enqueue("a", Snapshot, payload, 1), Enqueue("a", Build, payload, 2)];
      Legal(INIT, steps) && !Waits(Run(INIT, steps), Build, "a") && !Stored(Run(INIT, steps), Build, "a")
  {
    var one, two := Enqueue("a", Snapshot, payload, 1), Enqueue("a", Build, payload, 2);
    var s := Apply(INIT, one);
    Prepend(s, two, []);
    Prepend(INIT, one, [two]);
    assert [one] + [two] == [one, two] && [two] + [] == [two];
  }

  lemma Prepend(s: State, step: Step, rest: seq<Step>)
    requires Enabled(s, step) && Legal(Apply(s, step), rest)
    ensures Legal(s, [step] + rest) && Run(s, [step] + rest) == Run(Apply(s, step), rest)
  {
    assert ([step] + rest)[1..] == rest;
  }

  // ---- the method and the steps -----------------------------------------------------------

  lemma {:induction false} RequestIds(rows: Rows, ids: seq<EventId>, courses: Courses)
    requires forall id | id in ids :: id in rows && id in courses
    ensures ItemIds(Request(rows, ids, courses)) == ids
  {
    var items := Request(rows, ids, courses);
    forall i | 0 <= i < |ids| ensures ItemIds(items)[i] == ids[i] {
      assert items[i] == Entry(rows, courses, ids[i]);
    }
  }

  // The steps match a flush: they are legal, end idle and leave the spool the method leaves.
  ghost predicate Matches(s: State, steps: seq<Step>, spool: Rows) {
    Legal(s, steps) && Run(s, steps).phase.Idle? && Run(s, steps).spool == spool
  }

  lemma FlushWithoutPost(s: State, limit: int, now: int, until: nat -> int, courses: Courses, reply: Reply)
    returns (steps: seq<Step>)
    requires s.phase.Idle? && Within(Pending(s.spool, limit, now), courses.Keys) == []
    ensures Matches(s, steps, Flushed(s.spool, limit, now, until, courses, reply))
  {
    hide Pending, Within, Deferred, Legal, Run;
    var pick, defer := Pick(limit, now), DeferAll(courses, until);
    var picked := Apply(s, pick);
    if Pending(s.spool, limit, now) == [] {
      Done(picked);
      Prepend(s, pick, []);
      steps := [pick] + [];
    } else {
      Done(Apply(picked, defer));
      Prepend(picked, defer, []);
      Prepend(s, pick, [defer] + []);
      steps := [pick] + ([defer] + []);
    }
  }

  lemma PickAndPost(s: State, limit: int, now: int, courses: Courses) returns (posted: State)
    requires s.phase.Idle? && Within(Pending(s.spool, limit, now), courses.Keys) != []
    ensures var pick, post := Pick(limit, now), Post(courses);
      && Enabled(s, pick) && Enabled(Apply(s, pick), post) && posted == Apply(Apply(s, pick), post)
    ensures posted == s.(phase := Waiting(|s.sent|),
                         sent := s.sent + [Outgoing(Pending(s.spool, limit, now), s.spool, courses)])
    ensures ItemIds(posted.sent[|s.sent|]) == Within(Pending(s.spool, limit, now), courses.Keys)
  {
    hide Pending, Within;
    var batch := Pending(s.spool, limit, now);
    WithinMembers(batch, courses.Keys);
    RequestIds(s.spool, Within(batch, courses.Keys), courses);
    NothingWithin(courses.Keys);
    posted := Apply(Apply(s, Pick(limit, now)), Post(courses));
  }

  lemma FlushRaised(s: State, limit: int, now: int, until: nat -> int, courses: Courses)
    returns (steps: seq<Step>)
    requires s.phase.Idle? && Within(Pending(s.spool, limit, now), courses.Keys) != []
    ensures Matches(s, steps, Flushed(s.spool, limit, now, until, courses, Raised))
  {
    hide Pending, Within, Deferred, Legal, Run, Outgoing, ItemIds;
    var pick, post, give := Pick(limit, now), Post(courses), GiveUp(until);
    NothingWithin(courses.Keys);
    var posted := PickAndPost(s, limit, now, courses);
    Done(Apply(posted, give));
    Prepend(posted, give, []);
    Prepend(Apply(s, pick), post, [give] + []);
    Prepend(s, pick, [post] + ([give] + []));
    steps := [pick] + ([post] + ([give] + []));
  }

  // From a posted request to its end: commit, answer, postponement of what was not acknowledged.
  lemma AnswerArrives(s: State, n: nat, acknowledged: set<EventId>, until: nat -> int, d: Dialect)
    returns (steps: seq<Step>)
    requires Inv(s) && s.phase == Waiting(n) && Enabled(s, Commit(n, d))
    ensures Legal(s, steps) && Run(s, steps).phase.Idle?
    ensures var ids := ItemIds(s.sent[n]);
      Run(s, steps).spool
        == Deferred(Acknowledged(s.spool, Within(ids, acknowledged)), Outside(ids, acknowledged), until)
    ensures forall item | item in s.sent[n] :: Stored(Run(s, steps), item.kind, item.values.eventId)
  {
    hide Inv, Within, Outside, Deferred, Acknowledged, Batch, HasEvent, IdSet, Legal, Run, ItemIds;
    var commit, receive, postpone := Commit(n, d), Receive(acknowledged), Postpone(until);
    CommitStores(s, n, d);
    var committed := Apply(s, commit);
    var received := Apply(committed, receive);
    Done(Apply(received, postpone));
    Prepend(received, postpone, []);
    Prepend(committed, receive, [postpone] + []);
    Prepend(s, commit, [receive] + ([postpone] + []));
    steps := [commit] + ([receive] + ([postpone] + []));
    forall item | item in s.sent[n] ensures Stored(Run(s, steps), item.kind, item.values.eventId) {
      assert Stored(committed, item.kind, item.values.eventId);
    }
  }

  lemma FlushAnswered(s: State, limit: int, now: int, until: nat -> int, courses: Courses,
                      acknowledged: set<EventId>, d: Dialect)
    returns (steps: seq<Step>)
    requires Inv(s) && s.phase.Idle? && Within(Pending(s.spool, limit, now), courses.Keys) != []
    requires var request := Outgoing(Pending(s.spool, limit, now), s.spool, courses);
      Batch(d, s.tables, request).Some?
    ensures Matches(s, steps, Flushed(s.spool, limit, now, until, courses, Answer(acknowledged)))
    ensures forall item | item in Outgoing(Pending(s.spool, limit, now), s.spool, courses) ::
      Stored(Run(s, steps), item.kind, item.values.eventId)
  {
    hide Inv, Pending, Within, Outside, Deferred, Acknowledged, Batch, HasEvent, IdSet, Legal, Run, Outgoing, ItemIds;
    var n := |s.sent|;
    var pick, post := Pick(limit, now), Post(courses);
    NothingWithin(courses.Keys);
    var posted := PickAndPost(s, limit, now, courses);
    StepKeepsInv(s, pick);
    StepKeepsInv(Apply(s, pick), post);
    var rest := AnswerArrives(posted, n, acknowledged, until, d);
    Prepend(Apply(s, pick), post, rest);
    Prepend(s, pick, [post] + rest);
    steps := [pick] + ([post] + rest);
  }

  /** Every uninterrupted call of flush_once is a run of the protocol: whatever resolves and however
      the post ends, there are legal steps that leave the spool exactly as the method does; and when
      a batch was posted and answered, all of it is stored. */
  lemma FlushIsARun(s: State, limit: int, now: int, until: nat -> int, courses: Courses, reply: Reply, d: Dialect)
    returns (steps: seq<Step>)
    requires Inv(s) && s.phase.Idle?
    requires var request := Outgoing(Pending(s.spool, limit, now), s.spool, courses);
      reply.Answer? ==> Batch(d, s.tables, request).Some?
    ensures Legal(s, steps) && Run(s, steps).phase.Idle?
    ensures Run(s, steps).spool == Flushed(s.spool, limit, now, until, courses, reply)
    ensures reply.Answer? ==> forall item | item in Outgoing(Pending(s.spool, limit, now), s.spool, courses) ::
      Stored(Run(s, steps), item.kind, item.values.eventId)
  {
    hide Inv, Pending, Within, Flushed, Batch, HasEvent, IdSet, Legal, Run, Request, Stored;
    if Within(Pending(s.spool, limit, now), courses.Keys) == [] {
      steps := FlushWithoutPost(s, limit, now, until, courses, reply);
      NothingOutgoing(s.spool, courses);
    } else if reply.Raised? {
      steps := FlushRaised(s, limit, now, until, courses);
    } else {
      steps := FlushAnswered(s, limit, now, until, courses, reply.acknowledged, d);
    }
  }

  lemma NothingOutgoing(rows: Rows, courses: Courses)
    ensures Request(rows, [], courses) == []
  {
  }

  lemma NothingWithin(s: set<EventId>)
    ensures Within([], s) == []
  {
  }

  lemma Done(s: State)
    ensures Legal(s, []) && Run(s, []) == s
  {
  }

  lemma CommitStores(s: State, n: nat, d: Dialect)
    requires Inv(s) && Enabled(s, Commit(n, d))
    ensures forall item | item in s.sent[n] :: Stored(Apply(s, Commit(n, d)), item.kind, item.values.eventId)
  {
    hide HasEvent, Batch;
    assert AnsweredStored(Apply(s, Commit(n, d))) by { StepKeepsInv(s, Commit(n, d)); }
  }
}
