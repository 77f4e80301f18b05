// The order in which events are delivered, and how they are grouped into batches and repeated,
// does not show in the analytics.
module DeliveryOrder {
  import opened Events
  import opened EventStore
  import opened AssignmentKey
  import opened Queries
  import opened Snapshots
  import opened Ties
  import opened Trends
  import opened Variation

  // The tables after committing some batches one after the other.
  function StoredAfter(d: Dialect, batches: seq<seq<Item>>): Option<Tables> {
    if batches == [] then Some(EMPTY) else
      match StoredAfter(d, batches[..|batches| - 1])
      case None => None
      case Some(ts) => Batch(d, ts, batches[|batches| - 1])
  }

  function Flat(batches: seq<seq<Item>>): seq<Item> {
    if batches == [] then [] else Flat(batches[..|batches| - 1]) + batches[|batches| - 1]
  }

  ghost predicate Carries(items: seq<Item>, kind: Kind, id: EventId, payload: Payload) {
    exists item | item in items :: item.kind == kind && item.values.eventId == id && item.values.payload == payload
  }

  ghost predicate SameEvents(a: seq<Item>, b: seq<Item>) {
    forall kind: Kind, id, payload :: Carries(a, kind, id, payload) <==> Carries(b, kind, id, payload)
  }

  // Equal ids carry equal payloads.
  ghost predicate Consistent(a: seq<Item>) {
    forall x, y | x in a && y in a && x.kind == y.kind && x.values.eventId == y.values.eventId ::
      x.values.payload == y.values.payload
  }

  lemma EmptyTables()
    ensures WellFormed(EMPTY) && AllAllowed(EMPTY)
    ensures forall kind: Kind, id :: !HasEvent(EMPTY.Of(kind), id)
    ensures forall kind: Kind :: EMPTY.Of(kind).rows == []
  {
  }

  lemma MentionsConcat(a: seq<Item>, b: seq<Item>, kind: Kind, id: EventId)
    ensures Mentions(a + b, kind, id) <==> Mentions(a, kind, id) || Mentions(b, kind, id)
  {
    var s := a + b;
    if Mentions(a, kind, id) {
      var i :| 0 <= i < |a| && a[i].kind == kind && a[i].values.eventId == id;
      assert s[i] == a[i];
    }
    if Mentions(b, kind, id) {
      var i :| 0 <= i < |b| && b[i].kind == kind && b[i].values.eventId == id;
      assert s[|a| + i] == b[i];
    }
    if Mentions(s, kind, id) {
      var i :| 0 <= i < |s| && s[i].kind == kind && s[i].values.eventId == id;
      if i < |a| { assert a[i] == s[i]; } else { assert b[i - |a|] == s[i]; }
    }
  }

  // After committing batches a table holds exactly the ids they name, each with a delivered entry.
  lemma {:induction false} StoredContents(d: Dialect, batches: seq<seq<Item>>)
    requires StoredAfter(d, batches).Some?
    ensures var ts := StoredAfter(d, batches).value;
      && WellFormed(ts) && AllAllowed(ts)
      && (forall kind: Kind, id :: HasEvent(ts.Of(kind), id) <==> Mentions(Flat(batches), kind, id))
      && (forall kind: Kind, row | row in ts.Of(kind).rows :: Item(kind, row.values) in Flat(batches))
  {
    hide UniqueEvents, HasEvent, Mentions, Batch, Refused, AllAllowed;
    if batches == [] {
      EmptyTables();
      forall kind: Kind, id ensures !Mentions(Flat(batches), kind, id) { NoMentions(kind, id); }
    } else {
      var init, last := batches[..|batches| - 1], batches[|batches| - 1];
      StoredContents(d, init);
      var mid, ts := StoredAfter(d, init).value, StoredAfter(d, batches).value;
      BatchMembership(d, mid, last);
      BatchAllowsOnly(d, mid, last);
      forall kind: Kind, id ensures HasEvent(ts.Of(kind), id) <==> Mentions(Flat(batches), kind, id) {
        MentionsConcat(Flat(init), last, kind, id);
      }
      forall kind: Kind, row | row in ts.Of(kind).rows ensures Item(kind, row.values) in Flat(batches) {
        BatchRowOrigin(d, mid, last, kind, row);
      }
    }
  }

  // ---- payloads ----------------------------------------------------------------------------------

  lemma StoredPayload(d: Dialect, batches: seq<seq<Item>>, kind: Kind, id: EventId, payload: Payload)
    requires StoredAfter(d, batches).Some? && Consistent(Flat(batches))
    ensures var p := Payloads(StoredAfter(d, batches).value.Of(kind));
      (id in p && p[id] == payload) <==> Carries(Flat(batches), kind, id, payload)
  {
    hide UniqueEvents, Refused, StoredAfter;
    StoredContents(d, batches);
    var t := StoredAfter(d, batches).value.Of(kind);
    if id in Payloads(t) && Payloads(t)[id] == payload {
      assert Item(kind, RowOf(t, id).values) in Flat(batches);
    }
    if Carries(Flat(batches), kind, id, payload) {
      var item :| item in Flat(batches)
        && item.kind == kind && item.values.eventId == id && item.values.payload == payload;
      MentionedMember(Flat(batches), item);
      IdsAreEvents(t, id);
      assert Item(kind, RowOf(t, id).values) in Flat(batches);
    }
  }

  /** Two deliveries of the same events, however ordered, grouped or repeated, and on whichever database,
      leave the same payload under the same ids in every table. */
  lemma SamePayloads(d: Dialect, a: seq<seq<Item>>, e: Dialect, b: seq<seq<Item>>)
    requires StoredAfter(d, a).Some? && Consistent(Flat(a)) && Delivers(e, b, Flat(a))
    ensures SamePayloadsIn(StoredAfter(d, a).value, StoredAfter(e, b).value)
  {
    hide Payloads, Carries, Consistent, StoredAfter;
    ConsistentToo(Flat(a), Flat(b));
    forall kind: Kind
      ensures Payloads(StoredAfter(d, a).value.Of(kind)) == Payloads(StoredAfter(e, b).value.Of(kind))
    {
      var p, q := Payloads(StoredAfter(d, a).value.Of(kind)), Payloads(StoredAfter(e, b).value.Of(kind));
      forall id: EventId ensures (id in p <==> id in q) && (id in p ==> p[id] == q[id]) {
        SamePayloadOf(d, a, e, b, kind, id);
      }
    }
  }

  lemma SamePayloadOf(d: Dialect, a: seq<seq<Item>>, e: Dialect, b: seq<seq<Item>>, kind: Kind, id: EventId)
    requires StoredAfter(d, a).Some? && StoredAfter(e, b).Some?
    requires SameEvents(Flat(a), Flat(b)) && Consistent(Flat(a)) && Consistent(Flat(b))
    ensures var p, q := Payloads(StoredAfter(d, a).value.Of(kind)), Payloads(StoredAfter(e, b).value.Of(kind));
      (id in p <==> id in q) && (id in p ==> p[id] == q[id])
  {
    hide Payloads, Carries, Consistent, StoredAfter;
    var p, q := Payloads(StoredAfter(d, a).value.Of(kind)), Payloads(StoredAfter(e, b).value.Of(kind));
    if id in p {
      StoredPayload(d, a, kind, id, p[id]);
      StoredPayload(e, b, kind, id, p[id]);
    } else if id in q {
      StoredPayload(d, a, kind, id, q[id]);
      StoredPayload(e, b, kind, id, q[id]);
    }
  }

  // ---- deliveries ------------------------------------------------------------------------------------

  // b commits, on database e, and brings the events of `items` and no others.
  ghost predicate Delivers(e: Dialect, b: seq<seq<Item>>, items: seq<Item>) {
    StoredAfter(e, b).Some? && SameEvents(items, Flat(b))
  }

  lemma ConsistentToo(a: seq<Item>, b: seq<Item>)
    requires SameEvents(a, b) && Consistent(a)
    ensures Consistent(b)
  {
    forall x, y | x in b && y in b && x.kind == y.kind && x.values.eventId == y.values.eventId
      ensures x.values.payload == y.values.payload
    {
      assert Carries(b, x.kind, x.values.eventId, x.values.payload);
      assert Carries(b, y.kind, y.values.eventId, y.values.payload);
    }
  }

  lemma StoredQueryable(d: Dialect, batches: seq<seq<Item>>)
    requires StoredAfter(d, batches).Some?
    ensures Queryable(StoredAfter(d, batches).value)
  {
    hide WellFormed, AllAllowed, StoredAfter;
    StoredContents(d, batches);
  }

  /** Delivery order does not show: when a student's snapshots of one file at one time have equal sizes, and equal
      ids carry equal payloads, any two sequences of committed batches with the same events, however
      ordered, grouped or repeated, and on whichever database, answer the same about the student: the
      trends for every interval, every figure of the dashboard, the graph for every range. */
  lemma OrderDoesNotShow(d: Dialect, a: seq<seq<Item>>, e: Dialect, b: seq<seq<Item>>, scope: Scope, student: string)
    requires StoredAfter(d, a).Some? && Consistent(Flat(a)) && Delivers(e, b, Flat(a))
    requires Queryable(StoredAfter(d, a).value) && TiesAgree(StudentSnaps(StoredAfter(d, a).value, scope, student))
    ensures var ts, us := StoredAfter(d, a).value, StoredAfter(e, b).value;
      Queryable(ts) && Queryable(us) && SameAnswers(ts, us, scope, student)
  {
    hide Queryable, StoredAfter, SameEvents, Consistent, SamePayloadsIn, SameAnswers, StudentSnaps;
    StoredQueryable(d, a);
    StoredQueryable(e, b);
    SamePayloads(d, a, e, b);
    SamePayloadsSameAnswers(StoredAfter(d, a).value, StoredAfter(e, b).value, scope, student);
  }

  // ---- ties that disagree ------------------------------------------------------------------------------

  // The entries other than the snapshots x and y, in order.
  function Leaving(items: seq<Item>, x: EventId, y: EventId): (r: seq<Item>)
    ensures forall i :: i in r <==>
      i in items && !(i.kind == Snapshot && (i.values.eventId == x || i.values.eventId == y))
  {
    if items == [] then [] else
      var init, last := items[..|items| - 1], items[|items| - 1];
      assert items == init + [last];
      if last.kind == Snapshot && (last.values.eventId == x || last.values.eventId == y)
      then Leaving(init, x, y) else Leaving(init, x, y) + [last]
  }

  lemma NoneRefused(d: Dialect, a: seq<seq<Item>>, item: Item)
    requires StoredAfter(d, a).Some? && Consistent(Flat(a)) && item in Flat(a)
    ensures !Refused(item.values)
  {
    hide StoredAfter, WellFormed;
    StoredContents(d, a);
    var ts := StoredAfter(d, a).value;
    MentionedMember(Flat(a), item);
    var row :| row in ts.Of(item.kind).rows && row.values.eventId == item.values.eventId;
    assert Item(item.kind, row.values) in Flat(a);
  }

  // The delivery that brings snapshot p next to last and snapshot q last.
  function LastTwo(items: seq<Item>, p: Item, q: Item): seq<seq<Item>> {
    [Leaving(items, p.values.eventId, q.values.eventId), [p], [q]]
  }

  lemma LastTwoFlat(items: seq<Item>, p: Item, q: Item)
    ensures Flat(LastTwo(items, p, q)) == Leaving(items, p.values.eventId, q.values.eventId) + [p] + [q]
  {
    var s := LastTwo(items, p, q);
    assert s[..2][..1] == s[..1] && s[..1][..0] == [];
    assert Flat(s[..1]) == s[0];
  }

  lemma LastTwoSameEvents(items: seq<Item>, p: Item, q: Item)
    requires Consistent(items) && p in items && q in items && p.kind == q.kind == Snapshot
    ensures SameEvents(items, Flat(LastTwo(items, p, q)))
  {
    LastTwoFlat(items, p, q);
    var f := Flat(LastTwo(items, p, q));
    forall kind: Kind, id, payload ensures Carries(items, kind, id, payload) <==> Carries(f, kind, id, payload) {
      if Carries(items, kind, id, payload) {
        var i :| i in items && i.kind == kind && i.values.eventId == id && i.values.payload == payload;
        var j := if i in f then i else if id == p.values.eventId then p else q;
        assert j in f && j.values.payload == payload;
      }
      if Carries(f, kind, id, payload) {
        var i :| i in f && i.kind == kind && i.values.eventId == id && i.values.payload == payload;
        assert i in items;
      }
    }
  }

  // Two rows appended to a table, and what the student's snapshots are then.
  ghost predicate EndsWith(us: Tables, t: Table, p: Values, q: Values) {
    us.snapshot.rows == t.rows + [Row(t.nextId, p)] + [Row(t.nextId + 1, q)]
  }

  // The table before the last two, and the rows they get.
  lemma LastTwoStored(d: Dialect, items: seq<Item>, p: Item, q: Item) returns (t: Table)
    requires forall i | i in items :: !Refused(i.values)
    requires p in items && q in items && p.kind == q.kind == Snapshot && p.values.eventId != q.values.eventId
    ensures Batch(d, EMPTY, Leaving(items, p.values.eventId, q.values.eventId)).Some?
    ensures t == Batch(d, EMPTY, Leaving(items, p.values.eventId, q.values.eventId)).value.snapshot
    ensures StoredAfter(d, LastTwo(items, p, q)).Some? && UniqueEvents(t)
    ensures EndsWith(StoredAfter(d, LastTwo(items, p, q)).value, t, p.values, q.values)
  {
    hide UniqueEvents, HasEvent, Mentions, Refused;
    var s := LastTwo(items, p, q);
    AcceptableBatchSucceeds(d, EMPTY, s[0]);
    EmptyTables();
    BatchMembership(d, EMPTY, s[0]);
    var ts := Batch(d, EMPTY, s[0]).value;
    t := ts.Of(Snapshot);
    NotLeft(items, p.values.eventId, q.values.eventId);
    assert s[..2][..1] == s[..1] && s[..1][..0] == [];
    assert StoredAfter(d, s[..1]) == Some(ts);
    SingleBatch(d, ts, p);
    var us := ts.Put(Snapshot, Appended(t, p.values));
    assert StoredAfter(d, s[..2]) == Some(us);
    AppendedEvents(t, p.values, q.values.eventId);
    SingleBatch(d, us, q);
  }

  lemma NotLeft(items: seq<Item>, x: EventId, y: EventId)
    ensures !Mentions(Leaving(items, x, y), Snapshot, x) && !Mentions(Leaving(items, x, y), Snapshot, y)
  {
    forall i | 0 <= i < |Leaving(items, x, y)| ensures Leaving(items, x, y)[i] in Leaving(items, x, y) {}
  }

  lemma SingleBatch(d: Dialect, ts: Tables, p: Item)
    requires p.kind == Snapshot && !Refused(p.values) && !HasEvent(ts.snapshot, p.values.eventId)
    ensures Batch(d, ts, [p]) == Some(ts.Put(Snapshot, Appended(ts.snapshot, p.values)))
  {
    hide Refused, HasEvent;
    assert [p][..0] == [];
    assert Batch(d, ts, []) == Some(ts);
  }

  lemma LastRows(us: Tables, t: Table, p: Values, q: Values)
    requires Queryable(us) && EndsWith(us, t, p, q)
    ensures var u := us.snapshot;
      && p.eventId in Ids(u) && RowOf(u, p.eventId) == Row(t.nextId, p)
      && q.eventId in Ids(u) && RowOf(u, q.eventId) == Row(t.nextId + 1, q)
  {
    hide UniqueEvents;
    assert UniqueEvents(us.Of(Snapshot));
    RowIsOf(us.snapshot, Row(t.nextId, p));
    RowIsOf(us.snapshot, Row(t.nextId + 1, q));
  }

  lemma EarlierRows(us: Tables, t: Table, p: Values, q: Values, e: EventId)
    requires Queryable(us) && EndsWith(us, t, p, q) && UniqueEvents(t) && e != p.eventId && e != q.eventId
    ensures e in Ids(us.snapshot) <==> e in Ids(t)
    ensures e in Ids(t) ==> RowOf(us.snapshot, e) == RowOf(t, e) && RowOf(t, e).rowId < t.nextId
  {
    assert UniqueEvents(us.Of(Snapshot));
    if e in Ids(us.snapshot) {
      assert RowOf(us.snapshot, e) in t.rows;
    }
    if e in Ids(t) {
      var i :| 0 <= i < |t.rows| && t.rows[i] == RowOf(t, e);
      RowIsOf(us.snapshot, RowOf(t, e));
    }
  }

  // The two deliveries leave tables that differ only in which of the two snapshots came last.
  lemma SwappedRows(us: Tables, vs: Tables, t: Table, p: Values, q: Values, scope: Scope, student: string)
    requires Queryable(us) && Queryable(vs) && UniqueEvents(t) && p.eventId != q.eventId
    requires EndsWith(us, t, p, q) && EndsWith(vs, t, q, p)
    requires Shows(scope, student, Row(0, p)) && Shows(scope, student, Row(0, q))
    requires var x, y := SnapOf(Row(0, p)), SnapOf(Row(0, q)); SameFile(x, y) && x.at == y.at && x.size != y.size
    ensures Swapped(StudentSnaps(us, scope, student), StudentSnaps(vs, scope, student), p.eventId, q.eventId, t.nextId)
  {
    hide InScope, Queryable, StudentSnaps, Ids, EndsWith, UniqueEvents;
    var u, v, n := StudentSnaps(us, scope, student), StudentSnaps(vs, scope, student), t.nextId;
    LastRows(us, t, p, q);
    LastRows(vs, t, q, p);
    forall e
      ensures e in u <==> e in v
      ensures e in u && e != p.eventId && e != q.eventId ==> u[e] == v[e] && u[e].rowId < n
    {
      StudentRow(us, scope, student, e);
      StudentRow(vs, scope, student, e);
      if e != p.eventId && e != q.eventId {
        EarlierRows(us, t, p, q, e);
        EarlierRows(vs, t, q, p, e);
      }
    }
    StudentRow(us, scope, student, p.eventId);
    StudentRow(us, scope, student, q.eventId);
    StudentRow(vs, scope, student, p.eventId);
    StudentRow(vs, scope, student, q.eventId);
  }

  lemma {:induction false} LeavingSymmetric(items: seq<Item>, x: EventId, y: EventId)
    ensures Leaving(items, x, y) == Leaving(items, y, x)
  {
    if items != [] { LeavingSymmetric(items[..|items| - 1], x, y); }
  }

  // Two tied snapshots of a student that disagree.
  ghost predicate Disagree(s: Snaps, x: EventId, y: EventId) {
    x in s && y in s && SameFile(s[x], s[y]) && s[x].at == s[y].at && s[x].size != s[y].size
  }

  // They come from two entries of the delivery.
  lemma DisagreeingEntries(d: Dialect, a: seq<seq<Item>>, scope: Scope, student: string, x: EventId, y: EventId)
    returns (p: Item, q: Item)
    requires StoredAfter(d, a).Some? && Queryable(StoredAfter(d, a).value)
    requires Disagree(StudentSnaps(StoredAfter(d, a).value, scope, student), x, y)
    ensures p in Flat(a) && q in Flat(a) && p.kind == q.kind == Snapshot
    ensures p.values.eventId == x && q.values.eventId == y && x != y
    ensures Shows(scope, student, Row(0, p.values)) && Shows(scope, student, Row(0, q.values))
    ensures var k, l := SnapOf(Row(0, p.values)), SnapOf(Row(0, q.values));
      SameFile(k, l) && k.at == l.at && k.size != l.size
  {
    hide InScope, Queryable, StoredAfter, StudentSnaps;
    var ts := StoredAfter(d, a).value;
    StudentRow(ts, scope, student, x);
    StudentRow(ts, scope, student, y);
    StoredContents(d, a);
    var r, t := RowOf(ts.snapshot, x), RowOf(ts.snapshot, y);
    assert r in ts.Of(Snapshot).rows && t in ts.Of(Snapshot).rows;
    p, q := Item(Snapshot, r.values), Item(Snapshot, t.values);
  }

  /** Two deliveries of the same events that differ only in which of two tied snapshots comes last. */
  lemma SwappedDeliveries(d: Dialect, a: seq<seq<Item>>, scope: Scope, student: string, x: EventId, y: EventId)
    returns (b: seq<seq<Item>>, c: seq<seq<Item>>, n: nat)
    requires StoredAfter(d, a).Some? && Consistent(Flat(a)) && Queryable(StoredAfter(d, a).value)
    requires Disagree(StudentSnaps(StoredAfter(d, a).value, scope, student), x, y)
    ensures Delivers(d, b, Flat(a)) && Delivers(d, c, Flat(a))
    ensures var us, vs := StoredAfter(d, b).value, StoredAfter(d, c).value;
      && Queryable(us) && Queryable(vs)
      && Swapped(StudentSnaps(us, scope, student), StudentSnaps(vs, scope, student), x, y, n)
  {
    hide Queryable, StoredAfter, SameEvents, Consistent, StudentSnaps, Shows, UniqueEvents, HasEvent, Batch, LastTwo;
    hide Swapped, Refused, Disagree;
    var p, q := DisagreeingEntries(d, a, scope, student, x, y);
    forall i | i in Flat(a) ensures !Refused(i.values) { NoneRefused(d, a, i); }
    b, c := LastTwo(Flat(a), p, q), LastTwo(Flat(a), q, p);
    LastTwoSameEvents(Flat(a), p, q);
    LastTwoSameEvents(Flat(a), q, p);
    var t := LastTwoStored(d, Flat(a), p, q);
    var t' := LastTwoStored(d, Flat(a), q, p);
    LeavingSymmetric(Flat(a), x, y);
    StoredQueryable(d, b);
    StoredQueryable(d, c);
    SwappedRows(StoredAfter(d, b).value, StoredAfter(d, c).value, t, p.values, q.values, scope, student);
    n := t.nextId;
  }

  // Which row is the last of its file in its bucket does not depend on row ids.
  lemma SameLastInBucket(a: Snaps, b: Snaps, x: EventId, width: int)
    requires SameButRowIds(a, b) && x in a && width > 0 && LastInBucket(a, x, width)
    ensures x in b && LastInBucket(b, x, width)
  {
    hide Bucket;
    Agree(a, b, x);
    forall z | z in b ensures z in a && a[z].at == b[z].at && SameFile(a[z], a[x]) == SameFile(b[z], b[x]) {
      Agree(a, b, z);
    }
  }

  /** Ties that disagree do show: when two snapshots of one file at one time, with no later one of the file in
      their bucket, have different sizes, then two deliveries of the same events, which differ only in which of
      the two comes last, give the student different trends. */
  lemma TiesShowOrder(d: Dialect, a: seq<seq<Item>>, scope: Scope, student: string, width: int)
    returns (b: seq<seq<Item>>, c: seq<seq<Item>>)
    requires width > 0 && StoredAfter(d, a).Some? && Consistent(Flat(a)) && Queryable(StoredAfter(d, a).value)
    requires !LastTiesAgree(StudentSnaps(StoredAfter(d, a).value, scope, student), width)
    ensures Delivers(d, b, Flat(a)) && Delivers(d, c, Flat(a))
    ensures var us, vs := StoredAfter(d, b).value, StoredAfter(d, c).value;
      Queryable(us) && Queryable(vs)
      && TrendsOf(StudentSnaps(us, scope, student), width) != TrendsOf(StudentSnaps(vs, scope, student), width)
  {
    hide Queryable, StoredAfter, SameEvents, Consistent, StudentSnaps, TrendsOf, Swapped, LastInBucket, SamePayloadsIn;
    hide SameButRowIds, Delivers;
    var s := StudentSnaps(StoredAfter(d, a).value, scope, student);
    var x, y :| x in s && y in s && SameFile(s[x], s[y]) && s[x].at == s[y].at && LastInBucket(s, x, width)
      && s[x].size != s[y].size;
    var n;
    b, c, n := SwappedDeliveries(d, a, scope, student, x, y);
    DeliversStored(d, b, Flat(a));
    DeliversStored(d, c, Flat(a));
    var us, vs := StoredAfter(d, b).value, StoredAfter(d, c).value;
    SamePayloads(d, a, d, b);
    SameStudentSnaps(StoredAfter(d, a).value, us, scope, student);
    SameLastInBucket(s, StudentSnaps(us, scope, student), x, width);
    SwappedTrendsDiffer(StudentSnaps(us, scope, student), StudentSnaps(vs, scope, student), x, y, n, width);
  }

  /** In the dashboard's total and in the graph's sum ties that disagree show too, but not always: for any two tied
      snapshots of different sizes there are two deliveries of the same events that differ only in which of
      the two comes last, and these agree in the total, or in the graph's sum over a range, exactly when the steps
      through the two snapshots balance. */
  lemma TiesInTotalsIff(d: Dialect, a: seq<seq<Item>>, scope: Scope, student: string, x: EventId, y: EventId,
                        start: int, end: int)
    returns (b: seq<seq<Item>>, c: seq<seq<Item>>)
    requires StoredAfter(d, a).Some? && Consistent(Flat(a)) && Queryable(StoredAfter(d, a).value)
    requires var s := StudentSnaps(StoredAfter(d, a).value, scope, student);
      Disagree(s, x, y) && start <= s[x].at <= end
    ensures Delivers(d, b, Flat(a)) && Delivers(d, c, Flat(a))
    ensures var us, vs := StoredAfter(d, b).value, StoredAfter(d, c).value;
      && Queryable(us) && Queryable(vs)
      && var s, t := SnapsIn(us, scope), SnapsIn(vs, scope);
         var u, r := StudentSnaps(us, scope, student), OfStudent(InRange(s, start, end), student);
      && x in u && y in u && SnapsOk(r) && x in r && y in r
      && (TotalSizeChange(s, student) == TotalSizeChange(t, student) <==> Balanced(u, x, y, AbsChange))
      && (GraphSum(s, start, end, student) == GraphSum(t, start, end, student) <==> Balanced(r, x, y, LaterChange))
  {
    hide Queryable, StoredAfter, SameEvents, Consistent, SnapsOf, Swapped, SamePayloadsIn, SameButRowIds, Delivers;
    hide TotalSizeChange, GraphSum, Balanced, SnapsOk, OfStudent, InRange;
    var n;
    b, c, n := SwappedDeliveries(d, a, scope, student, x, y);
    DeliversStored(d, b, Flat(a));
    DeliversStored(d, c, Flat(a));
    var us, vs := StoredAfter(d, b).value, StoredAfter(d, c).value;
    SamePayloads(d, a, d, b);
    SameStudentSnaps(StoredAfter(d, a).value, us, scope, student);
    Agree(StudentSnaps(StoredAfter(d, a).value, scope, student), StudentSnaps(us, scope, student), x);
    SwappedTotalsIff(SnapsIn(us, scope), SnapsIn(vs, scope), student, x, y, n);
    SwappedGraphIff(SnapsIn(us, scope), SnapsIn(vs, scope), start, end, student, x, y, n);
  }

  // Every delivery of the same events gives the student the trends of this one.
  ghost predicate OrderHidden(d: Dialect, a: seq<seq<Item>>, scope: Scope, student: string, width: int)
    requires width > 0 && StoredAfter(d, a).Some? && Queryable(StoredAfter(d, a).value)
  {
    forall e: Dialect, b | Delivers(e, b, Flat(a)) ::
      Queryable(StoredAfter(e, b).value)
      && TrendsOf(StudentSnaps(StoredAfter(d, a).value, scope, student), width)
        == TrendsOf(StudentSnaps(StoredAfter(e, b).value, scope, student), width)
  }

  /** Exactly when the order of delivery does not show in a student's trends for an interval: when snapshots of one
      file at one time have equal sizes, except where a later one of the file falls into the same bucket. */
  lemma OrderHiddenIff(d: Dialect, a: seq<seq<Item>>, scope: Scope, student: string, width: int)
    requires width > 0 && StoredAfter(d, a).Some? && Consistent(Flat(a))
    ensures Queryable(StoredAfter(d, a).value)
    ensures OrderHidden(d, a, scope, student, width)
      <==> LastTiesAgree(StudentSnaps(StoredAfter(d, a).value, scope, student), width)
  {
    hide Queryable, StoredAfter, Delivers, Consistent, StudentSnaps, LastTiesAgree, TrendsOf, SamePayloadsIn;
    hide SameButRowIds;
    StoredQueryable(d, a);
    var ts := StoredAfter(d, a).value;
    if LastTiesAgree(StudentSnaps(ts, scope, student), width) {
      forall e: Dialect, b | Delivers(e, b, Flat(a))
        ensures StoredAfter(e, b).Some? && Queryable(StoredAfter(e, b).value)
          && TrendsOf(StudentSnaps(ts, scope, student), width)
            == TrendsOf(StudentSnaps(StoredAfter(e, b).value, scope, student), width)
      {
        DeliversStored(e, b, Flat(a));
        StoredQueryable(e, b);
        SamePayloads(d, a, e, b);
        SameStudentSnaps(ts, StoredAfter(e, b).value, scope, student);
        SameTrends(StudentSnaps(ts, scope, student), StudentSnaps(StoredAfter(e, b).value, scope, student), width);
      }
    } else {
      var b, c := TiesShowOrder(d, a, scope, student, width);
    }
  }

  lemma DeliversStored(e: Dialect, b: seq<seq<Item>>, items: seq<Item>)
    requires Delivers(e, b, items)
    ensures StoredAfter(e, b).Some?
  {
  }

  /** Over all intervals: the order of delivery does not show in a student's trends exactly when snapshots of one file
      at one time have equal sizes. */
  lemma OrderAlwaysHiddenIff(d: Dialect, a: seq<seq<Item>>, scope: Scope, student: string)
    requires StoredAfter(d, a).Some? && Consistent(Flat(a))
    ensures Queryable(StoredAfter(d, a).value)
    ensures (forall width | width > 0 :: OrderHidden(d, a, scope, student, width))
      <==> TiesAgree(StudentSnaps(StoredAfter(d, a).value, scope, student))
  {
    hide Queryable, StoredAfter, Consistent, StudentSnaps, LastTiesAgree, TiesAgree, OrderHidden;
    StoredQueryable(d, a);
    TiesAgreeIff(StudentSnaps(StoredAfter(d, a).value, scope, student));
    forall width | width > 0
      ensures OrderHidden(d, a, scope, student, width)
        <==> LastTiesAgree(StudentSnaps(StoredAfter(d, a).value, scope, student), width)
    {
      OrderHiddenIff(d, a, scope, student, width);
    }
  }
}
