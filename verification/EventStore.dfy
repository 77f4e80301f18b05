// The event tables of the backend and the two insert paths into them.
module EventStore {
  import opened Events

  datatype Dialect = Postgres | Sqlite

  datatype Row = Row(rowId: nat, values: Values)

  // nextId is the value the next row gets: a sequence on PostgreSQL, the greatest rowid plus one on SQLite.
  datatype Table = Table(rows: seq<Row>, nextId: nat)

  datatype Tables = Tables(snapshot: Table, build: Table, run: Table) {
    function Of(kind: Kind): Table {
      match kind case Snapshot => snapshot case Build => build case Run => run
    }
    function Put(kind: Kind, t: Table): Tables {
      match kind
      case Snapshot => this.(snapshot := t)
      case Build => this.(build := t)
      case Run => this.(run := t)
    }
  }

  const EMPTY := Tables(Table([], 1), Table([], 1), Table([], 1))

  predicate HasEvent(t: Table, id: EventId) {
    exists r | r in t.rows :: r.values.eventId == id
  }

  // CHECK (file_size >= 0) of the snapshot table.
  predicate Refused(v: Values) {
    v.payload.detail.SnapshotDetail? && v.payload.detail.fileSize < 0
  }

  function Appended(t: Table, v: Values): Table {
    Table(t.rows + [Row(t.nextId, v)], t.nextId + 1)
  }

  // INSERT ... ON CONFLICT DO NOTHING draws a sequence value even when it does nothing.
  function Conflicted(t: Table): Table {
    t.(nextId := t.nextId + 1)
  }

  // ---- insert_event_once -----------------------------------------------------------

  datatype OnceAnswer = Inserted(isNew: bool) | OnceRaised

  function OnceReply(d: Dialect, ts: Tables, item: Item): OnceAnswer {
    if d.Postgres? && Refused(item.values) then OnceRaised
    else Inserted(!Refused(item.values) && !HasEvent(ts.Of(item.kind), item.values.eventId))
  }

  function Once(d: Dialect, ts: Tables, item: Item): Tables {
    var t := ts.Of(item.kind);
    if Refused(item.values) then (if d.Postgres? then ts.Put(item.kind, Conflicted(t)) else ts)
    else if HasEvent(t, item.values.eventId) then
      (if d.Postgres? then ts.Put(item.kind, Conflicted(t)) else ts)
    else ts.Put(item.kind, Appended(t, item.values))
  }

  function OnceEach(d: Dialect, ts: Tables, items: seq<Item>): Tables {
    if items == [] then ts else Once(d, OnceEach(d, ts, items[..|items| - 1]), items[|items| - 1])
  }

  // ---- insert_event_batch ----------------------------------------------------------

  // One round of the loop: None when the statement raises. SQLite looks the event id up first
  // and so never tests the constraint for an id it has.
  function Statement(d: Dialect, ts: Tables, item: Item): Option<Tables> {
    var t := ts.Of(item.kind);
    match d
    case Postgres =>
      if Refused(item.values) then None
      else if HasEvent(t, item.values.eventId) then Some(ts.Put(item.kind, Conflicted(t)))
      else Some(ts.Put(item.kind, Appended(t, item.values)))
    case Sqlite =>
      if HasEvent(t, item.values.eventId) then Some(ts)
      else if Refused(item.values) then None
      else Some(ts.Put(item.kind, Appended(t, item.values)))
  }

  function Batch(d: Dialect, ts: Tables, items: seq<Item>): Option<Tables> {
    if items == [] then Some(ts) else
      match Batch(d, ts, items[..|items| - 1])
      case None => None
      case Some(us) => Statement(d, us, items[|items| - 1])
  }

  predicate SameRows(ts: Tables, us: Tables) {
    forall kind: Kind :: ts.Of(kind).rows == us.Of(kind).rows
  }

  predicate IdsOnlyGrow(ts: Tables, us: Tables) {
    forall kind: Kind :: ts.Of(kind).nextId <= us.Of(kind).nextId
  }

  // What a rollback leaves: the rows of before, and on PostgreSQL the sequence values drawn since.
  function RolledBack(d: Dialect, before: Tables, work: Tables): Tables {
    match d
    case Sqlite => before
    case Postgres => Tables(
      before.snapshot.(nextId := work.snapshot.nextId),
      before.build.(nextId := work.build.nextId),
      before.run.(nextId := work.run.nextId))
  }

  lemma RolledBackKeepsRows(d: Dialect, before: Tables, work: Tables)
    requires IdsOnlyGrow(before, work)
    ensures SameRows(before, RolledBack(d, before, work)) && IdsOnlyGrow(before, RolledBack(d, before, work))
  {
  }

  // How many of the first n entries are for the table.
  function EntriesFor(items: seq<Item>, kind: Kind, n: nat): nat
    requires n <= |items|
  {
    |set i | 0 <= i < n && items[i].kind == kind|
  }

  lemma OneMoreEntry(items: seq<Item>, kind: Kind, n: nat)
    requires n < |items|
    ensures EntriesFor(items, kind, n + 1) == EntriesFor(items, kind, n) + if items[n].kind == kind then 1 else 0
  {
    assert (set i | 0 <= i < n + 1 && items[i].kind == kind)
      == (set i | 0 <= i < n && items[i].kind == kind) + if items[n].kind == kind then {n} else {};
  }

  // On PostgreSQL each of the first n entries has drawn a value for its table.
  ghost predicate DrewIds(before: Tables, after: Tables, items: seq<Item>, n: nat) {
    n <= |items| && forall kind: Kind :: after.Of(kind).nextId == before.Of(kind).nextId + EntriesFor(items, kind, n)
  }

  lemma OneMoreDrawn(before: Tables, work: Tables, items: seq<Item>, n: nat)
    requires n < |items| && DrewIds(before, work, items, n)
    ensures DrewIds(before, work.Put(items[n].kind, Conflicted(work.Of(items[n].kind))), items, n + 1)
    ensures var next := Statement(Postgres, work, items[n]); next.Some? ==> DrewIds(before, next.value, items, n + 1)
  {
    hide HasEvent, EntriesFor;
    forall kind: Kind
      ensures EntriesFor(items, kind, n + 1) == EntriesFor(items, kind, n) + if items[n].kind == kind then 1 else 0
    {
      OneMoreEntry(items, kind, n);
    }
  }

  lemma NoneDrawn(ts: Tables, items: seq<Item>)
    ensures DrewIds(ts, ts, items, 0)
  {
  }

  lemma RolledBackDrew(before: Tables, work: Tables, items: seq<Item>, n: nat)
    requires DrewIds(before, work, items, n)
    ensures DrewIds(before, RolledBack(Postgres, before, work), items, n)
  {
    assert forall kind: Kind :: RolledBack(Postgres, before, work).Of(kind).nextId == work.Of(kind).nextId;
  }

  lemma ConflictedGrowsIds(before: Tables, ts: Tables, kind: Kind)
    requires IdsOnlyGrow(before, ts)
    ensures IdsOnlyGrow(before, ts.Put(kind, Conflicted(ts.Of(kind))))
  {
    assert forall k: Kind :: ts.Of(k).nextId <= ts.Put(kind, Conflicted(ts.Of(kind))).Of(k).nextId;
  }

  lemma StatementGrowsIds(d: Dialect, before: Tables, ts: Tables, item: Item)
    requires IdsOnlyGrow(before, ts) && Statement(d, ts, item).Some?
    ensures IdsOnlyGrow(before, Statement(d, ts, item).value)
  {
    hide HasEvent;
    assert IdsOnlyGrow(ts, Statement(d, ts, item).value);
  }

  class EventDatabase {
    var tables: Tables

    constructor ()
      ensures tables == EMPTY
    {
      tables := EMPTY;
    }

    method InsertEventOnce(d: Dialect, item: Item) returns (answer: OnceAnswer)
      modifies this
      ensures tables == Once(d, old(tables), item)
      ensures answer == OnceReply(d, old(tables), item)
      ensures answer.OnceRaised? <==>
        d.Postgres? && item.values.payload.detail.SnapshotDetail? && item.values.payload.detail.fileSize < 0
      ensures answer == Inserted(true) <==>
        && (forall row | row in old(tables).Of(item.kind).rows :: row.values.eventId != item.values.eventId)
        && (item.values.payload.detail.SnapshotDetail? ==> item.values.payload.detail.fileSize >= 0)
      ensures answer == Inserted(true) ==>
        tables.Of(item.kind).rows
          == old(tables).Of(item.kind).rows + [Row(old(tables).Of(item.kind).nextId, item.values)]
      ensures answer != Inserted(true) ==> tables.Of(item.kind).rows == old(tables).Of(item.kind).rows
      ensures tables.Of(item.kind).nextId
        == old(tables).Of(item.kind).nextId + if d.Postgres? || answer == Inserted(true) then 1 else 0
      ensures forall kind: Kind | kind != item.kind :: tables.Of(kind) == old(tables).Of(kind)
    {
      var t := tables.Of(item.kind);
      var exists_ := HasEvent(t, item.values.eventId);
      match d
      case Postgres =>
        if Refused(item.values) {
          tables := tables.Put(item.kind, Conflicted(t));
          return OnceRaised;
        }
        tables := tables.Put(item.kind, if exists_ then Conflicted(t) else Appended(t, item.values));
        return Inserted(!exists_);
      case Sqlite =>
        if exists_ || Refused(item.values) {
          return Inserted(false);
        }
        tables := tables.Put(item.kind, Appended(t, item.values));
        return Inserted(true);
    }

    /** Stores the whole batch or nothing. `fault` is the statement at which the database fails on
        its own account, |items| standing for the commit. Sequence values drawn before a rollback stay drawn. */
    method InsertEventBatch(d: Dialect, items: seq<Item>, fault: Option<nat>) returns (ok: bool)
      requires fault.Some? ==> fault.value <= |items|
      modifies this
      ensures ok <==> fault.None? && Batch(d, old(tables), items).Some?
      ensures ok ==> tables == Batch(d, old(tables), items).value
      ensures !ok ==> SameRows(old(tables), tables) && IdsOnlyGrow(old(tables), tables)
      ensures !ok && d.Sqlite? ==> tables == old(tables)
      ensures !ok && d.Postgres? ==> exists n: nat :: DrewIds(old(tables), tables, items, n)
    {
      hide Statement, IdsOnlyGrow, SameRows, DrewIds;
      var work := tables;
      assert IdsOnlyGrow(tables, work) by { SelfGrow(tables); }
      var i := 0;
      ghost var drawn := 0;
      assert DrewIds(tables, work, items, 0) by { NoneDrawn(tables, items); }
      ok := true;
      while i < |items| && ok
        invariant 0 <= i <= |items|
        invariant ok ==> Batch(d, old(tables), items[..i]) == Some(work)
        invariant ok ==> fault.None? || i <= fault.value
        invariant !ok ==> fault.Some? || Batch(d, old(tables), items[..i]).None?
        invariant IdsOnlyGrow(old(tables), work) && tables == old(tables)
        invariant 0 <= drawn <= i && (ok ==> drawn == i)
        invariant d.Postgres? ==> DrewIds(tables, work, items, drawn)
      {
        assert items[..i + 1][..i] == items[..i];
        var next := Statement(d, work, items[i]);
        if fault == Some(i) {
          ok := false;
        } else {
          if d.Postgres? { OneMoreDrawn(tables, work, items, i); }
          drawn := i + 1;
          if next.None? {
            ok := false;
            if d.Postgres? {
              ConflictedGrowsIds(tables, work, items[i].kind);
              work := work.Put(items[i].kind, Conflicted(work.Of(items[i].kind)));
            }
          } else {
            StatementGrowsIds(d, tables, work, items[i]);
            work := next.value;
          }
        }
        i := i + 1;
      }
      if !ok { BatchPrefixFails(d, tables, items, i); }
      assert items[..|items|] == items;
      ok := ok && fault != Some(|items|);
      if ok {
        tables := work;
      } else {
        RolledBackKeepsRows(d, tables, work);
        if d.Postgres? { RolledBackDrew(tables, work, items, drawn); }
        tables := RolledBack(d, tables, work);
      }
    }
  }

  lemma SelfGrow(ts: Tables)
    ensures IdsOnlyGrow(ts, ts)
  {
  }

  lemma {:induction false} BatchPrefixFails(d: Dialect, ts: Tables, items: seq<Item>, i: nat)
    requires i <= |items|
    ensures Batch(d, ts, items[..i]).None? ==> Batch(d, ts, items).None?
    decreases |items|
  {
    if i < |items| {
      var init := items[..|items| - 1];
      assert init[..i] == items[..i];
      BatchPrefixFails(d, ts, init, i);
    } else {
      assert items[..i] == items;
    }
  }

  // ---- what the inserts keep and mean ------------------------------------------------

  ghost predicate UniqueEvents(t: Table) {
    && (forall i, j | 0 <= i < j < |t.rows| :: t.rows[i].values.eventId != t.rows[j].values.eventId)
    && (forall i, j | 0 <= i < j < |t.rows| :: t.rows[i].rowId < t.rows[j].rowId)
    && (forall i | 0 <= i < |t.rows| :: 0 < t.rows[i].rowId < t.nextId)
    && 0 < t.nextId
  }

  ghost predicate WellFormed(ts: Tables) {
    forall kind: Kind :: UniqueEvents(ts.Of(kind))
  }

  predicate Mentions(items: seq<Item>, kind: Kind, id: EventId) {
    exists i | 0 <= i < |items| :: items[i].kind == kind && items[i].values.eventId == id
  }

  // items[i] is the first entry of the batch for its table and event id.
  predicate FirstMention(items: seq<Item>, i: nat)
    requires i < |items|
  {
    !Mentions(items[..i], items[i].kind, items[i].values.eventId)
  }

  lemma MentionedMember(items: seq<Item>, item: Item)
    requires item in items
    ensures Mentions(items, item.kind, item.values.eventId)
  {
  }

  lemma MentionsExtend(items: seq<Item>, kind: Kind, id: EventId)
    requires items != []
    ensures var last := items[|items| - 1];
      Mentions(items, kind, id) <==>
        Mentions(items[..|items| - 1], kind, id) || (last.kind == kind && last.values.eventId == id)
  {
    var init, last := items[..|items| - 1], items[|items| - 1];
    if Mentions(items, kind, id) && !(last.kind == kind && last.values.eventId == id) {
      var i :| 0 <= i < |items| && items[i].kind == kind && items[i].values.eventId == id;
      assert init[i] == items[i];
    }
    if Mentions(init, kind, id) {
      var i :| 0 <= i < |init| && init[i].kind == kind && init[i].values.eventId == id;
      assert items[i] == init[i];
    }
  }

  lemma NoMentions(kind: Kind, id: EventId)
    ensures !Mentions([], kind, id)
  {
  }

  lemma AppendedEvents(t: Table, v: Values, id: EventId)
    ensures HasEvent(Appended(t, v), id) <==> HasEvent(t, id) || v.eventId == id
  {
    var r := Row(t.nextId, v);
    assert r in Appended(t, v).rows;
    if HasEvent(t, id) {
      var q :| q in t.rows && q.values.eventId == id;
      assert q in Appended(t, v).rows;
    }
  }

  lemma AppendedUnique(t: Table, v: Values)
    requires UniqueEvents(t) && !HasEvent(t, v.eventId)
    ensures UniqueEvents(Appended(t, v))
  {
    forall i | 0 <= i < |t.rows| ensures t.rows[i].values.eventId != v.eventId {
      assert t.rows[i] in t.rows;
    }
  }

  lemma StatementMeaning(d: Dialect, ts: Tables, item: Item)
    requires WellFormed(ts) && Statement(d, ts, item).Some?
    ensures var us := Statement(d, ts, item).value;
      && WellFormed(us)
      && (forall kind: Kind :: ts.Of(kind).rows <= us.Of(kind).rows)
      && (forall kind: Kind, id :: HasEvent(us.Of(kind), id) <==>
            (HasEvent(ts.Of(kind), id) || (item.kind == kind && item.values.eventId == id)))
  {
    hide UniqueEvents, HasEvent;
    var t, us := ts.Of(item.kind), Statement(d, ts, item).value;
    var u := us.Of(item.kind);
    assert forall kind: Kind | kind != item.kind :: us.Of(kind) == ts.Of(kind);
    if HasEvent(t, item.values.eventId) {
      assert u.rows == t.rows && t.nextId <= u.nextId;
      SameRowsMeaning(t, u);
    } else {
      assert u == Appended(t, item.values);
      AppendedUnique(t, item.values);
      forall id ensures HasEvent(u, id) <==> HasEvent(t, id) || item.values.eventId == id {
        AppendedEvents(t, item.values, id);
      }
    }
  }

  lemma SameRowsMeaning(t: Table, u: Table)
    requires u.rows == t.rows && t.nextId <= u.nextId
    ensures UniqueEvents(t) ==> UniqueEvents(u)
    ensures forall id :: HasEvent(u, id) <==> HasEvent(t, id)
  {
  }

  /** A stored batch only appends rows; afterwards a table holds an event id exactly when it held it
      before or the batch names it for that table; and ids stay unique and row ids increasing. */
  lemma {:induction false} BatchMembership(d: Dialect, ts: Tables, items: seq<Item>)
    requires WellFormed(ts) && Batch(d, ts, items).Some?
    ensures var us := Batch(d, ts, items).value;
      && WellFormed(us)
      && (forall kind: Kind :: ts.Of(kind).rows <= us.Of(kind).rows)
      && (forall kind: Kind, id ::
            HasEvent(us.Of(kind), id) <==> HasEvent(ts.Of(kind), id) || Mentions(items, kind, id))
  {
    hide UniqueEvents, HasEvent, Statement, Mentions;
    if items == [] {
      forall kind: Kind, id ensures !Mentions(items, kind, id) { NoMentions(kind, id); }
    } else {
      var init, last := items[..|items| - 1], items[|items| - 1];
      BatchMembership(d, ts, init);
      StatementMeaning(d, Batch(d, ts, init).value, last);
      forall kind: Kind, id
        ensures Mentions(items, kind, id) <==>
          Mentions(init, kind, id) || (last.kind == kind && last.values.eventId == id)
      {
        MentionsExtend(items, kind, id);
      }
    }
  }

  // v is the first entry of the batch for its table and event id.
  ghost predicate IsFirstEntry(items: seq<Item>, kind: Kind, v: Values) {
    exists i | 0 <= i < |items| :: items[i].kind == kind && items[i].values == v && FirstMention(items, i)
  }

  lemma FirstEntryExtends(items: seq<Item>, kind: Kind, v: Values)
    requires items != []
    ensures IsFirstEntry(items[..|items| - 1], kind, v) ==> IsFirstEntry(items, kind, v)
    ensures items[|items| - 1] == Item(kind, v) && !Mentions(items[..|items| - 1], kind, v.eventId)
      ==> IsFirstEntry(items, kind, v)
  {
    var n := |items| - 1;
    var init := items[..n];
    if IsFirstEntry(init, kind, v) {
      var i :| 0 <= i < |init| && init[i].kind == kind && init[i].values == v && FirstMention(init, i);
      assert items[..i] == init[..i] && items[i] == init[i];
      assert FirstMention(items, i);
    }
    if items[n] == Item(kind, v) && !Mentions(init, kind, v.eventId) {
      assert FirstMention(items, n);
    }
  }

  /** First writer wins: each row a batch adds carries the values of the first entry of the batch for
      that table and event id, and that id was not in the table before. */
  lemma {:induction false} BatchFirstWriterWins(d: Dialect, ts: Tables, items: seq<Item>, kind: Kind, k: nat)
    requires WellFormed(ts) && Batch(d, ts, items).Some?
    requires |ts.Of(kind).rows| <= k < |Batch(d, ts, items).value.Of(kind).rows|
    ensures var v := Batch(d, ts, items).value.Of(kind).rows[k].values;
      !HasEvent(ts.Of(kind), v.eventId) && IsFirstEntry(items, kind, v)
  {
    hide UniqueEvents, IsFirstEntry, Mentions, HasEvent;
    if items != [] {
      var init, last := items[..|items| - 1], items[|items| - 1];
      var mid, us := Batch(d, ts, init).value, Batch(d, ts, items).value;
      BatchMembership(d, ts, init);
      var v := us.Of(kind).rows[k].values;
      FirstEntryExtends(items, kind, v);
      if k < |mid.Of(kind).rows| {
        BatchFirstWriterWins(d, ts, init, kind, k);
      } else {
        assert last == Item(kind, v) && !HasEvent(mid.Of(kind), v.eventId);
      }
    }
  }

  /** Every row of the tables after a batch was there before, or is new and one of the batch's entries. */
  lemma BatchRowOrigin(d: Dialect, ts: Tables, items: seq<Item>, kind: Kind, row: Row)
    requires WellFormed(ts) && Batch(d, ts, items).Some?
    requires row in Batch(d, ts, items).value.Of(kind).rows
    ensures row in ts.Of(kind).rows
      || (!HasEvent(ts.Of(kind), row.values.eventId) && Item(kind, row.values) in items)
  {
    BatchMembership(d, ts, items);
    var us := Batch(d, ts, items).value.Of(kind).rows;
    var k :| 0 <= k < |us| && us[k] == row;
    if k < |ts.Of(kind).rows| {
      assert ts.Of(kind).rows[k] == row;
    } else {
      BatchFirstWriterWins(d, ts, items, kind, k);
    }
  }

  ghost predicate AllAllowed(ts: Tables) {
    forall kind: Kind, row | row in ts.Of(kind).rows && row.values.payload.detail.SnapshotDetail? ::
      row.values.payload.detail.fileSize >= 0
  }

  /** No stored row ever violates the constraint. */
  lemma {:induction false} BatchAllowsOnly(d: Dialect, ts: Tables, items: seq<Item>)
    requires AllAllowed(ts) && Batch(d, ts, items).Some?
    ensures AllAllowed(Batch(d, ts, items).value)
  {
    hide HasEvent;
    if items != [] {
      var mid, last := Batch(d, ts, items[..|items| - 1]), items[|items| - 1];
      BatchAllowsOnly(d, ts, items[..|items| - 1]);
      forall kind: Kind, row | row in Batch(d, ts, items).value.Of(kind).rows ensures !Refused(row.values) {
        assert row in mid.value.Of(kind).rows || (row.values == last.values && !Refused(last.values));
      }
    }
  }

  // Entry i takes a row id of its table: every entry does on PostgreSQL, only one that adds a row on SQLite.
  predicate Draws(d: Dialect, ts: Tables, items: seq<Item>, kind: Kind, i: nat)
    requires i < |items|
  {
    items[i].kind == kind &&
    (d.Postgres? || (FirstMention(items, i) && !HasEvent(ts.Of(kind), items[i].values.eventId)))
  }

  // How many of the first n entries do.
  function Drawn(d: Dialect, ts: Tables, items: seq<Item>, kind: Kind, n: nat): nat
    requires n <= |items|
  {
    |set i | 0 <= i < n && Draws(d, ts, items, kind, i)|
  }

  lemma DrawnExtends(d: Dialect, ts: Tables, items: seq<Item>, kind: Kind, n: nat)
    requires n < |items|
    ensures Drawn(d, ts, items, kind, n + 1)
      == Drawn(d, ts, items, kind, n) + if Draws(d, ts, items, kind, n) then 1 else 0
    ensures Drawn(d, ts, items[..n], kind, n) == Drawn(d, ts, items, kind, n)
  {
    hide Draws;
    var now := set i | 0 <= i < n && Draws(d, ts, items, kind, i);
    var next := set i | 0 <= i < n + 1 && Draws(d, ts, items, kind, i);
    assert next == now + if Draws(d, ts, items, kind, n) then {n} else {};
    forall i | 0 <= i < n ensures Draws(d, ts, items[..n], kind, i) <==> Draws(d, ts, items, kind, i) {
      DrawsInPrefix(d, ts, items, kind, n, i);
    }
    assert now == set i | 0 <= i < n && Draws(d, ts, items[..n], kind, i);
  }

  lemma DrawsInPrefix(d: Dialect, ts: Tables, items: seq<Item>, kind: Kind, n: nat, i: nat)
    requires i < n <= |items|
    ensures Draws(d, ts, items[..n], kind, i) <==> Draws(d, ts, items, kind, i)
  {
    assert items[..n][..i] == items[..i];
  }

  lemma StatementDraws(d: Dialect, ts: Tables, mid: Tables, items: seq<Item>, kind: Kind)
    requires items != [] && WellFormed(ts)
    requires Batch(d, ts, items[..|items| - 1]) == Some(mid) && Statement(d, mid, items[|items| - 1]).Some?
    ensures var n, u := |items| - 1, Statement(d, mid, items[|items| - 1]).value.Of(kind);
      && u.nextId == mid.Of(kind).nextId + (if Draws(d, ts, items, kind, n) then 1 else 0)
      && (items[n].kind == kind && FirstMention(items, n) && !HasEvent(ts.Of(kind), items[n].values.eventId)
          ==> Row(mid.Of(kind).nextId, items[n].values) in u.rows)
  {
    hide HasEvent, Mentions, UniqueEvents;
    var n := |items| - 1;
    BatchMembership(d, ts, items[..n]);
  }

  /** The row ids a batch takes: after it the next id of a table has grown by one for every entry of the table on
      PostgreSQL, duplicates included, and by one for every new row on SQLite. */
  lemma {:induction false} NextIdMeaning(d: Dialect, ts: Tables, items: seq<Item>, kind: Kind)
    requires WellFormed(ts) && Batch(d, ts, items).Some?
    ensures Batch(d, ts, items).value.Of(kind).nextId
      == ts.Of(kind).nextId + |set i | 0 <= i < |items| && Draws(d, ts, items, kind, i)|
  {
    hide WellFormed, Statement, Draws;
    assert |set i | 0 <= i < |items| && Draws(d, ts, items, kind, i)| == Drawn(d, ts, items, kind, |items|);
    if items != [] {
      var n := |items| - 1;
      var mid := Batch(d, ts, items[..n]).value;
      NextIdMeaning(d, ts, items[..n], kind);
      StatementDraws(d, ts, mid, items, kind);
      DrawnExtends(d, ts, items, kind, n);
    }
  }

  /** The first entry of a batch for an id its table does not have becomes a row, whose id counts the entries before
      it that took one. */
  lemma {:induction false} RowIdMeaning(d: Dialect, ts: Tables, items: seq<Item>, i: nat)
    requires WellFormed(ts) && Batch(d, ts, items).Some? && i < |items| && FirstMention(items, i)
    requires !HasEvent(ts.Of(items[i].kind), items[i].values.eventId)
    ensures var kind := items[i].kind;
      Row(ts.Of(kind).nextId + |set j | 0 <= j < i && Draws(d, ts, items, kind, j)|, items[i].values)
        in Batch(d, ts, items).value.Of(kind).rows
  {
    hide WellFormed, Statement, Draws, HasEvent, Mentions;
    var n, kind := |items| - 1, items[i].kind;
    var init := items[..n];
    var mid := Batch(d, ts, init).value;
    StatementDraws(d, ts, mid, items, kind);
    if i == n {
      NextIdMeaning(d, ts, init, kind);
      DrawnExtends(d, ts, items, kind, n);
    } else {
      assert init[..i] == items[..i];
      RowIdMeaning(d, ts, init, i);
      forall j | 0 <= j < i ensures Draws(d, ts, init, kind, j) <==> Draws(d, ts, items, kind, j) {
        DrawsInPrefix(d, ts, items, kind, n, j);
      }
      assert (set j | 0 <= j < i && Draws(d, ts, init, kind, j)) == set j | 0 <= j < i && Draws(d, ts, items, kind, j);
      RowsKept(d, ts, items, kind);
    }
  }

  lemma RowsKept(d: Dialect, ts: Tables, items: seq<Item>, kind: Kind)
    requires WellFormed(ts) && items != [] && Batch(d, ts, items).Some?
    ensures forall row | row in Batch(d, ts, items[..|items| - 1]).value.Of(kind).rows ::
      row in Batch(d, ts, items).value.Of(kind).rows
  {
    hide UniqueEvents, HasEvent, Statement, Mentions;
    var init := items[..|items| - 1];
    BatchMembership(d, ts, init);
    StatementMeaning(d, Batch(d, ts, init).value, items[|items| - 1]);
  }

  // Entry i does not make the batch fail: PostgreSQL needs every entry to satisfy the constraint, SQLite
  // forgives an entry whose id is already there or earlier in the batch.
  predicate Passes(d: Dialect, ts: Tables, items: seq<Item>, i: nat)
    requires i < |items|
  {
    Refused(items[i].values) ==>
      d.Sqlite? && (HasEvent(ts.Of(items[i].kind), items[i].values.eventId) || !FirstMention(items, i))
  }

  lemma PassesInPrefix(d: Dialect, ts: Tables, items: seq<Item>)
    requires items != []
    ensures forall i | 0 <= i < |items| - 1 :: Passes(d, ts, items[..|items| - 1], i) <==> Passes(d, ts, items, i)
  {
    var init := items[..|items| - 1];
    forall i | 0 <= i < |init| ensures Passes(d, ts, init, i) <==> Passes(d, ts, items, i) {
      assert items[..i] == init[..i];
    }
  }

  /** Exactly when the statements of a batch all go through. */
  lemma {:induction false} BatchSucceedsIff(d: Dialect, ts: Tables, items: seq<Item>)
    requires WellFormed(ts)
    ensures Batch(d, ts, items).Some? <==> forall i | 0 <= i < |items| :: Passes(d, ts, items, i)
  {
    hide WellFormed, Passes, Statement;
    if items != [] {
      var n := |items| - 1;
      var init := items[..n];
      BatchSucceedsIff(d, ts, init);
      PassesInPrefix(d, ts, items);
      if Batch(d, ts, init).None? {
        var i :| 0 <= i < |init| && !Passes(d, ts, init, i);
        assert !Passes(d, ts, items, i);
      } else {
        LastPasses(d, ts, items);
        assert Batch(d, ts, items).Some? <==> Passes(d, ts, items, n);
        forall i | 0 <= i < n ensures Passes(d, ts, items, i) {
          assert Passes(d, ts, init, i);
        }
      }
    }
  }

  lemma LastPasses(d: Dialect, ts: Tables, items: seq<Item>)
    requires WellFormed(ts) && items != [] && Batch(d, ts, items[..|items| - 1]).Some?
    ensures var n := |items| - 1;
      Statement(d, Batch(d, ts, items[..n]).value, items[n]).Some? <==> Passes(d, ts, items, n)
  {
    hide WellFormed, Mentions, HasEvent;
    BatchMembership(d, ts, items[..|items| - 1]);
  }

  lemma {:induction false} AcceptableBatchSucceeds(d: Dialect, ts: Tables, items: seq<Item>)
    requires forall i | 0 <= i < |items| :: !Refused(items[i].values)
    ensures Batch(d, ts, items).Some?
  {
    if items != [] { AcceptableBatchSucceeds(d, ts, items[..|items| - 1]); }
  }

  lemma SameRowsWellFormed(ts: Tables, us: Tables)
    requires WellFormed(ts) && SameRows(ts, us) && IdsOnlyGrow(ts, us)
    ensures WellFormed(us)
  {
    forall kind: Kind ensures UniqueEvents(us.Of(kind)) { SameRowsMeaning(ts.Of(kind), us.Of(kind)); }
  }

  /** On success a batch is the same as inserting its entries one at a time, row ids included. */
  lemma {:induction false} BatchIsRepeatedOnce(d: Dialect, ts: Tables, items: seq<Item>)
    requires Batch(d, ts, items).Some?
    ensures Batch(d, ts, items).value == OnceEach(d, ts, items)
  {
    if items != [] { BatchIsRepeatedOnce(d, ts, items[..|items| - 1]); }
  }

  lemma StoredStatement(d: Dialect, ts: Tables, us: Tables, item: Item)
    requires SameRows(ts, us) && HasEvent(ts.Of(item.kind), item.values.eventId)
    requires d.Postgres? ==> !Refused(item.values)
    ensures Statement(d, us, item).Some? && SameRows(ts, Statement(d, us, item).value)
    ensures d.Sqlite? ==> Statement(d, us, item).value == us
  {
    assert us.Of(item.kind).rows == ts.Of(item.kind).rows;
  }

  /** Delivering entries that are all stored already, in any order and number, changes no row. */
  lemma {:induction false} StoredBatchChangesNothing(d: Dialect, ts: Tables, items: seq<Item>)
    requires forall i | 0 <= i < |items| ::
      HasEvent(ts.Of(items[i].kind), items[i].values.eventId) && (d.Postgres? ==> !Refused(items[i].values))
    ensures Batch(d, ts, items).Some? && SameRows(ts, Batch(d, ts, items).value)
    ensures d.Sqlite? ==> Batch(d, ts, items).value == ts
  {
    hide Statement, HasEvent, SameRows, Refused;
    if items == [] {
      RowsAreSame(ts);
    } else {
      var n := |items| - 1;
      StoredBatchChangesNothing(d, ts, items[..n]);
      StoredStatement(d, ts, Batch(d, ts, items[..n]).value, items[n]);
    }
  }

  lemma RowsAreSame(ts: Tables)
    ensures SameRows(ts, ts)
  {
  }

  /** Repeating a batch that was stored changes no row. */
  lemma BatchIsIdempotent(d: Dialect, ts: Tables, items: seq<Item>)
    requires WellFormed(ts) && Batch(d, ts, items).Some?
    ensures var us := Batch(d, ts, items).value;
      && Batch(d, us, items).Some? && SameRows(us, Batch(d, us, items).value)
      && (d.Sqlite? ==> Batch(d, us, items).value == us)
  {
    BatchMembership(d, ts, items);
    BatchSucceedsIff(d, ts, items);
    forall i | 0 <= i < |items| && d.Postgres? ensures !Refused(items[i].values) { assert Passes(d, ts, items, i); }
    forall i | 0 <= i < |items| ensures Mentions(items, items[i].kind, items[i].values.eventId) {}
    StoredBatchChangesNothing(d, Batch(d, ts, items).value, items);
  }
}
