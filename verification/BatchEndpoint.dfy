// POST /api/v2/events/batch: validate everything, store everything, then acknowledge.
module BatchEndpoint {
  import opened Events
  import opened EventStore
  import opened Cache
  import opened AssignmentKey
  import opened Cursor
  import Paging

  predicate Between(s: string, low: nat, high: nat) {
    low <= |s| <= high
  }

  predicate KeyChar(c: char) {
    'A' <= c <= 'Z' || 'a' <= c <= 'z' || '0' <= c <= '9' || c == '_' || c == '-'
  }

  // The request schemas. Unknown columns are forbidden, so the detail must be that of the kind.
  predicate DetailValid(kind: Kind, detail: Detail) {
    match (kind, detail)
    case (Snapshot, SnapshotDetail(path, size)) => Between(path, 1, 1024) && size >= 0
    case (Build, BuildDetail(_, cmdline, cwd, binary, target)) =>
      Between(cmdline, 0, 16384) && Between(cwd, 0, 4096) && Between(binary, 0, 4096) && Between(target, 0, 4096)
    case (Run, RunDetail(_, cmdline, cwd, target, processType)) =>
      Between(cmdline, 0, 16384) && Between(cwd, 0, 4096) && Between(target, 0, 4096) && Between(processType, 1, 32)
    case _ => false
  }

  predicate SchemaValid(item: Item) {
    var p := item.values.payload;
    && item.values.courseId > 0 && p.assignmentId > 0
    && Between(p.studentKey, 1, 32) && (forall c | c in p.studentKey :: KeyChar(c))
    && Between(p.classDiv, 1, 64) && Between(p.hwName, 1, 255)
    && DetailValid(item.kind, p.detail)
  }

  predicate RequestValid(items: seq<Item>) {
    1 <= |items| <= 500 && forall i | 0 <= i < |items| :: SchemaValid(items[i])
  }

  const UPPER := "ABCDEFGHIJKLMNOPQRSTUVWXYZ"
  const LOWER := "abcdefghijklmnopqrstuvwxyz"
  const OTHERS := "0123456789_-"

  lemma UpperIff(c: char)
    ensures c in UPPER <==> 'A' <= c <= 'Z'
  {
  }

  lemma LowerIff(c: char)
    ensures c in LOWER <==> 'a' <= c <= 'z'
  {
  }

  lemma KeyCharIff(c: char)
    ensures KeyChar(c) <==> c in UPPER || c in LOWER || c in OTHERS
  {
    hide UPPER, LOWER;
    UpperIff(c);
    LowerIff(c);
  }

  /** An entry is valid exactly when the ids of course and assignment are positive, the student key is 1 to 32 letters,
      digits, underscores and dashes, the names are neither empty nor longer than 64 and 255, and it has just
      the columns of its kind, none too long. */
  lemma SchemaValidIff(item: Item)
    ensures SchemaValid(item) <==>
      var p := item.values.payload;
      && item.values.courseId >= 1 && p.assignmentId >= 1
      && 0 < |p.studentKey| < 33 && 0 < |p.classDiv| < 65 && 0 < |p.hwName| < 256
      && (forall c | c in p.studentKey :: c in UPPER || c in LOWER || c in OTHERS)
      && (item.kind.Snapshot? ==>
            p.detail.SnapshotDetail? && 0 < |p.detail.relativePath| < 1025 && p.detail.fileSize >= 0)
      && (item.kind.Build? ==>
            && p.detail.BuildDetail? && |p.detail.cmdline| < 16385 && |p.detail.cwd| < 4097
            && |p.detail.binaryPath| < 4097 && |p.detail.targetPath| < 4097)
      && (item.kind.Run? ==>
            && p.detail.RunDetail? && |p.detail.cmdline| < 16385 && |p.detail.cwd| < 4097
            && |p.detail.targetPath| < 4097 && 0 < |p.detail.processType| < 33)
  {
    hide KeyChar, UPPER, LOWER, OTHERS;
    forall c: char ensures KeyChar(c) <==> c in UPPER || c in LOWER || c in OTHERS { KeyCharIff(c); }
  }

  function KindName(kind: Kind): string {
    match kind case Snapshot => "snapshot" case Build => "build" case Run => "run"
  }

  function OwnerOf(item: Item): Owner {
    var p := item.values.payload;
    Owner(KindName(item.kind), p.classDiv, p.hwName, p.studentKey)
  }

  function Invalidated(es: seq<Entry>, items: seq<Item>): seq<Entry> {
    if items == [] then es else
      var before, item := Invalidated(es, items[..|items| - 1]), items[|items| - 1];
      if item.kind.Snapshot? then before else Filter(before, NotUnder(LogPrefix(OwnerOf(item))))
  }

  // The key lies under the prefix that a build or run entry invalidates.
  predicate Touches(item: Item, key: string) {
    !item.kind.Snapshot? && LogPrefix(OwnerOf(item)) <= key
  }

  predicate TouchedPage(items: seq<Item>, key: string) {
    exists i | 0 <= i < |items| :: Touches(items[i], key)
  }

  // The text whose keys the invalidation of an entry removes.
  lemma TouchesMeaning(item: Item, key: string)
    ensures var v := item.values.payload;
      var owner := ":" + v.classDiv + ":" + v.hwName + ":" + v.studentKey + ":";
      Touches(item, key) <==> (item.kind.Build? && "build" + owner <= key) || (item.kind.Run? && "run" + owner <= key)
  {
    var o, v := OwnerOf(item), item.values.payload;
    LogKeyText(o, "", "", "", "");
    assert LogPrefix(o) == KindName(item.kind) + (":" + v.classDiv + ":" + v.hwName + ":" + v.studentKey + ":");
  }

  /** After the invalidations of a batch the cache holds exactly the pages whose keys do not begin with "build:" or
      "run:" and the class division, homework name and student key, each followed by a colon, of a build or
      run entry of the batch. */
  lemma InvalidatedMeaning(es: seq<Entry>, items: seq<Item>)
    ensures forall e :: e in Invalidated(es, items) <==> e in es && !TouchedPage(items, e.key)
    ensures forall e :: e in Invalidated(es, items) <==> e in es && forall i | 0 <= i < |items| ::
      var v := items[i].values.payload;
      var owner := ":" + v.classDiv + ":" + v.hwName + ":" + v.studentKey + ":";
      !(items[i].kind.Build? && "build" + owner <= e.key) && !(items[i].kind.Run? && "run" + owner <= e.key)
  {
    hide Touches, Invalidated;
    RemovedByTouch(es, items);
    forall i, key: string | 0 <= i < |items|
      ensures var v := items[i].values.payload;
        var owner := ":" + v.classDiv + ":" + v.hwName + ":" + v.studentKey + ":";
        Touches(items[i], key) <==>
          (items[i].kind.Build? && "build" + owner <= key) || (items[i].kind.Run? && "run" + owner <= key)
    {
      TouchesMeaning(items[i], key);
    }
  }

  lemma {:induction false} RemovedByTouch(es: seq<Entry>, items: seq<Item>)
    ensures forall e :: e in Invalidated(es, items) <==> e in es && !TouchedPage(items, e.key)
  {
    if items != [] {
      var init, item := items[..|items| - 1], items[|items| - 1];
      RemovedByTouch(es, init);
      FilterMeaning(Invalidated(es, init), NotUnder(LogPrefix(OwnerOf(item))));
      forall key: string
        ensures TouchedPage(items, key) <==> TouchedPage(init, key) || Touches(item, key)
      {
        TouchedExtends(items, key);
      }
    }
  }

  lemma TouchedExtends(items: seq<Item>, key: string)
    requires items != []
    ensures TouchedPage(items, key) <==>
      TouchedPage(items[..|items| - 1], key) || Touches(items[|items| - 1], key)
  {
    hide Touches;
    var init, n := items[..|items| - 1], |items| - 1;
    assert forall i | 0 <= i < n :: init[i] == items[i];
    if TouchedPage(items, key) {
      var i :| 0 <= i < |items| && Touches(items[i], key);
      assert i < n ==> Touches(init[i], key);
    }
    if TouchedPage(init, key) {
      var i :| 0 <= i < |init| && Touches(init[i], key);
      assert Touches(items[i], key);
    }
  }

  datatype Response = Unprocessable | ServerError | Acknowledged(ids: seq<EventId>)

  class Backend {
    const db: EventDatabase
    const cache: BoundedTTLCache
    const dialect: Dialect

    constructor (db: EventDatabase, cache: BoundedTTLCache, dialect: Dialect)
      ensures this.db == db && this.cache == cache && this.dialect == dialect
    {
      this.db, this.cache, this.dialect := db, cache, dialect;
    }

    /** All or nothing: a batch is rejected before any write when an entry is invalid; when the database
        fails nothing is stored; otherwise every entry is stored, no cached page under the prefix of a build or run
        entry is left, and the acknowledgement lists exactly the ids of the batch, in order. */
    method RegisterEventBatch(request: seq<Item>, fault: Option<nat>) returns (r: Response)
      requires WellFormed(db.tables)
      requires fault.Some? ==> fault.value <= |request|
      modifies db, cache
      ensures WellFormed(db.tables)
      ensures r.Unprocessable? <==> !RequestValid(request)
      ensures r.Unprocessable? <==>
        |request| == 0 || |request| > 500 || exists i :: 0 <= i < |request| && !SchemaValid(request[i])
      ensures r.ServerError? <==> RequestValid(request) && fault.Some?
      ensures !r.Acknowledged? ==> SameRows(old(db.tables), db.tables) && cache.entries == old(cache.entries)
      ensures r.Acknowledged? ==>
        && |r.ids| == |request|
        && (forall i | 0 <= i < |request| ::
              r.ids[i] == request[i].values.eventId && HasEvent(db.tables.Of(request[i].kind), r.ids[i]))
        && Batch(dialect, old(db.tables), request) == Some(db.tables)
        && (forall e :: e in cache.entries <==> e in old(cache.entries) && !TouchedPage(request, e.key))
    {
      hide Batch, HasEvent, WellFormed, TouchedPage, Mentions, Invalidated, UniqueEvents;
      if !(1 <= |request| <= 500) {
        return Unprocessable;
      }
      var parsed: seq<Item> := [];
      for i := 0 to |request|
        invariant parsed == request[..i]
        invariant forall j | 0 <= j < i :: SchemaValid(request[j])
        invariant db.tables == old(db.tables) && cache.entries == old(cache.entries)
      {
        if !SchemaValid(request[i]) {
          return Unprocessable;
        }
        parsed := parsed + [request[i]];
      }
      assert parsed == request;
      forall i | 0 <= i < |parsed| ensures !Refused(parsed[i].values) { assert SchemaValid(request[i]); }
      AcceptableBatchSucceeds(dialect, db.tables, parsed);
      BatchMembership(dialect, db.tables, parsed);
      var ok := db.InsertEventBatch(dialect, parsed, fault);
      if !ok {
        SameRowsWellFormed(old(db.tables), db.tables);
        return ServerError;
      }
      Invalidate(parsed);
      InvalidatedMeaning(old(cache.entries), parsed);
      var ids := seq(|parsed|, i requires 0 <= i < |parsed| => parsed[i].values.eventId);
      forall i | 0 <= i < |request| ensures HasEvent(db.tables.Of(request[i].kind), ids[i]) {
        MentionedMember(parsed, parsed[i]);
      }
      r := Acknowledged(ids);
    }

    method Invalidate(parsed: seq<Item>)
      modifies cache
      ensures cache.entries == Invalidated(old(cache.entries), parsed)
    {
      for i := 0 to |parsed|
        invariant cache.entries == Invalidated(old(cache.entries), parsed[..i])
      {
        assert parsed[..i + 1][..i] == parsed[..i];
        if !parsed[i].kind.Snapshot? {
          cache.DeletePrefix(LogPrefix(OwnerOf(parsed[i])));
        }
      }
      assert parsed[..|parsed|] == parsed;
    }
  }

  // ---- pages that show an entry ---------------------------------------------------------------------

  // A log query of the owner selects the row of the entry, unless a time range or cursor leaves it out.
  predicate Shows(p: Owner, item: Item) {
    var v := item.values.payload;
    && !item.kind.Snapshot? && p.kind == KindName(item.kind) && p.student == v.studentKey
    && InScope(AssignmentPredicates(p.classDiv, p.hwName), v.assignmentId, v.classDiv, v.hwName)
  }

  /** What showing means: a log query of the owner, for all times, selects the row an entry of its table becomes. */
  lemma ShownIsSelected(p: Owner, item: Item, rowId: nat, at: DateTime)
    ensures var v := item.values.payload;
      Shows(p, item) <==>
        && ((item.kind.Build? && p.kind == "build") || (item.kind.Run? && p.kind == "run"))
        && Paging.Matches(Paging.LogQuery(p.classDiv, p.hwName, p.student, None, None),
                          Paging.PageRow(rowId, at, v.assignmentId, v.classDiv, v.hwName, v.studentKey))
  {
    hide InScope, AssignmentPredicates;
  }

  // The batch has a build or run entry of the owner's own quadruple.
  predicate Named(items: seq<Item>, p: Owner) {
    exists i | 0 <= i < |items| :: !items[i].kind.Snapshot? && OwnerOf(items[i]) == p
  }

  predicate ColonFreeItems(items: seq<Item>) {
    forall i | 0 <= i < |items| && !items[i].kind.Snapshot? :: ColonFree(OwnerOf(items[i]))
  }

  /** Which pages that show an entry its invalidation removes, exactly: those cached under the entry's own class
      division and homework name. A query by a name that carries no assignment id has no other; a query by
      assignment id selects whatever the class division and the spelling of the id. */
  lemma ShownPageGoesIff(item: Item, p: Owner, key: string)
    requires ColonFree(p) && ColonFree(OwnerOf(item)) && Shows(p, item) && IsLogKey(key, p)
    ensures var v := item.values.payload;
      && (Touches(item, key) <==> p.classDiv == v.classDiv && p.hwName == v.hwName)
      && (AssignmentIdFromHwName(p.hwName).None? ==> Touches(item, key))
  {
    hide ColonFree, LogPrefix;
    TouchedIsOwn(item, p, key);
  }

  lemma TouchedIsOwn(item: Item, p: Owner, key: string)
    requires ColonFree(p) && ColonFree(OwnerOf(item)) && IsLogKey(key, p)
    ensures Touches(item, key) <==> !item.kind.Snapshot? && OwnerOf(item) == p
  {
    hide ColonFree, LogPrefix;
    var f: string, t: string, l: string, c: string :| key == LogKey(p, f, t, l, c);
    PrefixNamesOwner(OwnerOf(item), p, f, t, l, c);
  }

  lemma TouchedIffNamed(items: seq<Item>, p: Owner, key: string)
    requires ColonFree(p) && ColonFreeItems(items) && IsLogKey(key, p)
    ensures TouchedPage(items, key) <==> Named(items, p)
  {
    hide ColonFree, LogPrefix, IsLogKey, Touches;
    forall i | 0 <= i < |items|
      ensures Touches(items[i], key) <==> !items[i].kind.Snapshot? && OwnerOf(items[i]) == p
    {
      if items[i].kind.Snapshot? { SnapshotTouchesNothing(items[i], key); } else { TouchedIsOwn(items[i], p, key); }
    }
  }

  lemma SnapshotTouchesNothing(item: Item, key: string)
    requires item.kind.Snapshot?
    ensures !Touches(item, key)
  {
  }

  // A cached page of p shows an entry of the batch.
  ghost predicate ShowsBatch(items: seq<Item>, e: Entry, p: Owner) {
    ColonFree(p) && IsLogKey(e.key, p) && exists i | 0 <= i < |items| :: Shows(p, items[i])
  }

  /** When a batch leaves no page behind that shows one of its entries, exactly: when every cached page that shows one
      belongs to the quadruple of some build or run entry of the batch. */
  lemma NoStalePageIff(es: seq<Entry>, items: seq<Item>)
    requires ColonFreeItems(items)
    ensures (forall e, p | e in Invalidated(es, items) :: !ShowsBatch(items, e, p))
      <==> (forall e, p | e in es && ShowsBatch(items, e, p) :: Named(items, p))
  {
    hide Shows, ColonFree, IsLogKey, TouchedPage, Named, Invalidated;
    InvalidatedMeaning(es, items);
    forall e, p | e in es && ShowsBatch(items, e, p)
      ensures e in Invalidated(es, items) <==> !Named(items, p)
    {
      TouchedIffNamed(items, p, e.key);
    }
  }

  // A build of assignment 5 in class os-1.
  function SampleBuild(): Item {
    Item(Build, Values("a", 1, Payload(5, "7", "os-1", "assignment-5", 0, BuildDetail(0, "", "", "", ""))))
  }

  /** Such pages exist: after a valid build of assignment 5 in class os-1, the page of the same student cached under
      class os-2 and the one cached under the name assignment-05 show the build and are left. */
  lemma StalePagesStay(page: Page)
    ensures var item := SampleBuild();
      var p, q := Owner("build", "os-2", "assignment-5", "7"), Owner("build", "os-1", "assignment-05", "7");
      && SchemaValid(item) && ColonFree(p) && ColonFree(q) && Shows(p, item) && Shows(q, item)
      && (forall o, e | o in {p, q} && e == Entry(LogKey(o, "", "", "200", ""), 60, page) ::
            e in Invalidated([e], [item]))
  {
    hide LogKey, IsLogKey, ColonFree, Shows, Invalidated;
    SampleOwners();
    var item := SampleBuild();
    var p, q := Owner("build", "os-2", "assignment-5", "7"), Owner("build", "os-1", "assignment-05", "7");
    forall o, e | o in {p, q} && e == Entry(LogKey(o, "", "", "200", ""), 60, page)
      ensures e in Invalidated([e], [item])
    {
      OtherPageStays(item, o, e);
    }
  }

  lemma OtherPageStays(item: Item, o: Owner, e: Entry)
    requires ColonFree(o) && ColonFree(OwnerOf(item)) && OwnerOf(item) != o && e.key == LogKey(o, "", "", "200", "")
    ensures e in Invalidated([e], [item])
  {
    hide ColonFree, LogKey, Touches;
    InvalidatedMeaning([e], [item]);
    assert IsLogKey(e.key, o);
    TouchedIsOwn(item, o, e.key);
  }

  lemma SampleOwners()
    ensures var item := SampleBuild();
      var p, q := Owner("build", "os-2", "assignment-5", "7"), Owner("build", "os-1", "assignment-05", "7");
      && SchemaValid(item) && ColonFree(p) && ColonFree(q) && ColonFree(OwnerOf(item))
      && Shows(p, item) && Shows(q, item)
      && OwnerOf(item) != p && OwnerOf(item) != q
  {
    hide AssignmentIdFromHwName;
    PaddedFive();
    assert "os-1"[3] != "os-2"[3];
    assert |"assignment-5"| != |"assignment-05"|;
  }

  lemma PaddedFive()
    ensures AssignmentIdFromHwName("assignment-5") == Some(5) && AssignmentIdFromHwName("assignment-05") == Some(5)
  {
    assert "assignment-5"[11..] == "5" && "assignment-05"[11..] == "05";
    assert "5"[..0] == "" && "05"[..1] == "0" && "0"[..0] == "";
  }
}
