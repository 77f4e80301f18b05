// Keyset pagination over an event table: newest first, a look-ahead of one row, and the position of
// the last row handed out as the cursor of the next page.
module Paging {
  import opened Events
  import opened Order
  import opened Decimal
  import opened AssignmentKey
  import opened Cursor

  datatype PageRow = PageRow(id: nat, occurredAt: DateTime, assignmentId: int, classDiv: string, hwName: string,
                             studentKey: string)

  datatype Query = Query(scope: Scope, studentKey: string, fromTime: Option<DateTime>, toTime: Option<DateTime>)

  type Position = (DateTime, nat)

  // Chronological order of UTC times.
  predicate TimeLess(a: DateTime, b: DateTime) {
    a.year < b.year || (a.year == b.year && (a.month < b.month || (a.month == b.month
    && (a.day < b.day || (a.day == b.day && (a.hour < b.hour || (a.hour == b.hour
    && (a.minute < b.minute || (a.minute == b.minute
    && (a.second < b.second || (a.second == b.second && a.micro < b.micro)))))))))))
  }

  predicate Matches(q: Query, r: PageRow) {
    && r.studentKey == q.studentKey
    && InScope(q.scope, r.assignmentId, r.classDiv, r.hwName)
    && (q.fromTime.Some? ==> !TimeLess(r.occurredAt, q.fromTime.value))
    && (q.toTime.Some? ==> !TimeLess(q.toTime.value, r.occurredAt))
  }

  // event_cursor_predicate
  predicate Below(r: PageRow, p: Position) {
    TimeLess(r.occurredAt, p.0) || (r.occurredAt == p.0 && r.id < p.1)
  }

  function At(r: PageRow): Position { (r.occurredAt, r.id) }

  // ORDER BY occurred_at DESC, id DESC
  predicate Newer(a: PageRow, b: PageRow) { Below(b, At(a)) }

  ghost predicate TableOk(table: set<PageRow>) {
    && (forall a, b | a in table && b in table && a.id == b.id :: a == b)
    && (forall r | r in table :: ValidTime(r.occurredAt) && r.id > 0)
  }

  /** A table of rows has no two rows with one id, and every row a positive id and a valid time. */
  lemma TableMeaning(table: set<PageRow>)
    ensures TableOk(table) <==>
      && (forall a, b | a in table && b in table && a != b :: a.id != b.id)
      && (forall r | r in table :: ValidTime(r.occurredAt) && r.id >= 1)
  {
    hide ValidTime;
  }

  function Selected(table: set<PageRow>, q: Query, p: Option<Position>): set<PageRow> {
    set r | r in table && Matches(q, r) && (p.None? || Below(r, p.value))
  }

  lemma TimeOrder(a: DateTime, b: DateTime, c: DateTime)
    ensures !TimeLess(a, a) && (a == b || TimeLess(a, b) || TimeLess(b, a))
    ensures TimeLess(a, b) && TimeLess(b, c) ==> TimeLess(a, c)
    ensures TimeLess(a, b) ==> !TimeLess(b, a)
  {
  }

  // A day and a time of day as numbers, in calendar order, and both as one.
  function Day(t: DateTime): int { t.year * 372 + t.month * 31 + t.day }

  function Micros(t: DateTime): int { ((t.hour * 60 + t.minute) * 60 + t.second) * 1_000_000 + t.micro }

  function Stamp(t: DateTime): int { Day(t) * 86_400_000_000 + Micros(t) }

  lemma DayOrder(a: DateTime, b: DateTime)
    requires ValidTime(a) && ValidTime(b)
    ensures Day(a) < Day(b) <==>
      a.year < b.year || (a.year == b.year && (a.month < b.month || (a.month == b.month && a.day < b.day)))
    ensures Day(a) == Day(b) <==> a.year == b.year && a.month == b.month && a.day == b.day
  {
  }

  lemma MicrosOrder(a: DateTime, b: DateTime)
    requires ValidTime(a) && ValidTime(b)
    ensures Micros(a) < Micros(b) <==>
      a.hour < b.hour || (a.hour == b.hour && (a.minute < b.minute || (a.minute == b.minute
      && (a.second < b.second || (a.second == b.second && a.micro < b.micro)))))
    ensures Micros(a) == Micros(b) <==>
      a.hour == b.hour && a.minute == b.minute && a.second == b.second && a.micro == b.micro
    ensures 0 <= Micros(a) < 86_400_000_000 && 0 <= Micros(b) < 86_400_000_000
  {
  }

  /** Times are compared as those numbers are. */
  lemma TimeIsStamp(a: DateTime, b: DateTime)
    requires ValidTime(a) && ValidTime(b)
    ensures TimeLess(a, b) <==> Stamp(a) < Stamp(b)
    ensures a == b <==> Stamp(a) == Stamp(b)
  {
    hide Day, Micros, ValidTime;
    DayOrder(a, b);
    MicrosOrder(a, b);
  }

  ghost predicate ValidRange(q: Query) {
    (q.fromTime.Some? ==> ValidTime(q.fromTime.value)) && (q.toTime.Some? ==> ValidTime(q.toTime.value))
  }

  /** The rows a query selects, field by field: those of the student asked for, of the assignment by its id or by class
      division and name, within the range of times, ends included. */
  lemma MatchesFields(q: Query, r: PageRow)
    requires ValidRange(q) && ValidTime(r.occurredAt)
    ensures Matches(q, r) <==>
      && r.studentKey == q.studentKey
      && (match q.scope
          case ById(id) => r.assignmentId == id
          case ByName(classDiv, hwName) => r.classDiv == classDiv && r.hwName == hwName)
      && (q.fromTime.Some? ==> Stamp(q.fromTime.value) <= Stamp(r.occurredAt))
      && (q.toTime.Some? ==> Stamp(r.occurredAt) <= Stamp(q.toTime.value))
  {
    hide TimeLess, Stamp, ValidTime;
    if q.fromTime.Some? { TimeIsStamp(r.occurredAt, q.fromTime.value); }
    if q.toTime.Some? { TimeIsStamp(q.toTime.value, r.occurredAt); }
  }

  lemma NewerTotal(s: set<PageRow>)
    requires forall a, b | a in s && b in s && a.id == b.id :: a == b
    ensures TotalOn(Newer, s)
  {
    hide TimeLess;
    forall x | x in s ensures !Newer(x, x) { TimeOrder(x.occurredAt, x.occurredAt, x.occurredAt); }
    forall x, y | x in s && y in s && x != y ensures Newer(x, y) || Newer(y, x) {
      TimeOrder(x.occurredAt, y.occurredAt, x.occurredAt);
    }
    forall x, y, z | x in s && y in s && z in s && Newer(x, y) && Newer(y, z) ensures Newer(x, z) {
      TimeOrder(z.occurredAt, y.occurredAt, x.occurredAt);
    }
  }

  datatype Page = BadCursor | Page(items: seq<PageRow>, nextCursor: Option<string>)

  ghost function Listed(table: set<PageRow>, q: Query, p: Option<Position>): seq<PageRow>
    requires TableOk(table)
  {
    NewerTotal(Selected(table, q, p));
    SortSet(Selected(table, q, p), Newer)
  }

  ghost function EventPage(table: set<PageRow>, q: Query, limit: nat, cursor: Option<string>): Page
    requires TableOk(table)
  {
    if cursor.Some? && DecodeEventCursor(cursor.value).None? then BadCursor else
      var all := Listed(table, q, if cursor.None? then None else DecodeEventCursor(cursor.value));
      var rows := if |all| <= limit + 1 then all else all[..limit + 1];
      var items := if |rows| <= limit then rows else rows[..limit];
      var next := if |rows| > limit && items != []
        then var last := items[|items| - 1]; Some(EncodeEventCursor(last.occurredAt, last.id)) else None;
      Page(items, next)
  }

  lemma ListedMeaning(table: set<PageRow>, q: Query, p: Option<Position>)
    requires TableOk(table)
    ensures Sorted(Listed(table, q, p), Newer)
    ensures forall r :: r in Listed(table, q, p) <==> r in Selected(table, q, p)
  {
    NewerTotal(Selected(table, q, p));
  }

  lemma SelectedFields(table: set<PageRow>, q: Query, p: Option<Position>)
    requires TableOk(table) && ValidRange(q) && (p.Some? ==> ValidTime(p.value.0))
    ensures forall r :: r in Selected(table, q, p) <==>
      && r in table && r.studentKey == q.studentKey
      && (match q.scope
          case ById(id) => r.assignmentId == id
          case ByName(classDiv, hwName) => r.classDiv == classDiv && r.hwName == hwName)
      && (q.fromTime.Some? ==> Stamp(q.fromTime.value) <= Stamp(r.occurredAt))
      && (q.toTime.Some? ==> Stamp(r.occurredAt) <= Stamp(q.toTime.value))
      && (p.Some? ==> Stamp(r.occurredAt) < Stamp(p.value.0)
                      || (Stamp(r.occurredAt) == Stamp(p.value.0) && r.id < p.value.1))
  {
    hide TimeLess, Stamp, ValidTime, Matches;
    forall r | r in table
      ensures ValidTime(r.occurredAt)
      ensures p.Some? ==> (Below(r, p.value) <==>
        Stamp(r.occurredAt) < Stamp(p.value.0) || (Stamp(r.occurredAt) == Stamp(p.value.0) && r.id < p.value.1))
    {
      if p.Some? { TimeIsStamp(r.occurredAt, p.value.0); }
    }
    forall r | r in table { MatchesFields(q, r); }
  }

  lemma NewerIsStamp(a: PageRow, b: PageRow)
    requires ValidTime(a.occurredAt) && ValidTime(b.occurredAt)
    ensures Newer(a, b) <==>
      Stamp(b.occurredAt) < Stamp(a.occurredAt) || (Stamp(b.occurredAt) == Stamp(a.occurredAt) && b.id < a.id)
  {
    hide TimeLess, Stamp, ValidTime;
    TimeIsStamp(b.occurredAt, a.occurredAt);
  }

  // The position a cursor stands for.
  function Decoded(cursor: Option<string>): Option<Position> {
    if cursor.None? then None else DecodeEventCursor(cursor.value)
  }

  ghost predicate GoodCursor(cursor: Option<string>) {
    cursor.Some? ==> DecodeEventCursor(cursor.value).Some?
  }

  // A page that ends the listing holds everything below the cursor.
  ghost predicate LastPage(selected: set<PageRow>, page: Page)
    requires page.Page?
  {
    page.nextCursor.None? ==> forall r | r in selected :: r in page.items
  }

  // A page with a successor is full, and its cursor is the position of its last row, which parts the
  // rows on it from those still to come.
  ghost predicate CutPage(selected: set<PageRow>, limit: nat, page: Page)
    requires page.Page?
  {
    page.nextCursor.Some? ==>
      && |page.items| == limit > 0
      && Decoded(page.nextCursor) == Some(At(page.items[limit - 1]))
      && (forall r | r in selected :: r in page.items <==> !Below(r, At(page.items[limit - 1])))
      && exists r | r in selected :: Below(r, At(page.items[limit - 1]))
  }

  lemma CutListing(table: set<PageRow>, q: Query, limit: nat, p: Option<Position>)
    requires TableOk(table) && limit >= 1 && |Listed(table, q, p)| > limit
    ensures var all := Listed(table, q, p); var last := all[limit - 1];
      && (forall r | r in Selected(table, q, p) :: r in all[..limit] <==> !Below(r, At(last)))
      && all[limit] in Selected(table, q, p) && Below(all[limit], At(last))
      && ValidTime(last.occurredAt) && last.id > 0
  {
    hide TimeLess, Listed, Matches, ValidTime, Below;
    ListedMeaning(table, q, p);
    var all := Listed(table, q, p);
    assert all[limit] in all && all[limit - 1] in all;
    forall r | r in Selected(table, q, p) ensures r in all[..limit] <==> !Below(r, At(all[limit - 1])) {
      assert r in all;
      var i :| 0 <= i < |all| && all[i] == r;
      SplitAt(all, limit - 1, i);
    }
    assert Newer(all[limit - 1], all[limit]);
  }

  lemma PageShape(table: set<PageRow>, q: Query, limit: nat, cursor: Option<string>)
    requires TableOk(table) && limit >= 1 && GoodCursor(cursor)
    ensures var page := EventPage(table, q, limit, cursor); var selected := Selected(table, q, Decoded(cursor));
      && page.Page? && Sorted(page.items, Newer) && |page.items| <= limit
      && (forall r | r in page.items :: r in selected)
      && LastPage(selected, page) && CutPage(selected, limit, page)
  {
    hide TimeLess, EncodeEventCursor, DecodeEventCursor, Matches, Listed, Below, ValidTime, Selected;
    var p := Decoded(cursor);
    ListedMeaning(table, q, p);
    var all := Listed(table, q, p);
    var page := EventPage(table, q, limit, cursor);
    if |all| > limit {
      CutListing(table, q, limit, p);
      var last := all[limit - 1];
      assert page.items == all[..limit];
      CursorRoundTrip(last.occurredAt, last.id);
    } else {
      assert page.items == all;
    }
  }

  /** One page, with a limit of at least one: the newest rows below the cursor, newest first, and no more
      than the limit. Without a next cursor they are all the rows below it; with one, it decodes to the
      position of the last row, everything at or above that position is on the page, and more follows.
      The rows meant are those of the student and the assignment asked for, within the range of times. */
  lemma PageMeaning(table: set<PageRow>, q: Query, limit: nat, cursor: Option<string>)
    requires TableOk(table) && limit >= 1 && GoodCursor(cursor)
    ensures ValidRange(q) ==> forall r :: r in Selected(table, q, Decoded(cursor)) <==>
      && r in table && r.studentKey == q.studentKey
      && (match q.scope
          case ById(id) => r.assignmentId == id
          case ByName(classDiv, hwName) => r.classDiv == classDiv && r.hwName == hwName)
      && (q.fromTime.Some? ==> Stamp(q.fromTime.value) <= Stamp(r.occurredAt))
      && (q.toTime.Some? ==> Stamp(r.occurredAt) <= Stamp(q.toTime.value))
      && (cursor.Some? ==>
            var (time, id) := DecodeEventCursor(cursor.value).value;
            Stamp(r.occurredAt) < Stamp(time) || (Stamp(r.occurredAt) == Stamp(time) && r.id < id))
    ensures var page := EventPage(table, q, limit, cursor); var selected := Selected(table, q, Decoded(cursor));
      && page.Page? && Sorted(page.items, Newer) && |page.items| <= limit
      && (forall r | r in page.items :: r in selected)
      && LastPage(selected, page) && CutPage(selected, limit, page)
      && forall i, j | 0 <= i < j < |page.items| :: var (a, b) := (page.items[i], page.items[j]);
           Stamp(b.occurredAt) < Stamp(a.occurredAt) || (Stamp(b.occurredAt) == Stamp(a.occurredAt) && b.id < a.id)
  {
    hide EncodeEventCursor, DecodeEventCursor, Matches, EventPage, Selected, Stamp, LastPage, CutPage, ValidTime, Newer;
    PageShape(table, q, limit, cursor);
    if ValidRange(q) { SelectedFields(table, q, Decoded(cursor)); }
    var items := EventPage(table, q, limit, cursor).items;
    forall i, j | 0 <= i < j < |items|
      ensures var (a, b) := (items[i], items[j]);
        Stamp(b.occurredAt) < Stamp(a.occurredAt) || (Stamp(b.occurredAt) == Stamp(a.occurredAt) && b.id < a.id)
    {
      assert items[i] in items && items[j] in items && Newer(items[i], items[j]);
      SelectedRow(table, q, Decoded(cursor), items[i]);
      SelectedRow(table, q, Decoded(cursor), items[j]);
      NewerIsStamp(items[i], items[j]);
    }
  }

  /** A request is refused exactly for a cursor that does not decode. */
  lemma BadCursorIff(table: set<PageRow>, q: Query, limit: nat, cursor: Option<string>)
    requires TableOk(table)
    ensures EventPage(table, q, limit, cursor).BadCursor? <==> cursor.Some? && DecodeEventCursor(cursor.value).None?
  {
    hide Listed, DecodeEventCursor;
  }

  lemma SelectedRow(table: set<PageRow>, q: Query, p: Option<Position>, r: PageRow)
    requires TableOk(table) && r in Selected(table, q, p)
    ensures r in table && ValidTime(r.occurredAt)
  {
  }

  lemma SplitAt(all: seq<PageRow>, k: nat, i: nat)
    requires Sorted(all, Newer) && k < |all| && i < |all|
    ensures all[i] in all[..k + 1] <==> !Below(all[i], At(all[k]))
  {
    hide TimeLess;
    TimeOrder(all[i].occurredAt, all[k].occurredAt, all[i].occurredAt);
    if i < k {
      assert Newer(all[i], all[k]);
      assert all[..k + 1][i] == all[i];
    } else if i == k {
      assert all[..k + 1][k] == all[k];
    } else {
      assert Newer(all[k], all[i]);
      forall j | 0 <= j <= k ensures all[j] != all[i] {
        assert Newer(all[j], all[i]);
        TimeOrder(all[j].occurredAt, all[j].occurredAt, all[j].occurredAt);
      }
    }
  }

  // ---- following next_cursor ----------------------------------------------------------------------

  ghost predicate Growing(tables: seq<set<PageRow>>) {
    && (forall k | 0 <= k < |tables| :: TableOk(tables[k]))
    && (forall j, k | 0 <= j <= k < |tables| :: tables[j] <= tables[k])
  }

  function CursorOf(pages: seq<Page>, k: nat): Option<string>
    requires k <= |pages|
  {
    if k == 0 || pages[k - 1].BadCursor? then None else pages[k - 1].nextCursor
  }

  // One request for each table, each with the cursor the one before returned; only the last may return none.
  ghost predicate Follows(tables: seq<set<PageRow>>, q: Query, limit: nat, pages: seq<Page>)
    requires Growing(tables)
  {
    && |pages| == |tables|
    && (forall k | 0 <= k < |pages| :: pages[k] == EventPage(tables[k], q, limit, CursorOf(pages, k)))
    && (forall k | 0 <= k < |pages| - 1 :: pages[k].Page? && pages[k].nextCursor.Some?)
  }

  function AllItems(pages: seq<Page>): seq<PageRow> {
    if pages == [] then [] else
      var last := pages[|pages| - 1];
      AllItems(pages[..|pages| - 1]) + if last.BadCursor? then [] else last.items
  }

  // After some pages: strictly descending matching rows and a cursor good for the next request, with
  // everything handed out at or above it and nothing of the first table missed there.
  ghost predicate Progress(first: set<PageRow>, q: Query, items: seq<PageRow>, cursor: Option<string>,
                           last: set<PageRow>) {
    && Sorted(items, Newer)
    && (forall r | r in items :: r in last && Matches(q, r))
    && GoodCursor(cursor)
    && (cursor.Some? ==>
          && (forall r | r in items :: !Below(r, Decoded(cursor).value))
          && (forall r | r in first && Matches(q, r) && !Below(r, Decoded(cursor).value) :: r in items))
  }

  lemma SortedJoin(a: seq<PageRow>, b: seq<PageRow>, p: Position)
    requires Sorted(a, Newer) && Sorted(b, Newer)
    requires forall r | r in a :: !Below(r, p)
    requires forall r | r in b :: Below(r, p)
    ensures Sorted(a + b, Newer)
  {
    hide TimeLess;
    var s := a + b;
    forall i, j | 0 <= i < j < |s| ensures Newer(s[i], s[j]) {
      if i < |a| <= j {
        assert a[i] in a && b[j - |a|] in b;
        TimeOrder(a[i].occurredAt, p.0, p.0);
        TimeOrder(b[j - |a|].occurredAt, p.0, a[i].occurredAt);
      }
    }
  }

  // What may be missing after some pages is below the cursor.
  lemma FollowStep(first: set<PageRow>, q: Query, limit: nat, items: seq<PageRow>, cursor: Option<string>,
                   before: set<PageRow>, table: set<PageRow>)
    requires limit >= 1 && TableOk(table) && first <= table && before <= table
    requires Progress(first, q, items, cursor, before)
    requires cursor.None? ==> items == []
    ensures var page := EventPage(table, q, limit, cursor);
      && page.Page? && Progress(first, q, items + page.items, page.nextCursor, table)
      && (page.nextCursor.None? ==> forall r | r in first && Matches(q, r) :: r in items + page.items)
  {
    hide TimeLess, Matches, EventPage, Below;
    PageShape(table, q, limit, cursor);
    var page := EventPage(table, q, limit, cursor);
    var p := Decoded(cursor);
    if cursor.Some? {
      SortedJoin(items, page.items, p.value);
    } else {
      assert items + page.items == page.items;
    }
    forall r | r in first && Matches(q, r)
      ensures r in items || r in Selected(table, q, p)
    {}
    if page.nextCursor.Some? {
      var n := At(page.items[limit - 1]);
      assert page.items[limit - 1] in page.items;
      forall r | r in items ensures !Below(r, n) { NotBelowTrans(r, p.value, page.items[limit - 1]); }
      forall r | r in first && Matches(q, r) && !Below(r, n) ensures r in items + page.items {}
    }
  }

  lemma NotBelowTrans(r: PageRow, p: Position, n: PageRow)
    requires !Below(r, p) && Below(n, p)
    ensures !Below(r, At(n))
  {
    hide TimeLess;
    TimeOrder(r.occurredAt, n.occurredAt, p.0);
  }

  lemma {:induction false} FollowProgress(tables: seq<set<PageRow>>, q: Query, limit: nat, pages: seq<Page>)
    requires |tables| > 0 && limit >= 1 && Growing(tables) && Follows(tables, q, limit, pages)
    ensures |pages| == |tables|
    ensures var n := |pages| - 1; var items := AllItems(pages); var cursor := CursorOf(pages, |pages|);
      && pages[n].Page? && Progress(tables[0], q, items, cursor, tables[n])
      && (cursor.None? ==> forall r | r in tables[0] && Matches(q, r) :: r in items)
  {
    hide TimeLess, EventPage, Matches, Progress, Selected, Follows, Growing, TableOk, AllItems;
    LastRequest(tables, q, limit, pages);
    var n := |pages| - 1;
    var before := AllItems(pages[..n]);
    if n == 0 {
      StartProgress(tables[0], q);
      FollowStep(tables[0], q, limit, before, None, tables[0], tables[0]);
    } else {
      FollowsPrefix(tables, q, limit, pages);
      FollowProgress(tables[..n], q, limit, pages[..n]);
      FollowStep(tables[0], q, limit, before, CursorOf(pages, n), tables[n - 1], tables[n]);
    }
  }

  lemma LastRequest(tables: seq<set<PageRow>>, q: Query, limit: nat, pages: seq<Page>)
    requires |tables| > 0 && Growing(tables) && Follows(tables, q, limit, pages)
    ensures |pages| == |tables|
    ensures var n := |pages| - 1;
      && TableOk(tables[n]) && tables[0] <= tables[n] && (n > 0 ==> tables[n - 1] <= tables[n])
      && pages[n] == EventPage(tables[n], q, limit, CursorOf(pages, n))
      && AllItems(pages) == AllItems(pages[..n]) + (if pages[n].BadCursor? then [] else pages[n].items)
      && (n == 0 ==> CursorOf(pages, n).None? && AllItems(pages[..n]) == [])
  {
    hide EventPage, TableOk;
  }

  lemma FollowsPrefix(tables: seq<set<PageRow>>, q: Query, limit: nat, pages: seq<Page>)
    requires |tables| > 1 && Growing(tables) && Follows(tables, q, limit, pages)
    ensures |pages| == |tables|
    ensures var n := |pages| - 1;
      && Growing(tables[..n]) && Follows(tables[..n], q, limit, pages[..n])
      && CursorOf(pages[..n], n) == CursorOf(pages, n) && CursorOf(pages, n).Some?
  {
    hide EventPage, TableOk;
    var n := |pages| - 1;
    forall k | 0 <= k <= n ensures CursorOf(pages[..n], k) == CursorOf(pages, k) {}
  }

  lemma StartProgress(first: set<PageRow>, q: Query)
    ensures Progress(first, q, [], None, first)
  {
  }

  /** Over a table that only grows between requests, following next_cursor yields rows strictly
      descending in (occurred_at, id), hence none twice, all of them matching; and once no cursor comes
      back, every matching row that was there at the start is among them. */
  lemma FollowingMissesNothing(tables: seq<set<PageRow>>, q: Query, limit: nat, pages: seq<Page>)
    requires |tables| > 0 && limit >= 1 && Growing(tables) && Follows(tables, q, limit, pages)
    ensures var items := AllItems(pages);
      && (forall i, j | 0 <= i < j < |items| :: Below(items[j], At(items[i])) && items[i] != items[j])
      && (forall r | r in items :: r in tables[|tables| - 1] && Matches(q, r))
      && (CursorOf(pages, |pages|).None? ==> forall r | r in tables[0] && Matches(q, r) :: r in items)
  {
    hide TimeLess, EventPage, Matches, GoodCursor;
    FollowProgress(tables, q, limit, pages);
    var items := AllItems(pages);
    forall i, j | 0 <= i < j < |items| ensures Below(items[j], At(items[i])) && items[i] != items[j] {
      assert Newer(items[i], items[j]);
      TimeOrder(items[i].occurredAt, items[i].occurredAt, items[i].occurredAt);
    }
  }

  /** Over a fixed table the pages, put together, are exactly the whole sorted result. */
  lemma FixedTablePages(table: set<PageRow>, q: Query, limit: nat, tables: seq<set<PageRow>>, pages: seq<Page>)
    requires TableOk(table) && limit >= 1 && |tables| > 0 && forall t | t in tables :: t == table
    requires Growing(tables) && Follows(tables, q, limit, pages) && CursorOf(pages, |pages|).None?
    ensures AllItems(pages) == Listed(table, q, None)
  {
    hide TimeLess, EventPage, Matches;
    FollowProgress(tables, q, limit, pages);
    assert tables[0] in tables && tables[|tables| - 1] in tables;
    var all := Selected(table, q, None);
    NewerTotal(all);
    assert forall r :: r in AllItems(pages) <==> r in all;
    SortUnique(AllItems(pages), all, Newer);
  }

  lemma {:induction false} OnSomePage(pages: seq<Page>, r: PageRow)
    ensures r in AllItems(pages) <==> exists k :: 0 <= k < |pages| && pages[k].Page? && r in pages[k].items
  {
    if pages != [] {
      var init, n := pages[..|pages| - 1], |pages| - 1;
      OnSomePage(init, r);
      if k :| 0 <= k < |init| && init[k].Page? && r in init[k].items { assert pages[k] == init[k]; }
      if k :| 0 <= k < |pages| && pages[k].Page? && r in pages[k].items { assert k < n ==> init[k] == pages[k]; }
    }
  }

  /** Following the pages of a fixed table to the end, a row is on some page exactly when it is a row of the student
      asked for, of the assignment by its id or by class division and name, within the range of times. */
  lemma PagesHoldAsked(table: set<PageRow>, q: Query, limit: nat, tables: seq<set<PageRow>>, pages: seq<Page>,
                       r: PageRow)
    requires TableOk(table) && ValidRange(q) && limit >= 1 && |tables| > 0 && forall t | t in tables :: t == table
    requires Growing(tables) && Follows(tables, q, limit, pages) && CursorOf(pages, |pages|).None?
    ensures (exists k :: 0 <= k < |pages| && pages[k].Page? && r in pages[k].items) <==>
      && r in table && r.studentKey == q.studentKey
      && (match q.scope
          case ById(id) => r.assignmentId == id
          case ByName(classDiv, hwName) => r.classDiv == classDiv && r.hwName == hwName)
      && (q.fromTime.Some? ==> Stamp(q.fromTime.value) <= Stamp(r.occurredAt))
      && (q.toTime.Some? ==> Stamp(r.occurredAt) <= Stamp(q.toTime.value))
  {
    hide Listed, Follows, Stamp, Matches, EventPage;
    FixedTablePages(table, q, limit, tables, pages);
    ListedMeaning(table, q, None);
    OnSomePage(pages, r);
    SelectedFields(table, q, None);
  }

  // The queries of the two kinds of endpoint.
  function PageQuery(assignmentId: int, studentKey: string): Query {
    Query(ById(assignmentId), studentKey, None, None)
  }

  function LogQuery(classDiv: string, hwName: string, studentId: string, fromTime: Option<DateTime>,
                    toTime: Option<DateTime>): Query {
    Query(AssignmentPredicates(classDiv, hwName), studentId, fromTime, toTime)
  }

  /** The pages of an assignment id and a student key hold exactly their rows. */
  lemma StudentPages(table: set<PageRow>, assignmentId: int, studentKey: string, limit: nat,
                     tables: seq<set<PageRow>>, pages: seq<Page>, r: PageRow)
    requires TableOk(table) && limit >= 1 && |tables| > 0 && forall t | t in tables :: t == table
    requires Growing(tables) && Follows(tables, PageQuery(assignmentId, studentKey), limit, pages)
    requires CursorOf(pages, |pages|).None?
    ensures (exists k :: 0 <= k < |pages| && pages[k].Page? && r in pages[k].items) <==>
      r in table && r.assignmentId == assignmentId && r.studentKey == studentKey
  {
    PagesHoldAsked(table, PageQuery(assignmentId, studentKey), limit, tables, pages, r);
  }

  /** Those of a log query hold the rows of the student within the range: of the assignment whose id the homework name
      carries, whatever their class division and name, or of just that class division and name when it carries none. */
  lemma LogPages(table: set<PageRow>, classDiv: string, hwName: string, studentId: string,
                 fromTime: Option<DateTime>, toTime: Option<DateTime>, limit: nat,
                 tables: seq<set<PageRow>>, pages: seq<Page>, r: PageRow)
    requires TableOk(table) && limit >= 1 && |tables| > 0 && forall t | t in tables :: t == table
    requires (fromTime.Some? ==> ValidTime(fromTime.value)) && (toTime.Some? ==> ValidTime(toTime.value))
    requires Growing(tables) && Follows(tables, LogQuery(classDiv, hwName, studentId, fromTime, toTime), limit, pages)
    requires CursorOf(pages, |pages|).None?
    ensures (exists k :: 0 <= k < |pages| && pages[k].Page? && r in pages[k].items) <==>
      && r in table && r.studentKey == studentId
      && (if |hwName| > 11 && hwName[..11] == "assignment-" && AllDigits(hwName[11..])
          then r.assignmentId == Number(hwName[11..]) else r.classDiv == classDiv && r.hwName == hwName)
      && (fromTime.Some? ==> Stamp(fromTime.value) <= Stamp(r.occurredAt))
      && (toTime.Some? ==> Stamp(r.occurredAt) <= Stamp(toTime.value))
  {
    hide Stamp, ValidTime, Follows, Growing, TableOk, AssignmentPredicates;
    PagesHoldAsked(table, LogQuery(classDiv, hwName, studentId, fromTime, toTime), limit, tables, pages, r);
    LogScope(classDiv, hwName, r.assignmentId, r.classDiv, r.hwName);
  }

  /** Each page of a fixed table takes its rows out of what lies below the cursor, so the number of rows
      below the cursor falls with every request and following it ends. */
  lemma RowsBelowCursorFall(table: set<PageRow>, q: Query, limit: nat, cursor: Option<string>)
    requires TableOk(table) && limit >= 1 && GoodCursor(cursor)
    requires var page := EventPage(table, q, limit, cursor); page.Page? && page.nextCursor.Some?
    ensures var page := EventPage(table, q, limit, cursor);
      && GoodCursor(page.nextCursor)
      && Selected(table, q, Decoded(page.nextCursor)) == Selected(table, q, Decoded(cursor)) - (set r | r in page.items)
      && |Selected(table, q, Decoded(page.nextCursor))| < |Selected(table, q, Decoded(cursor))|
  {
    hide TimeLess, EventPage, Matches, TableOk, EncodeEventCursor, DecodeEventCursor;
    PageShape(table, q, limit, cursor);
    var page := EventPage(table, q, limit, cursor);
    var before, after := Selected(table, q, Decoded(cursor)), Selected(table, q, Decoded(page.nextCursor));
    var last := page.items[limit - 1];
    assert last in page.items && last in before;
    forall r | r in after ensures r in before && r !in page.items {
      assert Below(r, At(last));
      if cursor.Some? { BelowChain(r, last, Decoded(cursor).value); }
    }
    assert after == before - (set r | r in page.items);
    assert |after| < |before| by {
      assert after <= before - {last};
      Smaller(after, before - {last});
    }
  }

  /** Following the cursors of a fixed table from the first page on comes to a page without one. */
  lemma FollowingEnds(table: set<PageRow>, q: Query, limit: nat)
    returns (tables: seq<set<PageRow>>, pages: seq<Page>)
    requires TableOk(table) && limit >= 1
    ensures |tables| > 0 && (forall t | t in tables :: t == table) && Growing(tables)
    ensures Follows(tables, q, limit, pages) && CursorOf(pages, |pages|).None?
  {
    tables, pages := FollowOn(table, q, limit, [], []);
  }

  lemma FixedGrows(table: set<PageRow>, tables: seq<set<PageRow>>)
    requires TableOk(table) && forall t | t in tables :: t == table
    ensures Growing(tables)
  {
    hide TableOk;
    forall k | 0 <= k < |tables| ensures tables[k] == table { assert tables[k] in tables; }
  }

  lemma CursorsKept(got: seq<Page>, page: Page)
    ensures forall k | 0 <= k <= |got| :: CursorOf(got + [page], k) == CursorOf(got, k)
    ensures page.Page? ==> CursorOf(got + [page], |got| + 1) == page.nextCursor
  {
  }

  lemma OneMorePage(table: set<PageRow>, q: Query, limit: nat, asked: seq<set<PageRow>>, got: seq<Page>)
    requires Growing(asked) && Growing(asked + [table]) && TableOk(table) && Follows(asked, q, limit, got)
    requires got != [] ==> got[|got| - 1].Page? && got[|got| - 1].nextCursor.Some?
    ensures var page := EventPage(table, q, limit, CursorOf(got, |got|));
      && Follows(asked + [table], q, limit, got + [page])
      && (page.Page? ==> CursorOf(got + [page], |got| + 1) == page.nextCursor)
  {
    hide EventPage, TableOk, CursorOf, Growing;
    var page := EventPage(table, q, limit, CursorOf(got, |got|));
    var tables, pages := asked + [table], got + [page];
    CursorsKept(got, page);
    assert tables[|got|] == table && pages[|got|] == page;
    forall k | 0 <= k < |got| ensures tables[k] == asked[k] && pages[k] == got[k] {}
    RequestsKept(tables, q, limit, asked, got, pages);
  }

  lemma RequestsKept(tables: seq<set<PageRow>>, q: Query, limit: nat, asked: seq<set<PageRow>>, got: seq<Page>,
                     pages: seq<Page>)
    requires Growing(asked) && Growing(tables) && Follows(asked, q, limit, got) && |tables| == |pages| == |got| + 1
    requires forall k | 0 <= k < |got| :: tables[k] == asked[k] && pages[k] == got[k]
    requires forall k | 0 <= k <= |got| :: CursorOf(pages, k) == CursorOf(got, k)
    requires pages[|got|] == EventPage(tables[|got|], q, limit, CursorOf(got, |got|))
    requires got != [] ==> got[|got| - 1].Page? && got[|got| - 1].nextCursor.Some?
    ensures Follows(tables, q, limit, pages)
  {
    hide EventPage, TableOk, CursorOf;
    forall k | 0 <= k < |pages| ensures pages[k] == EventPage(tables[k], q, limit, CursorOf(pages, k)) {
      if k < |got| { assert got[k] == EventPage(asked[k], q, limit, CursorOf(got, k)); }
    }
  }

  lemma {:induction false} FollowOn(table: set<PageRow>, q: Query, limit: nat, asked: seq<set<PageRow>>,
                                    got: seq<Page>)
    returns (tables: seq<set<PageRow>>, pages: seq<Page>)
    requires TableOk(table) && limit >= 1 && (forall t | t in asked :: t == table) && Growing(asked)
    requires Follows(asked, q, limit, got) && GoodCursor(CursorOf(got, |got|))
    requires got != [] ==> got[|got| - 1].Page? && got[|got| - 1].nextCursor.Some?
    ensures |tables| > 0 && (forall t | t in tables :: t == table) && Growing(tables)
    ensures Follows(tables, q, limit, pages) && CursorOf(pages, |pages|).None?
    decreases |Selected(table, q, Decoded(CursorOf(got, |got|)))|
  {
    hide EventPage, Selected, TableOk, DecodeEventCursor, Growing, Follows, LastPage, CutPage;
    var cursor := CursorOf(got, |got|);
    var page := EventPage(table, q, limit, cursor);
    PageShape(table, q, limit, cursor);
    FixedGrows(table, asked + [table]);
    OneMorePage(table, q, limit, asked, got);
    tables, pages := asked + [table], got + [page];
    if page.nextCursor.Some? {
      RowsBelowCursorFall(table, q, limit, cursor);
      tables, pages := FollowOn(table, q, limit, tables, pages);
    }
  }

  lemma BelowChain(r: PageRow, p: PageRow, c: Position)
    requires Below(r, At(p)) && Below(p, c)
    ensures Below(r, c)
  {
    hide TimeLess;
    TimeOrder(r.occurredAt, p.occurredAt, c.0);
  }

  lemma Smaller(a: set<PageRow>, b: set<PageRow>)
    requires a <= b
    ensures |a| <= |b|
  {
    assert b == a + (b - a);
  }
}
