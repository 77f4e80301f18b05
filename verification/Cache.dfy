// The bounded TTL/LRU cache of log pages, against the history of the calls made on it.
module Cache {
  import opened Events
  import opened Decimal
  import opened Cursor

  // A cached log page: its rendered rows and the cursor of the next page.
  datatype Page = Page(items: seq<string>, nextCursor: Option<string>)

  // Oldest use first, as in the ordered dictionary.
  datatype Entry = Entry(key: string, expiresAt: int, value: Page)

  function Filter(es: seq<Entry>, keep: Entry -> bool): (r: seq<Entry>)
    ensures |r| <= |es|
  {
    if es == [] then [] else
      var before, last := Filter(es[..|es| - 1], keep), es[|es| - 1];
      if keep(last) then before + [last] else before
  }

  function Other(key: string): Entry -> bool { (e: Entry) => e.key != key }
  function Alive(now: int): Entry -> bool { (e: Entry) => now < e.expiresAt }
  function NotUnder(prefix: string): Entry -> bool { (e: Entry) => !(prefix <= e.key) }

  function Find(es: seq<Entry>, key: string): Option<Entry> {
    if es == [] then None
    else if es[|es| - 1].key == key then Some(es[|es| - 1]) else Find(es[..|es| - 1], key)
  }

  function Newest(es: seq<Entry>, n: nat): seq<Entry> {
    if |es| <= n then es else es[|es| - n..]
  }

  datatype Op =
    | Get(key: string, now: int)
    | Set(key: string, value: Page, ttl: int, purgeAt: int, now: int)
    | DeletePrefix(prefix: string)
    | Clear
    | Length(now: int)

  function Hit(es: seq<Entry>, key: string, now: int): Option<Entry> {
    match Find(es, key)
    case None => None
    case Some(e) => if e.expiresAt <= now then None else Some(e)
  }

  function After(max: nat, es: seq<Entry>, op: Op): seq<Entry> {
    match op
    case Get(key, now) =>
      (match Find(es, key)
       case None => es
       case Some(e) => if e.expiresAt <= now then Filter(es, Other(key)) else Filter(es, Other(key)) + [e])
    case Set(key, value, ttl, purgeAt, now) =>
      if ttl <= 0 then es
      else Newest(Filter(Filter(es, Alive(purgeAt)), Other(key)) + [Entry(key, now + ttl, value)], max)
    case DeletePrefix(prefix) => Filter(es, NotUnder(prefix))
    case Clear => []
    case Length(now) => Filter(es, Alive(now))
  }

  class BoundedTTLCache {
    const maxEntries: nat
    var entries: seq<Entry>

    constructor (maxEntries: nat)
      requires maxEntries > 0
      ensures this.maxEntries == maxEntries && entries == []
    {
      this.maxEntries := maxEntries;
      entries := [];
    }

    method Get(key: string, now: int) returns (r: Option<Page>)
      modifies this
      ensures entries == After(maxEntries, old(entries), Op.Get(key, now))
      ensures r == match Hit(old(entries), key, now) case None => None case Some(e) => Some(e.value)
    {
      var item := Find(entries, key);
      if item.None? {
        return None;
      }
      if item.value.expiresAt <= now {
        Remove(Other(key));
        return None;
      }
      Remove(Other(key));
      entries := entries + [item.value];
      r := Some(item.value.value);
    }

    method Set(key: string, value: Page, ttl: int, purgeAt: int, now: int)
      modifies this
      ensures entries == After(maxEntries, old(entries), Op.Set(key, value, ttl, purgeAt, now))
    {
      hide Filter, Newest;
      if ttl <= 0 {
        return;
      }
      Remove(Alive(purgeAt));
      Remove(Other(key));
      entries := entries + [Entry(key, now + ttl, value)];
      Evict();
    }

    method Evict()
      modifies this
      ensures entries == Newest(old(entries), maxEntries)
    {
      ghost var dropped := 0;
      while |entries| > maxEntries
        invariant dropped <= |old(entries)| && entries == old(entries)[dropped..]
        invariant dropped > 0 ==> |entries| >= maxEntries
      {
        entries := entries[1..];
        dropped := dropped + 1;
      }
    }

    method DeletePrefix(prefix: string)
      modifies this
      ensures entries == After(maxEntries, old(entries), Op.DeletePrefix(prefix))
    {
      Remove(NotUnder(prefix));
    }

    method Clear()
      modifies this
      ensures entries == After(maxEntries, old(entries), Op.Clear)
    {
      entries := [];
    }

    method Length(now: int) returns (n: nat)
      modifies this
      ensures entries == After(maxEntries, old(entries), Op.Length(now))
      ensures n == |entries|
    {
      Remove(Alive(now));
      n := |entries|;
    }

    // Pops every entry that does not satisfy keep, leaving the others in place.
    method Remove(keep: Entry -> bool)
      modifies this
      ensures entries == Filter(old(entries), keep)
    {
      var kept := [];
      for i := 0 to |entries|
        invariant entries == old(entries)
        invariant kept == Filter(entries[..i], keep)
      {
        assert entries[..i + 1][..i] == entries[..i];
        if keep(entries[i]) {
          kept := kept + [entries[i]];
        }
      }
      assert entries[..|entries|] == entries;
      entries := kept;
    }
  }

  // ---- filters -----------------------------------------------------------------------

  ghost predicate DistinctKeys(es: seq<Entry>) {
    forall i, j | 0 <= i < j < |es| :: es[i].key != es[j].key
  }

  // a is used less recently than b.
  ghost predicate Before(es: seq<Entry>, a: Entry, b: Entry) {
    exists i, j :: 0 <= i < j < |es| && es[i] == a && es[j] == b
  }

  lemma BeforeExtends(es: seq<Entry>, last: Entry, a: Entry, b: Entry)
    ensures Before(es + [last], a, b) <==> Before(es, a, b) || (a in es && b == last)
  {
    var full := es + [last];
    if Before(full, a, b) && !(a in es && b == last) {
      var i, j :| 0 <= i < j < |full| && full[i] == a && full[j] == b;
      assert es[i] == a && es[j] == b;
    }
    if Before(es, a, b) {
      var i, j :| 0 <= i < j < |es| && es[i] == a && es[j] == b;
      assert full[i] == a && full[j] == b;
    }
    if a in es && b == last {
      var i :| 0 <= i < |es| && es[i] == a;
      assert full[i] == a && full[|es|] == b;
    }
  }

  lemma NothingBefore(a: Entry, b: Entry)
    ensures !Before([], a, b)
  {
  }

  /** A filter keeps exactly the entries that satisfy it, and their relative recency. */
  lemma {:induction false} FilterMeaning(es: seq<Entry>, keep: Entry -> bool)
    ensures forall e :: e in Filter(es, keep) <==> e in es && keep(e)
    ensures forall a, b :: Before(Filter(es, keep), a, b) <==> Before(es, a, b) && keep(a) && keep(b)
    ensures DistinctKeys(es) ==> DistinctKeys(Filter(es, keep))
  {
    hide Before;
    if es == [] {
      forall a, b ensures !Before([], a, b) { NothingBefore(a, b); }
    } else {
      var init, last := es[..|es| - 1], es[|es| - 1];
      assert es == init + [last];
      FilterMeaning(init, keep);
      var kept := Filter(init, keep);
      forall a, b ensures Before(Filter(es, keep), a, b) <==> Before(es, a, b) && keep(a) && keep(b) {
        BeforeExtends(init, last, a, b);
        BeforeExtends(kept, last, a, b);
      }
      assert forall e :: e in es <==> e in init || e == last;
      if DistinctKeys(es) && keep(last) {
        DistinctInit(init, last);
        DistinctThen(kept, last);
      }
    }
  }

  lemma DistinctInit(init: seq<Entry>, last: Entry)
    requires DistinctKeys(init + [last])
    ensures DistinctKeys(init) && forall e | e in init :: e.key != last.key
  {
    var es := init + [last];
    forall i, j | 0 <= i < j < |init| ensures init[i].key != init[j].key { assert es[i].key != es[j].key; }
    forall i | 0 <= i < |init| ensures init[i].key != last.key { assert es[i].key != es[|init|].key; }
  }

  lemma DistinctThen(init: seq<Entry>, last: Entry)
    requires DistinctKeys(init) && forall e | e in init :: e.key != last.key
    ensures DistinctKeys(init + [last])
  {
  }

  lemma {:induction false} FindMeaning(es: seq<Entry>, key: string)
    ensures Find(es, key).Some? ==> Find(es, key).value in es && Find(es, key).value.key == key
    ensures Find(es, key).None? ==> forall e | e in es :: e.key != key
  {
    if es != [] {
      FindMeaning(es[..|es| - 1], key);
      assert es == es[..|es| - 1] + [es[|es| - 1]];
    }
  }

  // ---- history ------------------------------------------------------------------------

  // The entries after a sequence of calls on a fresh cache.
  function Entries(max: nat, ops: seq<Op>): seq<Entry> {
    if ops == [] then [] else After(max, Entries(max, ops[..|ops| - 1]), ops[|ops| - 1])
  }

  // The entry the calls say should be visible, ignoring time and size: the latest effective set,
  // unless a clear or a matching prefix deletion came later.
  function Latest(ops: seq<Op>, key: string): Option<Entry> {
    if ops == [] then None else
      var before := Latest(ops[..|ops| - 1], key);
      match ops[|ops| - 1]
      case Set(k, value, ttl, _, now) => if k == key && ttl > 0 then Some(Entry(key, now + ttl, value)) else before
      case DeletePrefix(prefix) => if prefix <= key then None else before
      case Clear => None
      case _ => before
  }

  // The key a call uses: an effective set, or a get that finds an unexpired entry.
  function Uses(es: seq<Entry>, op: Op): Option<string> {
    match op
    case Set(key, _, ttl, _, _) => if ttl > 0 then Some(key) else None
    case Get(key, now) => if Hit(es, key, now).Some? then Some(key) else None
    case _ => None
  }

  // How many calls there had been when `key` was last used, that use included; 0 for a key never used.
  function LastUse(max: nat, ops: seq<Op>, key: string): (n: nat)
    ensures n <= |ops|
  {
    if ops == [] then 0 else
      var init := ops[..|ops| - 1];
      if Uses(Entries(max, init), ops[|ops| - 1]) == Some(key) then |ops| else LastUse(max, init, key)
  }

  // The clock readings of a call, first and last; calls without a clock reading have none.
  function Times(op: Op): seq<int> {
    match op
    case Get(_, now) => [now]
    case Set(_, _, _, purgeAt, now) => [purgeAt, now]
    case Length(now) => [now]
    case _ => []
  }

  // No call has read a clock beyond t.
  ghost predicate ReadBy(ops: seq<Op>, t: int) {
    forall op, x | op in ops && x in Times(op) :: x <= t
  }

  // Entries are what the history says, one per key, in the order of their last use.
  ghost predicate Shaped(max: nat, ops: seq<Op>, es: seq<Entry>) {
    && DistinctKeys(es)
    && (forall e | e in es :: Latest(ops, e.key) == Some(e))
    && (forall a, b | a in es && b in es && Before(es, a, b) :: LastUse(max, ops, a.key) < LastUse(max, ops, b.key))
  }

  // After n of the calls the cache was full, and all it held had been used after the last use of `key`.
  ghost predicate FullOfNewer(max: nat, ops: seq<Op>, n: nat, key: string)
    requires n <= |ops|
  {
    && |Entries(max, ops[..n])| == max
    && forall b | b in Entries(max, ops[..n]) :: LastUse(max, ops[..n], b.key) > LastUse(max, ops, key)
  }

  // At some time since the last use of `key` the cache was full of entries used after it.
  ghost predicate PushedOut(max: nat, ops: seq<Op>, key: string) {
    exists n | 0 <= n <= |ops| :: FullOfNewer(max, ops, n, key)
  }

  // The clock readings of the call find the entry expired: a get of its key, or a purge.
  predicate Expires(op: Op, e: Entry) {
    match op
    case Get(key, now) => e.key == key && e.expiresAt <= now
    case Set(_, _, ttl, purgeAt, _) => ttl > 0 && e.expiresAt <= purgeAt
    case Length(now) => e.expiresAt <= now
    case _ => false
  }

  predicate SetsKey(op: Op, key: string) {
    op.Set? && op.key == key && op.ttl > 0
  }

  // Since the latest effective set of `key` some call found what it stored expired.
  predicate Dropped(ops: seq<Op>, key: string) {
    if ops == [] then false else
      var init, op := ops[..|ops| - 1], ops[|ops| - 1];
      !SetsKey(op, key) && (Dropped(init, key) || (Latest(init, key).Some? && Expires(op, Latest(init, key).value)))
  }

  // What the history says is visible is there, unless it was found expired or pushed out.
  ghost predicate Complete(max: nat, ops: seq<Op>, es: seq<Entry>) {
    forall key: string | Latest(ops, key).Some? ::
      Latest(ops, key).value in es || Dropped(ops, key) || PushedOut(max, ops, key)
  }

  lemma {:induction false} LatestKey(ops: seq<Op>, key: string)
    ensures Latest(ops, key).Some? ==> Latest(ops, key).value.key == key
  {
    if ops != [] { LatestKey(ops[..|ops| - 1], key); }
  }

  lemma NewestMeaning(es: seq<Entry>, n: nat)
    ensures |Newest(es, n)| <= n
    ensures forall e | e in Newest(es, n) :: e in es
    ensures DistinctKeys(es) ==> DistinctKeys(Newest(es, n))
  {
  }

  lemma NewestInOrder(es: seq<Entry>, n: nat, a: Entry, b: Entry)
    requires Before(Newest(es, n), a, b)
    ensures Before(es, a, b)
  {
    var r := Newest(es, n);
    var off := |es| - |r|;
    var i, j :| 0 <= i < j < |r| && r[i] == a && r[j] == b;
    assert es[i + off] == a && es[j + off] == b;
  }

  // What a call does to the list before any eviction.
  function Unbounded(es: seq<Entry>, op: Op): seq<Entry> {
    match op
    case Set(key, value, ttl, purgeAt, now) =>
      if ttl <= 0 then es else Filter(Filter(es, Alive(purgeAt)), Other(key)) + [Entry(key, now + ttl, value)]
    case _ => After(0, es, op)
  }

  // Moving a key to the end, or inserting it there.
  lemma MovedToEnd(max: nat, ops: seq<Op>, op: Op, es: seq<Entry>, kept: seq<Entry>, last: Entry)
    requires Shaped(max, ops, es) && Uses(Entries(max, ops), op) == Some(last.key)
    requires DistinctKeys(kept) && forall e | e in kept :: e in es && e.key != last.key
    requires forall a, b | Before(kept, a, b) :: Before(es, a, b)
    requires Latest(ops + [op], last.key) == Some(last)
    requires forall key: string | key != last.key :: Latest(ops + [op], key) == Latest(ops, key)
    ensures Shaped(max, ops + [op], kept + [last])
  {
    var r := kept + [last];
    assert (ops + [op])[..|ops|] == ops;
    forall i, j | 0 <= i < j < |r| ensures r[i].key != r[j].key {
      assert r[i] in kept;
    }
    forall a, b | a in r && b in r && Before(r, a, b)
      ensures LastUse(max, ops + [op], a.key) < LastUse(max, ops + [op], b.key)
    {
      BeforeExtends(kept, last, a, b);
      if Before(kept, a, b) { InOrder(kept, a, b); }
    }
  }

  lemma InOrder(es: seq<Entry>, a: Entry, b: Entry)
    requires Before(es, a, b)
    ensures a in es && b in es
  {
  }

  // Dropping entries, with a call that uses no key.
  lemma OnlyDropped(max: nat, ops: seq<Op>, op: Op, es: seq<Entry>, r: seq<Entry>)
    requires Shaped(max, ops, es) && Uses(Entries(max, ops), op).None?
    requires DistinctKeys(r) && forall e | e in r :: e in es && Latest(ops + [op], e.key) == Latest(ops, e.key)
    requires forall a, b | Before(r, a, b) :: Before(es, a, b)
    ensures Shaped(max, ops + [op], r)
  {
    assert (ops + [op])[..|ops|] == ops;
  }

  lemma StepShaped(max: nat, ops: seq<Op>, op: Op)
    requires max > 0 && Shaped(max, ops, Entries(max, ops))
    ensures Shaped(max, ops + [op], Unbounded(Entries(max, ops), op))
  {
    hide Shaped, DistinctKeys, Filter, Find, Before;
    var es := Entries(max, ops);
    var r := Unbounded(es, op);
    assert (ops + [op])[..|ops|] == ops;
    assert DistinctKeys(es) by { ShapedDistinct(max, ops, es); }
    match op
    case Get(key, now) =>
      FindMeaning(es, key);
      FilterMeaning(es, Other(key));
      if Hit(es, key, now).Some? {
        FoundIsLatest(max, ops, es, key);
        MovedToEnd(max, ops, op, es, Filter(es, Other(key)), Hit(es, key, now).value);
      } else {
        OnlyDropped(max, ops, op, es, r);
      }
    case Set(key, value, ttl, purgeAt, now) =>
      if ttl > 0 {
        var alive := Filter(es, Alive(purgeAt));
        FilterMeaning(es, Alive(purgeAt));
        FilterMeaning(alive, Other(key));
        MovedToEnd(max, ops, op, es, Filter(alive, Other(key)), Entry(key, now + ttl, value));
      } else {
        OnlyDropped(max, ops, op, es, r);
      }
    case DeletePrefix(prefix) =>
      FilterMeaning(es, NotUnder(prefix));
      OnlyDropped(max, ops, op, es, r);
    case Clear =>
      NothingInOrder();
      OnlyDropped(max, ops, op, es, r);
    case Length(now) =>
      FilterMeaning(es, Alive(now));
      OnlyDropped(max, ops, op, es, r);
  }

  lemma NothingInOrder()
    ensures forall a: Entry, b :: !Before([], a, b)
    ensures DistinctKeys([])
  {
  }

  lemma ShapedDistinct(max: nat, ops: seq<Op>, es: seq<Entry>)
    requires Shaped(max, ops, es)
    ensures DistinctKeys(es)
  {
  }

  lemma FoundIsLatest(max: nat, ops: seq<Op>, es: seq<Entry>, key: string)
    requires Shaped(max, ops, es) && Find(es, key).Some?
    ensures Latest(ops, key) == Some(Find(es, key).value)
  {
    FindMeaning(es, key);
  }

  /** In every history the cache holds at most max entries, at most one per key, each being what the
      history says is visible under its key, and lists them by last use. */
  lemma {:induction false} HistoryShaped(max: nat, ops: seq<Op>)
    requires max > 0
    ensures Shaped(max, ops, Entries(max, ops)) && |Entries(max, ops)| <= max
  {
    hide Shaped, Before, DistinctKeys, Filter;
    if ops == [] {
      NothingInOrder();
      EmptyShaped(max);
    } else {
      var init, op := ops[..|ops| - 1], ops[|ops| - 1];
      assert init + [op] == ops;
      HistoryShaped(max, init);
      StepShaped(max, init, op);
      Evicted(max, ops, Unbounded(Entries(max, init), op));
      AfterIsNewest(max, Entries(max, init), op);
    }
  }

  lemma EmptyShaped(max: nat)
    ensures Shaped(max, [], [])
  {
  }

  lemma Evicted(max: nat, ops: seq<Op>, es: seq<Entry>)
    requires Shaped(max, ops, es)
    ensures Shaped(max, ops, Newest(es, max)) && |Newest(es, max)| <= max
  {
    NewestMeaning(es, max);
    var r := Newest(es, max);
    forall a, b | a in r && b in r && Before(r, a, b) ensures LastUse(max, ops, a.key) < LastUse(max, ops, b.key) {
      NewestInOrder(es, max, a, b);
    }
  }

  lemma AfterIsNewest(max: nat, es: seq<Entry>, op: Op)
    requires |es| <= max && max > 0
    ensures After(max, es, op) == Newest(Unbounded(es, op), max)
  {
    if op.Get? && Hit(es, op.key, op.now).Some? {
      FindMeaning(es, op.key);
      FilterShorter(es, Other(op.key), Find(es, op.key).value);
    }
  }

  lemma {:induction false} FilterShorter(es: seq<Entry>, keep: Entry -> bool, e: Entry)
    requires e in es && !keep(e)
    ensures |Filter(es, keep)| < |es|
  {
    var init, last := es[..|es| - 1], es[|es| - 1];
    assert es == init + [last];
    if e in init { FilterShorter(init, keep, e); }
  }

  // ---- completeness ---------------------------------------------------------------------

  // What does not survive an eviction was used before everything that does, and the cache is full.
  lemma NewestAreNewer(es: seq<Entry>, max: nat, e: Entry)
    requires e in es && e !in Newest(es, max)
    ensures |Newest(es, max)| == max && forall b | b in Newest(es, max) :: Before(es, e, b)
  {
    var r := Newest(es, max);
    var i :| 0 <= i < |es| && es[i] == e;
    var off := |es| - max;
    assert forall j | off <= j < |es| :: es[j] == r[j - off];
    forall b | b in r ensures Before(es, e, b) {
      var j :| 0 <= j < |r| && r[j] == b;
      assert es[i] == e && es[j + off] == b;
    }
  }

  // What was visible before a call and still is, is kept unless the call finds it expired.
  lemma KeptUnlessExpired(max: nat, ops: seq<Op>, op: Op, e: Entry)
    requires max > 0 && Shaped(max, ops, Entries(max, ops)) && e in Entries(max, ops)
    requires Latest(ops + [op], e.key) == Some(e)
    ensures e in Unbounded(Entries(max, ops), op) || Expires(op, e)
  {
    hide Shaped, Filter, Find, Before;
    var es := Entries(max, ops);
    assert (ops + [op])[..|ops|] == ops;
    match op
    case Get(key, now) =>
      FindMeaning(es, key);
      FilterMeaning(es, Other(key));
      if Find(es, key).Some? { FoundIsLatest(max, ops, es, key); EntryIsLatest(max, ops, es, e); }
    case Set(key, value, ttl, purgeAt, now) =>
      FilterMeaning(es, Alive(purgeAt));
      FilterMeaning(Filter(es, Alive(purgeAt)), Other(key));
    case DeletePrefix(prefix) => FilterMeaning(es, NotUnder(prefix));
    case Clear =>
    case Length(now) => FilterMeaning(es, Alive(now));
  }

  lemma EntryIsLatest(max: nat, ops: seq<Op>, es: seq<Entry>, e: Entry)
    requires Shaped(max, ops, es) && e in es
    ensures Latest(ops, e.key) == Some(e)
  {
  }

  // A call that uses a key leaves its entry in the list.
  lemma UsedIsThere(max: nat, ops: seq<Op>, op: Op, key: string)
    requires Shaped(max, ops, Entries(max, ops)) && Uses(Entries(max, ops), op) == Some(key)
    ensures exists e | e in Unbounded(Entries(max, ops), op) :: e.key == key && Latest(ops + [op], key) == Some(e)
  {
    hide Shaped, Filter, Find;
    var es := Entries(max, ops);
    var r := Unbounded(es, op);
    assert (ops + [op])[..|ops|] == ops;
    FindMeaning(es, key);
    if op.Get? { FoundIsLatest(max, ops, es, key); }
    assert r[|r| - 1] in r;
    LatestKey(ops, key);
  }

  // A visible entry was already visible unless the call uses its key.
  lemma LatestBefore(max: nat, ops: seq<Op>, op: Op, key: string)
    requires Latest(ops + [op], key).Some? && Uses(Entries(max, ops), op) != Some(key)
    ensures Latest(ops, key) == Latest(ops + [op], key)
  {
    assert (ops + [op])[..|ops|] == ops;
  }

  /** An unexpired entry is evicted only when it must be: if a call drops an entry that is still the
      visible one of its key and that it does not find expired, then the call leaves max entries,
      and all of them survived its purge and were used more recently than the one dropped. */
  lemma EvictedOnlyWhenFull(max: nat, ops: seq<Op>, op: Op, e: Entry)
    requires max > 0 && e in Entries(max, ops) && Latest(ops + [op], e.key) == Some(e)
    requires !Expires(op, e) && e !in Entries(max, ops + [op])
    ensures |Entries(max, ops + [op])| == max
    ensures forall b | b in Entries(max, ops + [op]) :: Before(Unbounded(Entries(max, ops), op), e, b)
  {
    hide Shaped, Newest, Unbounded, After, Latest, Before;
    HistoryShaped(max, ops);
    AfterIsNewest(max, Entries(max, ops), op);
    assert (ops + [op])[..|ops|] == ops;
    KeptUnlessExpired(max, ops, op, e);
    NewestAreNewer(Unbounded(Entries(max, ops), op), max, e);
  }

  // A call that does not use a key changes neither its last use nor whether it was pushed out before.
  lemma PushedOutStays(max: nat, ops: seq<Op>, op: Op, key: string)
    requires Uses(Entries(max, ops), op) != Some(key) && PushedOut(max, ops, key)
    ensures PushedOut(max, ops + [op], key)
  {
    var ops' := ops + [op];
    assert ops'[..|ops|] == ops;
    var n :| 0 <= n <= |ops| && FullOfNewer(max, ops, n, key);
    assert ops'[..n] == ops[..n];
    assert FullOfNewer(max, ops', n, key);
  }

  lemma EvictedIsPushedOut(max: nat, ops: seq<Op>, es: seq<Entry>, e: Entry)
    requires Shaped(max, ops, es) && Entries(max, ops) == Newest(es, max)
    requires e in es && e !in Newest(es, max)
    ensures PushedOut(max, ops, e.key)
  {
    hide Before, Newest;
    NewestMeaning(es, max);
    NewestAreNewer(es, max, e);
    assert ops[..|ops|] == ops;
    assert FullOfNewer(max, ops, |ops|, e.key);
  }

  lemma {:induction false} NothingLost(max: nat, ops: seq<Op>)
    requires max > 0
    ensures Complete(max, ops, Entries(max, ops))
  {
    if ops != [] {
      var init, op := ops[..|ops| - 1], ops[|ops| - 1];
      assert init + [op] == ops;
      NothingLost(max, init);
      StepComplete(max, init, op);
    }
  }

  lemma StepComplete(max: nat, ops: seq<Op>, op: Op)
    requires max > 0 && Complete(max, ops, Entries(max, ops))
    ensures Complete(max, ops + [op], Entries(max, ops + [op]))
  {
    hide Shaped, Newest, Unbounded, After, LastUse, Latest, PushedOut, Dropped, Expires;
    var es, ops' := Entries(max, ops), ops + [op];
    var r := Unbounded(es, op);
    HistoryShaped(max, ops);
    StepShaped(max, ops, op);
    AfterIsNewest(max, es, op);
    assert ops'[..|ops|] == ops && ops'[|ops|] == op;
    assert Entries(max, ops') == Newest(r, max);
    forall key: string | Latest(ops', key).Some?
      ensures Latest(ops', key).value in Newest(r, max) || Dropped(ops', key) || PushedOut(max, ops', key)
    {
      var e := Latest(ops', key).value;
      LatestKey(ops', key);
      if Uses(es, op) == Some(key) {
        UsedIsThere(max, ops, op, key);
      } else {
        LatestBefore(max, ops, op, key);
        DroppedStays(max, ops, op, key);
        if PushedOut(max, ops, key) { PushedOutStays(max, ops, op, key); }
        if e in es { KeptUnlessExpired(max, ops, op, e); }
      }
      if e in r && e !in Newest(r, max) { EvictedIsPushedOut(max, ops', r, e); }
    }
  }

  // A call that does not use a key leaves it dropped, or drops it when it finds its entry expired.
  lemma DroppedStays(max: nat, ops: seq<Op>, op: Op, key: string)
    requires Uses(Entries(max, ops), op) != Some(key)
    ensures Dropped(ops, key) ==> Dropped(ops + [op], key)
    ensures Latest(ops, key).Some? && Expires(op, Latest(ops, key).value) ==> Dropped(ops + [op], key)
  {
    assert (ops + [op])[..|ops|] == ops;
  }

  // Only a use brings a key in.
  lemma OnlyUseEnters(max: nat, es: seq<Entry>, op: Op, key: string)
    requires Uses(es, op) != Some(key) && forall e | e in es :: e.key != key
    ensures forall e | e in After(max, es, op) :: e.key != key
  {
    hide Filter, Find;
    match op
    case Get(k, now) =>
      FindMeaning(es, k);
      FilterMeaning(es, Other(k));
    case Set(k, value, ttl, purgeAt, now) =>
      FilterMeaning(es, Alive(purgeAt));
      FilterMeaning(Filter(es, Alive(purgeAt)), Other(k));
      NewestMeaning(Filter(Filter(es, Alive(purgeAt)), Other(k)) + [Entry(k, now + ttl, value)], max);
    case DeletePrefix(prefix) => FilterMeaning(es, NotUnder(prefix));
    case Clear =>
    case Length(now) => FilterMeaning(es, Alive(now));
  }

  // A key pushed out is gone until its next use.
  lemma {:induction false} PushedOutIsGone(max: nat, ops: seq<Op>, n: nat, key: string)
    requires max > 0 && n <= |ops| && FullOfNewer(max, ops, n, key)
    ensures forall e | e in Entries(max, ops) :: e.key != key
    decreases |ops|
  {
    hide After, Uses;
    FullIsRecent(max, ops, n, key);
    if n == |ops| {
      assert ops[..n] == ops;
    } else {
      var init := ops[..|ops| - 1];
      assert init[..n] == ops[..n];
      assert FullOfNewer(max, init, n, key);
      PushedOutIsGone(max, init, n, key);
      OnlyUseEnters(max, Entries(max, init), ops[|ops| - 1], key);
    }
  }

  lemma FullIsRecent(max: nat, ops: seq<Op>, n: nat, key: string)
    requires max > 0 && n <= |ops| && FullOfNewer(max, ops, n, key)
    ensures LastUse(max, ops, key) < n
  {
    var b := Entries(max, ops[..n])[0];
    assert b in Entries(max, ops[..n]);
  }

  // A call that finds the entry of a key expired takes it away.
  lemma ExpiredIsTaken(max: nat, ops: seq<Op>, op: Op, key: string)
    requires max > 0 && !SetsKey(op, key) && Latest(ops, key).Some? && Expires(op, Latest(ops, key).value)
    ensures forall e | e in After(max, Entries(max, ops), op) :: e.key != key
  {
    hide Filter, Find, Shaped;
    var es := Entries(max, ops);
    HistoryShaped(max, ops);
    LatestKey(ops, key);
    forall e | e in es && e.key == key ensures Latest(ops, key) == Some(e) { EntryIsLatest(max, ops, es, e); }
    match op
    case Get(k, now) =>
      FindMeaning(es, k);
      FilterMeaning(es, Other(k));
    case Set(k, value, ttl, purgeAt, now) =>
      FilterMeaning(es, Alive(purgeAt));
      FilterMeaning(Filter(es, Alive(purgeAt)), Other(k));
      NewestMeaning(Filter(Filter(es, Alive(purgeAt)), Other(k)) + [Entry(k, now + ttl, value)], max);
    case Length(now) => FilterMeaning(es, Alive(now));
  }

  // A key found expired is gone until its next set.
  lemma {:induction false} DroppedIsGone(max: nat, ops: seq<Op>, key: string)
    requires max > 0 && Dropped(ops, key)
    ensures forall e | e in Entries(max, ops) :: e.key != key
  {
    hide After, Expires, Find;
    var init, op := ops[..|ops| - 1], ops[|ops| - 1];
    if Dropped(init, key) {
      DroppedIsGone(max, init, key);
      FindMeaning(Entries(max, init), key);
      OnlyUseEnters(max, Entries(max, init), op, key);
    } else {
      ExpiredIsTaken(max, init, op, key);
    }
  }

  /** Presence is decided by the history, in both directions and whatever the clock readings of the calls: what
      they say is visible under a key is in the cache exactly when no call since its set found it expired
      and the cache was at no time since the key's last use full of more recently used entries. */
  lemma HistoryComplete(max: nat, ops: seq<Op>, key: string)
    requires max > 0 && Latest(ops, key).Some?
    ensures Latest(ops, key).value in Entries(max, ops) <==> !Dropped(ops, key) && !PushedOut(max, ops, key)
  {
    hide Dropped;
    NothingLost(max, ops);
    LatestKey(ops, key);
    if Dropped(ops, key) { DroppedIsGone(max, ops, key); }
    if PushedOut(max, ops, key) {
      var n :| 0 <= n <= |ops| && FullOfNewer(max, ops, n, key);
      PushedOutIsGone(max, ops, n, key);
    }
  }

  /** What a get returns, in every history and whenever its clock was read, even before calls that took the lock
      ahead of it with later readings: exactly what the latest effective set of the key stored, unless it
      was cleared or deleted by prefix since, a call since found it expired, the get's own reading does,
      or the cache was at some time since the key's last use full of more recently used entries. */
  lemma GetMeansLatest(max: nat, ops: seq<Op>, key: string, now: int)
    requires max > 0
    ensures Hit(Entries(max, ops), key, now) ==
      if Latest(ops, key).None? || Latest(ops, key).value.expiresAt <= now
        || Dropped(ops, key) || PushedOut(max, ops, key)
      then None else Latest(ops, key)
  {
    hide LastUse, PushedOut, Latest, Dropped;
    var es := Entries(max, ops);
    HistoryShaped(max, ops);
    FindMeaning(es, key);
    LatestKey(ops, key);
    if Find(es, key).Some? { FoundIsLatest(max, ops, es, key); }
    if Latest(ops, key).Some? { HistoryComplete(max, ops, key); }
  }

  // What no reading has reached was never found expired.
  lemma {:induction false} DroppedInTime(ops: seq<Op>, key: string, t: int)
    requires ReadBy(ops, t) && Dropped(ops, key) && Latest(ops, key).Some?
    ensures Latest(ops, key).value.expiresAt <= t
  {
    var init, op := ops[..|ops| - 1], ops[|ops| - 1];
    assert op in ops && forall o | o in init :: o in ops;
    assert forall x | x in Times(op) :: x <= t;
    if Dropped(init, key) {
      DroppedInTime(init, key, t);
    } else {
      var e := Latest(init, key).value;
      assert Expires(op, e);
      match op
      case Get(_, now) => assert now in Times(op);
      case Set(_, _, _, purgeAt, _) => assert purgeAt in Times(op);
      case Length(now) => assert now in Times(op);
    }
  }

  /** With a clock that has read nothing beyond the get's own reading, only expiry by that reading counts. */
  lemma GetInTime(max: nat, ops: seq<Op>, key: string, now: int)
    requires max > 0 && ReadBy(ops, now)
    ensures Hit(Entries(max, ops), key, now) ==
      if Latest(ops, key).None? || Latest(ops, key).value.expiresAt <= now || PushedOut(max, ops, key)
      then None else Latest(ops, key)
  {
    hide PushedOut, Latest, Dropped, ReadBy;
    GetMeansLatest(max, ops, key, now);
    if Dropped(ops, key) && Latest(ops, key).Some? { DroppedInTime(ops, key, now); }
  }

  /** What is set can be got for exactly its time to live from the reading of the clock it was stored at; without a
      positive one nothing is stored. */
  lemma SetThenGet(max: nat, ops: seq<Op>, key: string, value: Page, ttl: int, purgeAt: int, now: int, later: int)
    requires max > 0
    ensures var set_ := Op.Set(key, value, ttl, purgeAt, now); var es := Entries(max, ops + [set_]);
      && (ttl > 0 ==> Hit(es, key, later) == if later < now + ttl then Some(Entry(key, now + ttl, value)) else None)
      && (ttl <= 0 ==> es == Entries(max, ops))
  {
    hide Filter;
    var set_ := Op.Set(key, value, ttl, purgeAt, now);
    assert (ops + [set_])[..|ops|] == ops;
  }

  // ---- keys of log pages ------------------------------------------------------------------

  // The four parts of a key that name whose log it is.
  datatype Owner = Owner(kind: string, classDiv: string, hwName: string, student: string)

  function LogPrefix(o: Owner): string {
    o.kind + ":" + (o.classDiv + ":" + (o.hwName + ":" + (o.student + ":")))
  }

  // The remaining parts are empty strings when absent; limit is a decimal numeral.
  function LogKey(o: Owner, fromTime: string, toTime: string, limit: string, cursor: string): string {
    LogPrefix(o) + (fromTime + ":" + (toTime + ":" + (limit + ":" + cursor)))
  }

  // The parts of a key after the prefix.
  function KeyRest(fromTime: string, toTime: string, limit: string, cursor: string): string {
    fromTime + ":" + (toTime + ":" + (limit + ":" + cursor))
  }

  ghost predicate IsLogKey(key: string, o: Owner) {
    exists f: string, t: string, l: string, c: string :: key == LogKey(o, f, t, l, c)
  }

  // The invalidation of o may take a page of p along.
  predicate Overlap(o: Owner, p: Owner) {
    LogPrefix(o) <= LogPrefix(p) || LogPrefix(p) <= LogPrefix(o)
  }

  /** When the prefix of one quadruple begins a key of another, for any two and whatever they contain:
      when it begins the other's prefix, or goes on from there as the rest of the key does. */
  lemma UnderPrefixIff(o: Owner, p: Owner, fromTime: string, toTime: string, limit: string, cursor: string)
    ensures var a, b, rest := LogPrefix(o), LogPrefix(p), KeyRest(fromTime, toTime, limit, cursor);
      a <= LogKey(p, fromTime, toTime, limit, cursor) <==> a <= b || (b <= a && a[|b|..] <= rest)
  {
    var a, b, rest := LogPrefix(o), LogPrefix(p), KeyRest(fromTime, toTime, limit, cursor);
    SplitPrefix(a, b, rest);
    assert LogKey(p, fromTime, toTime, limit, cursor) == b + rest;
  }

  lemma SplitPrefix(a: string, b: string, rest: string)
    ensures a <= b + rest <==> a <= b || (b <= a && a[|b|..] <= rest)
  {
    var s := b + rest;
    if a <= s && |a| > |b| {
      assert b == s[..|b|] == a[..|b|];
      assert rest == s[|b|..];
      assert a[|b|..] == s[|b|..|a|];
    }
    if b <= a && a[|b|..] <= rest {
      assert a == b + a[|b|..];
    }
  }

  // Were the remaining parts any text, that would be whenever one prefix begins the other.
  lemma OverlapReaches(o: Owner, p: Owner)
    ensures (exists key :: IsLogKey(key, p) && LogPrefix(o) <= key) <==> Overlap(o, p)
  {
    var a, b := LogPrefix(o), LogPrefix(p);
    if Overlap(o, p) {
      var f := if b <= a then a[|b|..] else "";
      var key := LogKey(p, f, "", "", "");
      UnderPrefixIff(o, p, f, "", "", "");
      assert IsLogKey(key, p) && a <= key;
    }
    if exists key :: IsLogKey(key, p) && a <= key {
      var key :| IsLogKey(key, p) && a <= key;
      var f: string, t: string, l: string, c: string :| key == LogKey(p, f, t, l, c);
      UnderPrefixIff(o, p, f, t, l, c);
    }
  }

  // str() of a datetime, with or without microseconds and offset; the empty text for none.
  ghost predicate TimeText(s: string) {
    s == "" || exists t: DateTime, offset: string :: ValidTime(t) && OffsetText(offset) && s == TimeTextOf(t) + offset
  }

  function TimeTextOf(t: DateTime): string {
    DateText(t.year, t.month, t.day) + " " + ClockText(t.hour, t.minute, t.second) + FractionText(t.micro)
  }

  ghost predicate OffsetText(s: string) {
    s == "" || exists h: nat, m: nat :: h < 24 && m < 60 && s[1..] == Padded(h, 2) + ":" + Padded(m, 2) && s[0] in "+-"
  }

  ghost predicate LimitText(s: string) {
    exists n: nat :: 1 <= n <= 1000 && s == Numeral(n)
  }

  // What the log queries write after the prefix; a cursor that cannot be read raises before anything is cached.
  ghost predicate WrittenRest(rest: string) {
    exists f: string, t: string, l: string, c: string ::
      TimeText(f) && TimeText(t) && LimitText(l) && (c == "" || DecodeEventCursor(c).Some?)
      && rest == KeyRest(f, t, l, c)
  }

  // The invalidation of o removes some page a log query of p can have cached.
  ghost predicate Reaches(o: Owner, p: Owner) {
    exists rest :: WrittenRest(rest) && LogPrefix(o) <= LogPrefix(p) + rest
  }

  // A query for all times from the first page on.
  lemma SomethingWritten(limit: nat)
    requires 1 <= limit <= 1000
    ensures WrittenRest("::" + Numeral(limit) + ":")
  {
    hide Numeral;
    assert KeyRest("", "", Numeral(limit), "") == "::" + Numeral(limit) + ":";
    assert TimeText("") && LimitText(Numeral(limit));
  }

  /** The exact condition: the invalidation of o removes a page that a log query of p can have cached exactly when
      o's prefix begins p's, or goes on from it as the rest of such a key can begin. */
  lemma InvalidationReaches(o: Owner, p: Owner)
    ensures var a, b := LogPrefix(o), LogPrefix(p);
      Reaches(o, p) <==> a <= b || (b <= a && exists rest :: WrittenRest(rest) && a[|b|..] <= rest)
    ensures Reaches(o, p) ==> Overlap(o, p)
  {
    hide WrittenRest;
    var a, b := LogPrefix(o), LogPrefix(p);
    SomethingWritten(200);
    if a <= b { SplitPrefix(a, b, "::" + Numeral(200) + ":"); }
    forall rest: string ensures a <= b + rest <==> a <= b || (b <= a && a[|b|..] <= rest) { SplitPrefix(a, b, rest); }
  }

  // ---- one key for one request -------------------------------------------------------------

  lemma TimeShape(s: string)
    requires TimeText(s) && s != ""
    ensures |s| in {19, 25, 26, 32} && s[0] != ':'
    ensures |s| == 25 ==> s[19] in "+-"
    ensures |s| in {26, 32} ==> s[19] == '.'
    ensures |s| == 32 ==> s[26] in "+-"
  {
    hide ValidTime, Padded;
    var t: DateTime, offset: string :| ValidTime(t) && OffsetText(offset) && s == TimeTextOf(t) + offset;
    assert |TimeTextOf(t)| == if t.micro == 0 then 19 else 26;
    assert s[0] == Padded(t.year, 4)[0] && Padded(t.year, 4)[0] in Padded(t.year, 4);
    if offset != "" {
      var h: nat, m: nat :|
        h < 24 && m < 60 && offset[1..] == Padded(h, 2) + ":" + Padded(m, 2) && offset[0] in "+-";
      assert |offset| == 6;
    }
  }

  lemma AroundColon(a: string, x: string)
    ensures var s := a + (":" + x); s[..|a|] == a && s[|a|] == ':' && s[|a| + 1..] == x
  {
  }

  // Where a written time ends can be seen from what follows.
  lemma TimeEnds(s: string, x: string, t: string, y: string)
    requires TimeText(s) && TimeText(t) && s + (":" + x) == t + (":" + y)
    ensures s == t && x == y
  {
    hide TimeText;
    var text := s + (":" + x);
    if s != "" { TimeShape(s); }
    if t != "" { TimeShape(t); }
    AroundColon(s, x);
    AroundColon(t, y);
    assert |s| == |t|;
  }

  lemma ColonEnds(a: string, x: string, b: string, y: string)
    requires ':' !in a && ':' !in b && a + (":" + x) == b + (":" + y)
    ensures a == b && x == y
  {
    assert a + ":" + x == a + (":" + x) && b + ":" + y == b + (":" + y);
    ColonSplits(a, x, b, y);
    ColonSplits(b, y, a, x);
  }

  lemma RestRight(f: string, t: string, l: string, c: string)
    ensures KeyRest(f, t, l, c) == f + (":" + (t + (":" + (l + (":" + c)))))
  {
  }

  lemma RestDecides(f: string, t: string, l: nat, c: string, f': string, t': string, l': nat, c': string)
    requires TimeText(f) && TimeText(t) && TimeText(f') && TimeText(t')
    requires KeyRest(f, t, Numeral(l), c) == KeyRest(f', t', Numeral(l'), c')
    ensures f == f' && t == t' && l == l' && c == c'
  {
    hide TimeText, Numeral;
    RestRight(f, t, Numeral(l), c);
    RestRight(f', t', Numeral(l'), c');
    TimeEnds(f, t + (":" + (Numeral(l) + (":" + c))), f', t' + (":" + (Numeral(l') + (":" + c'))));
    TimeEnds(t, Numeral(l) + (":" + c), t', Numeral(l') + (":" + c'));
    ColonEnds(Numeral(l), c, Numeral(l'), c');
    NumberOfNumeral(l);
    NumberOfNumeral(l');
  }

  /** Requests that differ in any of their eight parts never share a cached page: between owners without colons, keys
      of log queries are equal only when owner, time range, limit and cursor all are. */
  lemma LogKeyInjective(o: Owner, f: string, t: string, limit: nat, c: string,
                        p: Owner, f': string, t': string, limit': nat, c': string)
    requires ColonFree(o) && ColonFree(p) && TimeText(f) && TimeText(t) && TimeText(f') && TimeText(t')
    ensures LogKey(o, f, t, Numeral(limit), c) == LogKey(p, f', t', Numeral(limit'), c') <==>
      o == p && f == f' && t == t' && limit == limit' && c == c'
  {
    hide ColonFree, TimeText, Numeral;
    var key := LogKey(o, f, t, Numeral(limit), c);
    if key == LogKey(p, f', t', Numeral(limit'), c') {
      OwnKeyUnderPrefix(key, o);
      PrefixNamesOwner(o, p, f', t', Numeral(limit'), c');
      assert KeyRest(f, t, Numeral(limit), c) == key[|LogPrefix(o)|..];
      assert KeyRest(f', t', Numeral(limit'), c') == key[|LogPrefix(p)|..];
      RestDecides(f, t, limit, c, f', t', limit', c');
    }
  }

  /** The text of a time in a key is its ISO text with a blank for the T, followed by its offset if it has one. */
  lemma TimeTextMeaning(t: DateTime)
    requires ValidTime(t)
    ensures var text, iso := TimeTextOf(t), Iso(t);
      && TimeText("") && TimeText(text) && TimeText(text + "+00:00")
      && |text| == |iso| - 6 && text[..10] == iso[..10] && text[10] == ' ' && text[11..] == iso[11..|iso| - 6]
  {
    hide ValidTime, DateText, ClockText, FractionText, OffsetText;
    var text := TimeTextOf(t);
    assert text == text + "" && OffsetText("") by { NoOffset(); }
    assert OffsetText("+00:00") by { ZeroOffset(); }
  }

  lemma NoOffset()
    ensures OffsetText("")
  {
  }

  lemma ZeroOffset()
    ensures OffsetText("+00:00")
  {
    assert Padded(0, 2) == "00" by { assert Padded(0, 1) == "0" by { assert Padded(0, 0) == ""; } }
    assert "+00:00"[1..] == Padded(0, 2) + ":" + Padded(0, 2);
  }

  /** The text of a key: its eight parts joined by colons, of which the invalidation of its owner writes the first four
      and a colon. */
  lemma LogKeyText(o: Owner, f: string, t: string, l: string, c: string)
    ensures LogKey(o, f, t, l, c)
      == o.kind + ":" + o.classDiv + ":" + o.hwName + ":" + o.student + ":" + f + ":" + t + ":" + l + ":" + c
    ensures LogPrefix(o) == o.kind + ":" + o.classDiv + ":" + o.hwName + ":" + o.student + ":"
  {
    assert LogPrefix(o) == o.kind + ":" + o.classDiv + ":" + o.hwName + ":" + o.student + ":";
    assert LogKey(o, f, t, l, c) == LogPrefix(o) + f + ":" + t + ":" + l + ":" + c;
  }

  predicate ColonFree(o: Owner) {
    ':' !in o.kind && ':' !in o.classDiv && ':' !in o.hwName && ':' !in o.student
  }

  // The first colon decides.
  lemma {:induction false} ColonSplits(a: string, x: string, b: string, y: string)
    requires ':' !in a && ':' !in b
    ensures a + ":" + x <= b + ":" + y <==> a == b && x <= y
  {
    var p, q := a + ":" + x, b + ":" + y;
    if a == [] || b == [] {
      assert p[|a|] == ':' && q[|b|] == ':';
      if a == b { assert p[1..] == x && q[1..] == y; }
      if p <= q { assert p[0] == q[0]; }
    } else {
      assert p == [a[0]] + (a[1..] + ":" + x) && q == [b[0]] + (b[1..] + ":" + y);
      ColonSplits(a[1..], x, b[1..], y);
      assert a == [a[0]] + a[1..] && b == [b[0]] + b[1..];
      if p <= q {
        assert p[0] == q[0];
        assert p[1..] <= q[1..];
      }
    }
  }

  /** Without colons in their parts different quadruples never overlap. */
  lemma ColonFreeApart(o: Owner, p: Owner)
    requires ColonFree(o) && ColonFree(p)
    ensures Overlap(o, p) <==> o == p
  {
    if LogPrefix(o) <= LogPrefix(p) { SamePrefixOwner(o, p); }
    if LogPrefix(p) <= LogPrefix(o) { SamePrefixOwner(p, o); }
  }

  lemma SamePrefixOwner(o: Owner, p: Owner)
    requires ColonFree(o) && ColonFree(p) && LogPrefix(o) <= LogPrefix(p)
    ensures o == p
  {
    var o3, p3 := o.student + ":" + [], p.student + ":" + [];
    var o2, p2 := o.hwName + ":" + o3, p.hwName + ":" + p3;
    var o1, p1 := o.classDiv + ":" + o2, p.classDiv + ":" + p2;
    ColonSplits(o.student, [], p.student, []);
    ColonSplits(o.hwName, o3, p.hwName, p3);
    ColonSplits(o.classDiv, o2, p.classDiv, p2);
    ColonSplits(o.kind, o1, p.kind, p1);
    assert LogPrefix(o) == o.kind + ":" + o1 && LogPrefix(p) == p.kind + ":" + p1;
  }

  /** So a prefix built for one colon-free quadruple begins a key built for another exactly when the two
      quadruples are the same, whatever the time range, limit and cursor of the key. */
  lemma PrefixNamesOwner(o: Owner, p: Owner, fromTime: string, toTime: string, limit: string, cursor: string)
    requires ColonFree(o) && ColonFree(p)
    ensures LogPrefix(o) <= LogKey(p, fromTime, toTime, limit, cursor) <==> o == p
  {
    hide LogPrefix, ColonFree;
    ColonFreeApart(o, p);
    UnderPrefixIff(o, p, fromTime, toTime, limit, cursor);
  }

  /** Invalidation is exact: where the cached keys belong to the given quadruple or to some it does not
      overlap with, as do all others without colons, it removes every key of the quadruple and no other,
      and leaves the rest in the same order of use. */
  lemma InvalidationIsExact(es: seq<Entry>, o: Owner)
    requires forall e | e in es :: exists p :: (p == o || !Overlap(o, p)) && IsLogKey(e.key, p)
    ensures var r := After(0, es, DeletePrefix(LogPrefix(o)));
      && (forall e :: e in r <==> e in es && !IsLogKey(e.key, o))
      && (forall a, b | a in r && b in r :: Before(r, a, b) <==> Before(es, a, b))
  {
    hide LogPrefix, IsLogKey;
    var prefix := LogPrefix(o);
    FilterMeaning(es, NotUnder(prefix));
    forall e | e in es ensures prefix <= e.key <==> IsLogKey(e.key, o) {
      if IsLogKey(e.key, o) { OwnKeyUnderPrefix(e.key, o); }
      var p :| (p == o || !Overlap(o, p)) && IsLogKey(e.key, p);
      OverlapReaches(o, p);
    }
  }

  lemma OwnKeyUnderPrefix(key: string, o: Owner)
    requires IsLogKey(key, o)
    ensures LogPrefix(o) <= key
  {
    var f: string, t: string, l: string, c: string :| key == LogKey(o, f, t, l, c);
    UnderPrefixIff(o, o, f, t, l, c);
  }

  /** Owners that differ but overlap exist: one colon more in the class division, one less in the homework. */
  lemma ColonInvalidatesOthers()
    ensures var o, p := Owner("build", "a", "b:c", "1"), Owner("build", "a:b", "c", "1");
      o != p && Overlap(o, p) && Overlap(p, o)
  {
    assert LogPrefix(Owner("build", "a", "b:c", "1")) == "build:a:b:c:1:";
    assert LogPrefix(Owner("build", "a:b", "c", "1")) == "build:a:b:c:1:";
  }
}
