// Whole runs of the debouncer: what reaches the queue compared with what came in, and when.
module DebouncerRuns {
  import opened Events
  import opened Debouncer
  import opened Paths

  // The debouncer with its history: everything that came in and when, and when each queued
  // event was forwarded.
  datatype World = World(core: Core, ins: seq<FsEvent>, insAt: seq<int>, outAt: seq<int>, now: int)

  datatype Happening = Arrives(e: FsEvent, at: int) | Fires(id: nat, at: int)

  datatype Config = Config(window: int, maxWait: int)

  function Start(now: int): World {
    World(IDLE, [], [], [], now)
  }

  // Timers may fire at any time, early or late.
  predicate Enabled(w: World, h: Happening) {
    h.at >= w.now &&
    match h
    case Arrives(e, _) => e.serial == |w.ins|
    case Fires(id, _) => id in w.core.timers
  }

  function Stamp(n: nat, at: int): seq<int> {
    seq(n, _ => at)
  }

  function WithCore(w: World, c: Core, at: int): World {
    w.(core := c, now := at,
       outAt := w.outAt + Stamp(if |c.queue| > |w.core.queue| then |c.queue| - |w.core.queue| else 0, at))
  }

  function Apply(cfg: Config, w: World, h: Happening): World
    requires Enabled(w, h)
  {
    match h
    case Arrives(e, at) =>
      WithCore(w, Processed(w.core, e, at, cfg.window, cfg.maxWait), at).(ins := w.ins + [e], insAt := w.insAt + [at])
    case Fires(id, at) => WithCore(w, Fired(w.core, id), at)
  }

  predicate Legal(cfg: Config, w: World, hs: seq<Happening>)
    decreases |hs|
  {
    hs == [] || (Enabled(w, hs[0]) && Legal(cfg, Apply(cfg, w, hs[0]), hs[1..]))
  }

  function Run(cfg: Config, w: World, hs: seq<Happening>): World
    requires Legal(cfg, w, hs)
    decreases |hs|
  {
    if hs == [] then w else Run(cfg, Apply(cfg, w, hs[0]), hs[1..])
  }

  // ---- the elementary moves a handler is made of ------------------------------------------

  function Ticked(w: World, at: int): World { w.(now := at) }

  function ReleasedW(w: World, key: string): World {
    w.(core := Flushed(w.core, key), outAt := w.outAt + Stamp(|Release(w.core, key)|, w.now))
  }

  function CancelledW(w: World, timer: Option<nat>): World { w.(core := Cancelled(w.core, timer)) }

  function Recorded(w: World, e: FsEvent): World { w.(ins := w.ins + [e], insAt := w.insAt + [w.now]) }

  function EmittedW(w: World, e: FsEvent): World {
    Recorded(w, e).(core := w.core.(queue := w.core.queue + [e]), outAt := w.outAt + [w.now])
  }

  function OpenedW(cfg: Config, w: World, e: FsEvent): World {
    Recorded(w, e).(core := Opened(w.core, e, w.now, cfg.window))
  }

  function ExtendedW(cfg: Config, w: World, e: FsEvent): World
    requires GenerateKey(e) in w.core.buckets
  {
    Recorded(w, e).(core := Extended(w.core, e, w.now, cfg.window))
  }

  // ---- invariant ---------------------------------------------------------------------------

  ghost predicate Known(w: World, e: FsEvent) {
    e.serial < |w.ins| && w.ins[e.serial] == e
  }

  ghost predicate History(w: World) {
    && (forall i | 0 <= i < |w.ins| :: w.ins[i].serial == i)
    && |w.insAt| == |w.ins| && |w.outAt| == |w.core.queue|
    && (forall i, j | 0 <= i < j < |w.insAt| :: w.insAt[i] <= w.insAt[j])
    && (forall i | 0 <= i < |w.insAt| :: w.insAt[i] <= w.now)
  }

  ghost predicate QueueOk(w: World) {
    var q := w.core.queue;
    && (forall j | 0 <= j < |q| :: Known(w, q[j]))
    && (forall i, j | 0 <= i < j < |q| && GenerateKey(q[i]) == GenerateKey(q[j]) :: q[i].serial < q[j].serial)
  }

  ghost predicate ImmediatesOut(w: World) {
    forall i | 0 <= i < |w.ins| && Immediate(w.ins[i]) :: w.ins[i] in w.core.queue
  }

  // The bucket of a key ends with the key's latest input, begins after all the key's outputs,
  // and its own timer is live.
  ghost predicate BucketOk(w: World, key: string, b: Bucket) {
    && b.events != []
    && Known(w, b.events[0]) && GenerateKey(b.events[0]) == key
    && Known(w, b.events[|b.events| - 1]) && GenerateKey(b.events[|b.events| - 1]) == key
    && b.events[0].serial <= b.events[|b.events| - 1].serial
    && (forall i | 0 <= i < |w.ins| && GenerateKey(w.ins[i]) == key :: i <= b.events[|b.events| - 1].serial)
    && (forall q | q in w.core.queue && GenerateKey(q) == key :: q.serial < b.events[0].serial)
    && b.timer.Some? && b.timer.value in w.core.timers && w.core.timers[b.timer.value].key == key
  }

  ghost predicate BucketsOk(w: World) {
    && (forall key | key in w.core.buckets :: BucketOk(w, key, w.core.buckets[key]))
    && (forall id | id in w.core.timers :: id < w.core.nextTimer)
  }

  // Input i, or a later event of its key, has been forwarded.
  ghost predicate Covered(w: World, i: nat)
    requires i < |w.ins|
  {
    exists q | q in w.core.queue :: GenerateKey(q) == GenerateKey(w.ins[i]) && q.serial >= i
  }

  ghost predicate Pending(w: World, i: nat)
    requires i < |w.ins|
  {
    var key := GenerateKey(w.ins[i]);
    Holds(w.core, key) && w.core.buckets[key].events[0].serial <= i
  }

  ghost predicate Caught(w: World) {
    forall i | 0 <= i < |w.ins| :: Covered(w, i) || Pending(w, i)
  }

  ghost predicate Inv(w: World) {
    History(w) && QueueOk(w) && ImmediatesOut(w) && BucketsOk(w) && Caught(w)
  }

  // ---- the moves keep the invariant -----------------------------------------------------------

  // An event whose bucket is not touched: nothing of its key comes in, goes out or loses its timer.
  lemma BucketStays(w: World, v: World, key: string, b: Bucket)
    requires BucketOk(w, key, b) && w.ins <= v.ins
    requires forall i | |w.ins| <= i < |v.ins| :: GenerateKey(v.ins[i]) != key
    requires forall q | q in v.core.queue && GenerateKey(q) == key :: q in w.core.queue
    requires b.timer.Some? && b.timer.value in w.core.timers ==>
      b.timer.value in v.core.timers && v.core.timers[b.timer.value] == w.core.timers[b.timer.value]
    ensures BucketOk(v, key, b)
  {
  }

  lemma QueueAppends(w: World, v: World, e: FsEvent)
    requires QueueOk(w) && v.core.queue == w.core.queue + [e] && w.ins <= v.ins && Known(v, e)
    requires forall q | q in w.core.queue && GenerateKey(q) == GenerateKey(e) :: q.serial < e.serial
    ensures QueueOk(v)
  {
    var q := v.core.queue;
    forall j | 0 <= j < |q| ensures Known(v, q[j]) {
      if j < |w.core.queue| { assert Known(w, w.core.queue[j]); }
    }
    forall i, j | 0 <= i < j < |q| && GenerateKey(q[i]) == GenerateKey(q[j]) ensures q[i].serial < q[j].serial {
      assert q[i] == w.core.queue[i];
      if j == |w.core.queue| { assert q[i] in w.core.queue; }
    }
  }

  lemma QueueSame(w: World, v: World)
    requires QueueOk(w) && v.core.queue == w.core.queue && w.ins <= v.ins
    ensures QueueOk(v)
  {
    forall j | 0 <= j < |v.core.queue| ensures Known(v, v.core.queue[j]) { assert Known(w, w.core.queue[j]); }
  }

  lemma QueueKnown(w: World, q: FsEvent)
    requires QueueOk(w) && q in w.core.queue
    ensures Known(w, q)
  {
    var j :| 0 <= j < |w.core.queue| && w.core.queue[j] == q;
  }

  // A forwarded event stays forwarded, and what was pending stays pending or is covered.
  lemma CoverageStays(w: World, v: World, i: nat)
    requires i < |w.ins| && w.ins <= v.ins && w.core.queue <= v.core.queue
    ensures Covered(w, i) ==> Covered(v, i)
  {
    if Covered(w, i) {
      var q :| q in w.core.queue && GenerateKey(q) == GenerateKey(w.ins[i]) && q.serial >= i;
      assert q in v.core.queue;
    }
  }

  lemma TickKeeps(w: World, at: int)
    requires Inv(w) && at >= w.now
    ensures Inv(Ticked(w, at))
  {
    hide PathText, BucketOk, QueueOk;
    var v := Ticked(w, at);
    QueueSame(w, v);
    forall i | 0 <= i < |w.ins| ensures Covered(v, i) || Pending(v, i) { CoverageStays(w, v, i); }
    forall k | k in v.core.buckets ensures BucketOk(v, k, v.core.buckets[k]) {
      BucketStays(w, v, k, w.core.buckets[k]);
    }
  }

  lemma CancelKeeps(w: World, timer: Option<nat>)
    requires Inv(w)
    requires timer.Some? ==> forall key | key in w.core.buckets :: w.core.buckets[key].timer != timer
    ensures Inv(CancelledW(w, timer))
  {
    hide PathText, BucketOk, QueueOk;
    var v := CancelledW(w, timer);
    QueueSame(w, v);
    forall i | 0 <= i < |w.ins| ensures Covered(v, i) || Pending(v, i) { CoverageStays(w, v, i); }
    forall k | k in v.core.buckets ensures BucketOk(v, k, v.core.buckets[k]) {
      BucketStays(w, v, k, w.core.buckets[k]);
    }
  }

  lemma ReleaseKeeps(w: World, key: string)
    requires Inv(w)
    ensures Inv(ReleasedW(w, key)) && key !in ReleasedW(w, key).core.buckets
  {
    hide PathText, BucketOk, QueueOk;
    var v := ReleasedW(w, key);
    if Holds(w.core, key) {
      var b := w.core.buckets[key];
      var last := b.events[|b.events| - 1];
      BucketEnds(w, key, b);
      QueueAppends(w, v, last);
    } else {
      QueueSame(w, v);
    }
    forall i | 0 <= i < |w.ins| ensures Covered(v, i) || Pending(v, i) { ReleaseCovers(w, key, i); }
    forall k | k in v.core.buckets ensures BucketOk(v, k, v.core.buckets[k]) {
      assert BucketOk(w, k, w.core.buckets[k]);
      if Holds(w.core, key) { BucketEnds(w, key, w.core.buckets[key]); }
      BucketStays(w, v, k, w.core.buckets[k]);
    }
  }

  // The last event of a bucket: known, of the key, later than every output and every input of the key.
  lemma BucketEnds(w: World, key: string, b: Bucket)
    requires BucketOk(w, key, b)
    ensures b.events != []
    ensures var last := b.events[|b.events| - 1];
      && Known(w, last) && GenerateKey(last) == key
      && (forall q | q in w.core.queue && GenerateKey(q) == key :: q.serial < last.serial)
      && (forall i | 0 <= i < |w.ins| && GenerateKey(w.ins[i]) == key :: i <= last.serial)
  {
  }

  // After a release every input of the key is covered, and the others are as they were.
  lemma ReleaseCovers(w: World, key: string, i: nat)
    requires Inv(w) && i < |w.ins|
    ensures var v := ReleasedW(w, key);
      (Covered(v, i) || Pending(v, i)) && (GenerateKey(w.ins[i]) == key ==> Covered(v, i))
  {
    hide PathText, BucketOk, QueueOk;
    var v := ReleasedW(w, key);
    CoverageStays(w, v, i);
    if GenerateKey(w.ins[i]) == key && Holds(w.core, key) {
      var b := w.core.buckets[key];
      BucketEnds(w, key, b);
      assert b.events[|b.events| - 1] in v.core.queue;
    }
  }

  lemma EmitKeeps(w: World, e: FsEvent)
    requires Inv(w) && e.serial == |w.ins| && GenerateKey(e) !in w.core.buckets
    ensures Inv(EmittedW(w, e))
  {
    hide PathText, BucketOk, QueueOk;
    var v := EmittedW(w, e);
    forall q | q in w.core.queue ensures q.serial < e.serial { QueueKnown(w, q); }
    QueueAppends(w, v, e);
    assert e in v.core.queue;
    forall i | 0 <= i < |v.ins| ensures Covered(v, i) || Pending(v, i) {
      if i < |w.ins| { CoverageStays(w, v, i); }
    }
    forall k | k in v.core.buckets ensures BucketOk(v, k, v.core.buckets[k]) {
      BucketStays(w, v, k, w.core.buckets[k]);
    }
    forall i | 0 <= i < |v.ins| && Immediate(v.ins[i]) ensures v.ins[i] in v.core.queue {
      assert i < |w.ins| ==> w.ins[i] in w.core.queue;
    }
  }

  lemma OpenKeeps(cfg: Config, w: World, e: FsEvent)
    requires Inv(w) && e.serial == |w.ins| && GenerateKey(e) !in w.core.buckets && !Immediate(e)
    ensures Inv(OpenedW(cfg, w, e))
  {
    hide PathText, BucketOk, QueueOk;
    var v := OpenedW(cfg, w, e);
    QueueSame(w, v);
    forall i | 0 <= i < |v.ins| ensures Covered(v, i) || Pending(v, i) {
      if i < |w.ins| { CoverageStays(w, v, i); }
    }
    forall q | q in w.core.queue ensures q.serial < e.serial { QueueKnown(w, q); }
    forall k | k in v.core.buckets ensures BucketOk(v, k, v.core.buckets[k]) {
      if k == GenerateKey(e) {
        FreshBucketOk(w, v, e, v.core.buckets[k]);
      } else {
        BucketTimer(w, k, w.core.buckets[k]);
        BucketStays(w, v, k, w.core.buckets[k]);
      }
    }
  }

  lemma BucketTimer(w: World, key: string, b: Bucket)
    requires BucketOk(w, key, b)
    ensures b.timer.Some? && b.timer.value in w.core.timers && w.core.timers[b.timer.value].key == key
  {
  }

  // A bucket whose last event has just come in, and whose first comes after every output of its key.
  lemma FreshBucketOk(w: World, v: World, e: FsEvent, b: Bucket)
    requires v.ins == w.ins + [e] && e.serial == |w.ins| && v.core.queue == w.core.queue
    requires b.events != [] && b.events[|b.events| - 1] == e
    requires b.events[0] == e || (Known(w, b.events[0]) && GenerateKey(b.events[0]) == GenerateKey(e))
    requires forall q | q in w.core.queue && GenerateKey(q) == GenerateKey(e) :: q.serial < b.events[0].serial
    requires b.timer.Some? && b.timer.value in v.core.timers && v.core.timers[b.timer.value].key == GenerateKey(e)
    ensures BucketOk(v, GenerateKey(e), b)
  {
  }

  lemma ExtendKeeps(cfg: Config, w: World, e: FsEvent)
    requires Inv(w) && e.serial == |w.ins| && GenerateKey(e) in w.core.buckets && !Immediate(e)
    ensures Inv(ExtendedW(cfg, w, e))
  {
    hide PathText, BucketOk, QueueOk;
    var v := ExtendedW(cfg, w, e);
    var key := GenerateKey(e);
    var was := w.core.buckets[key];
    BucketTimer(w, key, was);
    BucketStarts(w, key, was);
    QueueSame(w, v);
    var b := v.core.buckets[key];
    assert b.events[0] == was.events[0] && b.events[|b.events| - 1] == e;
    forall i | 0 <= i < |v.ins| ensures Covered(v, i) || Pending(v, i) {
      if i < |w.ins| { CoverageStays(w, v, i); }
    }
    forall k | k in v.core.buckets ensures BucketOk(v, k, v.core.buckets[k]) {
      if k == key {
        FreshBucketOk(w, v, e, b);
      } else {
        BucketTimer(w, k, w.core.buckets[k]);
        BucketStays(w, v, k, w.core.buckets[k]);
      }
    }
  }

  lemma BucketStarts(w: World, key: string, b: Bucket)
    requires BucketOk(w, key, b)
    ensures b.events != [] && Known(w, b.events[0]) && GenerateKey(b.events[0]) == key
    ensures forall q | q in w.core.queue && GenerateKey(q) == key :: q.serial < b.events[0].serial
  {
  }

  // ---- a handler is a few moves -----------------------------------------------------------------

  // The timer of a released key, or any timer of that key, belongs to no remaining bucket.
  lemma TimerIsFree(w: World, key: string, id: nat)
    requires Inv(w) && key !in w.core.buckets && id in w.core.timers && w.core.timers[id].key == key
    ensures forall k | k in w.core.buckets :: w.core.buckets[k].timer != Some(id)
  {
    hide PathText, BucketOk, QueueOk;
    forall k | k in w.core.buckets ensures w.core.buckets[k].timer != Some(id) {
      BucketTimer(w, k, w.core.buckets[k]);
    }
  }

  lemma StampOne(at: int)
    ensures Stamp(1, at) == [at] && Stamp(0, at) == [] && Stamp(2, at) == [at] + [at]
  {
  }

  lemma ImmediateMoves(cfg: Config, w: World, e: FsEvent, at: int) returns (a: World, b: World)
    requires Enabled(w, Arrives(e, at)) && Immediate(e)
    ensures var key := GenerateKey(e); var t := Ticked(w, at);
      && a == ReleasedW(t, key) && b == CancelledW(a, OwnTimer(w.core, key))
      && Apply(cfg, w, Arrives(e, at)) == EmittedW(b, e)
  {
    var key, t := GenerateKey(e), Ticked(w, at);
    a := ReleasedW(t, key);
    b := CancelledW(a, OwnTimer(w.core, key));
    StampOne(at);
    assert w.core.queue + Release(w.core, key) + [e] == EmittedW(b, e).core.queue;
    assert w.outAt + Stamp(|Release(w.core, key)|, at) + [at] == w.outAt + Stamp(|Release(w.core, key)| + 1, at);
  }

  lemma OpenMoves(cfg: Config, w: World, e: FsEvent, at: int) returns (a: World)
    requires Enabled(w, Arrives(e, at)) && !Immediate(e)
    requires var key := GenerateKey(e); !(key in w.core.buckets && at - w.core.buckets[key].firstTs < cfg.maxWait)
    ensures a == ReleasedW(Ticked(w, at), GenerateKey(e))
    ensures Apply(cfg, w, Arrives(e, at)) == OpenedW(cfg, a, e)
  {
    a := ReleasedW(Ticked(w, at), GenerateKey(e));
  }

  lemma ExtendMoves(cfg: Config, w: World, e: FsEvent, at: int)
    requires Enabled(w, Arrives(e, at)) && !Immediate(e)
    requires var key := GenerateKey(e); key in w.core.buckets && at - w.core.buckets[key].firstTs < cfg.maxWait
    ensures Apply(cfg, w, Arrives(e, at)) == ExtendedW(cfg, Ticked(w, at), e)
  {
    StampOne(at);
  }

  lemma FireMoves(cfg: Config, w: World, id: nat, at: int) returns (a: World)
    requires Enabled(w, Fires(id, at))
    ensures a == ReleasedW(Ticked(w, at), w.core.timers[id].key)
    ensures Apply(cfg, w, Fires(id, at)) == CancelledW(a, Some(id))
  {
    a := ReleasedW(Ticked(w, at), w.core.timers[id].key);
  }

  /** Every handler keeps the invariant, whichever event comes in next and whenever a live timer fires, stale ones
      included. */
  lemma HappeningKeepsInv(cfg: Config, w: World, h: Happening)
    requires Inv(w) && h.at >= w.now && (if h.Arrives? then h.e.serial == |w.ins| else h.id in w.core.timers)
    ensures Enabled(w, h) && Inv(Apply(cfg, w, h))
  {
    hide PathText, Inv, Processed, Fired;
    TickKeeps(w, h.at);
    var t := Ticked(w, h.at);
    match h
    case Arrives(e, at) =>
      var key := GenerateKey(e);
      ReleaseKeeps(t, key);
      if Immediate(e) {
        var a, b := ImmediateMoves(cfg, w, e, at);
        OwnTimerIsLive(w, key);
        if OwnTimer(w.core, key).Some? { TimerIsFree(a, key, OwnTimer(w.core, key).value); }
        CancelKeeps(a, OwnTimer(w.core, key));
        EmitKeeps(b, e);
      } else if key in w.core.buckets && at - w.core.buckets[key].firstTs < cfg.maxWait {
        ExtendMoves(cfg, w, e, at);
        ExtendKeeps(cfg, t, e);
      } else {
        var a := OpenMoves(cfg, w, e, at);
        OpenKeeps(cfg, a, e);
      }
    case Fires(id, at) =>
      var key := w.core.timers[id].key;
      ReleaseKeeps(t, key);
      var a := FireMoves(cfg, w, id, at);
      TimerIsFree(a, key, id);
      CancelKeeps(a, Some(id));
  }

  lemma OwnTimerIsLive(w: World, key: string)
    requires Inv(w)
    ensures var own := OwnTimer(w.core, key);
      own.Some? ==> own.value in w.core.timers && w.core.timers[own.value].key == key
  {
  }

  lemma StartOk(now: int)
    ensures Inv(Start(now))
  {
  }

  lemma {:induction false} RunKeepsInv(cfg: Config, w: World, hs: seq<Happening>)
    requires Inv(w) && Legal(cfg, w, hs)
    ensures Inv(Run(cfg, w, hs))
    decreases |hs|
  {
    hide PathText, Inv, Apply;
    if hs != [] {
      HappeningKeepsInv(cfg, w, hs[0]);
      RunKeepsInv(cfg, Apply(cfg, w, hs[0]), hs[1..]);
    }
  }

  // ---- what it means ------------------------------------------------------------------------------

  /** Refinement, in every run and whenever timers fire: each forwarded event is one that came in;
      the events of one path are forwarded in the order they came in and none twice; every deleted
      or moved event has been forwarded; and the latest event of every path either ends the path's
      bucket or has been forwarded as the last output of its path. */
  lemma OutputRefinesInput(cfg: Config, now: int, hs: seq<Happening>)
    requires Legal(cfg, Start(now), hs)
    ensures var w := Run(cfg, Start(now), hs); var q := w.core.queue;
      && (forall j | 0 <= j < |q| :: q[j].serial < |w.ins| && w.ins[q[j].serial] == q[j])
      && (forall i, j | 0 <= i < j < |q| && SamePath(q[i], q[j]) :: q[i].serial < q[j].serial)
      && (forall i | 0 <= i < |w.ins| && (w.ins[i].eventType.Deleted? || w.ins[i].eventType.Moved?) :: w.ins[i] in q)
      && (forall i | 0 <= i < |w.ins| && (forall j | i < j < |w.ins| :: !SamePath(w.ins[j], w.ins[i])) ::
            var key := GenerateKey(w.ins[i]);
            if key in w.core.buckets
            then Holds(w.core, key) && Release(w.core, key) == [w.ins[i]]
            else w.ins[i] in q && forall o | o in q && SamePath(o, w.ins[i]) :: o.serial <= i)
  {
    hide GenerateKey, SamePath, Run, Legal, Inv, Holds, Release;
    StartOk(now);
    RunKeepsInv(cfg, Start(now), hs);
    var w := Run(cfg, Start(now), hs);
    OutputsInOrder(w);
    forall i | 0 <= i < |w.ins| && (forall j | i < j < |w.ins| :: !SamePath(w.ins[j], w.ins[i]))
      ensures var key := GenerateKey(w.ins[i]);
        if key in w.core.buckets
        then Holds(w.core, key) && Release(w.core, key) == [w.ins[i]]
        else w.ins[i] in w.core.queue && forall o | o in w.core.queue && SamePath(o, w.ins[i]) :: o.serial <= i
    {
      LatestForwarded(w, i);
    }
  }

  lemma OutputsInOrder(w: World)
    requires Inv(w)
    ensures var q := w.core.queue;
      && (forall j | 0 <= j < |q| :: q[j].serial < |w.ins| && w.ins[q[j].serial] == q[j])
      && (forall i, j | 0 <= i < j < |q| && SamePath(q[i], q[j]) :: q[i].serial < q[j].serial)
      && (forall i | 0 <= i < |w.ins| && (w.ins[i].eventType.Deleted? || w.ins[i].eventType.Moved?) :: w.ins[i] in q)
  {
    hide GenerateKey, SamePath, BucketsOk, Caught, History;
    var q := w.core.queue;
    forall i, j | 0 <= i < j < |q| && SamePath(q[i], q[j]) ensures q[i].serial < q[j].serial {
      SameKeyIff(q[i], q[j]);
    }
  }

  lemma LatestForwarded(w: World, i: nat)
    requires Inv(w) && i < |w.ins| && forall j | i < j < |w.ins| :: !SamePath(w.ins[j], w.ins[i])
    ensures var key := GenerateKey(w.ins[i]);
      if key in w.core.buckets
      then Holds(w.core, key) && Release(w.core, key) == [w.ins[i]]
      else w.ins[i] in w.core.queue && forall o | o in w.core.queue && SamePath(o, w.ins[i]) :: o.serial <= i
  {
    hide GenerateKey, SamePath, BucketOk, QueueOk;
    var key := GenerateKey(w.ins[i]);
    forall e: FsEvent ensures GenerateKey(e) == key <==> SamePath(e, w.ins[i]) { SameKeyIff(e, w.ins[i]); }
    if key in w.core.buckets {
      BucketEnds(w, key, w.core.buckets[key]);
    } else {
      assert Covered(w, i);
      var q :| q in w.core.queue && GenerateKey(q) == key && q.serial >= i;
      QueueKnown(w, q);
      assert q.serial == i;
      forall o | o in w.core.queue && GenerateKey(o) == key ensures o.serial <= i { QueueKnown(w, o); }
    }
  }

  /** Once no timer is left, the latest event of every path has been forwarded, as the path's last output. */
  lemma DrainedForwardsLatest(cfg: Config, now: int, hs: seq<Happening>, i: nat)
    requires Legal(cfg, Start(now), hs)
    requires var w := Run(cfg, Start(now), hs);
      w.core.timers == map[] && i < |w.ins| && forall j | i < j < |w.ins| :: !SamePath(w.ins[j], w.ins[i])
    ensures var w := Run(cfg, Start(now), hs);
      && w.ins[i] in w.core.queue
      && forall o | o in w.core.queue && SamePath(o, w.ins[i]) :: o.serial <= i
  {
    hide GenerateKey, SamePath, Run, Legal, BucketOk, QueueOk;
    StartOk(now);
    RunKeepsInv(cfg, Start(now), hs);
    var w := Run(cfg, Start(now), hs);
    var key := GenerateKey(w.ins[i]);
    OwnTimerIsLive(w, key);
    if key in w.core.buckets { BucketTimer(w, key, w.core.buckets[key]); }
    LatestForwarded(w, i);
  }
}
