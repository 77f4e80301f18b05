// The per-path debouncer: buckets of modified events, sliding timers, a maximum wait, and
// deleted and moved events that pass at once. Putting into the unbounded queue never suspends,
// so each handler is one atomic step.
module Debouncer {
  import opened Events
  import opened Paths

  datatype EventType = Modified | Deleted | Moved

  // serial is the identity of the event object: the position at which it came in.
  datatype FsEvent = FsEvent(serial: nat, eventType: EventType, srcPath: string, destPath: string)

  datatype Bucket = Bucket(events: seq<FsEvent>, firstTs: int, lastTs: int, timer: Option<nat>)

  // A live timer task: it has neither fired nor been cancelled.
  datatype Timer = Timer(key: string, due: int)

  datatype Core = Core(buckets: map<string, Bucket>, timers: map<nat, Timer>, nextTimer: nat, queue: seq<FsEvent>)

  const IDLE := Core(map[], map[], 0, [])

  function GenerateKey(e: FsEvent): string {
    PathText(if e.eventType.Moved? then e.destPath else e.srcPath)
  }

  // The events concern one path: it has the same leading slashes, as far as they count, and the same components.
  predicate SamePath(e: FsEvent, f: FsEvent) {
    var p := if e.eventType.Moved? then e.destPath else e.srcPath;
    var q := if f.eventType.Moved? then f.destPath else f.srcPath;
    Root(p) == Root(q) && Components(p) == Components(q)
  }

  /** Events share a key exactly when they concern one path. */
  lemma SameKeyIff(e: FsEvent, f: FsEvent)
    ensures GenerateKey(e) == GenerateKey(f) <==> SamePath(e, f)
  {
    hide PathText;
    PathTextIff(if e.eventType.Moved? then e.destPath else e.srcPath,
                if f.eventType.Moved? then f.destPath else f.srcPath);
  }

  predicate Immediate(e: FsEvent) {
    e.eventType.Deleted? || e.eventType.Moved?
  }

  predicate Holds(c: Core, key: string) {
    key in c.buckets && c.buckets[key].events != []
  }

  // What flushing a key puts into the queue: the last event of its bucket.
  function Release(c: Core, key: string): seq<FsEvent> {
    if Holds(c, key) then [c.buckets[key].events[|c.buckets[key].events| - 1]] else []
  }

  // _flush_bucket: pops the bucket and forwards its last event. The timer of the bucket lives on.
  function Flushed(c: Core, key: string): Core {
    c.(buckets := c.buckets - {key}, queue := c.queue + Release(c, key))
  }

  function Cancelled(c: Core, timer: Option<nat>): Core {
    match timer case None => c case Some(id) => c.(timers := c.timers - {id})
  }

  function OwnTimer(c: Core, key: string): Option<nat> {
    if key in c.buckets then c.buckets[key].timer else None
  }

  // Replaces the bucket of a key and gives it a new timer.
  function Scheduled(c: Core, key: string, b: Bucket, due: int): Core {
    c.(buckets := c.buckets[key := b.(timer := Some(c.nextTimer))],
       timers := c.timers[c.nextTimer := Timer(key, due)],
       nextTimer := c.nextTimer + 1)
  }

  function Opened(c: Core, e: FsEvent, now: int, window: int): Core {
    Scheduled(c, GenerateKey(e), Bucket([e], now, now, None), now + window)
  }

  function Extended(c: Core, e: FsEvent, now: int, window: int): Core
    requires GenerateKey(e) in c.buckets
  {
    var key := GenerateKey(e);
    var b := c.buckets[key];
    Scheduled(Cancelled(c, b.timer), key, Bucket(b.events + [e], b.firstTs, now, b.timer), now + window)
  }

  // process_event.
  function Processed(c: Core, e: FsEvent, now: int, window: int, maxWait: int): Core {
    var key := GenerateKey(e);
    if Immediate(e) then
      var d := Cancelled(Flushed(c, key), OwnTimer(c, key));
      d.(queue := d.queue + [e])
    else if key in c.buckets && now - c.buckets[key].firstTs < maxWait then Extended(c, e, now, window)
    else Opened(Flushed(c, key), e, now, window)
  }

  /** What a modified event does: it ends the bucket of its path, whose new timer is due a window later, and nothing
      is forwarded but the last event of a bucket that is max wait old, which then begins anew; a younger bucket
      grows and loses its old timer. Other paths are left alone. */
  lemma ModifiedMeaning(c: Core, e: FsEvent, now: int, window: int, maxWait: int)
    requires e.eventType.Modified? && forall id | id in c.timers :: id < c.nextTimer
    requires forall key | key in c.buckets :: c.buckets[key].events != []
    ensures var r, key := Processed(c, e, now, window, maxWait), GenerateKey(e);
      var old_ := if key in c.buckets then c.buckets[key] else Bucket([], now, now, None);
      var grows := key in c.buckets && now - old_.firstTs < maxWait;
      && key in r.buckets && r.buckets.Keys == c.buckets.Keys + {key}
      && (forall other | other in c.buckets && other != key :: r.buckets[other] == c.buckets[other])
      && r.buckets[key].events == (if grows then old_.events + [e] else [e])
      && r.buckets[key].firstTs == (if grows then old_.firstTs else now) && r.buckets[key].lastTs == now
      && r.buckets[key].timer.Some? && r.buckets[key].timer.value !in c.timers
      && r.timers.Keys ==
           c.timers.Keys - (if grows && old_.timer.Some? then {old_.timer.value} else {}) + {r.buckets[key].timer.value}
      && r.timers[r.buckets[key].timer.value] == Timer(key, now + window)
      && (forall id | id in r.timers && id in c.timers :: r.timers[id] == c.timers[id])
      && r.queue == c.queue + if key in c.buckets && !grows then [old_.events[|old_.events| - 1]] else []
  {
    hide GenerateKey;
  }

  /** What a deleted or moved event does: the last pending event of its path goes out and then the event itself, and
      neither a bucket of the path nor that bucket's timer is left. */
  lemma ImmediateMeaning(c: Core, e: FsEvent, now: int, window: int, maxWait: int)
    requires !e.eventType.Modified? && forall key | key in c.buckets :: c.buckets[key].events != []
    ensures var r, key := Processed(c, e, now, window, maxWait), GenerateKey(e);
      var old_ := if key in c.buckets then c.buckets[key] else Bucket([], now, now, None);
      && r.buckets == c.buckets - {key}
      && r.timers == c.timers - (if old_.timer.Some? then {old_.timer.value} else {})
      && r.queue == c.queue + (if key in c.buckets then [old_.events[|old_.events| - 1]] else []) + [e]
  {
    hide GenerateKey;
  }

  // A timer that has slept its delay.
  function Fired(c: Core, id: nat): Core
    requires id in c.timers
  {
    Cancelled(Flushed(c, c.timers[id].key), Some(id))
  }

  /** What a timer does: it ends, and the bucket its key has by then, if any, goes with its last event forwarded. */
  lemma FiredMeaning(c: Core, id: nat)
    requires id in c.timers && forall key | key in c.buckets :: c.buckets[key].events != []
    ensures var r, key := Fired(c, id), c.timers[id].key;
      && r.timers == c.timers - {id} && r.buckets == c.buckets - {key}
      && r.queue == c.queue + if key in c.buckets then [c.buckets[key].events[|c.buckets[key].events| - 1]] else []
  {
  }

  // A new bucket put in place and given a timer.
  lemma OpenedAnew(c: Core, e: FsEvent, now: int, window: int)
    ensures var key, b := GenerateKey(e), Bucket([e], now, now, None);
      Scheduled(Cancelled(c.(buckets := c.buckets[key := b]), None), key, b, now + window) == Opened(c, e, now, window)
  {
  }

  // A bucket grown in place and given a new timer for its old one.
  lemma ExtendedInPlace(c: Core, e: FsEvent, now: int, window: int)
    requires GenerateKey(e) in c.buckets
    ensures var key := GenerateKey(e); var was := c.buckets[key];
      var b := Bucket(was.events + [e], was.firstTs, now, was.timer);
      Scheduled(Cancelled(c.(buckets := c.buckets[key := b]), was.timer), key, b, now + window)
        == Extended(c, e, now, window)
  {
  }

  lemma NothingFlushed(c: Core, key: string)
    requires key !in c.buckets
    ensures Flushed(c, key) == c
  {
    assert c.buckets - {key} == c.buckets;
  }

  class Debouncer {
    const window: int
    const maxWait: int
    var buckets: map<string, Bucket>
    var inFlight: map<string, bool>
    var processedQueue: seq<FsEvent>
    var timers: map<nat, Timer>   // the live timer tasks of the event loop
    var nextTimer: nat

    ghost function State(): Core
      reads this
    {
      Core(buckets, timers, nextTimer, processedQueue)
    }

    // Between handlers no key is in flight and no bucket is empty.
    ghost predicate Valid()
      reads this
    {
      (forall key | key in inFlight :: !inFlight[key]) && (forall key | key in buckets :: buckets[key].events != [])
    }

    constructor (window: int, maxWait: int)
      ensures Valid() && State() == IDLE && this.window == window && this.maxWait == maxWait
    {
      this.window, this.maxWait := window, maxWait;
      buckets, inFlight, processedQueue, timers, nextTimer := map[], map[], [], map[], 0;
    }

    method ProcessEvent(e: FsEvent, now: int)
      requires Valid()
      modifies this
      ensures Valid() && State() == Processed(old(State()), e, now, window, maxWait)
    {
      var key := GenerateKey(e);
      if e.eventType.Deleted? || e.eventType.Moved? {
        HandleImmediateEvent(key, e);
      } else {
        AddToBucket(key, e, now);
      }
    }

    method HandleImmediateEvent(key: string, e: FsEvent)
      requires Valid()
      modifies this
      ensures Valid()
      ensures State() ==
        var d := Cancelled(Flushed(old(State()), key), OwnTimer(old(State()), key)); d.(queue := d.queue + [e])
    {
      if key in inFlight && inFlight[key] {
        return;
      }
      inFlight := inFlight[key := true];
      if key in buckets {
        var pending := buckets[key];
        buckets := buckets - {key};
        if pending.timer.Some? {
          timers := timers - {pending.timer.value};
        }
        processedQueue := processedQueue + [pending.events[|pending.events| - 1]];
      }
      processedQueue := processedQueue + [e];
      inFlight := inFlight[key := false];
    }

    method AddToBucket(key: string, e: FsEvent, now: int)
      requires Valid() && key == GenerateKey(e) && !Immediate(e)
      modifies this
      ensures Valid() && State() == Processed(old(State()), e, now, window, maxWait)
    {
      hide PathText, Scheduled, Cancelled, Release;
      ghost var before := State();
      if key in buckets {
        var bucket := buckets[key];
        if now - bucket.firstTs >= maxWait {
          FlushBucket(key);
          OpenedAnew(State(), e, now, window);
          buckets := buckets[key := Bucket([e], now, now, None)];
          ScheduleTimer(key, now);
          return;
        }
        ExtendedInPlace(before, e, now, window);
        buckets := buckets[key := Bucket(bucket.events + [e], bucket.firstTs, now, bucket.timer)];
      } else {
        NothingFlushed(before, key);
        OpenedAnew(before, e, now, window);
        buckets := buckets[key := Bucket([e], now, now, None)];
      }
      ScheduleTimer(key, now);
    }

    method ScheduleTimer(key: string, now: int)
      requires Valid() && key in buckets
      modifies this
      ensures Valid()
      ensures State()
        == Scheduled(Cancelled(old(State()), old(buckets[key].timer)), key, old(buckets[key]), now + window)
    {
      if buckets[key].timer.Some? {
        timers := timers - {buckets[key].timer.value};
      }
      timers := timers[nextTimer := Timer(key, now + window)];
      buckets := buckets[key := buckets[key].(timer := Some(nextTimer))];
      nextTimer := nextTimer + 1;
    }

    method TimerCallback(id: nat)
      requires Valid() && id in timers
      modifies this
      ensures Valid() && State() == Fired(old(State()), id)
    {
      var key := timers[id].key;
      timers := timers - {id};
      FlushBucket(key);
    }

    method FlushBucket(key: string)
      requires Valid()
      modifies this
      ensures Valid() && State() == Flushed(old(State()), key)
    {
      if key in inFlight && inFlight[key] {
        return;
      }
      if key !in buckets {
        assert buckets - {key} == buckets;
        return;
      }
      var bucket := buckets[key];
      buckets := buckets - {key};
      inFlight := inFlight[key := true];
      processedQueue := processedQueue + [bucket.events[|bucket.events| - 1]];
      inFlight := inFlight[key := false];
    }
  }
}
