// When an event is forwarded only after a full quiet window: as long as no forced flush leaves a timer behind.
module DebouncerWindows {
  import Events
  import opened Debouncer
  import opened Paths
  import opened DebouncerRuns
  import opened DebouncerLatency

  // The guard of the forced flush: the bucket of an arriving modified event is maxWait old.
  predicate Forced(cfg: Config, w: World, h: Happening) {
    && h.Arrives? && !Immediate(h.e) && GenerateKey(h.e) in w.core.buckets
    && h.at - w.core.buckets[GenerateKey(h.e)].firstTs >= cfg.maxWait
  }

  // The bucket knows when its last event came in.
  ghost predicate Stamped(w: World, b: Bucket) {
    && b.events != [] && b.events[|b.events| - 1].serial < |w.insAt|
    && b.lastTs == w.insAt[b.events[|b.events| - 1].serial]
  }

  ghost predicate Dated(w: World) {
    forall key | key in w.core.buckets :: Stamped(w, w.core.buckets[key])
  }

  // Every live timer is that of a bucket, so none is stale.
  ghost predicate Clean(c: Core) {
    forall id | id in c.timers :: OwnTimer(c, c.timers[id].key) == Events.Some(id)
  }

  // Timers have ids already given out, and each bucket has a live one of its own.
  ghost predicate Supplied(c: Core) {
    && (forall id | id in c.timers :: id < c.nextTimer)
    && (forall key | key in c.buckets ::
          var own := c.buckets[key].timer;
          own.Some? && own.value in c.timers && c.timers[own.value].key == key)
  }

  // A timer that releases a bucket forwards its last event exactly a window after that event came in.
  ghost predicate FullWindow(cfg: Config, w: World, h: Happening) {
    h.Fires? && h.id in w.core.timers && Holds(w.core, w.core.timers[h.id].key) ==>
      var last := Release(w.core, w.core.timers[h.id].key)[0];
      last.serial < |w.insAt| && h.at == w.insAt[last.serial] + cfg.window
  }

  ghost predicate Unforced(cfg: Config, w: World, hs: seq<Happening>)
    requires Legal(cfg, w, hs)
    decreases |hs|
  {
    hs == [] || (!Forced(cfg, w, hs[0]) && Unforced(cfg, Apply(cfg, w, hs[0]), hs[1..]))
  }

  ghost predicate FullWindows(cfg: Config, w: World, hs: seq<Happening>)
    requires Legal(cfg, w, hs)
    decreases |hs|
  {
    hs == [] || (FullWindow(cfg, w, hs[0]) && FullWindows(cfg, Apply(cfg, w, hs[0]), hs[1..]))
  }

  // What holds of every world a run on time reaches.
  ghost predicate Reached(cfg: Config, w: World) {
    Good(cfg, w) && Dated(w)
  }

  lemma GoodIsSupplied(cfg: Config, w: World)
    requires Good(cfg, w)
    ensures Supplied(w.core)
  {
    hide Prompt, QueueOk, PathText, BucketTimed;
    forall key | key in w.core.buckets
      ensures var own := w.core.buckets[key].timer;
        own.Some? && own.value in w.core.timers && w.core.timers[own.value].key == key
    {
      OldTimer(w, key);
    }
  }

  // ---- one step ------------------------------------------------------------------------------------

  lemma HappeningDated(cfg: Config, w: World, h: Happening)
    requires Dated(w) && Enabled(w, h) && |w.insAt| == |w.ins|
    ensures Dated(Apply(cfg, w, h))
  {
    hide PathText, Release, Stamp;
    var v := Apply(cfg, w, h);
    forall key | key in v.core.buckets ensures Stamped(v, v.core.buckets[key]) {
      if key in w.core.buckets && v.core.buckets[key] == w.core.buckets[key] {
        assert Stamped(w, w.core.buckets[key]);
      }
    }
  }

  lemma HappeningReached(cfg: Config, w: World, h: Happening)
    requires Reached(cfg, w) && Enabled(w, h) && OnTime(w, h)
    ensures Reached(cfg, Apply(cfg, w, h))
  {
    hide Dated, Timed, QueueOk, BucketsOk, Caught, ImmediatesOut, Apply;
    HappeningOnTime(cfg, w, h);
    HappeningDated(cfg, w, h);
  }

  lemma HappeningClean(cfg: Config, w: World, h: Happening)
    requires Supplied(w.core) && Clean(w.core) && Enabled(w, h) && !Forced(cfg, w, h)
    ensures Clean(Apply(cfg, w, h).core)
  {
    hide PathText, Release, Stamp;
    var c, d := w.core, Apply(cfg, w, h).core;
    forall id | id in d.timers ensures OwnTimer(d, d.timers[id].key) == Events.Some(id) {
      if id in c.timers { assert OwnTimer(c, c.timers[id].key) == Events.Some(id); }
    }
  }

  /** In every run on time, stale timers included, a timer that releases a bucket does so at most a window after
      the bucket's last event came in, and after the full window exactly when it is due with the bucket's
      own timer; so always when it is that timer. */
  lemma ReleaseWaits(cfg: Config, w: World, id: nat, at: int)
    requires Reached(cfg, w) && Enabled(w, Fires(id, at)) && OnTime(w, Fires(id, at))
    requires Holds(w.core, w.core.timers[id].key)
    ensures var key := w.core.timers[id].key; var b := w.core.buckets[key]; var last := Release(w.core, key)[0];
      && last.serial < |w.insAt| && b.timer.Some? && b.timer.value in w.core.timers
      && at <= w.insAt[last.serial] + cfg.window
      && (FullWindow(cfg, w, Fires(id, at)) <==> w.core.timers[id].due == w.core.timers[b.timer.value].due)
  {
    hide Prompt, QueueOk, BucketsOk, PathText, Caught;
    var key := w.core.timers[id].key;
    assert BucketTimed(cfg, w, w.core.buckets[key]) && Stamped(w, w.core.buckets[key]);
  }

  // ---- without a forced flush --------------------------------------------------------------------------

  lemma {:induction false} UnforcedRun(cfg: Config, w: World, hs: seq<Happening>)
    requires Reached(cfg, w) && Clean(w.core) && LegalOnTime(cfg, w, hs) && Unforced(cfg, w, hs)
    ensures FullWindows(cfg, w, hs) && Reached(cfg, Run(cfg, w, hs)) && Clean(Run(cfg, w, hs).core)
    decreases |hs|
  {
    hide Reached, Clean, Apply, Enabled, OnTime, Forced, FullWindow;
    if hs != [] {
      var h := hs[0];
      ReachedIsSupplied(cfg, w);
      OwnTimerWaits(cfg, w, h);
      HappeningReached(cfg, w, h);
      HappeningClean(cfg, w, h);
      UnforcedRun(cfg, Apply(cfg, w, h), hs[1..]);
    }
  }

  lemma ReachedIsSupplied(cfg: Config, w: World)
    requires Reached(cfg, w)
    ensures Supplied(w.core)
  {
    hide Good;
    GoodIsSupplied(cfg, w);
  }

  lemma OwnTimerWaits(cfg: Config, w: World, h: Happening)
    requires Reached(cfg, w) && Clean(w.core) && Enabled(w, h) && OnTime(w, h)
    ensures FullWindow(cfg, w, h)
  {
    hide Reached, OnTime;
    if h.Fires? && Holds(w.core, w.core.timers[h.id].key) { ReleaseWaits(cfg, w, h.id, h.at); }
  }

  lemma StartReached(cfg: Config, now: int)
    requires cfg.maxWait > 0 && cfg.window >= 0
    ensures Reached(cfg, Start(now)) && Clean(Start(now).core)
  {
    StartGood(cfg, now);
  }

  /** In a run on time in which no arriving event finds its bucket maxWait old, every live timer is its
      bucket's own, and every timer that releases a bucket forwards the bucket's last event exactly a
      window after that event came in. */
  lemma FullWindowsUnforced(cfg: Config, now: int, hs: seq<Happening>)
    requires cfg.maxWait > 0 && cfg.window >= 0
    requires LegalOnTime(cfg, Start(now), hs) && Unforced(cfg, Start(now), hs)
    ensures FullWindows(cfg, Start(now), hs) && Clean(Run(cfg, Start(now), hs).core)
  {
    hide Reached, Clean, Run, Legal, LegalOnTime;
    StartReached(cfg, now);
    UnforcedRun(cfg, Start(now), hs);
  }

  // ---- with one -------------------------------------------------------------------------------------------

  // A live timer of the key of a bucket, due before the bucket's own, with no other of that key due so early.
  ghost predicate Stale(cfg: Config, w: World, id: nat) {
    && id in w.core.timers && Holds(w.core, w.core.timers[id].key)
    && w.core.timers[id].due < w.core.buckets[w.core.timers[id].key].lastTs + cfg.window
    && forall j | j in w.core.timers && j != id && w.core.timers[j].key == w.core.timers[id].key ::
         w.core.timers[j].due > w.core.timers[id].due
  }

  lemma ForcedCore(c: Core, e: FsEvent, now: int, window: int, maxWait: int) returns (id: nat)
    requires Supplied(c) && Clean(c) && !Immediate(e) && GenerateKey(e) in c.buckets
    requires now - c.buckets[GenerateKey(e)].firstTs >= maxWait
    ensures var key := GenerateKey(e); var d := Processed(c, e, now, window, maxWait);
      && c.buckets[key].timer == Events.Some(id) && id in c.timers && id in d.timers
      && d.timers[id] == c.timers[id] && d.timers[id].key == key
      && key in d.buckets && d.buckets[key].events == [e] && d.buckets[key].firstTs == d.buckets[key].lastTs == now
      && forall j | j in d.timers && j != id && d.timers[j].key == key :: d.timers[j].due == now + window
  {
    hide PathText, Release;
    var key := GenerateKey(e);
    id := c.buckets[key].timer.value;
    assert forall j | j in c.timers && c.timers[j].key == key :: OwnTimer(c, key) == Events.Some(j);
  }

  /** A forced flush leaves the old bucket's timer live, due less than a window after the new bucket opened. */
  lemma ForcedLeavesStale(cfg: Config, w: World, h: Happening) returns (id: nat)
    requires Reached(cfg, w) && Clean(w.core) && Enabled(w, h) && OnTime(w, h) && Forced(cfg, w, h)
    ensures var v := Apply(cfg, w, h); var key := GenerateKey(h.e);
      && key in v.core.buckets && v.core.buckets[key].firstTs == h.at
      && Stale(cfg, v, id) && v.core.timers[id].key == key && v.core.timers[id].due < h.at + cfg.window
  {
    hide Prompt, QueueOk, PathText, Caught, Clean, Supplied, Processed, BucketsOk, ImmediatesOut, Pending, Stamped;
    var key := GenerateKey(h.e);
    ReachedIsSupplied(cfg, w);
    assert BucketTimed(cfg, w, w.core.buckets[key]);
    id := ForcedCore(w.core, h.e, h.at, cfg.window, cfg.maxWait);
  }

  lemma Soonest(timers: map<nat, Timer>) returns (j: nat)
    requires timers != map[]
    ensures j in timers && forall k | k in timers :: timers[j].due <= timers[k].due
    decreases |timers|
  {
    var x :| x in timers;
    j := x;
    assert forall k | k in timers :: k == x || k in timers - {x};
    if timers - {x} != map[] {
      var y := Soonest(timers - {x});
      if timers[y].due < timers[x].due { j := y; }
    } else {
      assert forall k | k in timers :: k !in timers - {x};
    }
  }

  lemma FireOther(cfg: Config, w: World, id: nat, j: nat)
    requires Stale(cfg, w, id) && j in w.core.timers && w.core.timers[j].key != w.core.timers[id].key
    requires Enabled(w, Fires(j, w.core.timers[j].due))
    ensures Stale(cfg, Apply(cfg, w, Fires(j, w.core.timers[j].due)), id)
    ensures Apply(cfg, w, Fires(j, w.core.timers[j].due)).core.timers == w.core.timers - {j}
  {
    hide Release, Stamp;
  }

  lemma {:induction false} StaleReleasesEarly(cfg: Config, w: World, id: nat) returns (more: seq<Happening>)
    requires Reached(cfg, w) && Stale(cfg, w, id)
    ensures LegalOnTime(cfg, w, more) && Unforced(cfg, w, more) && !FullWindows(cfg, w, more)
    decreases |w.core.timers|
  {
    hide Reached, Apply;
    var j := Soonest(w.core.timers);
    var first := if w.core.timers[j].due == w.core.timers[id].due then id else j;
    var h := Fires(first, w.core.timers[first].due);
    TimerNotPast(cfg, w, first);
    var v := Apply(cfg, w, h);
    if first == id {
      more := [];
      ReleaseWaits(cfg, w, id, h.at);
      assert !FullWindow(cfg, w, h) by { StaleIsEarlier(cfg, w, id); }
    } else {
      HappeningReached(cfg, w, h);
      FireOther(cfg, w, id, j);
      more := StaleReleasesEarly(cfg, v, id);
    }
    Prepend(cfg, w, h, more);
    more := [h] + more;
  }

  lemma Prepend(cfg: Config, w: World, h: Happening, rest: seq<Happening>)
    requires Enabled(w, h) && OnTime(w, h) && h.Fires? && LegalOnTime(cfg, Apply(cfg, w, h), rest)
    requires Unforced(cfg, Apply(cfg, w, h), rest)
    ensures LegalOnTime(cfg, w, [h] + rest) && Unforced(cfg, w, [h] + rest)
    ensures FullWindows(cfg, w, [h] + rest) <==> FullWindow(cfg, w, h) && FullWindows(cfg, Apply(cfg, w, h), rest)
  {
    hide Apply, FullWindow;
    assert ([h] + rest)[1..] == rest;
  }

  lemma TimerNotPast(cfg: Config, w: World, id: nat)
    requires Reached(cfg, w) && id in w.core.timers
    ensures w.now <= w.core.timers[id].due
  {
    hide Prompt, QueueOk, PathText, Caught, BucketsOk;
  }

  lemma StaleIsEarlier(cfg: Config, w: World, id: nat)
    requires Reached(cfg, w) && Stale(cfg, w, id)
    ensures var own := w.core.buckets[w.core.timers[id].key].timer;
      own.Some? && own.value in w.core.timers && w.core.timers[id].due < w.core.timers[own.value].due
  {
    hide Prompt, QueueOk, PathText, Caught, BucketsOk;
    assert BucketTimed(cfg, w, w.core.buckets[w.core.timers[id].key]);
  }

  /** Exactly when the full window is kept. After any run on time without a forced flush, and an event that
      then comes in: whatever follows on time and without a forced flush, every timer that releases a
      bucket does so a full window after its last event, if and only if the event did not find its bucket
      maxWait old. */
  lemma FullWindowsIff(cfg: Config, now: int, hs: seq<Happening>, e: FsEvent, at: int)
    requires cfg.maxWait > 0 && cfg.window >= 0
    requires LegalOnTime(cfg, Start(now), hs) && Unforced(cfg, Start(now), hs)
    requires Enabled(Run(cfg, Start(now), hs), Arrives(e, at)) && OnTime(Run(cfg, Start(now), hs), Arrives(e, at))
    ensures var w := Run(cfg, Start(now), hs); var v := Apply(cfg, w, Arrives(e, at));
      (forall more: seq<Happening> | LegalOnTime(cfg, v, more) && Unforced(cfg, v, more) :: FullWindows(cfg, v, more))
      <==> !Forced(cfg, w, Arrives(e, at))
  {
    hide Reached, Clean, Run, Legal, Apply, Forced, Unforced, FullWindows, Enabled, OnTime;
    var h := Arrives(e, at);
    StartReached(cfg, now);
    UnforcedRun(cfg, Start(now), hs);
    var w := Run(cfg, Start(now), hs);
    var v := Apply(cfg, w, h);
    HappeningReached(cfg, w, h);
    if Forced(cfg, w, h) {
      var id := ForcedLeavesStale(cfg, w, h);
      var more := StaleReleasesEarly(cfg, v, id);
    } else {
      ReachedIsSupplied(cfg, w);
      HappeningClean(cfg, w, h);
      forall more: seq<Happening> | LegalOnTime(cfg, v, more) && Unforced(cfg, v, more)
        ensures FullWindows(cfg, v, more)
      {
        UnforcedRun(cfg, v, more);
      }
    }
  }

  /** Forced flushes do happen on time: two events of one path, the second more than maxWait after the first. */
  lemma ForcedHappens(e: FsEvent, f: FsEvent)
    requires e.serial == 0 && f.serial == 1 && e.eventType.Modified? && f.eventType.Modified? && e.srcPath == f.srcPath
    ensures var cfg, w := Config(10, 5), Start(0); var h, g := Arrives(e, 0), Arrives(f, 6);
      && LegalOnTime(cfg, w, [h]) && Unforced(cfg, w, [h])
      && Enabled(Run(cfg, w, [h]), g) && OnTime(Run(cfg, w, [h]), g) && Forced(cfg, Run(cfg, w, [h]), g)
  {
    hide PathText;
    var cfg, h := Config(10, 5), Arrives(e, 0);
    assert [h][1..] == [];
    assert Run(cfg, Apply(cfg, Start(0), h), []) == Apply(cfg, Start(0), h);
  }
}
