// How long an event can wait in the debouncer when timers fire on time.
module DebouncerLatency {
  import Events
  import opened Debouncer
  import opened Paths
  import opened DebouncerRuns

  // Nothing happens later than a live timer is due, and no timer fires before it is due.
  ghost predicate OnTime(w: World, h: Happening) {
    && (forall id | id in w.core.timers :: h.at <= w.core.timers[id].due)
    && (h.Fires? && h.id in w.core.timers ==> w.core.timers[h.id].due <= h.at)
  }

  ghost predicate LegalOnTime(cfg: Config, w: World, hs: seq<Happening>)
    decreases |hs|
  {
    Legal(cfg, w, hs) && (hs == [] || (OnTime(w, hs[0]) && LegalOnTime(cfg, Apply(cfg, w, hs[0]), hs[1..])))
  }

  // Input i, or a later event of its key, was forwarded less than maxWait + window after i came in.
  ghost predicate Prompt(cfg: Config, w: World, i: nat)
    requires i < |w.ins| == |w.insAt| && |w.outAt| == |w.core.queue|
  {
    exists j | 0 <= j < |w.core.queue| ::
      GenerateKey(w.core.queue[j]) == GenerateKey(w.ins[i]) && w.core.queue[j].serial >= i
      && w.outAt[j] < w.insAt[i] + cfg.maxWait + cfg.window
  }

  ghost predicate BucketTimed(cfg: Config, w: World, b: Bucket) {
    && b.events != [] && b.events[0].serial < |w.insAt|
    && b.firstTs == w.insAt[b.events[0].serial]
    && b.lastTs - b.firstTs < cfg.maxWait
    && b.timer.Some? && b.timer.value in w.core.timers
    && w.core.timers[b.timer.value].due == b.lastTs + cfg.window
  }

  ghost predicate Timed(cfg: Config, w: World)
    requires |w.ins| == |w.insAt| && |w.outAt| == |w.core.queue|
  {
    && (forall id | id in w.core.timers :: w.now <= w.core.timers[id].due)
    && (forall key | key in w.core.buckets :: BucketTimed(cfg, w, w.core.buckets[key]))
    && (forall i | 0 <= i < |w.ins| :: Prompt(cfg, w, i) || Pending(w, i))
  }

  ghost predicate Good(cfg: Config, w: World) {
    Inv(w) && Timed(cfg, w) && cfg.maxWait > 0 && cfg.window >= 0
  }

  // Appending outputs or inputs keeps what was prompt.
  lemma PromptStays(cfg: Config, w: World, v: World, i: nat)
    requires History(w) && History(v) && i < |w.ins|
    requires w.ins <= v.ins && w.insAt <= v.insAt && w.core.queue <= v.core.queue && w.outAt <= v.outAt
    ensures Prompt(cfg, w, i) ==> Prompt(cfg, v, i)
  {
    if Prompt(cfg, w, i) {
      var j :| 0 <= j < |w.core.queue| &&
        GenerateKey(w.core.queue[j]) == GenerateKey(w.ins[i]) && w.core.queue[j].serial >= i
        && w.outAt[j] < w.insAt[i] + cfg.maxWait + cfg.window;
      assert v.core.queue[j] == w.core.queue[j] && v.outAt[j] == w.outAt[j];
    }
  }

  lemma BucketTimedStays(cfg: Config, w: World, v: World, b: Bucket)
    requires BucketTimed(cfg, w, b) && w.insAt <= v.insAt
    requires b.timer.Some? && b.timer.value in w.core.timers ==>
      b.timer.value in v.core.timers && v.core.timers[b.timer.value] == w.core.timers[b.timer.value]
    ensures BucketTimed(cfg, v, b)
  {
  }

  lemma TickTimed(cfg: Config, w: World, at: int)
    requires Good(cfg, w) && at >= w.now && forall id | id in w.core.timers :: at <= w.core.timers[id].due
    ensures Good(cfg, Ticked(w, at))
  {
    hide PathText, BucketsOk, QueueOk, Prompt, BucketTimed;
    var v := Ticked(w, at);
    TickKeeps(w, at);
    forall i | 0 <= i < |v.ins| ensures Prompt(cfg, v, i) || Pending(v, i) { PromptStays(cfg, w, v, i); }
    forall k | k in v.core.buckets ensures BucketTimed(cfg, v, v.core.buckets[k]) {
      BucketTimedStays(cfg, w, v, w.core.buckets[k]);
    }
  }

  lemma CancelTimed(cfg: Config, w: World, timer: Events.Option<nat>)
    requires Good(cfg, w)
    requires timer.Some? ==> forall key | key in w.core.buckets :: w.core.buckets[key].timer != timer
    ensures Good(cfg, CancelledW(w, timer))
  {
    hide PathText, BucketsOk, QueueOk, Prompt, BucketTimed;
    var v := CancelledW(w, timer);
    CancelKeeps(w, timer);
    forall i | 0 <= i < |v.ins| ensures Prompt(cfg, v, i) || Pending(v, i) { PromptStays(cfg, w, v, i); }
    forall k | k in v.core.buckets ensures BucketTimed(cfg, v, v.core.buckets[k]) {
      BucketTimedStays(cfg, w, v, w.core.buckets[k]);
    }
  }

  // A pending event has waited less than maxWait + window.
  lemma PendingIsYoung(cfg: Config, w: World, i: nat)
    requires Good(cfg, w) && i < |w.ins| && Pending(w, i)
    ensures w.now < w.insAt[i] + cfg.maxWait + cfg.window
  {
    hide PathText, QueueOk, BucketsOk, Prompt;
    var b := w.core.buckets[GenerateKey(w.ins[i])];
    assert BucketTimed(cfg, w, b);
    assert w.now <= w.core.timers[b.timer.value].due;
    assert w.insAt[b.events[0].serial] <= w.insAt[i];
  }

  lemma ReleaseTimed(cfg: Config, w: World, key: string)
    requires Good(cfg, w)
    ensures Good(cfg, ReleasedW(w, key))
  {
    hide PathText, BucketsOk, QueueOk, Prompt, BucketTimed;
    var v := ReleasedW(w, key);
    ReleaseKeeps(w, key);
    forall i | 0 <= i < |v.ins| ensures Prompt(cfg, v, i) || Pending(v, i) {
      PromptStays(cfg, w, v, i);
      if Pending(w, i) && GenerateKey(w.ins[i]) == key { ReleasedPromptly(cfg, w, key, i); }
    }
    forall k | k in v.core.buckets ensures BucketTimed(cfg, v, v.core.buckets[k]) {
      BucketTimedStays(cfg, w, v, w.core.buckets[k]);
    }
  }

  lemma ReleasedPromptly(cfg: Config, w: World, key: string, i: nat)
    requires Good(cfg, w) && i < |w.ins| && Pending(w, i) && GenerateKey(w.ins[i]) == key
    requires History(ReleasedW(w, key))
    ensures Prompt(cfg, ReleasedW(w, key), i)
  {
    hide PathText, BucketOk, QueueOk, Prompt, BucketTimed;
    var v := ReleasedW(w, key);
    var b := w.core.buckets[key];
    BucketEnds(w, key, b);
    PendingIsYoung(cfg, w, i);
    var j := |w.core.queue|;
    assert v.core.queue[j] == b.events[|b.events| - 1] && v.outAt[j] == w.now;
    PromptAt(cfg, v, i, j);
  }

  lemma PromptAt(cfg: Config, w: World, i: nat, j: nat)
    requires History(w) && i < |w.ins| && j < |w.core.queue|
    requires GenerateKey(w.core.queue[j]) == GenerateKey(w.ins[i]) && w.core.queue[j].serial >= i
    requires w.outAt[j] < w.insAt[i] + cfg.maxWait + cfg.window
    ensures Prompt(cfg, w, i)
  {
  }

  lemma EmitTimed(cfg: Config, w: World, e: FsEvent)
    requires Good(cfg, w) && e.serial == |w.ins| && GenerateKey(e) !in w.core.buckets
    ensures Good(cfg, EmittedW(w, e))
  {
    hide PathText, BucketsOk, QueueOk, Prompt, BucketTimed;
    var v := EmittedW(w, e);
    EmitKeeps(w, e);
    PromptAt(cfg, v, |w.ins|, |w.core.queue|);
    forall i | 0 <= i < |v.ins| ensures Prompt(cfg, v, i) || Pending(v, i) {
      if i < |w.ins| { PromptStays(cfg, w, v, i); }
    }
    forall k | k in v.core.buckets ensures BucketTimed(cfg, v, v.core.buckets[k]) {
      BucketTimedStays(cfg, w, v, w.core.buckets[k]);
    }
  }

  lemma OpenTimed(cfg: Config, w: World, e: FsEvent)
    requires Good(cfg, w) && e.serial == |w.ins| && GenerateKey(e) !in w.core.buckets && !Immediate(e)
    ensures Good(cfg, OpenedW(cfg, w, e))
  {
    hide PathText, BucketsOk, QueueOk, Prompt;
    var v := OpenedW(cfg, w, e);
    OpenKeeps(cfg, w, e);
    forall i | 0 <= i < |v.ins| ensures Prompt(cfg, v, i) || Pending(v, i) {
      if i < |w.ins| { PromptStays(cfg, w, v, i); }
    }
    forall k | k in v.core.buckets ensures BucketTimed(cfg, v, v.core.buckets[k]) {
      if k != GenerateKey(e) {
        OldTimer(w, k);
        BucketTimedStays(cfg, w, v, w.core.buckets[k]);
      }
    }
  }

  lemma OldTimer(w: World, key: string)
    requires Inv(w) && key in w.core.buckets
    ensures var t := w.core.buckets[key].timer;
      t.Some? && t.value in w.core.timers && t.value < w.core.nextTimer && w.core.timers[t.value].key == key
  {
    assert BucketOk(w, key, w.core.buckets[key]);
  }

  lemma ExtendTimed(cfg: Config, w: World, e: FsEvent)
    requires Good(cfg, w) && e.serial == |w.ins| && GenerateKey(e) in w.core.buckets && !Immediate(e)
    requires w.now - w.core.buckets[GenerateKey(e)].firstTs < cfg.maxWait
    ensures Good(cfg, ExtendedW(cfg, w, e))
  {
    hide PathText, BucketsOk, QueueOk, Prompt, BucketTimed;
    var v := ExtendedW(cfg, w, e);
    var key := GenerateKey(e);
    ExtendKeeps(cfg, w, e);
    assert BucketTimed(cfg, w, w.core.buckets[key]);
    GrownTimed(cfg, w, e);
    OldTimer(w, key);
    forall i | 0 <= i < |v.ins| ensures Prompt(cfg, v, i) || Pending(v, i) {
      if i < |w.ins| { PromptStays(cfg, w, v, i); }
    }
    forall k | k in v.core.buckets ensures BucketTimed(cfg, v, v.core.buckets[k]) {
      if k != key {
        OldTimer(w, k);
        BucketTimedStays(cfg, w, v, w.core.buckets[k]);
      }
    }
  }

  lemma GrownTimed(cfg: Config, w: World, e: FsEvent)
    requires GenerateKey(e) in w.core.buckets && BucketTimed(cfg, w, w.core.buckets[GenerateKey(e)])
    requires w.now - w.core.buckets[GenerateKey(e)].firstTs < cfg.maxWait
    ensures w.core.buckets[GenerateKey(e)].events != [] && w.core.buckets[GenerateKey(e)].events[0].serial < |w.insAt|
    ensures BucketTimed(cfg, ExtendedW(cfg, w, e), ExtendedW(cfg, w, e).core.buckets[GenerateKey(e)])
  {
    hide PathText;
  }

  lemma HappeningOnTime(cfg: Config, w: World, h: Happening)
    requires Good(cfg, w) && Enabled(w, h) && OnTime(w, h)
    ensures Good(cfg, Apply(cfg, w, h))
  {
    hide PathText, Inv, Timed, Processed, Fired;
    TickTimed(cfg, w, h.at);
    var t := Ticked(w, h.at);
    match h
    case Arrives(e, at) =>
      var key := GenerateKey(e);
      ReleaseTimed(cfg, t, key);
      ReleaseKeeps(t, key);
      if Immediate(e) {
        var a, b := ImmediateMoves(cfg, w, e, at);
        OwnTimerIsLive(w, key);
        if OwnTimer(w.core, key).Some? { TimerIsFree(a, key, OwnTimer(w.core, key).value); }
        CancelTimed(cfg, a, OwnTimer(w.core, key));
        EmitTimed(cfg, b, e);
      } else if key in w.core.buckets && at - w.core.buckets[key].firstTs < cfg.maxWait {
        ExtendMoves(cfg, w, e, at);
        ExtendTimed(cfg, t, e);
      } else {
        var a := OpenMoves(cfg, w, e, at);
        OpenTimed(cfg, a, e);
      }
    case Fires(id, at) =>
      var key := w.core.timers[id].key;
      ReleaseTimed(cfg, t, key);
      ReleaseKeeps(t, key);
      var a := FireMoves(cfg, w, id, at);
      TimerIsFree(a, key, id);
      CancelTimed(cfg, a, Events.Some(id));
  }

  lemma {:induction false} RunOnTime(cfg: Config, w: World, hs: seq<Happening>)
    requires Good(cfg, w) && LegalOnTime(cfg, w, hs)
    ensures Good(cfg, Run(cfg, w, hs))
    decreases |hs|
  {
    hide PathText, Good, Apply, Enabled, OnTime;
    if hs != [] {
      HappeningOnTime(cfg, w, hs[0]);
      RunOnTime(cfg, Apply(cfg, w, hs[0]), hs[1..]);
    }
  }

  lemma StartGood(cfg: Config, now: int)
    requires cfg.maxWait > 0 && cfg.window >= 0
    ensures Good(cfg, Start(now))
  {
    StartOk(now);
  }

  /** Latency: in every run on time, each event that came in has been covered, by an output of itself or of a
      later event of its path, less than maxWait + window after it came in, or that time is not over. Each
      bucket spans less than maxWait and has a live timer due a window after its latest event. */
  lemma LatencyBound(cfg: Config, now: int, hs: seq<Happening>)
    requires cfg.maxWait > 0 && cfg.window >= 0
    requires LegalOnTime(cfg, Start(now), hs)
    ensures var w := Run(cfg, Start(now), hs); var q := w.core.queue;
      && |w.insAt| == |w.ins| && |w.outAt| == |q|
      && (forall i | 0 <= i < |w.ins| ::
            w.now < w.insAt[i] + cfg.maxWait + cfg.window
            || exists j | 0 <= j < |q| :: SamePath(q[j], w.ins[i]) && q[j].serial >= i
                 && w.outAt[j] < w.insAt[i] + cfg.maxWait + cfg.window)
      && (forall key | key in w.core.buckets ::
            var b := w.core.buckets[key];
            && b.lastTs - b.firstTs < cfg.maxWait
            && b.timer.Some? && b.timer.value in w.core.timers
            && w.core.timers[b.timer.value] == Timer(key, b.lastTs + cfg.window))
  {
    hide GenerateKey, SamePath, Run, Legal, QueueOk, BucketsOk, Caught;
    StartGood(cfg, now);
    RunOnTime(cfg, Start(now), hs);
    var w := Run(cfg, Start(now), hs);
    forall i | 0 <= i < |w.ins| && !Prompt(cfg, w, i)
      ensures w.now < w.insAt[i] + cfg.maxWait + cfg.window
    {
      PendingIsYoung(cfg, w, i);
    }
    forall key | key in w.core.buckets
      ensures w.core.buckets[key].timer.Some? && w.core.buckets[key].timer.value in w.core.timers
      ensures w.core.timers[w.core.buckets[key].timer.value].key == key
    {
      OldTimer(w, key);
    }
    forall key | key in w.core.buckets ensures BucketTimed(cfg, w, w.core.buckets[key]) {}
    forall e: FsEvent, f: FsEvent ensures GenerateKey(e) == GenerateKey(f) <==> SamePath(e, f) { SameKeyIff(e, f); }
  }
}
