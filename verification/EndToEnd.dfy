// From the collectors to the answers: what the endpoints say depends only on the events the spool accepted.
module EndToEnd {
  import opened Events
  import opened EventStore
  import opened AssignmentKey
  import opened Queries
  import opened Ties
  import Delivery

  // ---- the size constraint over runs ------------------------------------------------------------------

  lemma SameRowsAllowed(ts: Tables, us: Tables)
    requires AllAllowed(ts) && SameRows(ts, us)
    ensures AllAllowed(us)
  {
    forall kind: Kind, row | row in us.Of(kind).rows ensures row in ts.Of(kind).rows {
      assert ts.Of(kind).rows == us.Of(kind).rows;
    }
  }

  lemma StepKeepsAllowed(s: Delivery.State, step: Delivery.Step)
    requires AllAllowed(s.tables) && Delivery.Enabled(s, step)
    ensures AllAllowed(Delivery.Apply(s, step).tables)
  {
    hide AllAllowed, SameRows;
    match step
    case Commit(request, d) => BatchAllowsOnly(d, s.tables, s.sent[request]);
    case BackendFails(after) => SameRowsAllowed(s.tables, after);
    case Elsewhere(d, items) => BatchAllowsOnly(d, s.tables, items);
    case _ =>
  }

  lemma {:induction false} RunKeepsAllowed(s: Delivery.State, steps: seq<Delivery.Step>)
    requires AllAllowed(s.tables) && Delivery.Legal(s, steps)
    ensures AllAllowed(Delivery.Run(s, steps).tables)
    decreases |steps|
  {
    hide AllAllowed, Delivery.Enabled, Delivery.Apply;
    if steps != [] {
      StepKeepsAllowed(s, steps[0]);
      RunKeepsAllowed(Delivery.Apply(s, steps[0]), steps[1..]);
    }
  }

  lemma RunQueryable(steps: seq<Delivery.Step>)
    requires Delivery.Legal(Delivery.INIT, steps)
    ensures Delivery.Inv(Delivery.Run(Delivery.INIT, steps)) && Queryable(Delivery.Run(Delivery.INIT, steps).tables)
  {
    hide Delivery.Legal, Delivery.Run;
    Delivery.InitOk();
    Delivery.RunKeepsInv(Delivery.INIT, steps);
    RunKeepsAllowed(Delivery.INIT, steps);
  }

  // ---- runs that have delivered everything ------------------------------------------------------------

  // What other collectors have stored is the same in both.
  ghost predicate SameElsewhere(s: Delivery.State, t: Delivery.State) {
    forall kind: Kind, id | (kind, id) !in s.first ::
      var p, q := Payloads(s.tables.Of(kind)), Payloads(t.tables.Of(kind));
      (id in p <==> id in q) && (id in p ==> p[id] == q[id])
  }

  // With an empty spool an accepted event is stored, with the payload first accepted.
  lemma AcceptedPayload(s: Delivery.State, kind: Kind, id: EventId)
    requires Delivery.Inv(s) && s.spool == map[] && (kind, id) in s.first
    ensures var p := Payloads(s.tables.Of(kind)); id in p && p[id] == s.first[(kind, id)]
  {
    hide WellFormed, Delivery.SentFaithful, Delivery.AnsweredStored;
    var t := s.tables.Of(kind);
    assert Delivery.Stored(s, kind, id);
    IdsAreEvents(t, id);
    assert Delivery.RowFaithful(s, kind, RowOf(t, id));
  }

  lemma DeliveredSamePayloads(s: Delivery.State, t: Delivery.State)
    requires Delivery.Inv(s) && Delivery.Inv(t) && s.spool == t.spool == map[]
    requires s.first == t.first && SameElsewhere(s, t)
    ensures SamePayloadsIn(s.tables, t.tables)
  {
    hide Delivery.Inv, Payloads;
    forall kind: Kind ensures Payloads(s.tables.Of(kind)) == Payloads(t.tables.Of(kind)) {
      var p, q := Payloads(s.tables.Of(kind)), Payloads(t.tables.Of(kind));
      forall id: EventId ensures (id in p <==> id in q) && (id in p ==> p[id] == q[id]) {
        if (kind, id) in s.first {
          AcceptedPayload(s, kind, id);
          AcceptedPayload(t, kind, id);
        }
      }
    }
  }

  /** End to end: two runs of the delivery protocol, with whatever crashes, losses, repetitions, orders and
      groupings, that accepted the same events and have emptied their spools answer the same about every
      student whose ties agree: trends for every interval, every figure of the dashboard, the graph
      for every range. What other collectors stored meanwhile must be the same too. */
  lemma DeliveredSameAnswers(a: seq<Delivery.Step>, b: seq<Delivery.Step>, scope: Scope, student: string)
    requires Delivery.Legal(Delivery.INIT, a) && Delivery.Legal(Delivery.INIT, b)
    requires var s, t := Delivery.Run(Delivery.INIT, a), Delivery.Run(Delivery.INIT, b);
      s.spool == t.spool == map[] && s.first == t.first && SameElsewhere(s, t)
    ensures var s, t := Delivery.Run(Delivery.INIT, a), Delivery.Run(Delivery.INIT, b);
      && Queryable(s.tables) && Queryable(t.tables)
      && (TiesAgree(StudentSnaps(s.tables, scope, student)) ==> SameAnswers(s.tables, t.tables, scope, student))
  {
    hide Queryable, Delivery.Inv, Delivery.Legal, Delivery.Run, SameElsewhere, SamePayloadsIn, StudentSnaps, TiesAgree;
    hide SameAnswers;
    RunQueryable(a);
    RunQueryable(b);
    var s, t := Delivery.Run(Delivery.INIT, a), Delivery.Run(Delivery.INIT, b);
    DeliveredSamePayloads(s, t);
    if TiesAgree(StudentSnaps(s.tables, scope, student)) {
      SamePayloadsSameAnswers(s.tables, t.tables, scope, student);
    }
  }
}
