// Snapshots that differ only in their row ids: when the analytics of two such tables agree.
module Ties {
  import opened Events
  import opened Order
  import opened Sums
  import opened Snapshots
  import opened Trends
  import opened Variation

  ghost predicate SameButRowIds(a: Snaps, b: Snaps) {
    a.Keys == b.Keys && forall e | e in a :: a[e].(rowId := 0) == b[e].(rowId := 0)
  }

  // Snapshots of one file at one time have equal sizes.
  ghost predicate TiesAgree(t: Snaps) {
    forall x, y | x in t && y in t && SameFile(t[x], t[y]) && t[x].at == t[y].at :: t[x].size == t[y].size
  }

  // What all the window queries do with a row: its previous size in the file and its size give a number,
  // and a size that repeats gives 0.
  type Weight = (Option<int>, int) -> int

  ghost predicate IgnoresRepeats(f: Weight) {
    forall size: int :: f(Some(size), size) == 0
  }

  ghost function Weights(t: Snaps, f: Weight): map<EventId, int>
    requires SnapsOk(t)
  {
    map e | e in t :: f(Lag(t, e), t[e].size)
  }

  lemma Agree(a: Snaps, b: Snaps, e: EventId)
    requires SameButRowIds(a, b) && e in a
    ensures e in b && a[e].student == b[e].student && a[e].path == b[e].path
    ensures a[e].size == b[e].size && a[e].at == b[e].at
  {
    assert a[e].(rowId := 0) == b[e].(rowId := 0);
  }

  function InWindow(t: Snaps): (EventId, EventId) -> bool {
    (a, b) => Older(t, a, b)
  }

  lemma OlderTotal(t: Snaps, s: set<EventId>)
    requires SnapsOk(t) && s <= t.Keys
    ensures TotalOn(InWindow(t), s)
  {
  }

  // The first of some rows in the order of the window.
  ghost function First(t: Snaps, s: set<EventId>): (e: EventId)
    requires SnapsOk(t) && s <= t.Keys && s != {}
    ensures e in s && forall a | a in s && a != e :: Older(t, e, a)
  {
    OlderTotal(t, s);
    assert forall a | a in s :: InWindow(t)(MinOf(s, InWindow(t)), a) ==> Older(t, MinOf(s, InWindow(t)), a);
    MinOf(s, InWindow(t))
  }

  // ---- ties do not decide the last size -------------------------------------------------------------

  lemma SameLastSize(a: Snaps, b: Snaps, s: set<EventId>)
    requires SnapsOk(a) && SnapsOk(b) && SameButRowIds(a, b) && TiesAgree(a)
    requires s != {} && s <= a.Keys && forall x, y | x in s && y in s :: SameFile(a[x], a[y])
    ensures a[Last(a, s)].size == b[Last(b, s)].size
  {
    hide SameButRowIds, SnapsOk;
    assert s <= b.Keys by { forall e | e in s ensures e in b { Agree(a, b, e); } }
    var x, y := Last(a, s), Last(b, s);
    Agree(a, b, x);
    Agree(a, b, y);
    assert SameFile(a[x], a[y]);
    assert x != y ==> Older(a, y, x) && Older(b, x, y);
  }

  // Rows with the same predecessors in both tables have the same previous size.
  lemma SamePrevious(a: Snaps, b: Snaps, e: EventId, e': EventId)
    requires SnapsOk(a) && SnapsOk(b) && SameButRowIds(a, b) && TiesAgree(a)
    requires e in a && e' in b && Preceding(a, e) == Preceding(b, e')
    ensures Lag(a, e) == Lag(b, e')
  {
    hide SnapsOk, SameButRowIds, TiesAgree;
    if Preceding(a, e) != {} { SameLastSize(a, b, Preceding(a, e)); }
  }

  // A row that is not the first of its time in its file repeats the size before it.
  lemma TiedRepeats(t: Snaps, e: EventId, y: EventId)
    requires SnapsOk(t) && TiesAgree(t) && e in t && y in Preceding(t, e) && t[y].at == t[e].at
    ensures Lag(t, e) == Some(t[e].size)
  {
    hide SnapsOk;
    var x := Last(t, Preceding(t, e));
    assert x != y ==> Older(t, y, x);
    assert Older(t, x, e);
  }

  // ---- sums of weights -------------------------------------------------------------------------------

  lemma WithoutRow(t: Snaps, x: EventId)
    requires SnapsOk(t)
    ensures SnapsOk(t - {x})
  {
  }

  lemma BothWithout(a: Snaps, b: Snaps, x: EventId)
    requires SameButRowIds(a, b) && TiesAgree(a)
    ensures SameButRowIds(a - {x}, b - {x}) && TiesAgree(a - {x})
  {
  }

  // No row of its file comes after x.
  ghost predicate Final(t: Snaps, x: EventId)
    requires x in t
  {
    forall y | y in t && SameFile(t[y], t[x]) :: !Older(t, x, y)
  }

  lemma RemoveFinal(t: Snaps, x: EventId, f: Weight)
    requires SnapsOk(t) && SnapsOk(t - {x}) && x in t && Final(t, x)
    ensures Sum(Weights(t, f)) == f(Lag(t, x), t[x].size) + Sum(Weights(t - {x}, f))
  {
    hide Sum, SnapsOk, Lag;
    var u := t - {x};
    assert Beginning(u, t);
    forall e | e in u ensures Lag(u, e) == Lag(t, e) { LagInBeginning(u, t, e); }
    SumRemove(Weights(t, f), x);
    assert Weights(t, f) - {x} == Weights(u, f);
  }

  // y comes right after x in the file.
  ghost predicate Next(t: Snaps, x: EventId, y: EventId) {
    && x in t && y in t && SameFile(t[x], t[y]) && Older(t, x, y)
    && forall e | e in t && SameFile(t[e], t[x]) && Older(t, x, e) && e != y :: Older(t, y, e)
  }

  function Following(t: Snaps, x: EventId): set<EventId>
    requires x in t
  {
    set y | y in t && SameFile(t[y], t[x]) && Older(t, x, y)
  }

  lemma FollowingFirst(t: Snaps, x: EventId)
    requires SnapsOk(t) && x in t
    ensures Following(t, x) == {} <==> Final(t, x)
    ensures Following(t, x) != {} ==> Next(t, x, First(t, Following(t, x)))
  {
    if Following(t, x) != {} {
      var z := First(t, Following(t, x));
      assert z in Following(t, x);
      forall e | e in t && SameFile(t[e], t[x]) && Older(t, x, e) && e != z ensures Older(t, z, e) {
        assert e in Following(t, x);
      }
    }
    if !Final(t, x) {
      var y :| y in t && SameFile(t[y], t[x]) && Older(t, x, y);
      assert y in Following(t, x);
    }
  }

  lemma SuccessorLags(t: Snaps, x: EventId, y: EventId)
    requires SnapsOk(t) && SnapsOk(t - {x}) && Next(t, x, y)
    ensures Lag(t, y) == Some(t[x].size) && Lag(t - {x}, y) == Lag(t, x)
  {
    var u := t - {x};
    assert Preceding(u, y) == Preceding(t, x);
    assert Preceding(t, y) == Preceding(t, x) + {x};
    assert Last(t, Preceding(t, y)) == x;
    if Preceding(t, x) != {} { LastAgrees(u, t, Preceding(t, x)); }
  }

  lemma OtherPreceding(t: Snaps, x: EventId, y: EventId, e: EventId)
    requires SnapsOk(t) && Next(t, x, y) && e in t && e != x && e != y
    ensures Preceding(t - {x}, e) == Preceding(t, e) - {x} && Preceding(t, e) <= t.Keys
    ensures x in Preceding(t, e) ==> y in Preceding(t, e) && Last(t, Preceding(t, e)) != x
  {
    var s := Preceding(t, e);
    if x in s {
      assert SameFile(t[e], t[x]) && Older(t, y, e);
      assert y in s && Older(t, x, y);
    }
  }

  lemma OtherLags(t: Snaps, x: EventId, y: EventId, e: EventId)
    requires SnapsOk(t) && SnapsOk(t - {x}) && Next(t, x, y) && e in t && e != x && e != y
    ensures Lag(t - {x}, e) == Lag(t, e)
  {
    hide Preceding, SnapsOk, Next;
    OtherPreceding(t, x, y, e);
    NextApart(t, x, y);
    var s := Preceding(t, e);
    if x in s {
      assert y in s - {x};
      LastAgrees(t - {x}, t, s - {x});
      LastOfLess(t, s, x);
    } else if s != {} {
      assert s - {x} == s;
      LastAgrees(t - {x}, t, s);
    }
  }

  lemma NextApart(t: Snaps, x: EventId, y: EventId)
    requires Next(t, x, y)
    ensures x != y
  {
  }

  lemma LastOfLess(t: Snaps, s: set<EventId>, x: EventId)
    requires SnapsOk(t) && s <= t.Keys && x in s && s - {x} != {} && Last(t, s) != x
    ensures Last(t, s - {x}) == Last(t, s)
  {
    var l, m := Last(t, s - {x}), Last(t, s);
    assert l != m ==> Older(t, m, l) && Older(t, l, m);
  }

  // Removing any row but the last of a file: its successor now steps from its predecessor.
  lemma RemoveBetween(t: Snaps, x: EventId, y: EventId, f: Weight)
    requires SnapsOk(t) && SnapsOk(t - {x}) && Next(t, x, y)
    ensures Sum(Weights(t, f)) == Sum(Weights(t - {x}, f))
      + f(Lag(t, x), t[x].size) + f(Some(t[x].size), t[y].size) - f(Lag(t, x), t[y].size)
  {
    hide Sum, Lag, SnapsOk, Next;
    var u := t - {x};
    NextApart(t, x, y);
    NextIn(t, x, y);
    SuccessorLags(t, x, y);
    forall e | e in t && e != x && e != y ensures Lag(u, e) == Lag(t, e) { OtherLags(t, x, y, e); }
    StepsAside(Weights(t, f), Weights(u, f), x, y);
  }

  lemma NextIn(t: Snaps, x: EventId, y: EventId)
    requires Next(t, x, y)
    ensures x in t && y in t
  {
  }

  lemma StepsAside(w: map<string, int>, v: map<string, int>, x: string, y: string)
    requires x in w && y in w && x != y && v.Keys == w.Keys - {x} && forall e | e in v && e != y :: v[e] == w[e]
    ensures Sum(w) == Sum(v) + w[x] + w[y] - v[y]
  {
    hide Sum;
    SumRemove(w, x);
    SumRemove(w - {x}, y);
    SumRemove(v, y);
    assert w - {x} - {y} == v - {y};
  }

  // Of a row with a successor at the same time nothing is missed: the successor takes its place.
  lemma RemoveTied(t: Snaps, x: EventId, f: Weight)
    requires SnapsOk(t) && SnapsOk(t - {x}) && TiesAgree(t) && IgnoresRepeats(f)
    requires x in t && !Final(t, x) && forall e | e in t :: t[e].at <= t[x].at
    ensures Sum(Weights(t, f)) == Sum(Weights(t - {x}, f))
  {
    hide Sum, Lag, SnapsOk, Final, Weights;
    FollowingFirst(t, x);
    var y := First(t, Following(t, x));
    assert t[y].at == t[x].at && t[y].size == t[x].size;
    RemoveBetween(t, x, y, f);
  }

  /** Weights that ignore repeated sizes add up to the same in two tables that differ only in their row ids,
      when ties agree. */
  lemma {:induction false} SameWeights(a: Snaps, b: Snaps, f: Weight)
    requires SnapsOk(a) && SnapsOk(b) && SameButRowIds(a, b) && TiesAgree(a) && IgnoresRepeats(f)
    ensures Sum(Weights(a, f)) == Sum(Weights(b, f))
    decreases |a|
  {
    hide Weights, Sum, Lag, SnapsOk, TiesAgree, IgnoresRepeats, SameButRowIds, Last;
    SameKeys(a, b);
    if a == map[] {
      assert b == map[];
    } else {
      var x := Last(a, a.Keys);
      WithoutRow(a, x);
      WithoutRow(b, x);
      BothWithout(a, b, x);
      SameWeights(a - {x}, b - {x}, f);
      LastIsFinal(a, x);
      RemoveFinal(a, x, f);
      RemoveLast(a, b, x, f);
    }
  }

  lemma LastIsFinal(t: Snaps, x: EventId)
    requires SnapsOk(t) && t != map[] && x == Last(t, t.Keys)
    ensures Final(t, x)
  {
    forall y | y in t ensures !Older(t, x, y) { assert y != x ==> Older(t, y, x); }
  }

  lemma SameKeys(a: Snaps, b: Snaps)
    requires SameButRowIds(a, b)
    ensures a.Keys == b.Keys
  {
  }

  lemma TiesAgreeToo(a: Snaps, b: Snaps)
    requires SameButRowIds(a, b) && TiesAgree(a)
    ensures TiesAgree(b)
  {
    forall x, y | x in b && y in b && SameFile(b[x], b[y]) && b[x].at == b[y].at ensures b[x].size == b[y].size {
      Agree(a, b, x);
      Agree(a, b, y);
    }
  }

  // Removing the last row of one table from the other.
  lemma RemoveLast(a: Snaps, b: Snaps, x: EventId, f: Weight)
    requires SnapsOk(a) && SnapsOk(b) && SnapsOk(b - {x}) && SameButRowIds(a, b) && TiesAgree(a) && IgnoresRepeats(f)
    requires a != map[] && x == Last(a, a.Keys) && x in b
    ensures Sum(Weights(b, f)) == f(Lag(a, x), a[x].size) + Sum(Weights(b - {x}, f))
  {
    hide Sum, Lag, SnapsOk, TiesAgree, SameButRowIds;
    TiesAgreeToo(a, b);
    forall e | e in b ensures e in a && a[e].at == b[e].at && b[e].at <= b[x].at && (e != x ==> Older(a, e, x)) {
      SameKeys(a, b);
      Agree(a, b, e);
      Agree(a, b, x);
      assert e != x ==> Older(a, e, x);
    }
    Agree(a, b, x);
    if Final(b, x) {
      RemoveFinal(b, x, f);
      FinalInBoth(a, b, x);
      SamePrevious(a, b, x, x);
    } else {
      RemoveTied(b, x, f);
      var y :| y in b && SameFile(b[y], b[x]) && Older(b, x, y);
      Agree(a, b, y);
      TiedRepeats(a, x, y);
    }
  }

  lemma FinalInBoth(a: Snaps, b: Snaps, x: EventId)
    requires SnapsOk(a) && SnapsOk(b) && SameButRowIds(a, b) && x in a && x in b && Final(b, x)
    requires forall e | e in a && e != x :: Older(a, e, x)
    ensures Preceding(a, x) == Preceding(b, x)
  {
    hide SameButRowIds;
    SameKeys(a, b);
    Agree(a, b, x);
    forall e | e in a && e != x && SameFile(a[e], a[x]) ensures SameFile(b[e], b[x]) && Older(b, e, x) {
      Agree(a, b, e);
    }
    forall e | e in b && e != x && SameFile(b[e], b[x]) ensures SameFile(a[e], a[x]) { Agree(a, b, e); }
  }

  // ---- the dashboard --------------------------------------------------------------------------------

  function AbsChange(prev: Option<int>, size: int): int {
    Abs(size - (match prev case None => 0 case Some(p) => p))
  }

  lemma AbsDeltasAreWeights(t: Snaps, student: string)
    requires SnapsOk(t)
    ensures SnapsOk(OfStudent(t, student)) && AbsDeltas(t, student) == Weights(OfStudent(t, student), AbsChange)
  {
    hide Lag;
    AbsDeltasOfStudent(t, student);
    assert AbsDeltas(t, student).Keys == Weights(OfStudent(t, student), AbsChange).Keys;
  }

  // Every weight of one table is reached in the other.
  lemma WeightReached(a: Snaps, b: Snaps, e: EventId, f: Weight) returns (e': EventId)
    requires SnapsOk(a) && SnapsOk(b) && SameButRowIds(a, b) && TiesAgree(a) && IgnoresRepeats(f) && e in a
    requires forall p, s :: f(p, s) >= 0
    ensures e' in b && Weights(b, f)[e'] >= Weights(a, f)[e]
  {
    hide SnapsOk, Lag, SameButRowIds;
    SameKeys(a, b);
    e' := e;
    if y :| y in Preceding(a, e) && a[y].at == a[e].at {
      TiedRepeats(a, e, y);
    } else {
      e' := FirstTied(a, b, e);
      SamePrevious(a, b, e, e');
    }
  }

  lemma FirstTied(a: Snaps, b: Snaps, e: EventId) returns (e': EventId)
    requires SnapsOk(a) && SnapsOk(b) && SameButRowIds(a, b) && TiesAgree(a) && e in a
    requires forall y | y in Preceding(a, e) :: a[y].at != a[e].at
    ensures e' in b && b[e'].size == a[e].size && Preceding(a, e) == Preceding(b, e')
  {
    hide SameButRowIds;
    SameKeys(a, b);
    Agree(a, b, e);
    var tied := set y | y in b && SameFile(b[y], b[e]) && b[y].at == b[e].at;
    assert e in tied;
    e' := First(b, tied);
    Agree(a, b, e');
    forall y | y in a ensures y in Preceding(a, e) <==> y in Preceding(b, e') {
      Agree(a, b, y);
      assert y in tied ==> y == e' || Older(b, e', y);
    }
  }

  lemma MaxReached(a: Snaps, b: Snaps, f: Weight)
    requires SnapsOk(a) && SnapsOk(b) && SameButRowIds(a, b) && TiesAgree(a) && IgnoresRepeats(f)
    requires forall p, s :: f(p, s) >= 0
    ensures MaxOf(Weights(a, f)) <= MaxOf(Weights(b, f))
  {
    hide SnapsOk, Lag, SameButRowIds, TiesAgree, MaxOf;
    SameKeys(a, b);
    var w, v := Weights(a, f), Weights(b, f);
    MaxOfMeaning(w);
    MaxOfMeaning(v);
    if w == map[] {
      assert v == map[];
    } else {
      var e :| e in w && w[e] == MaxOf(w);
      var e' := WeightReached(a, b, e, f);
    }
  }

  lemma SameMax(a: Snaps, b: Snaps, f: Weight)
    requires SnapsOk(a) && SnapsOk(b) && SameButRowIds(a, b) && TiesAgree(a) && IgnoresRepeats(f)
    requires forall p, s :: f(p, s) >= 0
    ensures MaxOf(Weights(a, f)) == MaxOf(Weights(b, f))
  {
    hide SnapsOk, TiesAgree, IgnoresRepeats, SameButRowIds, MaxOf, Weights;
    TiesAgreeToo(a, b);
    Symmetric(a, b);
    MaxReached(a, b, f);
    MaxReached(b, a, f);
  }

  lemma Symmetric(a: Snaps, b: Snaps)
    requires SameButRowIds(a, b)
    ensures SameButRowIds(b, a)
  {
  }

  lemma SameOfStudent(a: Snaps, b: Snaps, student: string)
    requires SnapsOk(a) && SnapsOk(b) && SameButRowIds(a, b)
    ensures var x, y := OfStudent(a, student), OfStudent(b, student); SnapsOk(x) && SnapsOk(y) && SameButRowIds(x, y)
  {
    forall e | e in a ensures a[e].student == b[e].student { Agree(a, b, e); }
  }

  /** The two figures of the size changes agree in tables that differ only in their row ids, when the ties of the
      student agree. */
  lemma SameFigures(a: Snaps, b: Snaps, student: string)
    requires SnapsOk(a) && SnapsOk(b) && SameButRowIds(a, b) && TiesAgree(OfStudent(a, student))
    ensures TotalSizeChange(a, student) == TotalSizeChange(b, student)
    ensures MaxSingleChange(a, student) == MaxSingleChange(b, student)
  {
    hide SnapsOk, TiesAgree, SameButRowIds, Sum, MaxOf, Weights, OfStudent, AbsDeltas;
    SameOfStudent(a, b, student);
    AbsDeltasAreWeights(a, student);
    AbsDeltasAreWeights(b, student);
    SameWeights(OfStudent(a, student), OfStudent(b, student), AbsChange);
    SameMax(OfStudent(a, student), OfStudent(b, student), AbsChange);
  }

  // ---- the graph --------------------------------------------------------------------------------------

  function LaterChange(prev: Option<int>, size: int): int {
    match prev case None => 0 case Some(p) => Abs(size - p)
  }

  lemma {:induction false} SumZero(m: map<string, int>)
    requires forall k | k in m :: m[k] == 0
    ensures Sum(m) == 0
    decreases |m|
  {
    if m != map[] {
      var k :| k in m;
      SumRemove(m, k);
      SumZero(m - {k});
    }
  }

  // The graph leaves first rows out; here they weigh nothing.
  lemma GraphIsWeights(r: Snaps, student: string)
    requires SnapsOk(r)
    ensures SnapsOk(OfStudent(r, student))
    ensures Sum(GraphDeltas(r, student)) == Sum(Weights(OfStudent(r, student), LaterChange))
  {
    hide Sum, Lag, SnapsOk;
    var u := OfStudent(r, student);
    StudentIsBeginning(r, student);
    forall e | e in u ensures Lag(u, e) == Lag(r, e) { LagInBeginning(u, r, e); }
    var w, g := Weights(u, LaterChange), GraphDeltas(r, student);
    var firsts := w.Keys - g.Keys;
    SumSplit(w, firsts);
    SumZero(Restrict(w, firsts));
    assert w - firsts == g;
  }

  // A student is in the graph's answer when one of the files has two rows.
  lemma GraphAnswers(r: Snaps, student: string)
    requires SnapsOk(r)
    ensures GraphDeltas(r, student) != map[] <==>
      exists x, y | x in r && y in r :: x != y && SameFile(r[x], r[y]) && r[x].student == student
  {
    if x, y :| x in r && y in r && x != y && SameFile(r[x], r[y]) && r[x].student == student {
      assert Older(r, x, y) || Older(r, y, x);
      if Older(r, x, y) {
        assert x in Preceding(r, y) && y in GraphDeltas(r, student);
      } else {
        assert y in Preceding(r, x) && x in GraphDeltas(r, student);
      }
    }
    if GraphDeltas(r, student) != map[] {
      var y :| y in GraphDeltas(r, student);
      var x :| x in Preceding(r, y);
      assert x != y && SameFile(r[x], r[y]);
    }
  }

  lemma SameInRange(a: Snaps, b: Snaps, start: int, end: int, student: string)
    requires SnapsOk(a) && SnapsOk(b) && SameButRowIds(a, b) && TiesAgree(OfStudent(a, student))
    ensures var x, y := InRange(a, start, end), InRange(b, start, end);
      SnapsOk(x) && SnapsOk(y) && SameButRowIds(x, y) && TiesAgree(OfStudent(x, student))
  {
    forall e | e in a ensures a[e].at == b[e].at { Agree(a, b, e); }
    var u := OfStudent(a, student);
    forall e | e in OfStudent(InRange(a, start, end), student) ensures e in u {}
  }

  /** So does the graph's sum, present or missing. */
  lemma SameGraphSum(a: Snaps, b: Snaps, start: int, end: int, student: string)
    requires SnapsOk(a) && SnapsOk(b) && SameButRowIds(a, b) && TiesAgree(OfStudent(a, student))
    ensures GraphSum(a, start, end, student) == GraphSum(b, start, end, student)
  {
    hide SnapsOk, TiesAgree, SameButRowIds, Sum, Weights, OfStudent, GraphDeltas, InRange;
    var x, y := InRange(a, start, end), InRange(b, start, end);
    SameInRange(a, b, start, end, student);
    SameOfStudent(x, y, student);
    GraphIsWeights(x, student);
    GraphIsWeights(y, student);
    SameWeights(OfStudent(x, student), OfStudent(y, student), LaterChange);
    SamePresence(x, y, student);
  }

  lemma SamePresence(a: Snaps, b: Snaps, student: string)
    requires SnapsOk(a) && SnapsOk(b) && SameButRowIds(a, b)
    ensures GraphDeltas(a, student) == map[] <==> GraphDeltas(b, student) == map[]
  {
    hide SnapsOk, GraphDeltas;
    GraphAnswers(a, student);
    GraphAnswers(b, student);
    forall e | e in a ensures a[e].student == b[e].student && a[e].path == b[e].path { Agree(a, b, e); }
  }

  // ---- the trends ---------------------------------------------------------------------------------------

  // Snapshots of one file at one time have equal sizes where it matters for an interval: when no later snapshot
  // of the file falls into the same bucket.
  ghost predicate LastTiesAgree(t: Snaps, width: int)
    requires width > 0
  {
    forall x, y | x in t && y in t && SameFile(t[x], t[y]) && t[x].at == t[y].at && LastInBucket(t, x, width) ::
      t[x].size == t[y].size
  }

  ghost predicate LastInBucket(t: Snaps, x: EventId, width: int)
    requires x in t && width > 0
  {
    forall z | z in t && SameFile(t[z], t[x]) && Bucket(t[z].at, width) == Bucket(t[x].at, width) :: t[z].at <= t[x].at
  }

  // Over all intervals this is agreement of all ties.
  lemma TiesAgreeIff(t: Snaps)
    ensures TiesAgree(t) <==> forall width | width > 0 :: LastTiesAgree(t, width)
  {
    if forall width | width > 0 :: LastTiesAgree(t, width) {
      assert LastTiesAgree(t, 1);
      forall x | x in t ensures LastInBucket(t, x, 1) {}
    }
  }

  lemma SameUpTo(a: Snaps, b: Snaps, width: int, x: int)
    requires SnapsOk(a) && SnapsOk(b) && SameButRowIds(a, b) && width > 0
    ensures var s, t := UpTo(a, width, x), UpTo(b, width, x); SnapsOk(s) && SnapsOk(t) && SameButRowIds(s, t)
  {
    hide Bucket;
    forall e | e in a ensures a[e].at == b[e].at { Agree(a, b, e); }
  }

  lemma SameOrdered(a: Snaps, b: Snaps, width: int)
    requires SameButRowIds(a, b) && width > 0
    ensures Ordered(a, width) == Ordered(b, width)
  {
    hide Bucket;
    forall e | e in a ensures a[e].at == b[e].at { Agree(a, b, e); }
    assert Buckets(a, width) == Buckets(b, width);
  }

  // The latest row of a file up to the end of a bucket is the last of the file in its own bucket.
  lemma LatestIsLastInBucket(t: Snaps, width: int, b: int, x: EventId)
    requires SnapsOk(t) && OneStudent(t) && width > 0
    requires var u := UpTo(t, width, b);
      SnapsOk(u) && x in u && OfPath(u, t[x].path) != {} && x == Last(u, OfPath(u, t[x].path))
    ensures LastInBucket(t, x, width)
  {
    hide Bucket;
    var u := UpTo(t, width, b);
    forall z | z in t && SameFile(t[z], t[x]) && Bucket(t[z].at, width) == Bucket(t[x].at, width)
      ensures t[z].at <= t[x].at
    {
      assert z in OfPath(u, t[x].path);
      assert z != x ==> Older(u, z, x);
    }
  }

  lemma SameLatestSize(a: Snaps, b: Snaps, width: int, x: int, p: string)
    requires SnapsOk(a) && SnapsOk(b) && SameButRowIds(a, b) && OneStudent(a) && width > 0 && LastTiesAgree(a, width)
    requires SnapsOk(UpTo(a, width, x)) && SnapsOk(UpTo(b, width, x))
    requires SameButRowIds(UpTo(a, width, x), UpTo(b, width, x))
    ensures var s, t := UpTo(a, width, x), UpTo(b, width, x);
      (p in Paths(s) <==> p in Paths(t)) && (p in Paths(s) ==> LatestSize(s, p) == LatestSize(t, p))
  {
    hide Bucket, SnapsOk, SameButRowIds, LastInBucket;
    var s, t := UpTo(a, width, x), UpTo(b, width, x);
    SameKeys(s, t);
    forall e | e in s ensures s[e].path == t[e].path && s[e].at == t[e].at && s[e].size == t[e].size { Agree(s, t, e); }
    assert OfPath(s, p) == OfPath(t, p);
    PathHasRows(s, p);
    PathHasRows(t, p);
    if p in Paths(s) {
      var l, m := Last(s, OfPath(s, p)), Last(t, OfPath(s, p));
      LatestIsLastInBucket(a, width, x, l);
      assert l != m ==> Older(s, m, l) && Older(t, l, m);
    }
  }

  lemma SameTotals(a: Snaps, b: Snaps, width: int, x: int)
    requires SnapsOk(a) && SnapsOk(b) && SameButRowIds(a, b) && OneStudent(a) && width > 0 && LastTiesAgree(a, width)
    requires SnapsOk(UpTo(a, width, x)) && SnapsOk(UpTo(b, width, x))
    ensures LatestSizes(UpTo(a, width, x)) == LatestSizes(UpTo(b, width, x))
  {
    hide SnapsOk, SameButRowIds, LastTiesAgree, OneStudent, UpTo, LatestSize, Paths;
    SameUpTo(a, b, width, x);
    var s, t := UpTo(a, width, x), UpTo(b, width, x);
    forall p ensures (p in Paths(s) <==> p in Paths(t)) && (p in Paths(s) ==> LatestSize(s, p) == LatestSize(t, p)) {
      SameLatestSize(a, b, width, x, p);
    }
    assert LatestSizes(s).Keys == LatestSizes(t).Keys;
  }

  lemma OneStudentToo(a: Snaps, b: Snaps)
    requires SameButRowIds(a, b) && OneStudent(a)
    ensures OneStudent(b)
  {
    forall x, y | x in b && y in b ensures b[x].student == b[y].student {
      Agree(a, b, x);
      Agree(a, b, y);
    }
  }

  /** And a student's trends for an interval, when the last snapshots of a file in a bucket agree if they are tied. */
  lemma SameTrends(a: Snaps, b: Snaps, width: int)
    requires SnapsOk(a) && SnapsOk(b) && SameButRowIds(a, b) && OneStudent(a) && width > 0 && LastTiesAgree(a, width)
    ensures TrendsOf(a, width) == TrendsOf(b, width)
  {
    hide SnapsOk, LastTiesAgree, SameButRowIds, OneStudent, Change, Running, Bucket, Ordered, TrendsOf, Sum;
    hide LatestSizes, UpTo;
    OneStudentToo(a, b);
    SameOrdered(a, b, width);
    RowAt(a, width);
    RowAt(b, width);
    var rows, others := TrendsOf(a, width), TrendsOf(b, width);
    forall i | 0 <= i < |rows| ensures rows[i].totalSize == others[i].totalSize {
      TrendsMeaning(a, width, i);
      TrendsMeaning(b, width, i);
      SameTotals(a, b, width, rows[i].bucket);
    }
    forall i | 0 <= i < |rows| ensures rows[i] == others[i] {
      TrendsMeaning(a, width, i);
      TrendsMeaning(b, width, i);
    }
  }

  // ---- ties that disagree ----------------------------------------------------------------------------------

  // Two tables that differ only in which of the two latest stored rows, x or y, came last; they are of one file
  // at one time and of different sizes.
  ghost predicate Swapped(u: Snaps, v: Snaps, x: EventId, y: EventId, n: nat) {
    && u.Keys == v.Keys && x in u && y in u && x != y
    && (forall e | e in u && e != x && e != y :: u[e] == v[e] && u[e].rowId < n)
    && u[x].rowId == n == v[y].rowId && u[y].rowId == n + 1 == v[x].rowId
    && u[x] == v[x].(rowId := n) && v[y] == u[y].(rowId := n)
    && SameFile(u[x], u[y]) && u[x].at == u[y].at && u[x].size != u[y].size
  }

  // The row of a file that is latest in time and in row id gives the file's latest size.
  lemma LatestIsLast(t: Snaps, y: EventId)
    requires SnapsOk(t) && y in t && forall e | e in t && e != y && t[e].path == t[y].path :: Older(t, e, y)
    ensures t[y].path in Paths(t) && LatestSize(t, t[y].path) == t[y].size
  {
    var s := OfPath(t, t[y].path);
    assert y in s;
    assert Last(t, s) == y;
  }

  lemma OtherFilesAgree(u: Snaps, v: Snaps, x: EventId, y: EventId, n: nat)
    requires SnapsOk(u) && SnapsOk(v) && Swapped(u, v, x, y, n)
    ensures LatestSizes(u) - {u[x].path} == LatestSizes(v) - {u[x].path}
  {
    hide SnapsOk, LatestSize, Paths;
    var p, w := u[x].path, u - {x, y};
    assert SnapsOk(w) by { WithoutRow(u, x); WithoutRow(u - {x}, y); assert u - {x} - {y} == w; }
    forall q | q != p
      ensures q in Paths(u) <==> q in Paths(v)
      ensures q in Paths(u) ==> LatestSize(u, q) == LatestSize(v, q)
    {
      OtherFileAgrees(u, v, w, x, y, n, q);
    }
    var a, b := LatestSizes(u) - {p}, LatestSizes(v) - {p};
    assert a.Keys == b.Keys;
  }

  lemma OtherFileAgrees(u: Snaps, v: Snaps, w: Snaps, x: EventId, y: EventId, n: nat, q: string)
    requires SnapsOk(u) && SnapsOk(v) && SnapsOk(w) && Swapped(u, v, x, y, n) && w == u - {x, y} && q != u[x].path
    ensures q in Paths(u) <==> q in Paths(v)
    ensures q in Paths(u) ==> LatestSize(u, q) == LatestSize(v, q)
  {
    hide SnapsOk;
    PathHasRows(u, q);
    PathHasRows(v, q);
    var s := OfPath(u, q);
    assert s == OfPath(v, q) && s <= w.Keys;
    if s != {} {
      LastAgrees(w, u, s);
      LastAgrees(w, v, s);
    }
  }

  /** When the last snapshots of a file in a bucket are tied and disagree, the order of storing shows in the trends. */
  lemma SwappedTrendsDiffer(u: Snaps, v: Snaps, x: EventId, y: EventId, n: nat, width: int)
    requires SnapsOk(u) && SnapsOk(v) && OneStudent(u) && OneStudent(v) && Swapped(u, v, x, y, n)
    requires width > 0 && LastInBucket(u, x, width)
    ensures TrendsOf(u, width) != TrendsOf(v, width)
  {
    hide SnapsOk, TrendsOf, UpTo, OneStudent, Swapped, LatestSizes, Sum, Bucket, LastInBucket;
    SwappedHas(u, v, x, y, n);
    var b := Bucket(u[x].at, width);
    RowBuckets(u, width, b);
    var i :| 0 <= i < |TrendsOf(u, width)| && TrendsOf(u, width)[i].bucket == b;
    if TrendsOf(u, width) == TrendsOf(v, width) {
      TrendsMeaning(u, width, i);
      TrendsMeaning(v, width, i);
      UpToSwapped(u, v, x, y, n, width);
      SwappedSumsDiffer(UpTo(u, width, b), UpTo(v, width, b), x, y, n);
    }
  }

  lemma SwappedHas(u: Snaps, v: Snaps, x: EventId, y: EventId, n: nat)
    requires Swapped(u, v, x, y, n)
    ensures x in u
  {
  }

  lemma UpToSwapped(u: Snaps, v: Snaps, x: EventId, y: EventId, n: nat, width: int)
    requires OneStudent(u) && Swapped(u, v, x, y, n) && width > 0 && LastInBucket(u, x, width)
    ensures var b := Bucket(u[x].at, width); var s, t := UpTo(u, width, b), UpTo(v, width, b);
      Swapped(s, t, x, y, n) && forall e | e in s && s[e].path == s[x].path :: s[e].at <= s[x].at
  {
    hide Bucket;
    var b := Bucket(u[x].at, width);
    var s := UpTo(u, width, b);
    forall e | e in u ensures u[e].at == v[e].at {}
    forall e | e in s && s[e].path == s[x].path ensures s[e].at <= s[x].at {
      if u[e].at > u[x].at { BucketMonotone(u[x].at, u[e].at, width); }
    }
  }

  lemma SwappedSumsDiffer(u: Snaps, v: Snaps, x: EventId, y: EventId, n: nat)
    requires SnapsOk(u) && SnapsOk(v) && Swapped(u, v, x, y, n)
    requires forall e | e in u && u[e].path == u[x].path :: u[e].at <= u[x].at
    ensures Sum(LatestSizes(u)) != Sum(LatestSizes(v))
  {
    hide SnapsOk, Sum, LatestSize;
    var p := u[x].path;
    LatestIsLast(u, y);
    LatestIsLast(v, x);
    OtherFilesAgree(u, v, x, y, n);
    SumRemove(LatestSizes(u), p);
    SumRemove(LatestSizes(v), p);
  }

  // ---- ties in the dashboard's total and the graph's sum -----------------------------------------------------

  // lead(file_size): the size of the next row of the file.
  ghost function NextSize(t: Snaps, x: EventId): Option<int>
    requires SnapsOk(t) && x in t
  {
    if Following(t, x) == {} then None else Some(t[First(t, Following(t, x))].size)
  }

  // What a row and the one after it weigh together with the row that follows, if any.
  function StepsThrough(f: Weight, prev: Option<int>, a: int, b: int, next: Option<int>): int {
    f(prev, a) + f(Some(a), b) + (match next case None => 0 case Some(size) => f(Some(b), size))
  }

  // Stepping from the row before to x and from y to the row after weighs the same as with x and y exchanged.
  ghost predicate Balanced(t: Snaps, x: EventId, y: EventId, f: Weight)
    requires SnapsOk(t) && x in t && y in t
  {
    var prev, next, a, b := Lag(t, x), NextSize(t, y), t[x].size, t[y].size;
    f(prev, a) + (match next case None => 0 case Some(size) => f(Some(b), size))
      == f(prev, b) + (match next case None => 0 case Some(size) => f(Some(a), size))
  }

  lemma NextUnique(t: Snaps, x: EventId, z: EventId)
    requires SnapsOk(t) && Next(t, x, z)
    ensures NextSize(t, x) == Some(t[z].size)
  {
    FollowingFirst(t, x);
    assert z in Following(t, x);
    var y := First(t, Following(t, x));
    assert y != z ==> Older(t, z, y) && Older(t, y, z);
  }

  // Two rows in a row taken out together.
  lemma RemovePair(t: Snaps, x: EventId, y: EventId, f: Weight)
    requires SnapsOk(t) && SnapsOk(t - {y}) && SnapsOk(t - {y} - {x}) && Next(t, x, y)
    ensures x in t && y in t
    ensures Sum(Weights(t, f)) == Sum(Weights(t - {y} - {x}, f))
      + StepsThrough(f, Lag(t, x), t[x].size, t[y].size, NextSize(t, y))
      - (match NextSize(t, y) case None => 0 case Some(size) => f(Lag(t, x), size))
  {
    hide Sum, Lag, SnapsOk, Next, Final, Weights, Following;
    NextIn(t, x, y);
    NextApart(t, x, y);
    LagAfter(t, x, y);
    SameLagWithout(t, x, y);
    FollowingFirst(t, y);
    if Following(t, y) == {} {
      RemoveFinal(t, y, f);
      FinalBefore(t, x, y);
      RemoveFinal(t - {y}, x, f);
    } else {
      var z := First(t, Following(t, y));
      NextIn(t, y, z);
      RemoveBetween(t, y, z, f);
      NextSkips(t, x, y, z);
      RemoveBetween(t - {y}, x, z, f);
    }
  }

  lemma LagAfter(t: Snaps, x: EventId, y: EventId)
    requires SnapsOk(t) && Next(t, x, y)
    ensures Lag(t, y) == Some(t[x].size)
  {
    assert Preceding(t, y) == Preceding(t, x) + {x};
    assert Last(t, Preceding(t, y)) == x;
  }

  lemma SameLagWithout(t: Snaps, x: EventId, y: EventId)
    requires SnapsOk(t) && SnapsOk(t - {y}) && Next(t, x, y)
    ensures x in t - {y} && Lag(t - {y}, x) == Lag(t, x)
  {
    assert Preceding(t - {y}, x) == Preceding(t, x);
    if Preceding(t, x) != {} { LastAgrees(t - {y}, t, Preceding(t, x)); }
  }

  lemma FinalBefore(t: Snaps, x: EventId, y: EventId)
    requires SnapsOk(t) && Next(t, x, y) && Final(t, y)
    ensures x in t - {y} && Final(t - {y}, x)
  {
  }

  lemma NextSkips(t: Snaps, x: EventId, y: EventId, z: EventId)
    requires SnapsOk(t) && Next(t, x, y) && Next(t, y, z)
    ensures z != y && Next(t - {y}, x, z)
  {
  }

  // The swapped rows follow each other, with the same predecessor and successor in both tables.
  lemma SwappedNeighbours(u: Snaps, v: Snaps, x: EventId, y: EventId, n: nat)
    requires SnapsOk(u) && SnapsOk(v) && Swapped(u, v, x, y, n)
    ensures Next(u, x, y) && Next(v, y, x) && u - {y} - {x} == v - {x} - {y} && SnapsOk(u - {y} - {x})
    ensures Lag(u, x) == Lag(v, y) && NextSize(u, y) == NextSize(v, x)
  {
    hide NextSize, Lag;
    assert u - {y} - {x} == v - {x} - {y};
    SwappedLags(u, v, x, y, n);
    SwappedNext(u, v, x, y, n);
  }

  lemma SwappedLags(u: Snaps, v: Snaps, x: EventId, y: EventId, n: nat)
    requires SnapsOk(u) && SnapsOk(v) && Swapped(u, v, x, y, n)
    ensures Lag(u, x) == Lag(v, y)
  {
    hide SnapsOk;
    var w, s := u - {x, y}, Preceding(u, x);
    assert SnapsOk(w) by { WithoutRow(u, x); WithoutRow(u - {x}, y); assert u - {x} - {y} == w; }
    assert s == Preceding(v, y) && s <= w.Keys;
    if s != {} {
      LastAgrees(w, u, s);
      LastAgrees(w, v, s);
    }
  }

  lemma SwappedNext(u: Snaps, v: Snaps, x: EventId, y: EventId, n: nat)
    requires SnapsOk(u) && SnapsOk(v) && Swapped(u, v, x, y, n)
    ensures NextSize(u, y) == NextSize(v, x)
  {
    hide SnapsOk;
    assert Following(u, y) == Following(v, x);
    FollowingFirst(u, y);
    if Following(u, y) != {} {
      var z := First(u, Following(u, y));
      assert z in Following(u, y);
      assert Next(v, x, z);
      NextUnique(v, x, z);
    }
  }

  /** What the order of two tied rows stored last does to a sum of weights, for every weight: only the steps through the
      two rows change places. */
  lemma SwappedWeights(u: Snaps, v: Snaps, x: EventId, y: EventId, n: nat, f: Weight)
    requires SnapsOk(u) && SnapsOk(v) && Swapped(u, v, x, y, n)
    ensures x in u && y in u
    ensures var prev, a, b, next := Lag(u, x), u[x].size, u[y].size, NextSize(u, y);
      Sum(Weights(u, f)) - StepsThrough(f, prev, a, b, next) == Sum(Weights(v, f)) - StepsThrough(f, prev, b, a, next)
  {
    hide Sum, Lag, SnapsOk, NextSize, Weights, Next;
    SwappedNeighbours(u, v, x, y, n);
    WithoutRow(u, y);
    WithoutRow(v, x);
    RemovePair(u, x, y, f);
    RemovePair(v, y, x, f);
  }

  lemma SwappedIn(u: Snaps, v: Snaps, x: EventId, y: EventId, n: nat)
    requires Swapped(u, v, x, y, n)
    ensures x in u && y in u
  {
  }

  /** Exactly when the order of two tied rows stored last does not show in the dashboard's total: when the distances
      from the size before to the one and from the other to the size after add up to the same both ways round. */
  lemma SwappedTotalsIff(s: Snaps, t: Snaps, student: string, x: EventId, y: EventId, n: nat)
    requires SnapsOk(s) && SnapsOk(t) && SnapsOk(OfStudent(s, student)) && SnapsOk(OfStudent(t, student))
    requires Swapped(OfStudent(s, student), OfStudent(t, student), x, y, n)
    ensures var u := OfStudent(s, student);
      && x in u && y in u
      && (TotalSizeChange(s, student) == TotalSizeChange(t, student) <==> Balanced(u, x, y, AbsChange))
  {
    hide Sum, Lag, SnapsOk, NextSize, OfStudent, AbsDeltas, Weights, Swapped;
    AbsDeltasAreWeights(s, student);
    AbsDeltasAreWeights(t, student);
    SwappedIn(OfStudent(s, student), OfStudent(t, student), x, y, n);
    SwappedWeights(OfStudent(s, student), OfStudent(t, student), x, y, n, AbsChange);
  }

  /** A tie of different sizes that is all a file has shows in the total and not in the graph's sum. */
  lemma LoneTie(t: Snaps, x: EventId, y: EventId)
    requires SnapsOk(t) && x in t && y in t && t[x].size != t[y].size && Lag(t, x).None? && NextSize(t, y).None?
    ensures !Balanced(t, x, y, AbsChange) && Balanced(t, x, y, LaterChange)
  {
    hide Lag, NextSize;
  }

  lemma SwappedInRange(s: Snaps, t: Snaps, start: int, end: int, student: string, x: EventId, y: EventId, n: nat)
    requires SnapsOk(s) && SnapsOk(t) && Swapped(OfStudent(s, student), OfStudent(t, student), x, y, n)
    requires start <= OfStudent(s, student)[x].at <= end
    ensures SnapsOk(InRange(s, start, end)) && SnapsOk(InRange(t, start, end))
    ensures var u, v := OfStudent(InRange(s, start, end), student), OfStudent(InRange(t, start, end), student);
      SnapsOk(u) && SnapsOk(v) && Swapped(u, v, x, y, n)
  {
    hide SnapsOk, Swapped, OfStudent, InRange;
    RangeOk(s, start, end, student);
    RangeOk(t, start, end, student);
    SwappedRange(OfStudent(s, student), OfStudent(t, student), start, end, x, y, n);
  }

  lemma SwappedRange(u: Snaps, v: Snaps, start: int, end: int, x: EventId, y: EventId, n: nat)
    requires Swapped(u, v, x, y, n) && start <= u[x].at <= end
    ensures Swapped(InRange(u, start, end), InRange(v, start, end), x, y, n)
  {
    forall e | e in u ensures u[e].at == v[e].at {}
  }

  lemma RangeOk(t: Snaps, start: int, end: int, student: string)
    requires SnapsOk(t)
    ensures SnapsOk(InRange(t, start, end)) && SnapsOk(OfStudent(InRange(t, start, end), student))
    ensures OfStudent(InRange(t, start, end), student) == InRange(OfStudent(t, student), start, end)
  {
  }

  /** And in the graph's sum over a range that holds them: the same, but that nothing leads to a file's first row in the
      range. */
  lemma SwappedGraphIff(s: Snaps, t: Snaps, start: int, end: int, student: string, x: EventId, y: EventId, n: nat)
    requires SnapsOk(s) && SnapsOk(t) && Swapped(OfStudent(s, student), OfStudent(t, student), x, y, n)
    requires start <= OfStudent(s, student)[x].at <= end
    ensures var u := OfStudent(InRange(s, start, end), student);
      && SnapsOk(u) && x in u && y in u
      && (GraphSum(s, start, end, student) == GraphSum(t, start, end, student) <==> Balanced(u, x, y, LaterChange))
  {
    hide Sum, Lag, SnapsOk, NextSize, OfStudent, GraphDeltas, Weights, Swapped, InRange;
    SwappedInRange(s, t, start, end, student, x, y, n);
    var q, r := InRange(s, start, end), InRange(t, start, end);
    GraphIsWeights(q, student);
    GraphIsWeights(r, student);
    SwappedIn(OfStudent(q, student), OfStudent(r, student), x, y, n);
    SwappedWeights(OfStudent(q, student), OfStudent(r, student), x, y, n, LaterChange);
    SwappedAnswers(q, r, student, x, y, n);
  }

  lemma SwappedAnswers(q: Snaps, r: Snaps, student: string, x: EventId, y: EventId, n: nat)
    requires SnapsOk(q) && SnapsOk(r) && Swapped(OfStudent(q, student), OfStudent(r, student), x, y, n)
    ensures GraphDeltas(q, student) != map[] && GraphDeltas(r, student) != map[]
  {
    hide SnapsOk, GraphDeltas;
    GraphAnswers(q, student);
    GraphAnswers(r, student);
    assert x in q && y in q && SameFile(q[x], q[y]) && q[x].student == student;
    assert x in r && y in r && SameFile(r[x], r[y]) && r[x].student == student;
  }
}
