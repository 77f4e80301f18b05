// Sums over the values of a finite map.
module Sums {

  ghost function Sum(m: map<string, int>): int {
    if m == map[] then 0 else
      var k :| k in m;
      m[k] + Sum(m - {k})
  }

  lemma {:induction false} SumRemove(m: map<string, int>, k: string)
    requires k in m
    ensures Sum(m) == m[k] + Sum(m - {k})
    decreases |m|
  {
    var j :| j in m && Sum(m) == m[j] + Sum(m - {j});
    if j != k {
      assert k in m - {j} && j in m - {k};
      SumRemove(m - {j}, k);
      SumRemove(m - {k}, j);
      assert m - {j} - {k} == m - {k} - {j};
    }
  }

  function Restrict(m: map<string, int>, s: set<string>): map<string, int> {
    map k | k in m && k in s :: m[k]
  }

  lemma SumEmpty()
    ensures Sum(map[]) == 0
  {
  }

  /** A sum splits over the keys inside a set and those outside it. */
  lemma {:induction false} SumSplit(m: map<string, int>, s: set<string>)
    ensures Sum(m) == Sum(Restrict(m, s)) + Sum(m - s)
    decreases |m|
  {
    hide Sum;
    SumEmpty();
    if Restrict(m, s) == map[] {
      assert m - s == m by { assert forall k | k in m :: k !in s by { NotRestricted(m, s); } }
    } else {
      var k :| k in Restrict(m, s);
      SumRemove(m, k);
      SumRemove(Restrict(m, s), k);
      assert Restrict(m - {k}, s) == Restrict(m, s) - {k};
      assert (m - {k}) - s == m - s;
      SumSplit(m - {k}, s);
    }
  }

  lemma NotRestricted(m: map<string, int>, s: set<string>)
    requires Restrict(m, s) == map[]
    ensures forall k | k in m :: k !in s
  {
    forall k | k in m && k in s ensures k in Restrict(m, s) {}
  }

  lemma {:induction false} SumBounds(m: map<string, int>, abs: map<string, int>)
    requires m.Keys == abs.Keys && forall k | k in m :: abs[k] == if m[k] < 0 then -m[k] else m[k]
    ensures -Sum(abs) <= Sum(m) <= Sum(abs) && Sum(abs) >= 0
    decreases |m|
  {
    if m == map[] {
      assert abs == map[];
    } else {
      var k :| k in m;
      SumRemove(m, k);
      SumRemove(abs, k);
      SumBounds(m - {k}, abs - {k});
    }
  }

  lemma {:induction false} SumNonNegative(m: map<string, int>)
    requires forall k | k in m :: m[k] >= 0
    ensures Sum(m) >= 0 && forall k | k in m :: m[k] <= Sum(m)
    decreases |m|
  {
    if m != map[] {
      forall k | k in m ensures Sum(m) >= 0 && m[k] <= Sum(m) {
        SumRemove(m, k);
        SumNonNegative(m - {k});
      }
      var k :| k in m;
    }
  }
}
