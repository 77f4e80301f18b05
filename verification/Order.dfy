// Strict total orders on finite sets, the sorted listing of such a set, and the
// code-point order of strings that both Python's sorted() and SQLite's TEXT
// comparison use.
module Order {

  ghost predicate TotalOn<T>(less: (T, T) -> bool, s: set<T>) {
    && (forall x | x in s :: !less(x, x))
    && (forall x, y {:trigger x in s, y in s} | x in s && y in s && x != y :: less(x, y) || less(y, x))
    && (forall x, y, z {:trigger less(x, y), less(y, z)} |
          x in s && y in s && z in s && less(x, y) && less(y, z) :: less(x, z))
  }

  ghost predicate Sorted<T>(r: seq<T>, less: (T, T) -> bool) {
    forall i, j | 0 <= i < j < |r| :: less(r[i], r[j])
  }

  lemma FindMin<T>(s: set<T>, less: (T, T) -> bool) returns (m: T)
    requires s != {} && TotalOn(less, s)
    ensures m in s && forall y | y in s && y != m :: less(m, y)
  {
    var x :| x in s;
    var rest := s - {x};
    if rest == {} {
      assert s == {x};
      m := x;
    } else {
      m := FindMin(rest, less);
      if less(x, m) {
        forall y | y in s && y != x ensures less(x, y) {
          assert y in rest && (y == m || less(m, y));
        }
        m := x;
      } else {
        assert less(m, x);
      }
    }
  }

  lemma MinExists<T>(s: set<T>, less: (T, T) -> bool)
    requires s != {} && TotalOn(less, s)
    ensures exists m :: m in s && forall y | y in s && y != m :: less(m, y)
  {
    var m := FindMin(s, less);
  }

  function MinOf<T(==, !new)>(s: set<T>, less: (T, T) -> bool): (m: T)
    requires s != {} && TotalOn(less, s)
    ensures m in s && forall y | y in s && y != m :: less(m, y)
  {
    MinExists(s, less);
    var m :| m in s && forall y | y in s && y != m :: less(m, y);
    m
  }

  /** The elements of s in increasing order. */
  function SortSet<T(==, !new)>(s: set<T>, less: (T, T) -> bool): (r: seq<T>)
    requires TotalOn(less, s)
    ensures Sorted(r, less)
    ensures forall x :: x in r <==> x in s
    ensures |r| == |s|
  {
    if s == {} then [] else
      var m := MinOf(s, less);
      var rest := SortSet(s - {m}, less);
      [m] + rest
  }

  lemma SortedHead<T(!new)>(r: seq<T>, s: set<T>, less: (T, T) -> bool)
    requires TotalOn(less, s) && Sorted(r, less) && r != []
    requires forall x :: x in r <==> x in s
    ensures r[0] in s && r[0] == MinOf(s, less)
    ensures forall x :: x in r[1..] <==> x in s - {r[0]}
  {
    assert r[0] in r;
    assert forall x :: x in r <==> x == r[0] || x in r[1..];
    assert r[0] !in r[1..];
    assert forall y | y in r[1..] :: less(r[0], y);
    assert forall y | y in s && y != r[0] :: less(r[0], y) && !less(y, r[0]);
  }

  /** A listing that increases and holds exactly the elements of s is the sorted one. */
  lemma {:induction false} SortUnique<T(!new)>(r: seq<T>, s: set<T>, less: (T, T) -> bool)
    requires TotalOn(less, s) && Sorted(r, less)
    requires forall x :: x in r <==> x in s
    ensures r == SortSet(s, less)
  {
    if r == [] {
      assert forall x :: x in s ==> x in r;
      assert s == {};
    } else {
      SortedHead(r, s, less);
      var rest := SortSet(s - {r[0]}, less);
      assert r[1..] == rest by { SortUnique(r[1..], s - {r[0]}, less); }
      assert r == [r[0]] + rest;
    }
  }

  predicate IntLess(a: int, b: int) { a < b }

  // ---- strings -------------------------------------------------------------------

  predicate StrLess(a: string, b: string) {
    b != [] && (a == [] || a[0] < b[0] || (a[0] == b[0] && StrLess(a[1..], b[1..])))
  }

  // a ends at position k, where b goes on, or has the smaller character there; before k they agree.
  predicate DifferAt(a: string, b: string, k: nat) {
    k <= |a| && k < |b| && (forall i | 0 <= i < k :: a[i] == b[i]) && (k == |a| || a[k] < b[k])
  }

  /** Code-point order is decided by the first place where two strings differ. */
  lemma {:induction false} StrLessMeaning(a: string, b: string)
    ensures StrLess(a, b) <==> exists k: nat :: DifferAt(a, b, k)
  {
    if b != [] && (a == [] || a[0] < b[0]) {
      assert DifferAt(a, b, 0);
    } else if a != [] && b != [] && a[0] == b[0] {
      StrLessMeaning(a[1..], b[1..]);
      if StrLess(a, b) {
        var k: nat :| DifferAt(a[1..], b[1..], k);
        assert DifferAt(a, b, k + 1);
      }
      if k: nat :| DifferAt(a, b, k) {
        assert DifferAt(a[1..], b[1..], k - 1);
      }
    }
  }

  lemma {:induction false} StrIrreflexive(a: string)
    ensures !StrLess(a, a)
  {
    if a != [] { StrIrreflexive(a[1..]); }
  }

  lemma {:induction false} StrConnected(a: string, b: string)
    requires a != b
    ensures StrLess(a, b) || StrLess(b, a)
  {
    if a != [] && b != [] && a[0] == b[0] {
      assert a == [a[0]] + a[1..] && b == [b[0]] + b[1..];
      StrConnected(a[1..], b[1..]);
    }
  }

  lemma {:induction false} StrTransitive(a: string, b: string, c: string)
    requires StrLess(a, b) && StrLess(b, c)
    ensures StrLess(a, c)
  {
    if a != [] && a[0] == b[0] == c[0] { StrTransitive(a[1..], b[1..], c[1..]); }
  }

  /** Code-point order is a strict total order on every set of strings. */
  lemma StrTotal(s: set<string>)
    ensures TotalOn(StrLess, s)
  {
    forall x | x in s ensures !StrLess(x, x) { StrIrreflexive(x); }
    forall x, y | x in s && y in s && x != y ensures StrLess(x, y) || StrLess(y, x) { StrConnected(x, y); }
    forall x, y, z | x in s && y in s && z in s && StrLess(x, y) && StrLess(y, z) ensures StrLess(x, z) {
      StrTransitive(x, y, z);
    }
  }
}
