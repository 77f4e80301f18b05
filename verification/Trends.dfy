// The size trend of a student: per-bucket sums of size differences and their running total.
module Trends {
  import opened Events
  import opened Order
  import opened Sums
  import opened Snapshots

  datatype TrendRow = TrendRow(bucket: int, totalSize: int, sizeChange: int)

  // floor(epoch / width) * width; Dafny's division by a positive number is the floor.
  function Bucket(at: int, width: int): int
    requires width > 0
  {
    at / width * width
  }

  function Buckets(t: Snaps, width: int): set<int>
    requires width > 0
  {
    set e | e in t :: Bucket(t[e].at, width)
  }

  function InBuckets(t: Snaps, width: int, bs: seq<int>): set<EventId>
    requires width > 0
  {
    set e | e in t && Bucket(t[e].at, width) in bs
  }

  // sum(size_change) ... GROUP BY bucket
  ghost function Change(t: Snaps, width: int, b: int): int
    requires SnapsOk(t) && width > 0
  {
    Sum(Restrict(Deltas(t), InBuckets(t, width, [b])))
  }

  // sum(...) OVER (ORDER BY bucket ROWS UNBOUNDED PRECEDING)
  ghost function Running(t: Snaps, width: int, bs: seq<int>): int
    requires SnapsOk(t) && width > 0
  {
    if bs == [] then 0 else Running(t, width, bs[..|bs| - 1]) + Change(t, width, bs[|bs| - 1])
  }

  function Ordered(t: Snaps, width: int): (bs: seq<int>)
    requires width > 0
    ensures |bs| == |Buckets(t, width)| && forall b :: b in bs <==> b in Buckets(t, width)
  {
    SortSet(Buckets(t, width), IntLess)
  }

  ghost function TrendsOf(t: Snaps, width: int): seq<TrendRow>
    requires SnapsOk(t) && width > 0
  {
    var bs := Ordered(t, width);
    seq(|bs|, i requires 0 <= i < |bs| => TrendRow(bs[i], Running(t, width, bs[..i + 1]), Change(t, width, bs[i])))
  }

  // The snapshots up to the end of a bucket.
  function UpTo(t: Snaps, width: int, b: int): Snaps
    requires width > 0
  {
    map e | e in t && Bucket(t[e].at, width) <= b :: t[e]
  }

  lemma Multiples(d: int, m: int)
    requires m > 0
    ensures (d >= 1 ==> d * m >= m) && (d >= 0 ==> d * m >= 0)
  {
  }

  lemma Distribute(p: int, q: int, m: int)
    ensures (p - q) * m == p * m - q * m
  {
  }

  lemma MulOrder(p: int, q: int, m: int)
    requires m > 0
    ensures p > q ==> p * m >= q * m + m
    ensures p <= q ==> p * m <= q * m
  {
    Multiples(p - q, m);
    Multiples(q - p, m);
    Distribute(p, q, m);
    Distribute(q, p, m);
  }

  lemma DivBounds(x: int, m: int)
    requires m > 0
    ensures Bucket(x, m) <= x < Bucket(x, m) + m
  {
    assert x == x / m * m + x % m;
  }

  lemma BucketMonotone(a: int, b: int, width: int)
    requires width > 0 && a <= b
    ensures Bucket(a, width) <= Bucket(b, width)
  {
    var p, q := a / width, b / width;
    DivBounds(a, width);
    DivBounds(b, width);
    MulOrder(p, q, width);
  }

  lemma OrderedSorted(t: Snaps, width: int)
    requires width > 0
    ensures Sorted(Ordered(t, width), IntLess)
    ensures forall e | e in t :: Bucket(t[e].at, width) in Ordered(t, width)
    ensures forall i | 0 <= i < |Ordered(t, width)| ::
      exists e :: e in t && Bucket(t[e].at, width) == Ordered(t, width)[i]
  {
    var bs := Ordered(t, width);
    forall i | 0 <= i < |bs| ensures exists e :: e in t && Bucket(t[e].at, width) == bs[i] {
      assert bs[i] in bs;
    }
  }

  // The position of a snapshot's bucket among the rows.
  lemma RowIndex(t: Snaps, width: int, e: EventId) returns (j: nat)
    requires width > 0 && e in t
    ensures j < |Ordered(t, width)| && Ordered(t, width)[j] == Bucket(t[e].at, width)
  {
    hide Bucket;
    OrderedSorted(t, width);
    j :| 0 <= j < |Ordered(t, width)| && Ordered(t, width)[j] == Bucket(t[e].at, width);
  }

  lemma RowAt(t: Snaps, width: int)
    requires SnapsOk(t) && width > 0
    ensures var bs, rows := Ordered(t, width), TrendsOf(t, width);
      && |rows| == |bs|
      && forall i | 0 <= i < |rows| ::
           rows[i] == TrendRow(bs[i], Running(t, width, bs[..i + 1]), Change(t, width, bs[i]))
  {
    hide Running, Change, Ordered, SnapsOk;
  }

  lemma {:induction false} RunningIsSum(t: Snaps, width: int, bs: seq<int>)
    requires SnapsOk(t) && width > 0 && Sorted(bs, IntLess)
    ensures Running(t, width, bs) == Sum(Restrict(Deltas(t), InBuckets(t, width, bs)))
  {
    hide Sum, Delta, Bucket;
    var d := Deltas(t);
    if bs == [] {
      assert Restrict(d, InBuckets(t, width, [])) == map[];
      SumEmpty();
    } else {
      var n := |bs| - 1;
      var init, b := bs[..n], bs[n];
      RunningIsSum(t, width, init);
      assert forall x :: x in bs <==> x in init || x == b;
      assert b !in init by { assert forall i | 0 <= i < n :: IntLess(bs[i], bs[n]); }
      var all, before := InBuckets(t, width, bs), InBuckets(t, width, init);
      SumSplit(Restrict(d, all), before);
      assert Restrict(Restrict(d, all), before) == Restrict(d, before);
      assert Restrict(d, all) - before == Restrict(d, InBuckets(t, width, [b]));
    }
  }

  lemma UpToBeginning(t: Snaps, width: int, b: int)
    requires SnapsOk(t) && width > 0
    ensures SnapsOk(UpTo(t, width, b)) && Beginning(UpTo(t, width, b), t)
    ensures OneStudent(t) ==> OneStudent(UpTo(t, width, b))
  {
    hide Bucket;
    var u := UpTo(t, width, b);
    forall a, e | e in u && a in t && SameFile(t[a], t[e]) && Older(t, a, e) ensures a in u {
      BucketMonotone(t[a].at, t[e].at, width);
    }
  }

  lemma UpToDeltas(t: Snaps, width: int, i: nat)
    requires SnapsOk(t) && width > 0 && i < |Ordered(t, width)|
    ensures var bs := Ordered(t, width);
      && SnapsOk(UpTo(t, width, bs[i]))
      && Restrict(Deltas(t), InBuckets(t, width, bs[..i + 1])) == Deltas(UpTo(t, width, bs[i]))
  {
    hide Bucket, Delta, Ordered, SnapsOk, Beginning, OneStudent;
    var bs := Ordered(t, width);
    var u := UpTo(t, width, bs[i]);
    UpToBeginning(t, width, bs[i]);
    OrderedSorted(t, width);
    forall e | e in t ensures e in InBuckets(t, width, bs[..i + 1]) <==> e in u {
      var j := RowIndex(t, width, e);
      InPrefix(bs, i, j);
    }
    forall e | e in u ensures Delta(u, e) == Delta(t, e) { LagInBeginning(u, t, e); }
  }

  lemma InPrefix(bs: seq<int>, i: nat, j: nat)
    requires Sorted(bs, IntLess) && i < |bs| && j < |bs|
    ensures bs[j] in bs[..i + 1] <==> bs[j] <= bs[i]
  {
    if j <= i {
      assert bs[..i + 1][j] == bs[j];
      assert j < i ==> IntLess(bs[j], bs[i]);
    } else {
      assert IntLess(bs[i], bs[j]);
      assert forall k | 0 <= k <= i :: k < i ==> IntLess(bs[k], bs[i]);
    }
  }

  lemma RunningMeaning(t: Snaps, width: int, i: nat)
    requires SnapsOk(t) && OneStudent(t) && width > 0 && i < |Ordered(t, width)|
    ensures var bs := Ordered(t, width); var u := UpTo(t, width, bs[i]);
      SnapsOk(u) && Running(t, width, bs[..i + 1]) == Sum(LatestSizes(u)) && Sum(LatestSizes(u)) >= 0
  {
    hide Sum, LatestSizes, Running, Ordered, UpTo, Deltas, SnapsOk;
    var bs := Ordered(t, width);
    OrderedSorted(t, width);
    UpToBeginning(t, width, bs[i]);
    RunningIsSum(t, width, bs[..i + 1]);
    UpToDeltas(t, width, i);
    DeltasTelescope(UpTo(t, width, bs[i]));
    LatestNonNegative(UpTo(t, width, bs[i]));
  }

  // A row's change is the step of the running total, and buckets increase.
  lemma RunningStep(t: Snaps, width: int, i: nat)
    requires SnapsOk(t) && width > 0 && i < |Ordered(t, width)|
    ensures var bs := Ordered(t, width);
      && Running(t, width, bs[..i + 1]) == Running(t, width, bs[..i]) + Change(t, width, bs[i])
      && (i == 0 ==> Running(t, width, bs[..i]) == 0) && (i > 0 ==> bs[i - 1] < bs[i])
  {
    hide Sum, Change, Ordered, SnapsOk;
    var bs := Ordered(t, width);
    OrderedSorted(t, width);
    assert bs[..i + 1][..i] == bs[..i];
    assert i > 0 ==> IntLess(bs[i - 1], bs[i]);
  }

  // The bucket of a time is the multiple of the width that begins its interval.
  lemma BucketInterval(at: int, b: int, width: int)
    requires width > 0
    ensures Bucket(at, width) % width == 0
    ensures b % width == 0 ==> (b == Bucket(at, width) <==> b <= at < b + width)
    ensures b % width == 0 ==> (Bucket(at, width) <= b <==> at < b + width)
  {
    var q := at / width;
    DivBounds(at, width);
    DivBounds(q * width, width);
    QuotientOf(q * width, q, width);
    var p := b / width;
    assert b == p * width + b % width;
    MulOrder(p, q, width);
    MulOrder(q, p, width);
  }

  lemma UpToEnd(t: Snaps, width: int, b: int)
    requires width > 0 && b % width == 0
    ensures forall e :: e in UpTo(t, width, b) <==> e in t && t[e].at < b + width
    ensures forall e | e in UpTo(t, width, b) :: UpTo(t, width, b)[e] == t[e]
  {
    hide Bucket;
    forall e | e in t ensures Bucket(t[e].at, width) <= b <==> t[e].at < b + width {
      BucketInterval(t[e].at, b, width);
    }
  }

  predicate Spans(row: TrendRow, width: int, at: int) { row.bucket <= at < row.bucket + width }

  lemma SpansIff(t: Snaps, width: int, i: nat, at: int)
    requires SnapsOk(t) && width > 0 && i < |TrendsOf(t, width)|
    ensures var row := TrendsOf(t, width)[i];
      row.bucket % width == 0 && (Spans(row, width, at) <==> row.bucket == Bucket(at, width))
  {
    hide Bucket, TrendsOf, Ordered, SnapsOk, Running, Change;
    RowAt(t, width);
    OrderedSorted(t, width);
    var b := Ordered(t, width)[i];
    var e :| e in t && Bucket(t[e].at, width) == b;
    BucketInterval(t[e].at, 0, width);
    BucketInterval(at, b, width);
  }

  lemma SpanningRow(t: Snaps, width: int, e: EventId) returns (i: nat)
    requires SnapsOk(t) && width > 0 && e in t
    ensures i < |TrendsOf(t, width)| && Spans(TrendsOf(t, width)[i], width, t[e].at)
  {
    hide Bucket, TrendsOf, Ordered, SnapsOk, Running, Change, Spans;
    RowAt(t, width);
    i := RowIndex(t, width, e);
    SpansIff(t, width, i, t[e].at);
  }

  lemma SameBucketRow(t: Snaps, width: int, i: nat, j: nat)
    requires SnapsOk(t) && width > 0 && i < |TrendsOf(t, width)| && j < |TrendsOf(t, width)|
    ensures TrendsOf(t, width)[i].bucket == TrendsOf(t, width)[j].bucket <==> i == j
  {
    hide Bucket, TrendsOf, Ordered, SnapsOk, Running, Change;
    RowAt(t, width);
    OrderedSorted(t, width);
    var bs := Ordered(t, width);
    assert i < j ==> IntLess(bs[i], bs[j]);
    assert j < i ==> IntLess(bs[j], bs[i]);
  }

  /** A row stands for an interval that begins at a multiple of the width and holds a snapshot. */
  lemma RowInterval(t: Snaps, width: int, i: nat)
    requires SnapsOk(t) && width > 0 && i < |TrendsOf(t, width)|
    ensures var row := TrendsOf(t, width)[i];
      row.bucket % width == 0 && exists e :: e in t && row.bucket <= t[e].at < row.bucket + width
  {
    hide Bucket, TrendsOf, SnapsOk;
    var row := TrendsOf(t, width)[i];
    RowBuckets(t, width, row.bucket);
    var e :| e in t && Bucket(t[e].at, width) == row.bucket;
    SpansIff(t, width, i, t[e].at);
  }

  /** Every snapshot lies in the interval of one row and of no other. */
  lemma RowOfSnapshot(t: Snaps, width: int, e: EventId)
    requires SnapsOk(t) && width > 0 && e in t
    ensures var rows := TrendsOf(t, width);
      && (exists i :: 0 <= i < |rows| && rows[i].bucket <= t[e].at < rows[i].bucket + width)
      && (forall i, j | 0 <= i < |rows| && 0 <= j < |rows|
            && rows[i].bucket <= t[e].at < rows[i].bucket + width
            && rows[j].bucket <= t[e].at < rows[j].bucket + width :: i == j)
  {
    hide Bucket, TrendsOf, SnapsOk;
    var i := SpanningRow(t, width, e);
    forall j: nat, k: nat | j < |TrendsOf(t, width)| && k < |TrendsOf(t, width)|
        && Spans(TrendsOf(t, width)[j], width, t[e].at) && Spans(TrendsOf(t, width)[k], width, t[e].at)
      ensures j == k
    {
      SpansIff(t, width, j, t[e].at);
      SpansIff(t, width, k, t[e].at);
      SameBucketRow(t, width, j, k);
    }
  }

  /** Two snapshots lie in the interval of the same row exactly when their times have the same quotient by the width. */
  lemma SameRowIff(t: Snaps, width: int, a: EventId, b: EventId, i: nat, j: nat)
    requires SnapsOk(t) && width > 0 && a in t && b in t && i < |TrendsOf(t, width)| && j < |TrendsOf(t, width)|
    requires var rows := TrendsOf(t, width);
      && rows[i].bucket <= t[a].at < rows[i].bucket + width && rows[j].bucket <= t[b].at < rows[j].bucket + width
    ensures i == j <==> t[a].at / width == t[b].at / width
  {
    hide TrendsOf, SnapsOk, Bucket;
    SameBucketRow(t, width, i, j);
    SpansIff(t, width, i, t[a].at);
    SpansIff(t, width, j, t[b].at);
    QuotientInside(t[a].at, TrendsOf(t, width)[i].bucket, width);
    QuotientInside(t[b].at, TrendsOf(t, width)[j].bucket, width);
  }

  lemma QuotientInside(at: int, b: int, width: int)
    requires width > 0 && b % width == 0 && b <= at < b + width
    ensures at / width * width == b
  {
    var p := b / width;
    assert b == p * width;
    QuotientOf(at, p, width);
  }

  /** Trends mean what they say: in increasing order of bucket, the running total at a bucket is the sum over
      all files of the size of the file's latest snapshot before the end of that bucket; it is never
      negative; and the change is the difference to the row before. */
  lemma TrendsMeaning(t: Snaps, width: int, i: nat)
    requires SnapsOk(t) && OneStudent(t) && width > 0 && i < |TrendsOf(t, width)|
    ensures var rows := TrendsOf(t, width); var row := rows[i]; var u := UpTo(t, width, row.bucket);
      && row.bucket % width == 0
      && (forall e :: e in u <==> e in t && t[e].at < row.bucket + width) && (forall e | e in u :: u[e] == t[e])
      && SnapsOk(u) && row.totalSize == Sum(LatestSizes(u)) && row.totalSize >= 0
      && row.sizeChange == row.totalSize - (if i == 0 then 0 else rows[i - 1].totalSize)
      && (i > 0 ==> rows[i - 1].bucket < row.bucket)
  {
    hide Sum, LatestSizes, Change, Running, TrendsOf, Ordered, UpTo, SnapsOk, OneStudent;
    RowAt(t, width);
    RunningMeaning(t, width, i);
    RunningStep(t, width, i);
    RowInterval(t, width, i);
    UpToEnd(t, width, TrendsOf(t, width)[i].bucket);
  }

  lemma LatestNonNegative(t: Snaps)
    requires SnapsOk(t)
    ensures Sum(LatestSizes(t)) >= 0
  {
    SumNonNegative(LatestSizes(t));
  }

  /** The buckets of the rows are exactly those with a snapshot. */
  lemma RowBuckets(t: Snaps, width: int, b: int)
    requires SnapsOk(t) && width > 0
    ensures (exists i | 0 <= i < |TrendsOf(t, width)| :: TrendsOf(t, width)[i].bucket == b) <==>
      exists e | e in t :: Bucket(t[e].at, width) == b
  {
    hide Bucket, TrendsOf, Ordered, SnapsOk, Running, Change;
    RowAt(t, width);
    OrderedSorted(t, width);
    var rows := TrendsOf(t, width);
    if exists e | e in t :: Bucket(t[e].at, width) == b {
      var e :| e in t && Bucket(t[e].at, width) == b;
      var i := RowIndex(t, width, e);
      assert rows[i].bucket == b;
    }
  }

  lemma UpToLast(t: Snaps, width: int)
    requires width > 0 && t != map[]
    ensures var bs := Ordered(t, width); |bs| > 0 && UpTo(t, width, bs[|bs| - 1]) == t
  {
    hide Bucket, Ordered;
    var bs := Ordered(t, width);
    OrderedSorted(t, width);
    var e :| e in t;
    var m := RowIndex(t, width, e);
    var n := |bs| - 1;
    forall a | a in t ensures Bucket(t[a].at, width) <= bs[n] {
      var j := RowIndex(t, width, a);
      assert j < n ==> IntLess(bs[j], bs[n]);
    }
  }

  /** The last total is the present size of all files, whatever the interval. */
  lemma FinalTotal(t: Snaps, width: int)
    requires SnapsOk(t) && OneStudent(t) && width > 0 && t != map[]
    ensures var rows := TrendsOf(t, width); |rows| > 0 && rows[|rows| - 1].totalSize == Sum(LatestSizes(t))
  {
    hide Sum, LatestSizes, Change, Running, Bucket, TrendsOf, Ordered, SnapsOk, UpTo;
    RowAt(t, width);
    UpToLast(t, width);
    TrendsMeaning(t, width, |TrendsOf(t, width)| - 1);
  }

  // ---- coarser intervals ----------------------------------------------------------------------

  lemma QuotientOf(x: int, q: int, m: int)
    requires m > 0 && q * m <= x < q * m + m
    ensures x / m == q
  {
    var p := x / m;
    DivBounds(x, m);
    MulOrder(p, q, m);
    MulOrder(q, p, m);
  }

  lemma BucketOfBucket(at: int, fine: int, k: int, coarse: int)
    requires fine > 0 && k > 0 && coarse > 0 && coarse == k * fine
    ensures Bucket(Bucket(at, fine), coarse) == Bucket(at, coarse)
  {
    var f, c := at / fine, at / coarse;
    DivBounds(at, fine);
    DivBounds(at, coarse);
    var ck := c * k;
    assert c * coarse == ck * fine;
    MulOrder(ck, f, fine);
    QuotientOf(f * fine, c, coarse);
  }

  // Every wide bucket is made of whole fine ones.
  ghost predicate Divides(fine: int, wide: int)
    requires fine > 0 && wide > 0
  {
    forall at: int :: Bucket(Bucket(at, fine), wide) == Bucket(at, wide)
  }

  lemma MultipleDivides(fine: int, k: int)
    requires fine > 0 && k > 0 && k * fine > 0
    ensures Divides(fine, k * fine)
  {
    hide Bucket;
    forall at: int ensures Bucket(Bucket(at, fine), k * fine) == Bucket(at, k * fine) {
      BucketOfBucket(at, fine, k, k * fine);
    }
  }

  lemma InsideRow(t: Snaps, fine: int, wide: int, b: int, j: nat, a: EventId)
    requires fine > 0 && wide > 0 && Divides(fine, wide) && a in t && j < |Ordered(t, fine)|
    requires var bs := Ordered(t, fine);
      Bucket(bs[j], wide) == b && (j + 1 < |bs| ==> Bucket(bs[j + 1], wide) > b)
    ensures Bucket(t[a].at, wide) <= b <==> Bucket(t[a].at, fine) <= Ordered(t, fine)[j]
  {
    hide Bucket, Ordered;
    OrderedSorted(t, fine);
    var n := RowIndex(t, fine, a);
    InsideIff(Ordered(t, fine), wide, b, j, n);
  }

  // The last fine bucket inside a coarse one ends the same snapshots.
  lemma SameSnapshots(t: Snaps, fine: int, wide: int, i: nat) returns (j: nat)
    requires fine > 0 && wide > 0 && Divides(fine, wide) && i < |Ordered(t, wide)|
    ensures var bs, b := Ordered(t, fine), Ordered(t, wide)[i];
      && j < |bs| && Bucket(bs[j], wide) == b
      && (j + 1 < |bs| ==> Bucket(bs[j + 1], wide) > b)
      && UpTo(t, wide, b) == UpTo(t, fine, bs[j])
  {
    hide Bucket, Ordered, UpTo;
    var bs, b := Ordered(t, fine), Ordered(t, wide)[i];
    OrderedSorted(t, fine);
    OrderedSorted(t, wide);
    var e :| e in t && Bucket(t[e].at, wide) == b;
    var m := RowIndex(t, fine, e);
    j := LastInside(bs, wide, b, m);
    forall a | a in t ensures Bucket(t[a].at, wide) <= b <==> Bucket(t[a].at, fine) <= bs[j] {
      InsideRow(t, fine, wide, b, j, a);
    }
    UpToAgree(t, wide, b, fine, bs[j]);
  }

  lemma UpToAgree(t: Snaps, w: int, b: int, v: int, c: int)
    requires w > 0 && v > 0 && forall a | a in t :: Bucket(t[a].at, w) <= b <==> Bucket(t[a].at, v) <= c
    ensures UpTo(t, w, b) == UpTo(t, v, c)
  {
    hide Bucket;
  }

  /** For an interval that is a multiple of a finer one, each coarse total is the total of the last fine
      bucket inside the coarse one. */
  lemma CoarseTotals(t: Snaps, fine: int, k: int, i: nat) returns (j: nat)
    requires SnapsOk(t) && OneStudent(t) && fine > 0 && k > 0 && k * fine > 0
    requires i < |TrendsOf(t, k * fine)|
    ensures var rows, coarse := TrendsOf(t, fine), TrendsOf(t, k * fine)[i];
      && j < |rows|
      && Bucket(rows[j].bucket, k * fine) == coarse.bucket
      && (j + 1 < |rows| ==> Bucket(rows[j + 1].bucket, k * fine) > coarse.bucket)
      && rows[j].totalSize == coarse.totalSize
  {
    hide Sum, LatestSizes, Change, Running, Bucket, SnapsOk, TrendsOf, Ordered, UpTo, Divides;
    RowAt(t, fine);
    RowAt(t, k * fine);
    MultipleDivides(fine, k);
    j := SameSnapshots(t, fine, k * fine, i);
    TrendsMeaning(t, fine, j);
    TrendsMeaning(t, k * fine, i);
  }

  lemma LastInside(bs: seq<int>, wide: int, b: int, m: nat) returns (j: nat)
    requires wide > 0 && Sorted(bs, IntLess) && m < |bs| && Bucket(bs[m], wide) == b
    ensures j < |bs| && Bucket(bs[j], wide) == b && (j + 1 < |bs| ==> Bucket(bs[j + 1], wide) > b)
  {
    hide Bucket;
    j := m;
    while j + 1 < |bs| && Bucket(bs[j + 1], wide) == b
      invariant j < |bs| && Bucket(bs[j], wide) == b
    {
      j := j + 1;
    }
    if j + 1 < |bs| {
      assert IntLess(bs[j], bs[j + 1]);
      BucketMonotone(bs[j], bs[j + 1], wide);
    }
  }

  lemma InsideIff(bs: seq<int>, wide: int, b: int, j: nat, n: nat)
    requires wide > 0 && Sorted(bs, IntLess) && j < |bs| && n < |bs|
    requires Bucket(bs[j], wide) == b && (j + 1 < |bs| ==> Bucket(bs[j + 1], wide) > b)
    ensures Bucket(bs[n], wide) <= b <==> bs[n] <= bs[j]
  {
    hide Bucket;
    if n <= j {
      assert n < j ==> IntLess(bs[n], bs[j]);
      BucketMonotone(bs[n], bs[j], wide);
    } else {
      assert IntLess(bs[j], bs[n]);
      assert j + 1 < n ==> IntLess(bs[j + 1], bs[n]);
      BucketMonotone(bs[j + 1], bs[n], wide);
    }
  }
}
