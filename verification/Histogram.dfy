/** Equi-height histograms: the buckets cover the values in order, and every bucket ends
    where the running total is nearest to its share of the whole. */
module Histogram {

  /** A value and how often it occurs. Values are compared as numbers. */
  datatype Freq = Freq(value: int, count: nat)

  datatype Bucket = Bucket(start: int, end: int, count: nat, ndv: nat, cf: real)

  /** A value map: ascending keys, each occurring at least once. */
  ghost predicate ValueMap(freqs: seq<Freq>) {
    && (forall i :: 0 <= i < |freqs| ==> freqs[i].count > 0)
    && forall i, j :: 0 <= i < j < |freqs| ==> freqs[i].value < freqs[j].value
  }

  /** Total count of the first `k` values. */
  ghost function Prefix(freqs: seq<Freq>, k: nat): nat
    requires k <= |freqs|
  {
    if k == 0 then 0 else Prefix(freqs, k - 1) + freqs[k - 1].count
  }

  /** The total fits the signed 32-bit integer it is summed in. */
  ghost predicate Summable(freqs: seq<Freq>) { Prefix(freqs, |freqs|) < 0x8000_0000 }

  /** Number of values in the first `j` buckets: where bucket `j` begins. */
  ghost function Begin(buckets: seq<Bucket>, j: nat): nat
    requires j <= |buckets|
  {
    if j == 0 then 0 else Begin(buckets, j - 1) + buckets[j - 1].ndv
  }

  function Distance(x: real, y: real): (d: real)
    ensures d >= 0.0 && (d == x - y || d == y - x)
  {
    if x <= y then y - x else x - y
  }

  /** The share of the total that the first `k` of `bucketSize` buckets should hold. */
  ghost function Share(total: nat, bucketSize: nat, k: nat): real
    requires bucketSize > 0
  {
    (total as real / bucketSize as real) * k as real
  }

  /** All shares are equal, and together they are the total. */
  lemma SharesAreEqual(total: nat, bucketSize: nat, k: nat)
    requires bucketSize > 0
    ensures Share(total, bucketSize, 0) == 0.0 && Share(total, bucketSize, bucketSize) == total as real
    ensures (Share(total, bucketSize, k + 1) - Share(total, bucketSize, k)) * bucketSize as real == total as real
  {
    var share := total as real / bucketSize as real;
    assert share * bucketSize as real == total as real;
    assert share * (k + 1) as real - share * k as real == share;
  }

  /** Among all ends after `from`, `k` is the one whose prefix sum is nearest to the target,
      and of two equally near ones the larger. */
  ghost predicate Nearest(freqs: seq<Freq>, target: real, from: nat, k: nat) {
    && from < k <= |freqs|
    && (forall x :: from < x <= k ==> Distance(target, Prefix(freqs, k) as real) <= Distance(target, Prefix(freqs, x) as real))
    && (forall x :: k < x <= |freqs| ==> Distance(target, Prefix(freqs, k) as real) < Distance(target, Prefix(freqs, x) as real))
  }

  /** Bucket `j` describes the values from `from` up to `to`. */
  ghost predicate Describes(freqs: seq<Freq>, b: Bucket, from: nat, to: nat) {
    && from < to <= |freqs|
    && b.start == freqs[from].value && b.end == freqs[to - 1].value
    && b.count == Prefix(freqs, to) - Prefix(freqs, from)
    && b.ndv == to - from
    && Prefix(freqs, |freqs|) > 0 && b.cf == Prefix(freqs, to) as real / Prefix(freqs, |freqs|) as real
  }

  ghost predicate BucketOk(freqs: seq<Freq>, bucketSize: nat, buckets: seq<Bucket>, j: nat)
    requires bucketSize > 0 && j < |buckets|
  {
    && Describes(freqs, buckets[j], Begin(buckets, j), Begin(buckets, j + 1))
    && Nearest(freqs, Share(Prefix(freqs, |freqs|), bucketSize, j + 1), Begin(buckets, j), Begin(buckets, j + 1))
  }

  /** The histogram of a value map. */
  ghost predicate EquiHeight(freqs: seq<Freq>, bucketSize: nat, buckets: seq<Bucket>)
    requires bucketSize > 0
  {
    && (forall j :: 0 <= j < |buckets| ==> BucketOk(freqs, bucketSize, buckets, j))
    && Begin(buckets, |buckets|) == |freqs|
  }

  // ---- construction --------------------------------------------------------

  /** The running bucket may still improve at `i`: no earlier end was nearer. */
  ghost predicate Approaching(freqs: seq<Freq>, target: real, from: nat, i: nat) {
    forall x :: from < x <= i < |freqs| ==>
      Distance(target, Prefix(freqs, i + 1) as real) <= Distance(target, Prefix(freqs, x) as real)
  }

  /** Builds the histogram in one pass. */
  method BuildHistogram(freqs: seq<Freq>, bucketSize: nat) returns (buckets: seq<Bucket>)
    requires ValueMap(freqs) && Summable(freqs) && bucketSize > 0
    ensures EquiHeight(freqs, bucketSize, buckets)
  {
    hide Distance, Nearest, Describes, Share, ValueMap, Approaching, BucketOk;
    buckets := [];
    var total := TotalCount(freqs);
    var average := total as real / bucketSize as real;
    var threshold := average;
    var ndv, sum, cumulative, i, lowest := 0, 0, 0, 0, 0;
    if |freqs| > 0 { lowest := freqs[0].value; }
    ShareOf(total, bucketSize, 1);
    ghost var from := 0;
    ApproachingAtFirst(freqs, Share(total, bucketSize, 1), 0);
    while i < |freqs|
      invariant 0 <= from <= i <= |freqs| && (i == |freqs| ==> from == i)
      invariant ndv == i - from && sum == Prefix(freqs, i) - Prefix(freqs, from) && cumulative == Prefix(freqs, i)
      invariant from < |freqs| ==> lowest == freqs[from].value
      invariant threshold == Share(total, bucketSize, |buckets| + 1)
      invariant Begin(buckets, |buckets|) == from
      invariant forall j :: 0 <= j < |buckets| ==> BucketOk(freqs, bucketSize, buckets, j)
      invariant Approaching(freqs, threshold, from, i)
    {
      ndv := ndv + 1;
      sum := sum + freqs[i].count;
      cumulative := cumulative + freqs[i].count;
      var goOn := false;
      if i + 1 < |freqs| {
        var predicted := cumulative + freqs[i + 1].count;
        goOn := predicted as real <= threshold
                || Distance(threshold, cumulative as real) >= Distance(threshold, predicted as real);
      }
      if goOn {
        KeepsApproaching(freqs, threshold, from, i);
      } else {
        ClosesNearest(freqs, threshold, from, i);
        ClosesDescribed(freqs, from, i);
        var bucket := Bucket(lowest, freqs[i].value, sum, ndv, cumulative as real / total as real);
        AppendKeeps(freqs, bucketSize, buckets, bucket);
        buckets := buckets + [bucket];
        sum, ndv := 0, 0;
        threshold := average * (|buckets| + 1) as real;
        ShareOf(total, bucketSize, |buckets| + 1);
        if i + 1 < |freqs| { lowest := freqs[i + 1].value; }
        from := i + 1;
        ApproachingAtFirst(freqs, threshold, from);
      }
      i := i + 1;
    }
  }

  method TotalCount(freqs: seq<Freq>) returns (total: nat)
    ensures total == Prefix(freqs, |freqs|)
  {
    total := 0;
    for i := 0 to |freqs|
      invariant total == Prefix(freqs, i)
    {
      total := total + freqs[i].count;
    }
  }

  lemma {:induction false} PrefixIncreases(freqs: seq<Freq>, a: nat, b: nat)
    requires ValueMap(freqs) && a < b <= |freqs|
    ensures Prefix(freqs, a) < Prefix(freqs, b)
    decreases b - a
  {
    if a < b - 1 { PrefixIncreases(freqs, a, b - 1); }
  }

  lemma ApproachingAtFirst(freqs: seq<Freq>, target: real, from: nat)
    ensures Approaching(freqs, target, from, from)
  {
  }

  lemma KeepsApproaching(freqs: seq<Freq>, target: real, from: nat, i: nat)
    requires ValueMap(freqs) && from <= i && i + 1 < |freqs| && Approaching(freqs, target, from, i)
    requires Prefix(freqs, i + 2) as real <= target
             || Distance(target, Prefix(freqs, i + 1) as real) >= Distance(target, Prefix(freqs, i + 2) as real)
    ensures Approaching(freqs, target, from, i + 1)
  {
  }

  /** Where the pass stops, the prefix sum is the nearest of all to come. */
  lemma ClosesNearest(freqs: seq<Freq>, target: real, from: nat, i: nat)
    requires ValueMap(freqs) && from <= i < |freqs| && Approaching(freqs, target, from, i)
    requires i + 1 < |freqs| ==>
               && target < Prefix(freqs, i + 2) as real
               && Distance(target, Prefix(freqs, i + 1) as real) < Distance(target, Prefix(freqs, i + 2) as real)
    ensures Nearest(freqs, target, from, i + 1)
  {
    forall x | i + 1 < x <= |freqs|
      ensures Distance(target, Prefix(freqs, i + 1) as real) < Distance(target, Prefix(freqs, x) as real)
    {
      if x > i + 2 { PrefixIncreases(freqs, i + 2, x); }
    }
  }

  lemma ClosesDescribed(freqs: seq<Freq>, from: nat, i: nat)
    requires ValueMap(freqs) && from <= i < |freqs|
    ensures Prefix(freqs, |freqs|) > 0 && Prefix(freqs, i + 1) - Prefix(freqs, from) > 0
    ensures Describes(freqs, Bucket(freqs[from].value, freqs[i].value, Prefix(freqs, i + 1) - Prefix(freqs, from),
                                    i + 1 - from, Prefix(freqs, i + 1) as real / Prefix(freqs, |freqs|) as real), from, i + 1)
  {
    PrefixIncreases(freqs, from, i + 1);
    PrefixIncreases(freqs, 0, |freqs|);
  }

  lemma {:induction false} BeginSame(buckets: seq<Bucket>, b: Bucket, j: nat)
    requires j <= |buckets|
    ensures Begin(buckets + [b], j) == Begin(buckets, j)
  {
    if j > 0 { BeginSame(buckets, b, j - 1); }
  }

  lemma AppendKeeps(freqs: seq<Freq>, bucketSize: nat, buckets: seq<Bucket>, b: Bucket)
    requires bucketSize > 0 && forall j :: 0 <= j < |buckets| ==> BucketOk(freqs, bucketSize, buckets, j)
    requires var from := Begin(buckets, |buckets|);
             && Describes(freqs, b, from, from + b.ndv)
             && Nearest(freqs, Share(Prefix(freqs, |freqs|), bucketSize, |buckets| + 1), from, from + b.ndv)
    ensures var all := buckets + [b];
            && Begin(all, |all|) == Begin(buckets, |buckets|) + b.ndv
            && forall j :: 0 <= j < |all| ==> BucketOk(freqs, bucketSize, all, j)
  {
    hide Describes, Nearest, Share;
    var all := buckets + [b];
    BeginSame(buckets, b, |buckets|);
    forall j | 0 <= j < |all| ensures BucketOk(freqs, bucketSize, all, j) {
      BeginSame(buckets, b, j);
      if j < |buckets| {
        BeginSame(buckets, b, j + 1);
        assert BucketOk(freqs, bucketSize, buckets, j);
      }
    }
  }

  // ---- what a histogram is good for ----------------------------------------

  /** There is only one: the greedy pass finds it. */
  lemma {:induction false} HistogramUnique(freqs: seq<Freq>, bucketSize: nat, one: seq<Bucket>, other: seq<Bucket>)
    requires bucketSize > 0 && EquiHeight(freqs, bucketSize, one) && EquiHeight(freqs, bucketSize, other)
    ensures one == other
  {
    if |one| <= |other| {
      SameStart(freqs, bucketSize, one, other, |one|);
    } else {
      SameStart(freqs, bucketSize, other, one, |other|);
    }
  }

  lemma {:induction false} SameStart(freqs: seq<Freq>, bucketSize: nat, one: seq<Bucket>, other: seq<Bucket>, j: nat)
    requires bucketSize > 0 && EquiHeight(freqs, bucketSize, one) && EquiHeight(freqs, bucketSize, other)
    requires j <= |one| <= |other|
    ensures Begin(one, j) == Begin(other, j) && one[..j] == other[..j]
    ensures j == |one| ==> |one| == |other|
    decreases j
  {
    hide Nearest, Share;
    if j > 0 {
      SameStart(freqs, bucketSize, one, other, j - 1);
      assert BucketOk(freqs, bucketSize, one, j - 1) && BucketOk(freqs, bucketSize, other, j - 1);
      NearestUnique(freqs, Share(Prefix(freqs, |freqs|), bucketSize, j), Begin(one, j - 1), Begin(one, j), Begin(other, j));
      assert one[..j] == one[..j - 1] + [one[j - 1]] && other[..j] == other[..j - 1] + [other[j - 1]];
    }
    if j == |one| && |one| < |other| { BeginBefore(freqs, bucketSize, other, j); }
  }

  lemma NearestUnique(freqs: seq<Freq>, target: real, from: nat, a: nat, b: nat)
    requires Nearest(freqs, target, from, a) && Nearest(freqs, target, from, b)
    ensures a == b
  {
    hide Distance;
    var atA, atB := Distance(target, Prefix(freqs, a) as real), Distance(target, Prefix(freqs, b) as real);
    assert a < b ==> atA < atB && atB <= atA;
    assert b < a ==> atB < atA && atA <= atB;
  }

  /** No more buckets than asked for: the last share is the whole. */
  lemma AtMostBucketSize(freqs: seq<Freq>, bucketSize: nat, buckets: seq<Bucket>)
    requires ValueMap(freqs) && bucketSize > 0 && EquiHeight(freqs, bucketSize, buckets)
    ensures |buckets| <= bucketSize
  {
    hide ValueMap, BucketOk;
    if |buckets| > bucketSize {
      LastShareTakesAll(freqs, bucketSize, buckets);
      BeginBefore(freqs, bucketSize, buckets, bucketSize);
    }
  }

  lemma LastShareTakesAll(freqs: seq<Freq>, bucketSize: nat, buckets: seq<Bucket>)
    requires ValueMap(freqs) && bucketSize > 0 && EquiHeight(freqs, bucketSize, buckets) && bucketSize <= |buckets|
    ensures Begin(buckets, bucketSize) == |freqs|
  {
    hide ValueMap, Share;
    var n, k := |freqs|, Begin(buckets, bucketSize);
    assert BucketOk(freqs, bucketSize, buckets, bucketSize - 1);
    LastShare(Prefix(freqs, n), bucketSize);
    PrefixGrows(freqs, k, n);
  }

  lemma PrefixGrows(freqs: seq<Freq>, a: nat, b: nat)
    requires ValueMap(freqs) && a <= b <= |freqs|
    ensures a < b ==> Prefix(freqs, a) < Prefix(freqs, b)
  {
    hide ValueMap;
    if a < b { PrefixIncreases(freqs, a, b); }
  }

  lemma ShareOf(total: nat, bucketSize: nat, k: nat)
    requires bucketSize > 0
    ensures Share(total, bucketSize, k) == (total as real / bucketSize as real) * k as real
  {
  }

  lemma LastShare(total: nat, bucketSize: nat)
    requires bucketSize > 0
    ensures Share(total, bucketSize, bucketSize) == total as real
  {
  }

  lemma BeginBefore(freqs: seq<Freq>, bucketSize: nat, buckets: seq<Bucket>, j: nat)
    requires bucketSize > 0 && EquiHeight(freqs, bucketSize, buckets) && j < |buckets|
    ensures Begin(buckets, j) < |freqs|
  {
    assert BucketOk(freqs, bucketSize, buckets, j);
  }

  ghost function CountSum(buckets: seq<Bucket>, j: nat): nat
    requires j <= |buckets|
  {
    if j == 0 then 0 else CountSum(buckets, j - 1) + buckets[j - 1].count
  }

  /** Nothing is lost or counted twice: after every bucket, the counts so far are those of
      the values so far, and the cumulative frequency is their part of the total. */
  lemma {:induction false} CountsAddUp(freqs: seq<Freq>, bucketSize: nat, buckets: seq<Bucket>, j: nat)
    requires bucketSize > 0 && EquiHeight(freqs, bucketSize, buckets) && j <= |buckets|
    ensures Begin(buckets, j) <= |freqs| && CountSum(buckets, j) == Prefix(freqs, Begin(buckets, j))
    ensures j == |buckets| ==> CountSum(buckets, j) == Prefix(freqs, |freqs|) && Begin(buckets, j) == |freqs|
    decreases j
  {
    hide Nearest;
    if j > 0 {
      CountsAddUp(freqs, bucketSize, buckets, j - 1);
      assert BucketOk(freqs, bucketSize, buckets, j - 1);
    }
  }

  /** Buckets follow each other without overlap, and the cumulative frequency rises to one. */
  lemma BucketsInOrder(freqs: seq<Freq>, bucketSize: nat, buckets: seq<Bucket>, j: nat)
    requires ValueMap(freqs) && bucketSize > 0 && EquiHeight(freqs, bucketSize, buckets) && j < |buckets|
    ensures buckets[j].start <= buckets[j].end && buckets[j].count > 0 && buckets[j].ndv > 0
    ensures freqs != [] && (j == 0 ==> buckets[j].start == freqs[0].value)
    ensures j + 1 < |buckets| ==> buckets[j].end < buckets[j + 1].start && buckets[j].cf < buckets[j + 1].cf
    ensures j + 1 == |buckets| ==> buckets[j].cf == 1.0 && buckets[j].end == freqs[|freqs| - 1].value
  {
    hide Nearest, Prefix, Describes, Begin;
    assert BucketOk(freqs, bucketSize, buckets, j);
    var from, to := Begin(buckets, j), Begin(buckets, j + 1);
    BeginAtZero(buckets);
    OneBucket(freqs, buckets[j], from, to);
    if j + 1 < |buckets| {
      assert BucketOk(freqs, bucketSize, buckets, j + 1);
      NextBucket(freqs, buckets[j], buckets[j + 1], from, to, Begin(buckets, j + 2));
    }
  }

  lemma BeginAtZero(buckets: seq<Bucket>)
    ensures Begin(buckets, 0) == 0
  {
  }

  lemma OneBucket(freqs: seq<Freq>, b: Bucket, from: nat, to: nat)
    requires ValueMap(freqs) && Describes(freqs, b, from, to)
    ensures b.start <= b.end && b.count > 0 && b.ndv > 0 && freqs != [] && from < to <= |freqs|
    ensures b.start == freqs[from].value && b.end == freqs[to - 1].value
    ensures to == |freqs| ==> b.cf == 1.0
  {
    hide Prefix;
    PrefixIncreases(freqs, from, to);
    Whole(Prefix(freqs, |freqs|));
  }

  lemma NextBucket(freqs: seq<Freq>, b: Bucket, c: Bucket, from: nat, mid: nat, to: nat)
    requires ValueMap(freqs) && Describes(freqs, b, from, mid) && Describes(freqs, c, mid, to)
    ensures b.end < c.start && b.cf < c.cf
  {
    hide Prefix;
    PrefixIncreases(freqs, mid, to);
    LargerPart(Prefix(freqs, mid), Prefix(freqs, to), Prefix(freqs, |freqs|));
  }

  lemma Whole(total: nat)
    requires total > 0
    ensures total as real / total as real == 1.0
  {
  }

  lemma LargerPart(a: nat, b: nat, total: nat)
    requires a < b && total > 0
    ensures a as real / total as real < b as real / total as real
  {
  }

  /** Every value of the map lies in the bucket that counts it, and in no other. */
  lemma {:induction false} EveryValueInOneBucket(freqs: seq<Freq>, bucketSize: nat, buckets: seq<Bucket>, i: nat)
    returns (j: nat)
    requires ValueMap(freqs) && bucketSize > 0 && EquiHeight(freqs, bucketSize, buckets) && i < |freqs|
    ensures j < |buckets| && Begin(buckets, j) <= i < Begin(buckets, j + 1)
    ensures forall k :: 0 <= k < |buckets| ==> (buckets[k].start <= freqs[i].value <= buckets[k].end <==> k == j)
  {
    hide Nearest;
    j := BucketAt(buckets, i, |buckets|);
    forall k | 0 <= k < |buckets| ensures buckets[k].start <= freqs[i].value <= buckets[k].end <==> k == j {
      assert BucketOk(freqs, bucketSize, buckets, k);
      if k < j { BeginGrows(buckets, k + 1, j); }
      if k > j { BeginGrows(buckets, j + 1, k); }
    }
  }

  lemma {:induction false} BucketAt(buckets: seq<Bucket>, i: nat, n: nat) returns (j: nat)
    requires n <= |buckets| && i < Begin(buckets, n)
    ensures j < n && Begin(buckets, j) <= i < Begin(buckets, j + 1)
    decreases n
  {
    if Begin(buckets, n - 1) <= i { j := n - 1; } else { j := BucketAt(buckets, i, n - 1); }
  }

  lemma {:induction false} BeginGrows(buckets: seq<Bucket>, a: nat, b: nat)
    requires a <= b <= |buckets|
    ensures Begin(buckets, a) <= Begin(buckets, b)
    decreases b
  {
    if a < b { BeginGrows(buckets, a, b - 1); }
  }
}
