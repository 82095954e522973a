/** Series for the Monitoring charts: rates from cumulative counters, positional
    buckets, and the rows kept of a long window. */
module MonitoringHistory {
  import opened Arithmetic
  import opened Sequences
  import opened Wrappers

  // ---- The window a page asks for ------------------------------------------------------

  const MICROS_PER_MINUTE := 60 * 1_000_000
  const MIN_CUSTOM_SPAN := 5 * MICROS_PER_MINUTE
  const MAX_CUSTOM_SPAN := 366 * 24 * 60 * MICROS_PER_MINUTE

  datatype Window = Window(since: int, until: int)

  /** A window that meets the limits. */
  predicate Allowed(w: Window, now: int) {
    w.until <= now && MIN_CUSTOM_SPAN <= w.until - w.since <= MAX_CUSTOM_SPAN
  }

  /** A custom window: it always meets the limits, and is the one asked for, whichever
      end came first, exactly when that one meets them. */
  function CustomWindow(start: int, end: int, now: int): (w: Window)
    ensures Allowed(w, now)
    ensures w == Window(start, end) <==> Allowed(Window(start, end), now)
    ensures w == Window(end, start) <==> Allowed(Window(end, start), now)
  {
    var (first, last) := if end < start then (end, start) else (start, end);
    var until := if last < now then last else now;
    var since := if first < until - MIN_CUSTOM_SPAN then first else until - MIN_CUSTOM_SPAN;
    Window(if since > until - MAX_CUSTOM_SPAN then since else until - MAX_CUSTOM_SPAN, until)
  }

  function Distance(a: int, b: int): nat { if a < b then b - a else a - b }

  /** Of all windows that meet the limits, none ends nearer to the end asked for, and none with
      that end starts nearer to the start asked for. */
  lemma NearestWindow(start: int, end: int, now: int, w: Window)
    requires Allowed(w, now)
    ensures var (first, last) := if end < start then (end, start) else (start, end);
            var got := CustomWindow(start, end, now);
            && Distance(got.until, last) <= Distance(w.until, last)
            && (got.until == w.until ==> Distance(got.since, first) <= Distance(w.since, first))
  {
  }

  // ---- Buckets ---------------------------------------------------------------------

  /** Ceiling division. */
  function CeilDiv(n: nat, d: nat): nat
    requires d > 0
  {
    (n + d - 1) / d
  }

  lemma CeilDivCovers(n: nat, d: nat)
    requires d > 0
    ensures CeilDiv(n, d) * d >= n
    ensures n > 0 ==> (CeilDiv(n, d) - 1) * d < n
  {
    assert (n + d - 1) == CeilDiv(n, d) * d + (n + d - 1) % d;
  }

  lemma CeilDivLeast(n: nat, d: nat, k: nat)
    requires d > 0 && k * d >= n
    ensures CeilDiv(n, d) <= k
  {
    CeilDivCovers(n, d);
    if CeilDiv(n, d) > k {
      MulAtMost(k, CeilDiv(n, d) - 1, d);
    }
  }

  /** How many samples go into one point, and how many points there are. */
  function BucketSize(n: nat, target: nat): (k: nat)
    requires target > 0
    ensures k > 0
  {
    if n <= target then 1 else (CeilDivPositive(n, target); CeilDiv(n, target))
  }

  lemma CeilDivPositive(n: nat, d: nat)
    requires d > 0 && n > 0
    ensures CeilDiv(n, d) > 0
  {
    CeilDivCovers(n, d);
  }

  function PointCount(n: nat, target: nat): nat
    requires target > 0
  {
    CeilDiv(n, BucketSize(n, target))
  }

  /** Never more points than asked for. */
  lemma {:induction false} AtMostTarget(n: nat, target: nat)
    requires target > 0
    ensures PointCount(n, target) <= target
  {
    CeilDivCovers(n, target);
    assert target * CeilDiv(n, target) == CeilDiv(n, target) * target;
    CeilDivLeast(n, BucketSize(n, target), target);
  }

  /** The buckets are the smallest that give no more points, so what fits is left alone. */
  lemma SmallestBuckets(n: nat, target: nat, k: nat)
    requires target > 0 && k > 0 && CeilDiv(n, k) <= target
    ensures BucketSize(n, target) <= k
  {
    CeilDivCovers(n, k);
    MulAtMost(CeilDiv(n, k), target, k);
    assert target * k == k * target;
    if n > target {
      CeilDivLeast(n, target, k);
    }
  }

  /** Where bucket `b` starts and ends. */
  function StartOf(b: nat, k: nat): nat { b * k }

  function EndOf(b: nat, k: nat, n: nat): nat {
    if (b + 1) * k <= n then (b + 1) * k else n
  }

  lemma BucketBounds(n: nat, k: nat, b: nat)
    requires k > 0 && b < CeilDiv(n, k)
    ensures StartOf(b, k) < EndOf(b, k, n) <= n
    ensures EndOf(b, k, n) == if b + 1 == CeilDiv(n, k) then n else StartOf(b + 1, k)
  {
    CeilDivCovers(n, k);
    MulAtMost(b, CeilDiv(n, k) - 1, k);
    assert (b + 1) * k == b * k + k;
    if b + 1 < CeilDiv(n, k) {
      MulAtMost(b + 1, CeilDiv(n, k) - 1, k);
    }
  }

  function Bucket<T>(values: seq<T>, b: nat, k: nat): seq<T>
    requires k > 0 && b < CeilDiv(|values|, k)
  {
    BucketBounds(|values|, k, b);
    values[StartOf(b, k)..EndOf(b, k, |values|)]
  }

  /** The samples cut into buckets. */
  function Buckets<T>(values: seq<T>, k: nat): (chunks: seq<seq<T>>)
    requires k > 0
    ensures |chunks| == CeilDiv(|values|, k)
  {
    seq(CeilDiv(|values|, k), b requires 0 <= b < CeilDiv(|values|, k) => Bucket(values, b, k))
  }

  function Known(values: seq<Option<real>>): seq<real> {
    if values == [] then []
    else
      var last := values[|values| - 1];
      if last.Some? then Known(values[..|values| - 1]) + [last.value] else Known(values[..|values| - 1])
  }

  function Sum(values: seq<real>): real {
    if values == [] then 0.0 else Sum(values[..|values| - 1]) + values[|values| - 1]
  }

  /** The mean of the known values, or none. */
  function Average(values: seq<Option<real>>): Option<real> {
    var known := Known(values);
    if known == [] then None else Some(Sum(known) / |known| as real)
  }

  method BucketAverage(values: seq<Option<real>>, target: nat) returns (buckets: seq<Option<real>>)
    requires target > 0
    ensures |buckets| == PointCount(|values|, target)
    ensures forall b :: 0 <= b < |buckets| ==>
              buckets[b] == Average(Bucket(values, b, BucketSize(|values|, target)))
  {
    var n := |values|;
    if n <= target {
      forall b | 0 <= b < n
        ensures b < CeilDiv(n, 1) == n && Average(Bucket(values, b, 1)) == values[b]
      {
        AverageOfOne(values[b]);
      }
      return values;
    }
    var k := BucketSize(n, target);
    buckets := [];
    var i := 0;
    while i < n
      invariant i == |buckets| * k && |buckets| <= CeilDiv(n, k)
      invariant forall b :: 0 <= b < |buckets| ==> buckets[b] == Average(Bucket(values, b, k))
      decreases n - i
    {
      StartsInBucket(n, k, |buckets|);
      var chunk := Known(values[i..if i + k <= n then i + k else n]);
      assert Bucket(values, |buckets|, k) == values[i..if i + k <= n then i + k else n];
      buckets := buckets + [if chunk == [] then None else Some(Sum(chunk) / |chunk| as real)];
      i := i + k;
    }
    CeilDivLeast(n, k, |buckets|);
  }

  lemma StartsInBucket(n: nat, k: nat, b: nat)
    requires k > 0 && b * k < n
    ensures b < CeilDiv(n, k) && (b + 1) * k == b * k + k
  {
    CeilDivCovers(n, k);
    if b >= CeilDiv(n, k) {
      MulAtMost(CeilDiv(n, k), b, k);
    }
  }

  lemma AverageOfOne(v: Option<real>)
    ensures Average([v]) == v
  {
    assert [v][..0] == [] && Known([v][..0]) == [];
    if v.Some? {
      var known := Known([v]);
      assert known == [v.value];
      assert known[..0] == [] && Sum(known[..0]) == 0.0;
      assert Sum(known) == Sum(known[..0]) + known[0];
      assert Sum(known) / 1 as real == v.value;
    }
  }

  /** Each point is labelled with the middle sample of its bucket. */
  method BucketTimestamps(timestamps: seq<int>, target: nat) returns (points: seq<int>)
    requires target > 0
    ensures |points| == PointCount(|timestamps|, target)
    ensures forall b :: 0 <= b < |points| ==>
              var bucket := Bucket(timestamps, b, BucketSize(|timestamps|, target));
              bucket != [] && points[b] == bucket[|bucket| / 2]
  {
    var n := |timestamps|;
    if n <= target {
      points := timestamps;
      assert BucketSize(n, target) == 1 && CeilDiv(n, 1) == n;
      forall b | 0 <= b < n
        ensures var bucket := Bucket(timestamps, b, 1); bucket != [] && points[b] == bucket[|bucket| / 2]
      {
      }
      return;
    }
    var k := BucketSize(n, target);
    points := [];
    var i := 0;
    while i < n
      invariant i == |points| * k && |points| <= CeilDiv(n, k)
      invariant forall b :: 0 <= b < |points| ==>
                  var bucket := Bucket(timestamps, b, k);
                  bucket != [] && points[b] == bucket[|bucket| / 2]
      decreases n - i
    {
      StartsInBucket(n, k, |points|);
      var chunk := timestamps[i..if i + k <= n then i + k else n];
      assert Bucket(timestamps, |points|, k) == chunk;
      points := points + [timestamps[i + |chunk| / 2]];
      i := i + k;
    }
    CeilDivLeast(n, k, |points|);
  }

  /** A point is missing exactly when nothing in its bucket is known. */
  lemma {:induction false} AverageMissing(values: seq<Option<real>>)
    ensures Average(values).None? <==> forall i :: 0 <= i < |values| ==> values[i].None?
  {
    if values != [] {
      AverageMissing(values[..|values| - 1]);
    }
  }

  /** A mean lies between any bounds of the known values. */
  lemma AverageBetween(values: seq<Option<real>>, low: real, high: real)
    requires forall i :: 0 <= i < |values| && values[i].Some? ==> low <= values[i].value <= high
    ensures Average(values).Some? ==> low <= Average(values).value <= high
  {
    KnownBetween(values, low, high);
    AllBetween(Known(values), low, high);
    var known := Known(values);
    if known != [] {
      Divided(Sum(known), |known| as real, low, high);
    }
  }

  lemma {:induction false} KnownBetween(values: seq<Option<real>>, low: real, high: real)
    requires forall i :: 0 <= i < |values| && values[i].Some? ==> low <= values[i].value <= high
    ensures forall i :: 0 <= i < |Known(values)| ==> low <= Known(values)[i] <= high
  {
    if values != [] {
      KnownBetween(values[..|values| - 1], low, high);
    }
  }

  lemma {:induction false} AllBetween(known: seq<real>, low: real, high: real)
    requires forall i :: 0 <= i < |known| ==> low <= known[i] <= high
    ensures low * |known| as real <= Sum(known) <= high * |known| as real
    decreases |known|
  {
    if known != [] {
      var last := |known| - 1;
      AllBetween(known[..last], low, high);
      BoundStep(low, high, Sum(known[..last]), last as real, known[last]);
    }
  }

  lemma BoundStep(low: real, high: real, sum: real, count: real, v: real)
    requires low * count <= sum <= high * count && low <= v <= high
    ensures low * (count + 1.0) <= sum + v <= high * (count + 1.0)
  {
  }

  lemma SumSnoc(s: seq<real>, v: real)
    ensures Sum(s + [v]) == Sum(s) + v
  {
    assert (s + [v])[..|s|] == s;
  }

  lemma Divided(sum: real, count: real, low: real, high: real)
    requires count > 0.0 && low * count <= sum <= high * count
    ensures low <= sum / count <= high
  {
  }

  /** The first `m` buckets, one after the other, are the samples up to where the
      last of them ends: the buckets cut the samples without gap or overlap. */
  lemma {:induction false} BucketsTile<T>(values: seq<T>, k: nat, m: nat)
    requires k > 0 && m <= CeilDiv(|values|, k)
    ensures Flatten(Buckets(values, k)[..m]) == values[..if m == 0 then 0 else EndOf(m - 1, k, |values|)]
  {
    var chunks := Buckets(values, k);
    if m > 0 {
      BucketsTile(values, k, m - 1);
      assert chunks[..m][..m - 1] == chunks[..m - 1];
      JoinsPrevious(|values|, k, m - 1);
      BucketBounds(|values|, k, m - 1);
      var start, end := StartOf(m - 1, k), EndOf(m - 1, k, |values|);
      assert values[..end] == values[..start] + values[start..end];
    }
  }

  lemma JoinsPrevious(n: nat, k: nat, b: nat)
    requires k > 0 && b < CeilDiv(n, k)
    ensures StartOf(b, k) == if b == 0 then 0 else EndOf(b - 1, k, n)
  {
    if b > 0 {
      BucketBounds(n, k, b - 1);
    }
  }

  lemma BucketsCover<T>(values: seq<T>, k: nat)
    requires k > 0
    ensures Flatten(Buckets(values, k)) == values
  {
    var m := CeilDiv(|values|, k);
    BucketsTile(values, k, m);
    assert Buckets(values, k)[..m] == Buckets(values, k);
    CeilDivCovers(|values|, k);
    if m > 0 {
      BucketBounds(|values|, k, m - 1);
    }
  }

  /** Each mean times the number of known values it stands for. */
  function Shares(chunks: seq<seq<Option<real>>>, means: seq<Option<real>>): seq<real>
    requires |chunks| == |means|
  {
    seq(|chunks|, b requires 0 <= b < |chunks| => Share(means[b], |Known(chunks[b])|))
  }

  function Share(mean: Option<real>, count: nat): real {
    if mean.Some? then mean.value * count as real else 0.0
  }

  lemma {:induction false} KnownConcat(a: seq<Option<real>>, b: seq<Option<real>>)
    ensures Sum(Known(a + b)) == Sum(Known(a)) + Sum(Known(b))
  {
    if b == [] {
      assert a + b == a;
    } else {
      var before, last := b[..|b| - 1], b[|b| - 1];
      KnownConcat(a, before);
      assert (a + b)[..|a + b| - 1] == a + before && (a + b)[|a + b| - 1] == last;
      if last.Some? {
        SumSnoc(Known(a + before), last.value);
        SumSnoc(Known(before), last.value);
      }
    }
  }

  lemma MeanTimesCount(chunk: seq<Option<real>>)
    ensures Share(Average(chunk), |Known(chunk)|) == Sum(Known(chunk))
  {
  }

  lemma {:induction false} SharesSum(chunks: seq<seq<Option<real>>>, shares: seq<real>)
    requires |chunks| == |shares| && forall b :: 0 <= b < |shares| ==> shares[b] == Sum(Known(chunks[b]))
    ensures Sum(shares) == Sum(Known(Flatten(chunks)))
  {
    if chunks != [] {
      var last := |chunks| - 1;
      SharesSum(chunks[..last], shares[..last]);
      KnownConcat(Flatten(chunks[..last]), chunks[last]);
    }
  }

  /** Nothing is lost in averaging: the means, each times the number of values it
      stands for, add up to everything known. */
  lemma {:induction false} ChartConserves(values: seq<Option<real>>, target: nat, points: seq<Option<real>>)
    requires target > 0 && |points| == PointCount(|values|, target)
    requires var chunks := Buckets(values, BucketSize(|values|, target));
             forall b :: 0 <= b < |points| ==> points[b] == Average(chunks[b])
    ensures Sum(Shares(Buckets(values, BucketSize(|values|, target)), points)) == Sum(Known(values))
  {
    var chunks := Buckets(values, BucketSize(|values|, target));
    var shares := Shares(chunks, points);
    forall b | 0 <= b < |shares|
      ensures shares[b] == Sum(Known(chunks[b]))
    {
      MeanTimesCount(chunks[b]);
    }
    SharesSum(chunks, shares);
    BucketsCover(values, BucketSize(|values|, target));
  }

  // ---- Rates from cumulative counters ------------------------------------------------

  const MICROS_PER_SECOND := 1_000_000

  type Counters = map<string, int>

  /** The sum of the named counters, or none when one is missing. */
  function TotalOf(entry: Counters, fields: seq<string>): Option<int> {
    if fields == [] then Some(0)
    else
      var last := fields[|fields| - 1];
      match TotalOf(entry, fields[..|fields| - 1])
      case None => None
      case Some(sum) => if last in entry then Some(sum + entry[last]) else None
  }

  /** A total is known exactly when every named counter is. */
  lemma {:induction false} TotalKnown(entry: Counters, fields: seq<string>)
    ensures TotalOf(entry, fields).Some? <==> forall f :: f in fields ==> f in entry
  {
    if fields != [] {
      var before, last := fields[..|fields| - 1], fields[|fields| - 1];
      TotalKnown(entry, before);
      assert forall f :: f in fields <==> f in before || f == last;
    }
  }

  function Added(x: Option<int>, y: Option<int>): Option<int> {
    if x.Some? && y.Some? then Some(x.value + y.value) else None
  }

  /** Totals add up, down to the single counters. */
  lemma {:induction false} TotalsAdd(entry: Counters, fields: seq<string>, more: seq<string>)
    ensures TotalOf(entry, fields + more) == Added(TotalOf(entry, fields), TotalOf(entry, more))
    ensures forall f :: f in entry ==> TotalOf(entry, [f]) == Some(entry[f])
  {
    forall f | f in entry
      ensures TotalOf(entry, [f]) == Some(entry[f])
    {
      assert [f][..0] == [];
    }
    if more == [] {
      assert fields + more == fields;
    } else {
      TotalsAdd(entry, fields, more[..|more| - 1]);
      assert (fields + more)[..|fields + more| - 1] == fields + more[..|more| - 1];
    }
  }

  function Seconds(micros: int): real { micros as real / MICROS_PER_SECOND as real }

  /** Bytes per second between two readings `dt` microseconds apart; none across a
      gap, a counter that went backwards, or no time at all. */
  function Rate(before: Option<int>, after: Option<int>, dt: int): Option<real> {
    if before.None? || after.None? || dt <= 0 || after.value < before.value then None
    else Some((after.value - before.value) as real / Seconds(dt))
  }

  function Reading(entry: Option<Counters>, fields: seq<string>): Option<int> {
    match entry
    case None => None
    case Some(counters) => TotalOf(counters, fields)
  }

  /** A reading is there exactly when its sample and all its counters are. */
  lemma ReadingKnown(entry: Option<Counters>, fields: seq<string>)
    ensures Reading(entry, fields).Some? <==> entry.Some? && forall f :: f in fields ==> f in entry.value
    ensures forall f :: entry.Some? && f in entry.value ==> Reading(entry, [f]) == Some(entry.value[f])
  {
    if entry.Some? {
      TotalKnown(entry.value, fields);
      TotalsAdd(entry.value, fields, []);
    }
  }

  method CombinedRateSeries(entries: seq<Option<Counters>>, timestamps: seq<int>, fields: seq<string>)
    returns (rates: seq<Option<real>>)
    requires |entries| == |timestamps|
    ensures |rates| == (if entries == [] then 1 else |entries|) && rates[0].None?
    ensures forall i :: 1 <= i < |rates| ==>
              rates[i] == Rate(Reading(entries[i - 1], fields), Reading(entries[i], fields),
                               timestamps[i] - timestamps[i - 1])
  {
    rates := [None];
    var i := 1;
    while i < |entries|
      invariant |rates| == i && (i <= |entries| || i == 1) && rates[0].None?
      invariant forall j :: 1 <= j < i ==>
                  rates[j] == Rate(Reading(entries[j - 1], fields), Reading(entries[j], fields),
                                   timestamps[j] - timestamps[j - 1])
      decreases |entries| - i
    {
      var prev, cur := entries[i - 1], entries[i];
      var dt := timestamps[i] - timestamps[i - 1];
      var rate: Option<real> := None;
      if prev.Some? && cur.Some? && dt > 0 {
        var prevTotal, curTotal := TotalOf(prev.value, fields), TotalOf(cur.value, fields);
        if prevTotal.Some? && curTotal.Some? && curTotal.value >= prevTotal.value {
          rate := Some((curTotal.value - prevTotal.value) as real / Seconds(dt));
        }
      }
      rates := rates + [rate];
      i := i + 1;
    }
  }

  /** A rate is never negative, and over its time it accounts for the whole
      difference of the counters. */
  lemma {:induction false} RateAccounts(before: Option<int>, after: Option<int>, dt: int)
    ensures var rate := Rate(before, after, dt);
            && (rate.Some? <==> before.Some? && after.Some? && dt > 0 && after.value >= before.value)
            && (rate.Some? ==> rate.value >= 0.0 && rate.value * Seconds(dt) == (after.value - before.value) as real)
  {
    if dt > 0 && before.Some? && after.Some? && after.value >= before.value {
      Quotient((after.value - before.value) as real, Seconds(dt));
    }
  }

  lemma Quotient(amount: real, time: real)
    requires amount >= 0.0 && time > 0.0
    ensures amount / time >= 0.0 && amount / time * time == amount
  {
  }

  // ---- Thinning a long window -----------------------------------------------------------

  const MAX_RAW_SAMPLES := 20_000

  /** Every how many rows one is kept. */
  function Stride(total: nat): (s: nat)
    ensures s > 0
  {
    if total <= MAX_RAW_SAMPLES then 1 else CeilDiv(total, MAX_RAW_SAMPLES)
  }

  /** Whether row `i` of `total` (from 0, oldest first) is kept. */
  predicate IsKept(total: nat, i: nat) {
    total <= MAX_RAW_SAMPLES || i % CeilDiv(total, MAX_RAW_SAMPLES) == 0 || i + 1 == total
  }

  /** The kept rows below `bound`, in order. */
  function KeptBelow(total: nat, bound: nat): seq<nat> {
    if bound == 0 then []
    else if IsKept(total, bound - 1) then KeptBelow(total, bound - 1) + [bound - 1]
    else KeptBelow(total, bound - 1)
  }

  /** Before the newest row, exactly the multiples of the stride are kept. */
  lemma {:induction false} KeptMultiples(total: nat, bound: nat)
    requires bound < total
    ensures var kept, s := KeptBelow(total, bound), Stride(total);
            |kept| == CeilDiv(bound, s) && forall j :: 0 <= j < |kept| ==> kept[j] == j * s
  {
    if bound > 0 {
      var i, s := bound - 1, Stride(total);
      KeptMultiples(total, i);
      CeilDivStep(i, s);
    }
  }

  lemma CeilDivStep(i: nat, s: nat)
    requires s > 0
    ensures i % s == 0 ==> CeilDiv(i, s) * s == i && CeilDiv(i + 1, s) == CeilDiv(i, s) + 1
    ensures i % s != 0 ==> CeilDiv(i + 1, s) == CeilDiv(i, s)
  {
    var q, r := i / s, i % s;
    assert i == q * s + r;
    if r == 0 {
      CeilDivIs(i, s, q);
      CeilDivIs(i + 1, s, q + 1);
    } else {
      assert (q + 1) * s == q * s + s;
      CeilDivIs(i, s, q + 1);
      CeilDivIs(i + 1, s, q + 1);
    }
  }

  lemma CeilDivIs(n: nat, s: nat, k: nat)
    requires s > 0 && (k - 1) * s < n <= k * s
    ensures CeilDiv(n, s) == k
  {
    CeilDivLeast(n, s, k);
    CeilDivCovers(n, s);
    if CeilDiv(n, s) < k {
      MulAtMost(CeilDiv(n, s), k - 1, s);
    }
  }

  predicate Rows(rows: seq<nat>, n: nat) {
    (forall j :: 0 <= j < |rows| ==> rows[j] < n) && (forall i, j :: 0 <= i < j < |rows| ==> rows[i] < rows[j])
  }

  lemma MultiplesRise(rows: seq<nat>, s: nat, n: nat)
    requires s > 0 && rows != [] && (|rows| - 1) * s < n
    requires forall j :: 0 <= j < |rows| ==> rows[j] == j * s
    ensures Rows(rows, n)
    ensures forall i, j :: 0 <= i < j < |rows| && j == i + 1 ==> rows[j] - rows[i] <= s
  {
    forall i, j | 0 <= i < j < |rows|
      ensures rows[i] < rows[j] && (j == i + 1 ==> rows[j] - rows[i] <= s)
    {
      MulAtMost(i + 1, j, s);
      assert (i + 1) * s == i * s + s;
    }
    forall j | 0 <= j < |rows|
      ensures rows[j] < n
    {
      MulAtMost(j, |rows| - 1, s);
    }
  }

  /** Thinning keeps at most one row more than the limit, the first and the last
      among them, in order, and no two kept neighbours are further apart than the
      stride. */
  lemma ThinningShape(total: nat)
    requires total > 0
    ensures var kept, s := KeptBelow(total, total), Stride(total);
            && 0 < |kept| <= MAX_RAW_SAMPLES + 1
            && kept[0] == 0 && kept[|kept| - 1] == total - 1
            && Rows(kept, total)
            && (forall i, j :: 0 <= i < j < |kept| && j == i + 1 ==> kept[j] - kept[i] <= s)
            && (total <= MAX_RAW_SAMPLES ==> |kept| == total)
  {
    var s, m := Stride(total), KeptBelow(total, total - 1);
    KeptMultiples(total, total - 1);
    CeilDivCovers(total - 1, s);
    CeilDivCovers(total, MAX_RAW_SAMPLES);
    assert total <= MAX_RAW_SAMPLES * s;
    CeilDivLeast(total - 1, s, MAX_RAW_SAMPLES);
    if m != [] {
      assert (|m| - 1) * s + s == |m| * s;
      assert m[|m| - 1] == (|m| - 1) * s;
      MultiplesRise(m, s, total - 1);
    }
  }

  // ---- Rates over thinned rows ------------------------------------------------------------

  /** Counters that never go backwards, read at increasing times. */
  predicate Steady(totals: seq<int>, times: seq<int>) {
    && |totals| == |times|
    && (forall i, j :: 0 <= i < j < |totals| ==> totals[i] <= totals[j] && times[i] < times[j])
  }

  /** Rate times seconds between two rows. */
  function AreaBetween(totals: seq<int>, times: seq<int>, i: nat, j: nat): real
    requires Steady(totals, times) && i < |totals| && j < |totals|
  {
    var rate := Rate(Some(totals[i]), Some(totals[j]), times[j] - times[i]);
    if rate.Some? then rate.value * Seconds(times[j] - times[i]) else 0.0
  }

  /** The area under the rates computed between consecutive rows. */
  function Areas(totals: seq<int>, times: seq<int>, rows: seq<nat>): seq<real>
    requires Steady(totals, times) && Rows(rows, |totals|) && rows != []
  {
    seq(|rows| - 1, k requires 0 <= k < |rows| - 1 => AreaBetween(totals, times, rows[k], rows[k + 1]))
  }

  lemma AreasSnoc(totals: seq<int>, times: seq<int>, rows: seq<nat>)
    requires Steady(totals, times) && Rows(rows, |totals|) && |rows| > 1
    ensures var before, i, j := rows[..|rows| - 1], rows[|rows| - 2], rows[|rows| - 1];
            && Rows(before, |totals|) && before != []
            && Sum(Areas(totals, times, rows)) == Sum(Areas(totals, times, before)) + AreaBetween(totals, times, i, j)
  {
    var before, i, j := rows[..|rows| - 1], rows[|rows| - 2], rows[|rows| - 1];
    assert Areas(totals, times, rows) == Areas(totals, times, before) + [AreaBetween(totals, times, i, j)];
    SumSnoc(Areas(totals, times, before), AreaBetween(totals, times, i, j));
  }

  lemma Telescopes(sum: real, area: real, a: int, b: int, c: int)
    requires sum == (b - a) as real && area == (c - b) as real
    ensures sum + area == (c - a) as real
  {
  }

  /** Whatever rows are kept, the area under their rates is what was counted
      between the first and the last of them. */
  lemma {:induction false} AreaTelescopes(totals: seq<int>, times: seq<int>, rows: seq<nat>)
    requires Steady(totals, times) && Rows(rows, |totals|) && rows != []
    ensures Sum(Areas(totals, times, rows)) == (totals[rows[|rows| - 1]] - totals[rows[0]]) as real
  {
    if |rows| > 1 {
      var before, i, j := rows[..|rows| - 1], rows[|rows| - 2], rows[|rows| - 1];
      AreasSnoc(totals, times, rows);
      AreaTelescopes(totals, times, before);
      AreaIs(totals, times, i, j);
      Telescopes(Sum(Areas(totals, times, before)), AreaBetween(totals, times, i, j), totals[rows[0]], totals[i],
                 totals[j]);
    }
  }

  lemma AreaIs(totals: seq<int>, times: seq<int>, i: nat, j: nat)
    requires Steady(totals, times) && i < j < |totals|
    ensures AreaBetween(totals, times, i, j) == (totals[j] - totals[i]) as real
  {
    SteadyRate(totals, times, i, j);
  }

  /** `rate` is the mean over `micros` of what covers `area`. */
  predicate IsMean(rate: Option<real>, area: real, micros: int) {
    micros > 0 && rate == Some(area / Seconds(micros)) && rate.value >= 0.0
  }

  lemma RateIsMean(before: int, after: int, dt: int, area: real)
    requires dt > 0 && after >= before && area == (after - before) as real
    ensures IsMean(Rate(Some(before), Some(after), dt), area, dt)
  {
    RateAccounts(Some(before), Some(after), dt);
  }

  /** The rate between two kept rows is the time-weighted mean of the rates between
      any rows in between: the area under the dropped rates, divided by the time. */
  lemma ThinnedRateIsMean(totals: seq<int>, times: seq<int>, rows: seq<nat>)
    requires Steady(totals, times) && Rows(rows, |totals|) && |rows| >= 2
    ensures var i, j := rows[0], rows[|rows| - 1];
            IsMean(Rate(Some(totals[i]), Some(totals[j]), times[j] - times[i]), Sum(Areas(totals, times, rows)),
                   times[j] - times[i])
  {
    var i, j := rows[0], rows[|rows| - 1];
    var area := Sum(Areas(totals, times, rows));
    AreaTelescopes(totals, times, rows);
    RateIsMean(totals[i], totals[j], times[j] - times[i], area);
  }

  lemma SteadyRate(totals: seq<int>, times: seq<int>, i: nat, j: nat)
    requires Steady(totals, times) && i < j < |totals|
    ensures var rate := Rate(Some(totals[i]), Some(totals[j]), times[j] - times[i]);
            && rate.Some? && rate.value >= 0.0
            && rate.value * Seconds(times[j] - times[i]) == (totals[j] - totals[i]) as real
    ensures AreaBetween(totals, times, i, j) == (totals[j] - totals[i]) as real
  {
    RateAccounts(Some(totals[i]), Some(totals[j]), times[j] - times[i]);
  }

  function AllRows(n: nat): seq<nat> { seq(n, i requires 0 <= i < n => i) }

  lemma AreaOfWindow(totals: seq<int>, times: seq<int>, rows: seq<nat>, area: real)
    requires Steady(totals, times) && Rows(rows, |totals|) && rows != []
    requires rows[0] == 0 && rows[|rows| - 1] == |totals| - 1 && area == Sum(Areas(totals, times, rows))
    ensures area == (totals[|totals| - 1] - totals[0]) as real
  {
    AreaTelescopes(totals, times, rows);
  }

  /** A thinned window shows the same total as all of its rows. */
  lemma {:induction false} ThinningKeepsArea(totals: seq<int>, times: seq<int>)
    requires Steady(totals, times) && totals != []
    ensures var n := |totals|;
            && Rows(KeptBelow(n, n), n) && KeptBelow(n, n) != []
            && Sum(Areas(totals, times, KeptBelow(n, n))) == Sum(Areas(totals, times, AllRows(n)))
  {
    var n := |totals|;
    ThinningShape(n);
    var thinned, full := Sum(Areas(totals, times, KeptBelow(n, n))), Sum(Areas(totals, times, AllRows(n)));
    AreaOfWindow(totals, times, KeptBelow(n, n), thinned);
    AreaOfWindow(totals, times, AllRows(n), full);
    assert thinned == full;
  }
}
