/**
 * The metrics analyzer: per-minute buckets of request counts, error counts
 * and response-time samples, filled from batches of records and queried over
 * a trailing time window.
 *
 * Timestamps are whole seconds; the minute of a timestamp is the timestamp
 * with its seconds zeroed. Buckets are keyed by minute only. A missing key
 * reads as zero or as no samples, as Python's `defaultdict` would give.
 */
module Analyzer {
  import opened LogRecords

  /** The default trailing window, in seconds. */
  const DefaultWindowSeconds: int := 60

  datatype Analyzer = Analyzer(
    windowSeconds: int,
    requestCount: map<int, nat>,
    errorCount: map<int, nat>,
    responseTimes: map<int, seq<real>>)

  /** The start of the minute containing `t`. */
  function MinuteKey(t: int): (m: int)
    ensures m <= t < m + 60
    ensures m % 60 == 0
  {
    t - t % 60
  }

  function Count(counts: map<int, nat>, m: int): nat {
    if m in counts then counts[m] else 0
  }

  function SamplesOf(samples: map<int, seq<real>>, m: int): seq<real> {
    if m in samples then samples[m] else []
  }

  /** The level is exactly "ERROR", case included. */
  predicate IsError(r: Record) {
    r.level == "ERROR"
  }

  predicate HasResponseTime(r: Record) {
    "response_time" in r.metrics
  }

  /**
   * Every bucket is backed by requests: an error or sample count never
   * exceeds the request count of its minute, and a minute present at all has
   * at least one request.
   */
  ghost predicate Consistent(a: Analyzer) {
    && (forall m :: m in a.requestCount ==> 1 <= a.requestCount[m])
    && (forall m :: m in a.errorCount ==> m in a.requestCount && a.errorCount[m] <= a.requestCount[m])
    && (forall m :: m in a.responseTimes ==>
          m in a.requestCount && |a.responseTimes[m]| <= a.requestCount[m])
  }

  /** A fresh analyzer with no buckets. */
  function New(windowSeconds: int := DefaultWindowSeconds): (a: Analyzer)
    ensures Consistent(a)
    ensures a.windowSeconds == windowSeconds
  {
    Analyzer(windowSeconds, map[], map[], map[])
  }

  // ---------------------------------------------------------------------
  // update_metrics

  /** The effect of one record on the buckets. */
  function Observe(a: Analyzer, r: Record): (b: Analyzer)
    ensures b.windowSeconds == a.windowSeconds
    ensures Consistent(a) ==> Consistent(b)
  {
    var m := MinuteKey(r.timestamp);
    var requests := a.requestCount[m := Count(a.requestCount, m) + 1];
    var errors := if IsError(r) then a.errorCount[m := Count(a.errorCount, m) + 1] else a.errorCount;
    var samples := if HasResponseTime(r) then a.responseTimes[m := SamplesOf(a.responseTimes, m) + [r.metrics["response_time"]]]
                   else a.responseTimes;
    Analyzer(a.windowSeconds, requests, errors, samples)
  }

  /** Folds a batch of records into the buckets, in batch order. */
  function UpdateMetrics(a: Analyzer, rs: seq<Record>): (b: Analyzer)
    ensures b.windowSeconds == a.windowSeconds
    ensures Consistent(a) ==> Consistent(b)
    decreases |rs|
  {
    if |rs| == 0 then a else UpdateMetrics(Observe(a, rs[0]), rs[1..])
  }

  /** Number of records of the batch that fall in minute `m`. */
  function RequestsAt(rs: seq<Record>, m: int): nat {
    if |rs| == 0 then 0
    else (if MinuteKey(rs[0].timestamp) == m then 1 else 0) + RequestsAt(rs[1..], m)
  }

  /** Number of error records of the batch that fall in minute `m`. */
  function ErrorsAt(rs: seq<Record>, m: int): nat {
    if |rs| == 0 then 0
    else (if MinuteKey(rs[0].timestamp) == m && IsError(rs[0]) then 1 else 0) + ErrorsAt(rs[1..], m)
  }

  /** The response times of the batch's records in minute `m`, in batch order. */
  function SamplesAt(rs: seq<Record>, m: int): seq<real> {
    if |rs| == 0 then []
    else (if MinuteKey(rs[0].timestamp) == m && HasResponseTime(rs[0])
          then [rs[0].metrics["response_time"]] else []) + SamplesAt(rs[1..], m)
  }

  /** The request count of minute `m` grows by the number of the batch's records in `m`. */
  lemma {:induction false} UpdateMetricsRequests(a: Analyzer, rs: seq<Record>, m: int)
    ensures var b := UpdateMetrics(a, rs);
      && Count(b.requestCount, m) == Count(a.requestCount, m) + RequestsAt(rs, m)
      && (m in b.requestCount <==> m in a.requestCount || 0 < RequestsAt(rs, m))
    decreases |rs|
  {
    if |rs| > 0 {
      UpdateMetricsRequests(Observe(a, rs[0]), rs[1..], m);
    }
  }

  /** The error count of minute `m` grows by the number of its records whose level is "ERROR". */
  lemma {:induction false} UpdateMetricsErrors(a: Analyzer, rs: seq<Record>, m: int)
    ensures var b := UpdateMetrics(a, rs);
      && Count(b.errorCount, m) == Count(a.errorCount, m) + ErrorsAt(rs, m)
      && (m in b.errorCount <==> m in a.errorCount || 0 < ErrorsAt(rs, m))
    decreases |rs|
  {
    if |rs| > 0 {
      UpdateMetricsErrors(Observe(a, rs[0]), rs[1..], m);
    }
  }

  /** What one record does to the counts of minute `m`: one request, and one error if its level is ERROR. */
  lemma ObserveCounts(a: Analyzer, r: Record, m: int)
    ensures var b := Observe(a, r);
      && Count(b.requestCount, m) == Count(a.requestCount, m) + (if MinuteKey(r.timestamp) == m then 1 else 0)
      && Count(b.errorCount, m) == Count(a.errorCount, m) + (if MinuteKey(r.timestamp) == m && IsError(r) then 1 else 0)
  {
  }

  /** What one record does to the samples of minute `m`. */
  lemma ObserveSamples(a: Analyzer, r: Record, m: int)
    ensures var b := Observe(a, r);
      var added := if MinuteKey(r.timestamp) == m && HasResponseTime(r) then [r.metrics["response_time"]] else [];
      && SamplesOf(b.responseTimes, m) == SamplesOf(a.responseTimes, m) + added
      && (m in b.responseTimes <==> m in a.responseTimes || 0 < |added|)
  {
  }

  /**
   * The samples of minute `m` get the response times of its records that
   * carry one appended, in batch order; other metrics are ignored.
   */
  lemma {:induction false} UpdateMetricsSamples(a: Analyzer, rs: seq<Record>, m: int)
    ensures var b := UpdateMetrics(a, rs);
      && SamplesOf(b.responseTimes, m) == SamplesOf(a.responseTimes, m) + SamplesAt(rs, m)
      && (m in b.responseTimes <==> m in a.responseTimes || 0 < |SamplesAt(rs, m)|)
    decreases |rs|
  {
    if |rs| > 0 {
      var a1 := Observe(a, rs[0]);
      ObserveSamples(a, rs[0], m);
      UpdateMetricsSamples(a1, rs[1..], m);
      var added := if MinuteKey(rs[0].timestamp) == m && HasResponseTime(rs[0])
                   then [rs[0].metrics["response_time"]] else [];
      assert SamplesAt(rs, m) == added + SamplesAt(rs[1..], m);
      assert UpdateMetrics(a, rs) == UpdateMetrics(a1, rs[1..]);
      assert SamplesOf(a.responseTimes, m) + added + SamplesAt(rs[1..], m)
          == SamplesOf(a.responseTimes, m) + (added + SamplesAt(rs[1..], m));
    }
  }

  /** Splitting a batch in two and folding the halves one after the other changes nothing. */
  lemma {:induction false} UpdateMetricsSplit(a: Analyzer, x: seq<Record>, y: seq<Record>)
    ensures UpdateMetrics(a, x + y) == UpdateMetrics(UpdateMetrics(a, x), y)
    decreases |x|
  {
    if |x| > 0 {
      assert (x + y)[0] == x[0];
      assert (x + y)[1..] == x[1..] + y;
      UpdateMetricsSplit(Observe(a, x[0]), x[1..], y);
    } else {
      assert x + y == y;
    }
  }

  lemma {:induction false} BatchCountsAdd(x: seq<Record>, y: seq<Record>, m: int)
    ensures RequestsAt(x + y, m) == RequestsAt(x, m) + RequestsAt(y, m)
    ensures ErrorsAt(x + y, m) == ErrorsAt(x, m) + ErrorsAt(y, m)
    ensures SamplesAt(x + y, m) == SamplesAt(x, m) + SamplesAt(y, m)
    decreases |x|
  {
    if |x| > 0 {
      assert (x + y)[0] == x[0];
      assert (x + y)[1..] == x[1..] + y;
      BatchCountsAdd(x[1..], y, m);
    } else {
      assert x + y == y;
    }
  }

  /**
   * Batch order does not matter to the counters: folding `x` then `y` or `y`
   * then `x` gives the same request and error counts and, per minute, the
   * same response times up to order.
   */
  lemma UpdateMetricsCommute(a: Analyzer, x: seq<Record>, y: seq<Record>)
    ensures UpdateMetrics(a, x + y).requestCount == UpdateMetrics(a, y + x).requestCount
    ensures UpdateMetrics(a, x + y).errorCount == UpdateMetrics(a, y + x).errorCount
    ensures UpdateMetrics(a, x + y).responseTimes.Keys == UpdateMetrics(a, y + x).responseTimes.Keys
    ensures forall m :: m in UpdateMetrics(a, x + y).responseTimes ==>
      multiset(UpdateMetrics(a, x + y).responseTimes[m]) == multiset(UpdateMetrics(a, y + x).responseTimes[m])
  {
    CommuteRequests(a, x, y);
    CommuteErrors(a, x, y);
    CommuteSamples(a, x, y);
  }

  lemma CommuteRequests(a: Analyzer, x: seq<Record>, y: seq<Record>)
    ensures UpdateMetrics(a, x + y).requestCount == UpdateMetrics(a, y + x).requestCount
  {
    var b1, b2 := UpdateMetrics(a, x + y), UpdateMetrics(a, y + x);
    forall m
      ensures m in b1.requestCount <==> m in b2.requestCount
      ensures m in b1.requestCount ==> b1.requestCount[m] == b2.requestCount[m]
    {
      UpdateMetricsRequests(a, x + y, m);
      UpdateMetricsRequests(a, y + x, m);
      BatchCountsAdd(x, y, m);
      BatchCountsAdd(y, x, m);
    }
  }

  lemma CommuteErrors(a: Analyzer, x: seq<Record>, y: seq<Record>)
    ensures UpdateMetrics(a, x + y).errorCount == UpdateMetrics(a, y + x).errorCount
  {
    var b1, b2 := UpdateMetrics(a, x + y), UpdateMetrics(a, y + x);
    forall m
      ensures m in b1.errorCount <==> m in b2.errorCount
      ensures m in b1.errorCount ==> b1.errorCount[m] == b2.errorCount[m]
    {
      UpdateMetricsErrors(a, x + y, m);
      UpdateMetricsErrors(a, y + x, m);
      BatchCountsAdd(x, y, m);
      BatchCountsAdd(y, x, m);
    }
  }

  lemma CommuteSamples(a: Analyzer, x: seq<Record>, y: seq<Record>)
    ensures UpdateMetrics(a, x + y).responseTimes.Keys == UpdateMetrics(a, y + x).responseTimes.Keys
    ensures forall m :: m in UpdateMetrics(a, x + y).responseTimes ==>
      multiset(UpdateMetrics(a, x + y).responseTimes[m]) == multiset(UpdateMetrics(a, y + x).responseTimes[m])
  {
    var b1, b2 := UpdateMetrics(a, x + y), UpdateMetrics(a, y + x);
    forall m
      ensures m in b1.responseTimes <==> m in b2.responseTimes
      ensures m in b1.responseTimes ==> multiset(b1.responseTimes[m]) == multiset(b2.responseTimes[m])
    {
      UpdateMetricsSamples(a, x + y, m);
      UpdateMetricsSamples(a, y + x, m);
      BatchCountsAdd(x, y, m);
      BatchCountsAdd(y, x, m);
    }
  }

  // ---------------------------------------------------------------------
  // Total number of requests across all minutes

  /** One element per counted request: request `j` of minute `m` is the pair `(m, j)`. */
  ghost function Units(counts: map<int, nat>): set<(int, int)> {
    set m, j | m in counts && 0 <= j < counts[m] :: (m, j)
  }

  /** The total number of requests over all minutes. */
  ghost function Total(counts: map<int, nat>): nat {
    |Units(counts)|
  }

  /** Bumping one minute's counter adds one to the total. */
  lemma TotalBump(counts: map<int, nat>, m: int)
    ensures Total(counts[m := Count(counts, m) + 1]) == Total(counts) + 1
  {
    var bumped := counts[m := Count(counts, m) + 1];
    var u := (m, Count(counts, m));
    assert u !in Units(counts);
    assert Units(bumped) == Units(counts) + {u};
  }

  /** Every record of a batch adds exactly one request to the total. */
  lemma {:induction false} UpdateMetricsTotal(a: Analyzer, rs: seq<Record>)
    ensures Total(UpdateMetrics(a, rs).requestCount) == Total(a.requestCount) + |rs|
    decreases |rs|
  {
    if |rs| > 0 {
      TotalBump(a.requestCount, MinuteKey(rs[0].timestamp));
      UpdateMetricsTotal(Observe(a, rs[0]), rs[1..]);
    }
  }

  // ---------------------------------------------------------------------
  // get_current_metrics

  /** The per-minute report: three maps over the same minutes. */
  datatype Summary = Summary(
    errorRate: map<int, real>,
    avgResponseTime: map<int, real>,
    requestCount: map<int, nat>)

  /** Errors over requests, or 0 when there are no requests. */
  function ErrorRate(errors: nat, requests: nat): real {
    if requests == 0 then 0.0 else errors as real / requests as real
  }

  function Sum(xs: seq<real>): real {
    if |xs| == 0 then 0.0 else xs[0] + Sum(xs[1..])
  }

  /** The arithmetic mean, or 0 for no samples. */
  function Mean(xs: seq<real>): real {
    if |xs| == 0 then 0.0 else Sum(xs) / (|xs| as real)
  }

  /**
   * A minute is reported unless it lies strictly before `now - windowSeconds`.
   * `now` is the wall clock in seconds with its fractional part.
   */
  predicate InWindow(a: Analyzer, now: real, m: int) {
    !(m as real < now - a.windowSeconds as real)
  }

  /**
   * The window's start is compared with sub-second precision: the minute
   * starting exactly `windowSeconds` before `now` is reported, and a quarter
   * of a second later it no longer is.
   */
  lemma WindowBoundary(a: Analyzer, m: int)
    ensures InWindow(a, (m + a.windowSeconds) as real, m)
    ensures !InWindow(a, (m + a.windowSeconds) as real + 0.25, m)
  {
  }

  /**
   * The report at time `now`: exactly the minutes with requests that are not
   * older than `now - windowSeconds`, each with its error rate, mean response
   * time and request count. The analyzer itself is a value and is not changed.
   */
  function GetCurrentMetrics(a: Analyzer, now: real): (r: Summary)
    ensures r.errorRate.Keys == r.avgResponseTime.Keys == r.requestCount.Keys
    ensures forall m :: m in r.requestCount <==> m in a.requestCount && InWindow(a, now, m)
    ensures forall m :: m in r.requestCount ==>
      && r.requestCount[m] == a.requestCount[m]
      && r.errorRate[m] == ErrorRate(Count(a.errorCount, m), a.requestCount[m])
      && r.avgResponseTime[m] == Mean(SamplesOf(a.responseTimes, m))
  {
    var minutes := set m | m in a.requestCount && InWindow(a, now, m);
    Summary(
      map m | m in minutes :: ErrorRate(Count(a.errorCount, m), a.requestCount[m]),
      map m | m in minutes :: Mean(SamplesOf(a.responseTimes, m)),
      map m | m in minutes :: a.requestCount[m])
  }

  /** In a consistent analyzer every reported error rate is a fraction in [0, 1]. */
  lemma ErrorRateBounded(a: Analyzer, now: real, m: int)
    requires Consistent(a)
    requires m in GetCurrentMetrics(a, now).errorRate
    ensures 0.0 <= GetCurrentMetrics(a, now).errorRate[m] <= 1.0
  {
    var e, n := Count(a.errorCount, m), a.requestCount[m];
    assert e <= n;
    assert (e as real) / (n as real) <= 1.0 by {
      assert (e as real) <= (n as real);
    }
  }

  lemma {:induction false} SumBounds(xs: seq<real>, lo: real, hi: real)
    requires forall i :: 0 <= i < |xs| ==> lo <= xs[i] <= hi
    ensures (|xs| as real) * lo <= Sum(xs) <= (|xs| as real) * hi
    decreases |xs|
  {
    if |xs| > 0 {
      SumBounds(xs[1..], lo, hi);
    }
  }

  /** The mean of samples that all lie in [lo, hi] lies in [lo, hi]. */
  lemma MeanBounded(xs: seq<real>, lo: real, hi: real)
    requires 0 < |xs|
    requires forall i :: 0 <= i < |xs| ==> lo <= xs[i] <= hi
    ensures lo <= Mean(xs) <= hi
  {
    SumBounds(xs, lo, hi);
    var n := |xs| as real;
    assert Mean(xs) * n == Sum(xs);
  }
}
