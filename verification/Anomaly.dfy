/**
 Velocity anomalies: the sorted set of request times, its buckets, and what a
 bucket can deviate from the mean of a small baseline. Statistics are exact.
 */
module Anomaly {
  import opened FiniteSets
  import RateLimit

  // ------------------------------------------------------------------
  // Buckets
  // ------------------------------------------------------------------

  /** `(age / window) as usize`: rounded towards zero, negative values become 0. */
  function BucketOf(age: real, windowSecs: nat): nat
    requires windowSecs > 0
  {
    if age < 0.0 then 0 else (age / windowSecs as real).Floor
  }

  /** How many of the timestamps fall into bucket `b`. */
  function CountIn(ts: seq<real>, now: real, windowSecs: nat, b: nat): nat
    requires windowSecs > 0
  {
    if ts == [] then 0
    else CountIn(ts[..|ts| - 1], now, windowSecs, b) + if BucketOf(now - ts[|ts| - 1], windowSecs) == b then 1 else 0
  }

  function NonZero(counts: seq<nat>): (r: seq<nat>)
    ensures forall c :: c in r <==> c in counts && c > 0
    ensures |r| <= |counts|
  {
    if counts == [] then []
    else NonZero(counts[..|counts| - 1]) + if counts[|counts| - 1] > 0 then [counts[|counts| - 1]] else []
  }

  function Counts(ts: seq<real>, now: real, windowSecs: nat, n: nat): (r: seq<nat>)
    requires windowSecs > 0
    ensures |r| == n
  {
    seq(n, b requires 0 <= b < n => CountIn(ts, now, windowSecs, b))
  }

  /** `bucket_velocities`: count into an array, then keep the buckets in use. */
  method BucketVelocities(ts: seq<real>, windowSecs: nat, now: real, baselineSecs: nat) returns (r: seq<nat>)
    requires windowSecs > 0
    ensures r == NonZero(Counts(ts, now, windowSecs, baselineSecs / windowSecs))
  {
    var numBuckets := baselineSecs / windowSecs;
    var buckets := new nat[numBuckets](_ => 0);
    for i := 0 to |ts|
      invariant forall b :: 0 <= b < numBuckets ==> buckets[b] == CountIn(ts[..i], now, windowSecs, b)
    {
      assert ts[..i + 1][..i] == ts[..i];
      var idx := BucketOf(now - ts[i], windowSecs);
      if idx < numBuckets {
        buckets[idx] := buckets[idx] + 1;
      }
    }
    assert ts[..|ts|] == ts;
    assert buckets[..] == Counts(ts, now, windowSecs, numBuckets);
    r := [];
    for b := 0 to numBuckets
      invariant r == NonZero(buckets[..b])
    {
      assert buckets[..b + 1][..b] == buckets[..b];
      if buckets[b] > 0 {
        r := r + [buckets[b]];
      }
    }
    assert buckets[..numBuckets] == buckets[..];
  }

  function Total(counts: seq<nat>): nat {
    if counts == [] then 0 else Total(counts[..|counts| - 1]) + counts[|counts| - 1]
  }

  /** The timestamps young enough for one of the first `n` buckets. */
  function YoungerThan(ts: seq<real>, now: real, limit: real): nat {
    if ts == [] then 0 else YoungerThan(ts[..|ts| - 1], now, limit) + if now - ts[|ts| - 1] < limit then 1 else 0
  }

  lemma {:induction false} NonZeroKeepsTotal(counts: seq<nat>)
    ensures Total(NonZero(counts)) == Total(counts)
  {
    if counts != [] {
      NonZeroKeepsTotal(counts[..|counts| - 1]);
      var front, last := NonZero(counts[..|counts| - 1]), counts[|counts| - 1];
      assert (front + [last])[..|front|] == front;
      assert Total(front + [last]) == Total(front) + last;
      assert front + [] == front;
    }
  }

  lemma BucketBound(age: real, windowSecs: nat, n: nat)
    requires windowSecs > 0 && n > 0
    ensures BucketOf(age, windowSecs) < n <==> age < (n * windowSecs) as real
  {
    var w := windowSecs as real;
    assert (n * windowSecs) as real == n as real * w;
    if age >= 0.0 {
      DivLess(age, w, n as real);
    }
  }

  /** Bucket `b` takes the ages from `b` windows up to, not including, one more; the first one takes the future as well. */
  lemma BucketExactly(age: real, windowSecs: nat, b: nat)
    requires windowSecs > 0
    ensures BucketOf(age, windowSecs) == b
       <==> (b == 0 || age >= (b * windowSecs) as real) && age < ((b + 1) * windowSecs) as real
  {
    BucketBound(age, windowSecs, b + 1);
    if b > 0 {
      BucketBound(age, windowSecs, b);
    }
  }

  lemma DivLess(a: real, w: real, n: real)
    requires w > 0.0
    ensures a / w < n <==> a < n * w
  {
    var q := a / w;
    assert q * w == a;
    if q < n {
      assert (n - q) * w > 0.0;
    } else {
      assert (q - n) * w >= 0.0;
    }
  }

  lemma {:induction false} TotalOfCounts(ts: seq<real>, now: real, windowSecs: nat, n: nat)
    requires windowSecs > 0 && ts != []
    ensures Total(Counts(ts, now, windowSecs, n)) == Total(Counts(ts[..|ts| - 1], now, windowSecs, n))
              + if BucketOf(now - ts[|ts| - 1], windowSecs) < n then 1 else 0
  {
    if n > 0 {
      TotalOfCounts(ts, now, windowSecs, n - 1);
      assert Counts(ts, now, windowSecs, n)[..n - 1] == Counts(ts, now, windowSecs, n - 1);
      assert Counts(ts[..|ts| - 1], now, windowSecs, n)[..n - 1] == Counts(ts[..|ts| - 1], now, windowSecs, n - 1);
    }
  }

  lemma {:induction false} EmptyCounts(now: real, windowSecs: nat, n: nat)
    requires windowSecs > 0
    ensures Total(Counts([], now, windowSecs, n)) == 0
  {
    if n > 0 {
      EmptyCounts(now, windowSecs, n - 1);
      assert Counts([], now, windowSecs, n)[..n - 1] == Counts([], now, windowSecs, n - 1);
    }
  }

  /** Every timestamp whose age lies within the whole buckets of the baseline is counted once, and no other. */
  lemma {:induction false} BucketsCountTheBaseline(ts: seq<real>, now: real, windowSecs: nat, n: nat)
    requires windowSecs > 0 && n > 0
    ensures Total(NonZero(Counts(ts, now, windowSecs, n))) == YoungerThan(ts, now, (n * windowSecs) as real)
  {
    NonZeroKeepsTotal(Counts(ts, now, windowSecs, n));
    if ts == [] {
      EmptyCounts(now, windowSecs, n);
    } else {
      BucketsCountTheBaseline(ts[..|ts| - 1], now, windowSecs, n);
      NonZeroKeepsTotal(Counts(ts[..|ts| - 1], now, windowSecs, n));
      TotalOfCounts(ts, now, windowSecs, n);
      BucketBound(now - ts[|ts| - 1], windowSecs, n);
    }
  }

  // ------------------------------------------------------------------
  // Mean and deviation
  // ------------------------------------------------------------------

  function Sum(v: seq<real>): real {
    if v == [] then 0.0 else Sum(v[..|v| - 1]) + v[|v| - 1]
  }

  function Square(x: real): real {
    x * x
  }

  function SquaredDeviations(v: seq<real>, m: real): real {
    if v == [] then 0.0 else SquaredDeviations(v[..|v| - 1], m) + Square(v[|v| - 1] - m)
  }

  /** `mean_stddev`, with the variance in place of its root. */
  function MeanVariance(v: seq<real>): (real, real) {
    if |v| <= 1 then
      (if |v| == 1 then v[0] else 0.0, 0.0)
    else
      var mean := Sum(v) / |v| as real;
      (mean, SquaredDeviations(v, mean) / (|v| as real - 1.0))
  }

  lemma SquareNonNegative(x: real)
    ensures Square(x) >= 0.0
  {
  }

  lemma CauchyStep(s: real, q: real, x: real, k: real)
    requires k >= 1.0 && Square(s) <= k * q
    ensures Square(s + x) <= (k + 1.0) * (q + Square(x))
  {
    SquareNonNegative(s - k * x);
    var e := q + k * Square(x) - 2.0 * s * x;
    assert Square(s - k * x) == Square(s) - 2.0 * k * s * x + k * k * Square(x);
    assert k * e == k * q + k * k * Square(x) - 2.0 * k * s * x;
    assert k * e >= 0.0;
    Divisor(k, e);
    assert Square(s + x) == Square(s) + 2.0 * s * x + Square(x);
    assert (k + 1.0) * (q + Square(x)) == k * q + q + k * Square(x) + Square(x);
  }

  lemma Divisor(k: real, e: real)
    requires k >= 1.0 && k * e >= 0.0
    ensures e >= 0.0
  {
    if e < 0.0 {
      NegativeProduct(k, e);
    }
  }

  lemma NegativeProduct(k: real, e: real)
    requires k >= 1.0 && e < 0.0
    ensures k * e < 0.0
  {
  }

  lemma NonNegativeProduct(a: real, b: real)
    requires a >= 0.0 && b >= 0.0
    ensures a * b >= 0.0
    ensures a > 0.0 && b > 0.0 ==> a * b > 0.0
  {
  }

  /** Cauchy-Schwarz for `k` values that add up to `sum`, with squared deviations `q` from `m`. */
  predicate Bounded(sum: real, q: real, k: real, m: real) {
    Square(sum - k * m) <= k * q
  }

  lemma BoundedStep(sum: real, q: real, k: real, x: real, m: real)
    requires k >= 1.0 && Bounded(sum, q, k, m)
    ensures Bounded(sum + x, q + Square(x - m), k + 1.0, m)
  {
    CauchyStep(sum - k * m, q, x - m, k);
    assert sum + x - (k + 1.0) * m == (sum - k * m) + (x - m);
  }

  lemma BoundedFirst(x: real, m: real)
    ensures Bounded(0.0, 0.0, 0.0, m)
    ensures Bounded(0.0 + x, 0.0 + Square(x - m), 1.0, m)
  {
  }

  lemma {:induction false} Cauchy(v: seq<real>, m: real)
    ensures Bounded(Sum(v), SquaredDeviations(v, m), |v| as real, m)
  {
    if |v| <= 1 {
      BoundedFirst(if v == [] then 0.0 else v[0], m);
      assert |v| == 1 ==> v[..0] == [];
    } else {
      var front := v[..|v| - 1];
      Cauchy(front, m);
      BoundedStep(Sum(front), SquaredDeviations(front, m), |front| as real, v[|v| - 1], m);
    }
  }

  function Without(v: seq<real>, j: nat): seq<real>
    requires j < |v|
  {
    v[..j] + v[j + 1..]
  }

  lemma {:induction false} SumsWithout(v: seq<real>, j: nat, m: real)
    requires j < |v|
    ensures Sum(Without(v, j)) == Sum(v) - v[j]
    ensures SquaredDeviations(Without(v, j), m) == SquaredDeviations(v, m) - Square(v[j] - m)
  {
    var k := |v| - 1;
    if j == k {
      assert Without(v, j) == v[..k];
    } else {
      var w := Without(v, j);
      assert w[..|w| - 1] == Without(v[..k], j) && w[|w| - 1] == v[k];
      SumsWithout(v[..k], j, m);
    }
  }

  lemma BoundedWithout(v: seq<real>, j: nat, m: real)
    requires j < |v|
    ensures Bounded(Sum(v) - v[j], SquaredDeviations(v, m) - Square(v[j] - m), |v| as real - 1.0, m)
  {
    SumsWithout(v, j, m);
    Cauchy(Without(v, j), m);
    assert |Without(v, j)| as real == |v| as real - 1.0;
  }

  /** No value deviates further from the mean of its sample than this, whatever the sample. */
  lemma DeviationBound(v: seq<real>, j: nat)
    requires |v| >= 2 && j < |v|
    ensures var (mean, variance) := MeanVariance(v);
      var n := |v| as real;
      n * Square(v[j] - mean) <= Square(n - 1.0) * variance
  {
    var (mean, variance) := MeanVariance(v);
    BoundedWithout(v, j, mean);
    Samuelson(|v| as real, mean, Sum(v), v[j], SquaredDeviations(v, mean), variance);
  }

  lemma Samuelson(n: real, mean: real, sum: real, x: real, q: real, variance: real)
    requires n >= 2.0 && mean == sum / n && variance == q / (n - 1.0)
    requires Bounded(sum - x, q - Square(x - mean), n - 1.0, mean)
    ensures n * Square(x - mean) <= Square(n - 1.0) * variance
  {
    var d := x - mean;
    assert n * mean == sum;
    assert (sum - x) - (n - 1.0) * mean == -d;
    assert Square(-d) == Square(d);
    assert (n - 1.0) * variance == q;
    assert Square(n - 1.0) * variance == (n - 1.0) * ((n - 1.0) * variance);
    assert (n - 1.0) * (q - Square(d)) == (n - 1.0) * q - n * Square(d) + Square(d);
  }

  /** `v > mean + sigma * stddev`, where the standard deviation is the root of the variance. */
  predicate Exceeds(v: real, mean: real, variance: real, sigma: real) {
    v > mean && Square(v - mean) > Square(sigma) * variance
  }

  /** The squared test is the test. */
  lemma ExceedsIsThreshold(v: real, mean: real, stddev: real, sigma: real)
    requires stddev >= 0.0 && sigma >= 0.0
    ensures Exceeds(v, mean, Square(stddev), sigma) <==> v > mean + sigma * stddev
  {
    var d, t := v - mean, sigma * stddev;
    assert t >= 0.0 && Square(sigma) * Square(stddev) == Square(t);
    if d > t {
      assert Square(d) == Square(t) + (d - t) * (d + t);
      NonNegativeProduct(d - t, d + t);
    } else if d > 0.0 {
      assert Square(t) == Square(d) + (t - d) * (t + d);
      NonNegativeProduct(t - d, t + d);
    }
  }

  const SIGMA: real := 3.0

  /** A bucket of a baseline of at most ten never exceeds mean + 3 standard deviations. */
  lemma SmallBaselineNeverExceeded(v: seq<real>, j: nat)
    requires |v| <= 10 && j < |v|
    ensures var (mean, variance) := MeanVariance(v); !Exceeds(v[j], mean, variance, SIGMA)
  {
    if |v| >= 2 {
      var (mean, variance) := MeanVariance(v);
      DeviationBound(v, j);
      var d2 := Square(v[j] - mean);
      VarianceNonNegative(v);
      if d2 > 9.0 * variance {
        SmallSampleArithmetic(|v|, d2, variance);
      }
    }
  }

  lemma SmallSampleArithmetic(n: nat, d2: real, variance: real)
    requires 2 <= n <= 10 && variance >= 0.0
    requires n as real * d2 <= Square(n as real - 1.0) * variance
    ensures d2 <= 9.0 * variance
  {
    if n == 2 {} else if n == 3 {} else if n == 4 {} else if n == 5 {} else if n == 6 {} else if n == 7 {} else if n == 8 {} else if n == 9 {} else {}
  }

  lemma {:induction false} DeviationsNonNegative(v: seq<real>, m: real)
    ensures SquaredDeviations(v, m) >= 0.0
  {
    if v != [] {
      DeviationsNonNegative(v[..|v| - 1], m);
      SquareNonNegative(v[|v| - 1] - m);
    }
  }

  lemma VarianceNonNegative(v: seq<real>)
    ensures MeanVariance(v).1 >= 0.0
  {
    if |v| >= 2 {
      DeviationsNonNegative(v, MeanVariance(v).0);
    }
  }

  /** `n - 1` quiet buckets and one spike. */
  function Spike(n: nat): seq<real>
    requires n >= 1
  {
    Quiet(n - 1) + [n as real + 1.0]
  }

  function Quiet(k: nat): seq<real> {
    seq(k, _ => 1.0)
  }

  lemma {:induction false} QuietSums(k: nat)
    ensures Sum(Quiet(k)) == k as real && SquaredDeviations(Quiet(k), 2.0) == k as real
  {
    if k > 0 {
      assert Quiet(k)[..k - 1] == Quiet(k - 1);
      QuietSums(k - 1);
    }
  }

  /** From eleven buckets on, some baseline has a bucket beyond the threshold; of every smaller size none has. */
  lemma SpikeExceeds(n: nat)
    requires n >= 2
    ensures var (mean, variance) := MeanVariance(Spike(n));
      && mean == 2.0 && variance == n as real
      && (Exceeds(Spike(n)[n - 1], mean, variance, SIGMA) <==> n >= 11)
  {
    var v, r := Spike(n), n as real;
    QuietSums(n - 1);
    assert v[..n - 1] == Quiet(n - 1);
    assert Sum(v) == r * 2.0;
    Cancel(r, 2.0);
    assert v[n - 1] - 2.0 == r - 1.0;
    assert SquaredDeviations(v, 2.0) == (r - 1.0) + Square(r - 1.0) == (r - 1.0) * r;
    Cancel(r - 1.0, r);
    SpikeArithmetic(n);
  }

  lemma Cancel(a: real, b: real)
    requires a != 0.0
    ensures a * b / a == b
  {
  }

  lemma SpikeArithmetic(n: nat)
    requires n >= 2
    ensures Square(n as real - 1.0) > 9.0 * n as real <==> n >= 11
  {
    var r := n as real;
    assert Square(r - 1.0) == r * (r - 2.0) + 1.0;
    if n >= 11 {
      NonNegativeProduct(r, r - 11.0);
    } else {
      NonNegativeProduct(r, 10.0 - r);
      assert r * (r - 2.0) <= r * 8.0;
    }
  }

  // ------------------------------------------------------------------
  // The check itself
  // ------------------------------------------------------------------

  /**
   Members of the sorted set are whole seconds, so requests of one second are
   one member.
   */
  ghost function Seconds(history: seq<int>, lo: int, hi: int): set<int> {
    set t | t in history && lo < t <= hi
  }

  method InAnyOrder<T(==)>(members: set<T>) returns (order: seq<T>)
    ensures forall t :: t in order <==> t in members
    ensures forall i, j :: 0 <= i < j < |order| ==> order[i] != order[j]
  {
    order := [];
    var todo := members;
    ghost var done: set<T> := {};
    while todo != {}
      invariant done + todo == members && done * todo == {}
      invariant forall t :: t in order <==> t in done
      invariant forall i, j :: 0 <= i < j < |order| ==> order[i] != order[j]
      decreases todo
    {
      var t :| t in todo;
      assert forall u :: u in order + [t] <==> u in order || u == t;
      order := order + [t];
      todo := todo - {t};
      done := done + {t};
    }
  }

  function AsReals(s: seq<int>): (r: seq<real>)
    ensures |r| == |s|
  {
    seq(|s|, i requires 0 <= i < |s| => s[i] as real)
  }

  /** The seconds whose age falls into bucket `b`. */
  ghost function InBucket(seconds: set<int>, now: int, windowSecs: nat, b: nat): set<int>
    requires windowSecs > 0
  {
    set t | t in seconds && BucketOf(now as real - t as real, windowSecs) == b
  }

  ghost function SetOf(s: seq<int>): set<int> {
    set t | t in s
  }

  lemma InBucketStep(s: seq<int>, last: int, now: int, windowSecs: nat, b: nat)
    requires windowSecs > 0 && last !in s
    ensures |InBucket(SetOf(s + [last]), now, windowSecs, b)|
         == |InBucket(SetOf(s), now, windowSecs, b)|
            + if BucketOf(now as real - last as real, windowSecs) == b then 1 else 0
  {
    assert InBucket(SetOf(s + [last]), now, windowSecs, b)
        == InBucket(SetOf(s), now, windowSecs, b)
           + if BucketOf(now as real - last as real, windowSecs) == b then {last} else {};
  }

  /** Over distinct seconds, in whatever order, a bucket's count is the number of its seconds. */
  lemma {:induction false} CountOfSeconds(order: seq<int>, now: int, windowSecs: nat, b: nat)
    requires windowSecs > 0
    requires forall i, j :: 0 <= i < j < |order| ==> order[i] != order[j]
    ensures CountIn(AsReals(order), now as real, windowSecs, b) == |InBucket(SetOf(order), now, windowSecs, b)|
  {
    if order == [] {
      assert InBucket(SetOf(order), now, windowSecs, b) == {};
    } else {
      var front, last := order[..|order| - 1], order[|order| - 1];
      CountOfSeconds(front, now, windowSecs, b);
      assert AsReals(order)[..|front|] == AsReals(front);
      assert order == front + [last];
      InBucketStep(front, last, now, windowSecs, b);
    }
  }

  /** How many distinct seconds of the history each bucket of the baseline holds. */
  ghost function BaselineCounts(c: Config, history: seq<int>, now: int): (r: seq<nat>)
    requires c.windowSecs > 0
    ensures |r| == c.baselineSecs / c.windowSecs
  {
    seq(c.baselineSecs / c.windowSecs, b requires 0 <= b =>
      |InBucket(Seconds(history, now - c.baselineSecs, now), now, c.windowSecs, b)|)
  }

  datatype Config = Config(windowSecs: nat, sigma: real, baselineSecs: nat, minDatapoints: nat)

  const DEFAULT_CONFIG := Config(300, SIGMA, 86_400, 12)

  /** Enough buckets, and the velocity beyond the threshold. */
  predicate Alert(c: Config, velocity: nat, buckets: seq<nat>) {
    var (mean, variance) := MeanVariance(AsReals(buckets));
    |buckets| >= c.minDatapoints && Exceeds(velocity as real, mean, variance, c.sigma)
  }

  /** What Redis still holds after the requests of `history`. */
  ghost predicate Kept(c: Config, history: seq<int>, members: set<int>, expireAt: int) {
    && (forall i, j :: 0 <= i < j < |history| ==> history[i] <= history[j])
    && if history == [] then members == {} else
       var last := history[|history| - 1];
       members == Seconds(history, last - c.baselineSecs, last) && expireAt == last + c.baselineSecs + c.windowSecs
  }

  function Pruned(members: set<int>, cutoff: int): set<int> {
    set t | t in members && t > cutoff
  }

  /** What was pruned, or expired with the key, is older than the baseline. */
  lemma KeptStep(c: Config, history: seq<int>, members: set<int>, expireAt: int, now: int)
    requires Kept(c, history, members, expireAt)
    requires history == [] || history[|history| - 1] <= now
    ensures Kept(c, history + [now], Pruned(members + {now}, now - c.baselineSecs), now + c.baselineSecs + c.windowSecs)
    ensures members != {} && now >= expireAt ==>
      Pruned(members + {now}, now - c.baselineSecs) == Pruned({} + {now}, now - c.baselineSecs)
  {
    if history != [] {
      assert forall t :: t in history ==> t <= history[|history| - 1];
    }
  }

  /** ZRANGEBYSCORE over the baseline, then the buckets. */
  method BaselineBuckets(c: Config, members: set<int>, ghost history: seq<int>, now: int) returns (buckets: seq<nat>)
    requires 0 < c.windowSecs
    requires members == Seconds(history, now - c.baselineSecs, now)
    ensures buckets == NonZero(BaselineCounts(c, history, now))
  {
    var order := InAnyOrder(members);
    assert SetOf(order) == members;
    CountsOfHistory(history, order, now, c);
    buckets := BucketVelocities(AsReals(order), c.windowSecs, now as real, c.baselineSecs);
  }

  class VelocityMonitor {
    const config: Config
    var members: set<int>
    var expireAt: int
    /** The times of all requests ever recorded, in seconds. */
    ghost var history: seq<int>

    ghost predicate Valid()
      reads this
    {
      0 < config.windowSecs < config.baselineSecs && Kept(config, history, members, expireAt)
    }

    constructor (config: Config)
      requires 0 < config.windowSecs < config.baselineSecs
      ensures Valid() && history == [] && this.config == config
    {
      this.config := config;
      members, expireAt, history := {}, 0, [];
    }

    /** ZADD, ZREMRANGEBYSCORE, EXPIRE. */
    method Record(now: int, edge: bool)
      requires Valid()
      requires history == [] || history[|history| - 1] <= now
      modifies this
      ensures Valid() && history == old(history) + [now]
    {
      KeptStep(config, history, members, expireAt, now);
      if members != {} && RateLimit.Gone(expireAt, now, edge) {
        members := {};
      }
      members := members + {now};
      var cutoff := now - config.baselineSecs;
      members := Pruned(members, cutoff);
      expireAt := now + config.baselineSecs + config.windowSecs;
      history := history + [now];
    }

    /** `record_and_check`, with the buckets it computes. */
    method RecordAndCheck(now: int, edge: bool) returns (velocity: nat, buckets: seq<nat>, anomalous: bool)
      requires Valid()
      requires history == [] || history[|history| - 1] <= now
      modifies this
      ensures Valid() && history == old(history) + [now]
      ensures velocity == |Seconds(history, now - config.windowSecs - 1, now)|
      ensures velocity <= config.windowSecs + 1
      ensures anomalous <==> Alert(config, velocity, buckets)
      ensures buckets == NonZero(BaselineCounts(config, history, now))
      ensures now - config.windowSecs !in history ==> velocity in buckets
    {
      Record(now, edge);
      var windowStart := now - config.windowSecs;
      velocity := |set t | t in members && windowStart <= t <= now|;
      WindowOfKept(history, members, now, config, windowStart);
      assert velocity == |Seconds(history, now - config.windowSecs - 1, now)|;
      buckets := BaselineBuckets(config, members, history, now);
      FirstBucketIsVelocity(history, now, config, velocity);
      anomalous := Alert(config, velocity, buckets);
    }
  }

  lemma WindowOfKept(history: seq<int>, members: set<int>, now: int, c: Config, windowStart: int)
    requires c.windowSecs < c.baselineSecs && windowStart == now - c.windowSecs
    requires members == Seconds(history, now - c.baselineSecs, now)
    ensures (set t | t in members && windowStart <= t <= now) == Seconds(history, windowStart - 1, now)
    ensures |Seconds(history, windowStart - 1, now)| <= c.windowSecs + 1
  {
    SubsetSize(Seconds(history, windowStart - 1, now), Range(windowStart, now + 1));
  }

  lemma CountsOfHistory(history: seq<int>, order: seq<int>, now: int, c: Config)
    requires 0 < c.windowSecs
    requires SetOf(order) == Seconds(history, now - c.baselineSecs, now)
    requires forall i, j :: 0 <= i < j < |order| ==> order[i] != order[j]
    ensures Counts(AsReals(order), now as real, c.windowSecs, c.baselineSecs / c.windowSecs)
         == BaselineCounts(c, history, now)
  {
    var n := c.baselineSecs / c.windowSecs;
    forall b: nat | b < n
      ensures Counts(AsReals(order), now as real, c.windowSecs, n)[b] == BaselineCounts(c, history, now)[b]
    {
      CountOfSeconds(order, now, c.windowSecs, b);
    }
  }

  /** The current window is itself a bucket of the baseline, unless a request sits on its far edge. */
  lemma FirstBucketIsVelocity(history: seq<int>, now: int, c: Config, velocity: nat)
    requires 0 < c.windowSecs < c.baselineSecs && now in history
    requires velocity == |Seconds(history, now - c.windowSecs - 1, now)|
    ensures now - c.windowSecs !in history ==> velocity in NonZero(BaselineCounts(c, history, now))
  {
    if now - c.windowSecs !in history {
      var seconds := Seconds(history, now - c.baselineSecs, now);
      var young := InBucket(seconds, now, c.windowSecs, 0);
      forall t: int
        ensures t in young <==> t in Seconds(history, now - c.windowSecs - 1, now)
      {
        BucketBound(now as real - t as real, c.windowSecs, 1);
      }
      assert young == Seconds(history, now - c.windowSecs - 1, now);
      assert now in young;
      WholeBuckets(c.baselineSecs, c.windowSecs);
      assert BaselineCounts(c, history, now)[0] == velocity;
    }
  }

  lemma WholeBuckets(baseline: nat, window: nat)
    requires 0 < window <= baseline
    ensures baseline / window >= 1
  {
  }

  // ------------------------------------------------------------------
  // Seconds and requests
  // ------------------------------------------------------------------

  /** The requests made after `lo` and up to `hi`. */
  ghost function Requests(history: seq<int>, lo: int, hi: int): nat {
    if history == [] then 0
    else Requests(history[..|history| - 1], lo, hi) + if lo < history[|history| - 1] <= hi then 1 else 0
  }

  ghost predicate ShareASecond(history: seq<int>, lo: int, hi: int) {
    exists i, j :: SharedAt(history, lo, hi, i, j)
  }

  ghost predicate SharedAt(history: seq<int>, lo: int, hi: int, i: int, j: int) {
    0 <= i < j < |history| && history[i] == history[j] && lo < history[i] <= hi
  }

  /** The velocity never exceeds the requests of its window, and equals them exactly when no two share a second. */
  lemma {:induction false} SecondsAreRequests(history: seq<int>, lo: int, hi: int)
    ensures |Seconds(history, lo, hi)| <= Requests(history, lo, hi)
    ensures |Seconds(history, lo, hi)| == Requests(history, lo, hi) <==> !ShareASecond(history, lo, hi)
  {
    if history == [] {
      assert Seconds(history, lo, hi) == {};
    } else {
      var front, last := history[..|history| - 1], history[|history| - 1];
      SecondsAreRequests(front, lo, hi);
      SharedSnoc(front, last, lo, hi);
      assert history == front + [last];
      assert Seconds(history, lo, hi) == Seconds(front, lo, hi) + if lo < last <= hi then {last} else {};
    }
  }

  lemma SharedSnoc(front: seq<int>, last: int, lo: int, hi: int)
    ensures ShareASecond(front + [last], lo, hi)
       <==> ShareASecond(front, lo, hi) || last in Seconds(front, lo, hi)
  {
    var history := front + [last];
    if ShareASecond(history, lo, hi) {
      var i, j :| SharedAt(history, lo, hi, i, j);
      assert j < |front| ==> SharedAt(front, lo, hi, i, j);
    }
    if ShareASecond(front, lo, hi) {
      var i, j :| SharedAt(front, lo, hi, i, j);
      assert SharedAt(history, lo, hi, i, j);
    }
    if last in Seconds(front, lo, hi) {
      var i :| 0 <= i < |front| && front[i] == last;
      assert SharedAt(history, lo, hi, i, |front|);
    }
  }

  /** Two requests of one second are a velocity of one. */
  lemma TwoRequestsOneSecond(now: int, lo: int)
    requires lo < now
    ensures Requests([now, now], lo, now) == 2 && |Seconds([now, now], lo, now)| == 1
  {
    assert [now, now][..1] == [now] && [now][..0] == [];
    assert Requests([now], lo, now) == 1;
    assert Seconds([now, now], lo, now) == {now};
  }

  // ------------------------------------------------------------------
  // How many buckets an alert takes
  // ------------------------------------------------------------------

  /** A velocity that is itself one of the buckets raises no alert at three standard deviations below eleven buckets. */
  lemma AlertAmongBuckets(c: Config, velocity: nat, buckets: seq<nat>)
    requires c.sigma == SIGMA && velocity in buckets && Alert(c, velocity, buckets)
    ensures |buckets| >= 11
  {
    var j :| 0 <= j < |buckets| && buckets[j] == velocity;
    if |buckets| <= 10 {
      SmallBaselineNeverExceeded(AsReals(buckets), j);
    }
  }

  /**
   Whatever the minimum configured, a request raises an alert only when the
   baseline has eleven buckets, or when another request came exactly one window
   before it.
   */
  lemma AlertNeedsElevenBuckets(c: Config, history: seq<int>, now: int)
    requires 0 < c.windowSecs < c.baselineSecs && c.sigma == SIGMA && now in history
    ensures var velocity := |Seconds(history, now - c.windowSecs - 1, now)|;
      var buckets := NonZero(BaselineCounts(c, history, now));
      Alert(c, velocity, buckets) ==> |buckets| >= 11 || now - c.windowSecs in history
  {
    var velocity := |Seconds(history, now - c.windowSecs - 1, now)|;
    var buckets := NonZero(BaselineCounts(c, history, now));
    FirstBucketIsVelocity(history, now, c, velocity);
    if Alert(c, velocity, buckets) && now - c.windowSecs !in history {
      AlertAmongBuckets(c, velocity, buckets);
    }
  }

  /** One request in every window, exactly a window apart. */
  function Every(windowSecs: nat, n: nat, now: int): seq<int> {
    seq(n, i requires 0 <= i < n => now - (n - 1 - i) * windowSecs)
  }

  ghost predicate IsEvery(windowSecs: nat, n: nat, now: int, t: int) {
    exists i :: 0 <= i < n && t == now - i * windowSecs
  }

  lemma EveryMember(windowSecs: nat, n: nat, now: int, t: int)
    ensures t in Every(windowSecs, n, now) <==> IsEvery(windowSecs, n, now, t)
  {
    var h := Every(windowSecs, n, now);
    if t in h {
      var i :| 0 <= i < n && h[i] == t;
      assert t == now - (n - 1 - i) * windowSecs;
    }
    if IsEvery(windowSecs, n, now, t) {
      var i :| 0 <= i < n && t == now - i * windowSecs;
      assert h[n - 1 - i] == t;
    }
  }

  lemma BucketOfMultiple(i: nat, windowSecs: nat)
    requires windowSecs > 0
    ensures BucketOf((i * windowSecs) as real, windowSecs) == i
  {
    var w := windowSecs as real;
    assert (i * windowSecs) as real == i as real * w;
    assert (i as real * w) / w == i as real;
  }

  lemma {:induction false} MultiplesApart(i: nat, j: nat, w: nat)
    requires i < j
    ensures i * w + w <= j * w
  {
    assert j * w == (j - 1) * w + w;
    if i < j - 1 {
      MultiplesApart(i, j - 1, w);
    }
  }

  /** The request `b` windows ago is alone in its bucket; beyond the first one the buckets are empty. */
  lemma EveryBucket(c: Config, n: nat, now: int, b: nat)
    requires 0 < c.windowSecs && b < c.baselineSecs / c.windowSecs
    ensures BaselineCounts(c, Every(c.windowSecs, n, now), now)[b] == if b < n then 1 else 0
  {
    var w, h := c.windowSecs, Every(c.windowSecs, n, now);
    var seconds := Seconds(h, now - c.baselineSecs, now);
    forall t
      ensures t in InBucket(seconds, now, w, b) <==> b < n && t == now - b * w
    {
      EveryMember(w, n, now, t);
      if t in InBucket(seconds, now, w, b) {
        var i :| 0 <= i < n && t == now - i * w;
        BucketOfMultiple(i, w);
        assert now as real - t as real == (i * w) as real;
      }
      if b < n && t == now - b * w {
        BucketOfMultiple(b, w);
        assert now as real - t as real == (b * w) as real;
        WithinBaseline(b, c.baselineSecs, w);
      }
    }
    assert InBucket(seconds, now, w, b) == if b < n then {now - b * w} else {};
  }

  lemma WithinBaseline(b: nat, baseline: nat, w: nat)
    requires w > 0 && b < baseline / w
    ensures b * w < baseline
  {
    MultiplesApart(b, baseline / w, w);
    assert baseline / w * w <= baseline;
  }

  lemma {:induction false} NonZeroOnes(counts: seq<nat>, n: nat)
    requires n <= |counts| && forall b :: 0 <= b < |counts| ==> counts[b] == if b < n then 1 else 0
    ensures NonZero(counts) == seq(n, _ => 1)
  {
    if counts != [] {
      var k := |counts| - 1;
      NonZeroOnes(counts[..k], if n <= k then n else k);
    }
  }

  lemma {:induction false} QuietDeviations(k: nat)
    ensures SquaredDeviations(Quiet(k), 1.0) == 0.0
  {
    if k > 0 {
      assert Quiet(k)[..k - 1] == Quiet(k - 1);
      QuietDeviations(k - 1);
    }
  }

  /** Equal buckets have no deviation, and one more than their count is beyond any threshold. */
  lemma EqualBucketsAlert(c: Config, n: nat)
    requires n >= 2
    ensures Alert(c, 2, seq(n, _ => 1)) <==> n >= c.minDatapoints
  {
    QuietSums(n);
    QuietDeviations(n);
    assert AsReals(seq(n, _ => 1)) == Quiet(n);
    assert Sum(Quiet(n)) / n as real == 1.0;
    assert 0.0 / (n as real - 1.0) == 0.0;
  }

  lemma EveryVelocity(c: Config, n: nat, now: int)
    requires 0 < c.windowSecs && n >= 2
    ensures |Seconds(Every(c.windowSecs, n, now), now - c.windowSecs - 1, now)| == 2
  {
    var w, h := c.windowSecs, Every(c.windowSecs, n, now);
    var recent := Seconds(h, now - w - 1, now);
    forall t
      ensures t in recent <==> t == now || t == now - w
    {
      EveryMember(w, n, now, t);
      if t in recent {
        var i :| 0 <= i < n && t == now - i * w;
        if i >= 2 {
          MultiplesApart(1, i, w);
        }
      }
      assert now == now - 0 * w && now - w == now - 1 * w;
    }
    assert recent == {now, now - w};
  }

  /**
   Perfectly steady traffic is an anomaly: of one request every window, each
   bucket counts one and the velocity two, so that every request raises an alert
   as soon as the baseline has its minimum of buckets.
   */
  lemma SteadyTrafficAlerts(c: Config, n: nat, now: int)
    requires 0 < c.windowSecs && 2 <= n <= c.baselineSecs / c.windowSecs
    ensures var history := Every(c.windowSecs, n, now);
      var velocity := |Seconds(history, now - c.windowSecs - 1, now)|;
      var buckets := NonZero(BaselineCounts(c, history, now));
      && velocity == 2 && buckets == seq(n, _ => 1)
      && (Alert(c, velocity, buckets) <==> n >= c.minDatapoints)
  {
    var history := Every(c.windowSecs, n, now);
    forall b: nat | b < c.baselineSecs / c.windowSecs
      ensures BaselineCounts(c, history, now)[b] == if b < n then 1 else 0
    {
      EveryBucket(c, n, now, b);
    }
    NonZeroOnes(BaselineCounts(c, history, now), n);
    EveryVelocity(c, n, now);
    EqualBucketsAlert(c, n);
  }

  /** With the defaults: a request every five minutes, for an hour. */
  lemma SteadyHourAlerts(now: int)
    ensures var history := Every(300, 12, now);
      Alert(DEFAULT_CONFIG, |Seconds(history, now - 301, now)|, NonZero(BaselineCounts(DEFAULT_CONFIG, history, now)))
  {
    SteadyTrafficAlerts(DEFAULT_CONFIG, 12, now);
  }
}
