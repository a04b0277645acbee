/**
 * Reduction of each round's records into summary statistics
 * (`_calculate_stats`). Over the successful records of a round it sums,
 * maximises and minimises the authentication and connection durations,
 * counts the failed records, and divides the sums by the number of
 * successes, falling back to 0 when a round had none. The maxima start at
 * 0 and the minima at +infinity, so a round without successes reports
 * maxima 0 and minima +infinity.
 */
module Stats {
  import opened Records

  /** A minimum that may still be the +infinity it started from. */
  datatype Bound = Finite(value: real) | Infinity

  /** `min(b, x)` where `b` may be +infinity. */
  function Min(b: Bound, x: real): (r: Bound)
    ensures r.Finite? && r.value <= x
    ensures b.Finite? ==> r.value <= b.value
    ensures r == Finite(x) || r == b
  {
    match b
    case Infinity => Finite(x)
    case Finite(v) => if x < v then Finite(x) else b
  }

  function Max(a: real, x: real): (r: real)
    ensures a <= r && x <= r && (r == a || r == x)
  {
    if x > a then x else a
  }

  /** A round's records, keyed by id, in the dictionary's order. */
  type RoundData = seq<(int, Record)>

  /** What the report holds for one round. */
  datatype RoundStats = RoundStats(
    avgAuthTime: real,
    avgConnTime: real,
    maxAuthTime: real,
    maxConnTime: real,
    minAuthTime: Bound,
    minConnTime: Bound,
    failedConns: nat,
    connData: RoundData)

  /** The whole report: the run's parameters and, per round name, its
      statistics. */
  datatype Report = Report(
    stressType: string,
    rounds: int,
    connsPerRound: int,
    totalConns: int,
    connsPerSec: real,
    connWait: int,
    globalWait: int,
    roundData: seq<(string, RoundStats)>)

  // Specification of the reduction, one value at a time from the front of
  // the round, as the accumulator loop visits the records.

  function Successes(d: RoundData): nat {
    if |d| == 0 then 0
    else Successes(d[..|d| - 1]) + (if d[|d| - 1].1.Successful() then 1 else 0)
  }

  function Failures(d: RoundData): nat {
    if |d| == 0 then 0
    else Failures(d[..|d| - 1]) + (if d[|d| - 1].1.Successful() then 0 else 1)
  }

  /** The sum of metric `m` over the successful records. */
  function Total(d: RoundData, m: Metric): real {
    if |d| == 0 then 0.0
    else
      var o := d[|d| - 1].1.outcome;
      Total(d[..|d| - 1], m) + (if o.Succeeded? then Measure(o, m) else 0.0)
  }

  /** The running maximum of metric `m`, started at 0. */
  function Peak(d: RoundData, m: Metric): real {
    if |d| == 0 then 0.0
    else
      var o := d[|d| - 1].1.outcome;
      if o.Succeeded? then Max(Peak(d[..|d| - 1], m), Measure(o, m)) else Peak(d[..|d| - 1], m)
  }

  /** The running minimum of metric `m`, started at +infinity. */
  function Least(d: RoundData, m: Metric): Bound {
    if |d| == 0 then Infinity
    else
      var o := d[|d| - 1].1.outcome;
      if o.Succeeded? then Min(Least(d[..|d| - 1], m), Measure(o, m)) else Least(d[..|d| - 1], m)
  }

  /** The mean of metric `m` over the successes, 0 when there are none. */
  function Average(d: RoundData, m: Metric): real {
    if Successes(d) == 0 then 0.0 else Total(d, m) / Successes(d) as real
  }

  /** The statistics of one round, as the specification of SummarizeRound. */
  function Summarize(d: RoundData): RoundStats {
    RoundStats(Average(d, Auth), Average(d, Conn), Peak(d, Auth), Peak(d, Conn),
               Least(d, Auth), Least(d, Conn), Failures(d), d)
  }

  /** The report, as the specification of CalculateStats. */
  function ReportOf(perfTimes: seq<(string, RoundData)>, conns: int, rounds: int,
                    connsPerSec: real, connWait: int, globalWait: int, stressType: string): Report
  {
    Report(stressType, rounds, conns, conns * rounds, connsPerSec, connWait, globalWait,
           seq(|perfTimes|, i requires 0 <= i < |perfTimes| => (perfTimes[i].0, Summarize(perfTimes[i].1))))
  }

  // What the specification functions mean.

  /** Every record is either a success or a failure. */
  lemma {:induction false} SuccessesAndFailures(d: RoundData)
    ensures Successes(d) + Failures(d) == |d|
  {
    if |d| > 0 {
      SuccessesAndFailures(d[..|d| - 1]);
    }
  }

  /** The failure count is the number of failed records. */
  lemma {:induction false} FailuresCountsFailed(d: RoundData)
    ensures Failures(d) == |set i | 0 <= i < |d| && !d[i].1.Successful()|
  {
    if |d| > 0 {
      var p := d[..|d| - 1];
      FailuresCountsFailed(p);
      var before := set i | 0 <= i < |p| && !p[i].1.Successful();
      var after := set i | 0 <= i < |d| && !d[i].1.Successful();
      if d[|d| - 1].1.Successful() {
        assert after == before;
      } else {
        assert after == before + {|d| - 1};
      }
    }
  }

  /** The maximum bounds every successful duration from above, is never
      negative, and is one of the durations when there was a success. */
  lemma {:induction false} PeakIsMaximum(d: RoundData, m: Metric)
    ensures Peak(d, m) >= 0.0
    ensures forall i :: 0 <= i < |d| && d[i].1.Successful() ==> Measure(d[i].1.outcome, m) <= Peak(d, m)
    ensures Successes(d) == 0 ==> Peak(d, m) == 0.0
    ensures Successes(d) > 0 ==>
      exists i :: 0 <= i < |d| && d[i].1.Successful() && Peak(d, m) == Measure(d[i].1.outcome, m)
  {
    if |d| > 0 {
      var p := d[..|d| - 1];
      PeakIsMaximum(p, m);
      assert forall i :: 0 <= i < |p| ==> d[i] == p[i];
      var o := d[|d| - 1].1.outcome;
      if o.Succeeded? && Peak(d, m) == Measure(o, m) {
        assert d[|d| - 1].1.Successful();
      } else if Successes(d) > 0 {
        assert Successes(p) > 0;
        var i :| 0 <= i < |p| && p[i].1.Successful() && Peak(p, m) == Measure(p[i].1.outcome, m);
        assert d[i] == p[i];
      }
    }
  }

  /** The minimum stays +infinity exactly when there was no success, and
      otherwise bounds every successful duration from below and is one of
      them. */
  lemma {:induction false} LeastIsMinimum(d: RoundData, m: Metric)
    ensures Least(d, m) == Infinity <==> Successes(d) == 0
    ensures forall i :: 0 <= i < |d| && d[i].1.Successful() ==>
      Least(d, m).Finite? && Least(d, m).value <= Measure(d[i].1.outcome, m)
    ensures Successes(d) > 0 ==>
      exists i :: 0 <= i < |d| && d[i].1.Successful() && Least(d, m) == Finite(Measure(d[i].1.outcome, m))
  {
    if |d| > 0 {
      var p := d[..|d| - 1];
      LeastIsMinimum(p, m);
      assert forall i :: 0 <= i < |p| ==> d[i] == p[i];
      var o := d[|d| - 1].1.outcome;
      if o.Succeeded? && Least(d, m) == Finite(Measure(o, m)) {
        assert d[|d| - 1].1.Successful();
      } else if Successes(d) > 0 {
        assert Successes(p) > 0;
        var i :| 0 <= i < |p| && p[i].1.Successful() && Least(p, m) == Finite(Measure(p[i].1.outcome, m));
        assert d[i] == p[i];
      }
    }
  }

  /** `k * v` written as repeated addition, which keeps the products
      below out of the solver's non-linear arithmetic. */
  function Times(k: nat, v: real): real {
    if k == 0 then 0.0 else Times(k - 1, v) + v
  }

  lemma {:induction false} TimesIsProduct(k: nat, v: real)
    ensures Times(k, v) == k as real * v
  {
    if k > 0 {
      TimesIsProduct(k - 1, v);
      assert k as real * v == (k - 1) as real * v + v;
    }
  }

  lemma {:induction false} TimesMonotone(k: nat, a: real, b: real)
    requires a <= b
    ensures Times(k, a) <= Times(k, b)
  {
    if k > 0 {
      TimesMonotone(k - 1, a, b);
    }
  }

  /** The sum lies between n times the minimum and n times the maximum,
      where n is the number of successes; with no success the sum and the
      maximum are 0 and the minimum is still +infinity. */
  predicate SumWithinExtrema(d: RoundData, m: Metric) {
    && (Successes(d) == 0 ==> Total(d, m) == 0.0 && Peak(d, m) == 0.0 && Least(d, m) == Infinity)
    && (Successes(d) > 0 ==>
          Least(d, m).Finite? &&
          Times(Successes(d), Least(d, m).value) <= Total(d, m) <= Times(Successes(d), Peak(d, m)))
  }

  lemma {:induction false} TotalBetweenExtrema(d: RoundData, m: Metric)
    ensures SumWithinExtrema(d, m)
  {
    if |d| > 0 {
      var p := d[..|d| - 1];
      TotalBetweenExtrema(p, m);
      if d[|d| - 1].1.Successful() && Successes(p) > 0 {
        TimesMonotone(Successes(p), Least(d, m).value, Least(p, m).value);
        TimesMonotone(Successes(p), Peak(p, m), Peak(d, m));
      }
    }
  }

  /** A sum of k values between lo and hi, divided by k, lies between lo and
      hi. */
  lemma QuotientBetween(t: real, k: nat, lo: real, hi: real)
    requires k > 0 && Times(k, lo) <= t <= Times(k, hi)
    ensures lo <= t / k as real <= hi
  {
    TimesIsProduct(k, lo);
    TimesIsProduct(k, hi);
    Quotient(t, k as real, lo, hi);
  }

  lemma Quotient(t: real, n: real, lo: real, hi: real)
    requires n > 0.0 && n * lo <= t <= n * hi
    ensures lo <= t / n <= hi
  {
    var q := t / n;
    assert n * q == t;
    PositiveFactor(n, q - lo);
    PositiveFactor(n, hi - q);
  }

  /** A product with a positive factor has the sign of the other factor. */
  lemma PositiveFactor(n: real, x: real)
    requires n > 0.0 && n * x >= 0.0
    ensures x >= 0.0
  {
  }

  /** With at least one success the average lies between the minimum and
      the maximum. */
  lemma AverageBetweenExtrema(d: RoundData, m: Metric)
    requires Successes(d) > 0
    ensures Least(d, m).Finite?
    ensures Least(d, m).value <= Average(d, m) <= Peak(d, m)
  {
    TotalBetweenExtrema(d, m);
    QuotientBetween(Total(d, m), Successes(d), Least(d, m).value, Peak(d, m));
  }

  /** The accumulator loop over one round (the body of `_calculate_stats`'s
      outer loop). */
  method SummarizeRound(d: RoundData) returns (s: RoundStats)
    ensures s == Summarize(d)
    ensures s.connData == d
    ensures s.failedConns + Successes(d) == |d|
    ensures Successes(d) == 0 ==>
      s.avgAuthTime == 0.0 && s.avgConnTime == 0.0 &&
      s.maxAuthTime == 0.0 && s.maxConnTime == 0.0 &&
      s.minAuthTime == Infinity && s.minConnTime == Infinity
    ensures Successes(d) > 0 ==>
      s.minAuthTime.Finite? && s.minAuthTime.value <= s.avgAuthTime <= s.maxAuthTime &&
      s.minConnTime.Finite? && s.minConnTime.value <= s.avgConnTime <= s.maxConnTime
  {
    var totalAuthTime, totalConnTime := 0.0, 0.0;
    var maxAuthTime, maxConnTime := 0.0, 0.0;
    var minAuthTime, minConnTime := Infinity, Infinity;
    var totalConns := |d|;
    var totalFailed := 0;
    var i := 0;
    while i < |d|
      invariant 0 <= i <= |d|
      invariant totalAuthTime == Total(d[..i], Auth) && totalConnTime == Total(d[..i], Conn)
      invariant maxAuthTime == Peak(d[..i], Auth) && maxConnTime == Peak(d[..i], Conn)
      invariant minAuthTime == Least(d[..i], Auth) && minConnTime == Least(d[..i], Conn)
      invariant totalFailed == Failures(d[..i])
    {
      assert d[..i + 1][..i] == d[..i];
      var data := d[i].1;
      if data.Successful() {
        var authTime := data.outcome.authTime;
        totalAuthTime := totalAuthTime + authTime;
        maxAuthTime := Max(maxAuthTime, authTime);
        minAuthTime := Min(minAuthTime, authTime);

        var connTime := data.outcome.connTime;
        totalConnTime := totalConnTime + connTime;
        maxConnTime := Max(maxConnTime, connTime);
        minConnTime := Min(minConnTime, connTime);
      } else {
        totalFailed := totalFailed + 1;
      }
      i := i + 1;
    }
    assert d[..|d|] == d;
    SuccessesAndFailures(d);
    // `_calculate_stats` divides and turns the division by zero into 0.
    var avgAuthTime, avgConnTime;
    if totalConns - totalFailed == 0 {
      avgAuthTime, avgConnTime := 0.0, 0.0;
    } else {
      avgAuthTime := totalAuthTime / (totalConns - totalFailed) as real;
      avgConnTime := totalConnTime / (totalConns - totalFailed) as real;
    }
    s := RoundStats(avgAuthTime, avgConnTime, maxAuthTime, maxConnTime,
                    minAuthTime, minConnTime, totalFailed, d);
    PeakIsMaximum(d, Auth);
    PeakIsMaximum(d, Conn);
    LeastIsMinimum(d, Auth);
    LeastIsMinimum(d, Conn);
    if Successes(d) > 0 {
      AverageBetweenExtrema(d, Auth);
      AverageBetweenExtrema(d, Conn);
    }
  }

  /** `_calculate_stats`: the run's header and one summary per round, filed
      under the round's name in the rounds' order. The rounds come from a
      dictionary, so their names are distinct. */
  method CalculateStats(perfTimes: seq<(string, RoundData)>, conns: int, rounds: int,
                        connsPerSec: real, connWait: int, globalWait: int, stressType: string)
    returns (r: Report)
    requires forall i, j :: 0 <= i < j < |perfTimes| ==> perfTimes[i].0 != perfTimes[j].0
    ensures r == ReportOf(perfTimes, conns, rounds, connsPerSec, connWait, globalWait, stressType)
    ensures r.totalConns == conns * rounds && r.rounds == rounds && r.connsPerRound == conns
    ensures |r.roundData| == |perfTimes|
    ensures forall i :: 0 <= i < |perfTimes| ==>
      r.roundData[i].0 == perfTimes[i].0 &&
      r.roundData[i].1.connData == perfTimes[i].1 &&
      r.roundData[i].1.failedConns <= |perfTimes[i].1|
  {
    var roundsDict: seq<(string, RoundStats)> := [];
    var k := 0;
    while k < |perfTimes|
      invariant 0 <= k <= |perfTimes|
      invariant |roundsDict| == k
      invariant forall i :: 0 <= i < k ==> roundsDict[i] == (perfTimes[i].0, Summarize(perfTimes[i].1))
    {
      var (roundName, roundData) := perfTimes[k];
      var st := SummarizeRound(roundData);
      roundsDict := roundsDict + [(roundName, st)];
      k := k + 1;
    }
    r := Report(stressType, rounds, conns, conns * rounds, connsPerSec, connWait, globalWait, roundsDict);
    forall i | 0 <= i < |perfTimes|
      ensures r.roundData[i].1.failedConns <= |perfTimes[i].1|
    {
      SuccessesAndFailures(perfTimes[i].1);
    }
  }

  /** A round where attempt 3 failed and attempts 1, 2 and 4 authenticated
      in 0.1, 0.2 and 0.3 seconds averages 0.2 seconds with one failure. */
  lemma MixedRoundExample()
    ensures var d: RoundData := [(1, Record(1, Succeeded(0.1, 1.0, ""))), (2, Record(2, Succeeded(0.2, 1.0, ""))),
                      (3, Record(3, Failed("refused"))), (4, Record(4, Succeeded(0.3, 1.0, "")))];
            Summarize(d).avgAuthTime == 0.2 && Summarize(d).failedConns == 1
  {
    var d: RoundData := [(1, Record(1, Succeeded(0.1, 1.0, ""))), (2, Record(2, Succeeded(0.2, 1.0, ""))),
              (3, Record(3, Failed("refused"))), (4, Record(4, Succeeded(0.3, 1.0, "")))];
    assert d[..1][..0] == [];
    assert Successes(d[..1]) == 1 && Total(d[..1], Auth) == 0.1 && Failures(d[..1]) == 0;
    assert d[..2][..1] == d[..1];
    assert Successes(d[..2]) == 2 && Total(d[..2], Auth) == 0.3 && Failures(d[..2]) == 0;
    assert d[..3][..2] == d[..2];
    assert Successes(d[..3]) == 2 && Total(d[..3], Auth) == 0.3 && Failures(d[..3]) == 1;
    assert d[..3] == d[..|d| - 1];
  }
}
