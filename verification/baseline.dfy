/**
 * The benchmark regression gate: each benchmark result is compared with the stored
 * baseline mean for its dimension and classified as new, pass, warning or
 * regression. Division follows JavaScript number semantics, so a zero baseline
 * mean yields an infinity or NaN rather than an error.
 */
module Baseline {
  import opened Wrappers

  /** Which section of the baseline file a run is compared against. */
  datatype BenchDim = Bench2d | Bench3d

  datatype BenchResult = BenchResult(name: string, mean: real)

  datatype BaselineEntry = BaselineEntry(mean: real, tolerance: Option<real>)

  datatype Thresholds = Thresholds(warning: real, regression: real)

  /** A baseline file; `thresholds` may be missing from it. */
  datatype BaselineData = BaselineData(
    thresholds: Option<Thresholds>,
    entries2d: map<string, BaselineEntry>,
    entries3d: map<string, BaselineEntry>)

  datatype Status = Pass | Warning | Regression | New

  /** A JavaScript number produced by a division: finite, an infinity, or NaN. */
  datatype Ratio = Finite(value: real) | PlusInfinity | MinusInfinity | NaN

  datatype ComparisonResult = ComparisonResult(
    name: string, mean: real, baseline: Option<real>, percentChange: Option<Ratio>, status: Status)

  const DEFAULT_THRESHOLDS := Thresholds(0.15, 0.30)

  /** `a / b` on JavaScript numbers. */
  function Divide(a: real, b: real): (q: Ratio)
    ensures b != 0.0 ==> q == Finite(a / b)
    ensures q.Finite? <==> b != 0.0
    ensures q.NaN? <==> a == 0.0 && b == 0.0
  {
    if b != 0.0 then Finite(a / b)
    else if a > 0.0 then PlusInfinity
    else if a < 0.0 then MinusInfinity
    else NaN
  }

  /** `q > t` on JavaScript numbers: every comparison with NaN is false. */
  predicate Exceeds(q: Ratio, t: real)
  {
    match q
    case Finite(v) => v > t
    case PlusInfinity => true
    case MinusInfinity => false
    case NaN => false
  }

  function Entries(b: BaselineData, d: BenchDim): map<string, BaselineEntry>
  {
    if d == Bench2d then b.entries2d else b.entries3d
  }

  /** The file's thresholds, or warning 15% and regression 30% when the file has none. */
  function EffectiveThresholds(b: BaselineData): (t: Thresholds)
    ensures b.thresholds.Some? ==> t == b.thresholds.value
    ensures b.thresholds.None? ==> t.warning == 0.15 && t.regression == 0.30
  {
    b.thresholds.GetOr(DEFAULT_THRESHOLDS)
  }

  /** The status of a known benchmark: over its tolerance, else over the warning threshold, else pass. */
  function Classify(pc: Ratio, tolerance: real, warning: real): (s: Status)
    ensures s != New
    ensures s == Regression <==> Exceeds(pc, tolerance)
    ensures s == Warning <==> !Exceeds(pc, tolerance) && Exceeds(pc, warning)
    ensures s == Pass <==> !Exceeds(pc, tolerance) && !Exceeds(pc, warning)
  {
    if Exceeds(pc, tolerance) then Regression
    else if Exceeds(pc, warning) then Warning
    else Pass
  }

  /** One result against the baseline entries of its dimension. */
  function CompareOne(r: BenchResult, entries: map<string, BaselineEntry>, t: Thresholds): (c: ComparisonResult)
    ensures c.name == r.name && c.mean == r.mean
    ensures c.status == New <==> r.name !in entries
    ensures c.status == New ==> c.baseline.None? && c.percentChange.None?
    ensures r.name in entries ==>
      && c.baseline == Some(entries[r.name].mean)
      && c.percentChange == Some(Divide(r.mean - entries[r.name].mean, entries[r.name].mean))
      && var tolerance := entries[r.name].tolerance.GetOr(t.regression);
      && (c.status == Regression <==> Exceeds(c.percentChange.value, tolerance))
      && (c.status == Warning <==> !Exceeds(c.percentChange.value, tolerance) && Exceeds(c.percentChange.value, t.warning))
      && (c.status == Pass <==> !Exceeds(c.percentChange.value, tolerance) && !Exceeds(c.percentChange.value, t.warning))
  {
    if r.name !in entries then ComparisonResult(r.name, r.mean, None, None, New)
    else
      var e := entries[r.name];
      var pc := Divide(r.mean - e.mean, e.mean);
      ComparisonResult(r.name, r.mean, Some(e.mean), Some(pc), Classify(pc, e.tolerance.GetOr(t.regression), t.warning))
  }

  /** `compareToBaseline`: one comparison per result, in order. */
  function CompareToBaseline(d: BenchDim, results: seq<BenchResult>, b: BaselineData): (cs: seq<ComparisonResult>)
    ensures |cs| == |results|
    ensures forall k :: 0 <= k < |results| ==> cs[k].name == results[k].name && cs[k].mean == results[k].mean
    ensures forall k :: 0 <= k < |results| ==> (cs[k].status == New <==> results[k].name !in Entries(b, d))
    ensures forall k :: 0 <= k < |results| ==> cs[k] == CompareOne(results[k], Entries(b, d), EffectiveThresholds(b))
  {
    seq(|results|, k requires 0 <= k < |results| => CompareOne(results[k], Entries(b, d), EffectiveThresholds(b)))
  }

  /** `hasRegression`: some comparison is a regression. */
  function HasRegression(cs: seq<ComparisonResult>): (b: bool)
    ensures b <==> exists k :: 0 <= k < |cs| && cs[k].status == Regression
    decreases |cs|
  {
    if |cs| == 0 then false
    else cs[0].status == Regression || HasRegression(cs[1..])
  }

  /** Reference count of one status. */
  function CountStatus(cs: seq<ComparisonResult>, s: Status): nat
    decreases |cs|
  {
    if |cs| == 0 then 0
    else (if cs[0].status == s then 1 else 0) + CountStatus(cs[1..], s)
  }

  lemma {:induction false} CountStatusAppend(cs: seq<ComparisonResult>, c: ComparisonResult, s: Status)
    ensures CountStatus(cs + [c], s) == CountStatus(cs, s) + (if c.status == s then 1 else 0)
    decreases |cs|
  {
    if |cs| > 0 {
      assert (cs + [c])[1..] == cs[1..] + [c];
      CountStatusAppend(cs[1..], c, s);
    }
  }

  /** The four statuses partition the comparisons. */
  lemma {:induction false} CountsPartition(cs: seq<ComparisonResult>)
    ensures CountStatus(cs, Pass) + CountStatus(cs, Warning) + CountStatus(cs, Regression) + CountStatus(cs, New) == |cs|
    decreases |cs|
  {
    if |cs| > 0 {
      CountsPartition(cs[1..]);
    }
  }

  datatype Summary = Summary(warnings: nat, regressions: nat, newBenchmarks: nat)

  /** `summarizeComparison`: the number of warnings, regressions and new benchmarks. */
  method SummarizeComparison(cs: seq<ComparisonResult>) returns (s: Summary)
    ensures s.warnings == CountStatus(cs, Warning)
    ensures s.regressions == CountStatus(cs, Regression)
    ensures s.newBenchmarks == CountStatus(cs, New)
    ensures s.warnings + s.regressions + s.newBenchmarks == |cs| - CountStatus(cs, Pass)
  {
    var warnings, regressions, newBenchmarks := 0, 0, 0;
    var k := 0;
    while k < |cs|
      invariant 0 <= k <= |cs|
      invariant warnings == CountStatus(cs[..k], Warning)
      invariant regressions == CountStatus(cs[..k], Regression)
      invariant newBenchmarks == CountStatus(cs[..k], New)
    {
      assert cs[..k + 1] == cs[..k] + [cs[k]];
      CountStatusAppend(cs[..k], cs[k], Warning);
      CountStatusAppend(cs[..k], cs[k], Regression);
      CountStatusAppend(cs[..k], cs[k], New);
      if cs[k].status == Warning {
        warnings := warnings + 1;
      } else if cs[k].status == Regression {
        regressions := regressions + 1;
      } else if cs[k].status == New {
        newBenchmarks := newBenchmarks + 1;
      }
      k := k + 1;
    }
    assert cs[..k] == cs;
    CountsPartition(cs);
    s := Summary(warnings, regressions, newBenchmarks);
  }

  /** The gate fails exactly when the summary counts a regression. */
  lemma {:induction false} HasRegressionIffCounted(cs: seq<ComparisonResult>)
    ensures HasRegression(cs) <==> CountStatus(cs, Regression) > 0
    decreases |cs|
  {
    if |cs| > 0 {
      HasRegressionIffCounted(cs[1..]);
    }
  }

  /** Severity order of the statuses of known benchmarks. */
  function Rank(s: Status): nat
  {
    match s
    case Pass => 0
    case Warning => 1
    case Regression => 2
    case New => 0
  }

  /** Ordering on JavaScript division results, NaN apart. */
  predicate AtMost(p: Ratio, q: Ratio)
  {
    match (p, q)
    case (MinusInfinity, _) => !q.NaN?
    case (_, PlusInfinity) => !p.NaN?
    case (Finite(a), Finite(b)) => a <= b
    case _ => false
  }

  /** A larger change is never classified as less severe. */
  lemma ClassifyMonotone(p: Ratio, q: Ratio, tolerance: real, warning: real)
    requires AtMost(p, q)
    ensures Rank(Classify(p, tolerance, warning)) <= Rank(Classify(q, tolerance, warning))
  {
  }

  /**
   * Against the same entry with a positive mean, a slower run is never judged
   * better than a faster one.
   */
  lemma SlowerNeverBetter(r1: BenchResult, r2: BenchResult, entries: map<string, BaselineEntry>, t: Thresholds)
    requires r1.name == r2.name && r1.name in entries && entries[r1.name].mean > 0.0
    requires r1.mean <= r2.mean
    ensures Rank(CompareOne(r1, entries, t).status) <= Rank(CompareOne(r2, entries, t).status)
  {
    var m := entries[r1.name].mean;
    DivideMonotone(r1.mean - m, r2.mean - m, m);
    ClassifyMonotone(Divide(r1.mean - m, m), Divide(r2.mean - m, m), entries[r1.name].tolerance.GetOr(t.regression), t.warning);
  }

  lemma DivideMonotone(a: real, b: real, m: real)
    requires m > 0.0 && a <= b
    ensures AtMost(Divide(a, m), Divide(b, m))
  {
    assert a / m <= b / m by {
      assert (b - a) / m >= 0.0;
      assert b / m - a / m == (b - a) / m;
    }
  }

  /**
   * A zero baseline mean: any slowdown is a regression (division gives +Infinity),
   * and an unchanged zero mean passes (0/0 is NaN, which exceeds nothing).
   */
  lemma ZeroBaseline(r: BenchResult, entries: map<string, BaselineEntry>, t: Thresholds)
    requires r.name in entries && entries[r.name].mean == 0.0
    ensures r.mean > 0.0 ==> CompareOne(r, entries, t).status == Regression
    ensures r.mean <= 0.0 ==> CompareOne(r, entries, t).status == Pass
  {
  }
}
