/**
 The statistics of the startup latency gate in scripts/measure-startup.ts, over exact
 numbers: nearest-rank percentiles of the samples, and the drift rules on them.
 */
module StartupStats {
  import opened Wrappers

  datatype Stats = Stats(p50: real, p90: real, mean: real, min: real, max: real, samples: nat)

  datatype Scenario = Scenario(name: string, budgetMs: real, absSlopMs: real)

  const P50_PCT_TOLERANCE := 1.2
  const P90_PCT_TOLERANCE := 1.25

  // --- Sorting and counting ---

  function Insert(x: real, sorted: seq<real>): seq<real> {
    if sorted == [] || x <= sorted[0] then [x] + sorted else [sorted[0]] + Insert(x, sorted[1..])
  }

  /** `[...samples].sort((a, b) => a - b)` */
  function Sorted(samples: seq<real>): (r: seq<real>)
    ensures |r| == |samples|
  {
    if samples == [] then []
    else
      InsertLength(samples[0], Sorted(samples[1..]));
      Insert(samples[0], Sorted(samples[1..]))
  }

  lemma {:induction false} InsertLength(x: real, sorted: seq<real>)
    ensures |Insert(x, sorted)| == |sorted| + 1
  {
    if sorted != [] && x > sorted[0] {
      InsertLength(x, sorted[1..]);
    }
  }

  ghost predicate Ascending(s: seq<real>) {
    forall i, j | 0 <= i < j < |s| :: s[i] <= s[j]
  }

  /** How many samples are at most `x`. */
  function CountLe(samples: seq<real>, x: real): nat {
    if samples == [] then 0 else (if samples[0] <= x then 1 else 0) + CountLe(samples[1..], x)
  }

  lemma {:induction false} InsertKeepsOrder(x: real, sorted: seq<real>)
    requires Ascending(sorted)
    ensures Ascending(Insert(x, sorted))
    ensures forall y | y in Insert(x, sorted) :: y == x || y in sorted
  {
    if sorted != [] && x > sorted[0] {
      InsertKeepsOrder(x, sorted[1..]);
      var rest := Insert(x, sorted[1..]);
      forall i | 0 <= i < |rest|
        ensures sorted[0] <= rest[i]
      {
        assert rest[i] in rest;
        if rest[i] != x {
          var j :| 0 <= j < |sorted[1..]| && sorted[1..][j] == rest[i];
          assert sorted[j + 1] == rest[i];
        }
      }
    }
  }

  lemma {:induction false} InsertCounts(x: real, sorted: seq<real>, y: real)
    ensures CountLe(Insert(x, sorted), y) == CountLe(sorted, y) + if x <= y then 1 else 0
  {
    if sorted == [] || x <= sorted[0] {
      assert ([x] + sorted)[1..] == sorted;
    } else {
      InsertCounts(x, sorted[1..], y);
      assert Insert(x, sorted)[1..] == Insert(x, sorted[1..]);
    }
  }

  lemma {:induction false} SortedIs(samples: seq<real>, y: real)
    ensures Ascending(Sorted(samples)) && CountLe(Sorted(samples), y) == CountLe(samples, y)
  {
    if samples != [] {
      SortedIs(samples[1..], y);
      InsertKeepsOrder(samples[0], Sorted(samples[1..]));
      InsertCounts(samples[0], Sorted(samples[1..]), y);
    }
  }

  lemma {:induction false} CountNone(s: seq<real>, x: real)
    requires forall i | 0 <= i < |s| :: s[i] > x
    ensures CountLe(s, x) == 0
  {
    if s != [] {
      CountNone(s[1..], x);
    }
  }

  /** In ascending order, the element at `k` is at most `x` exactly when more than `k`
      elements are. */
  lemma {:induction false} RankInOrder(s: seq<real>, k: nat, x: real)
    requires Ascending(s) && k < |s|
    ensures s[k] <= x <==> CountLe(s, x) > k
  {
    if s[0] <= x {
      if k > 0 {
        RankInOrder(s[1..], k - 1, x);
      }
    } else {
      CountNone(s, x);
    }
  }

  /** The order statistic, without sorting: `k` is exceeded by the count of samples up to
      `x` exactly when the `k`-th smallest sample is at most `x`. */
  lemma OrderStatistic(samples: seq<real>, k: nat, x: real)
    requires k < |samples|
    ensures Sorted(samples)[k] <= x <==> CountLe(samples, x) > k
  {
    SortedIs(samples, x);
    RankInOrder(Sorted(samples), k, x);
  }

  lemma {:induction false} SlowerCountsLess(fast: seq<real>, slow: seq<real>, x: real)
    requires |fast| == |slow| && forall i | 0 <= i < |fast| :: fast[i] <= slow[i]
    ensures CountLe(slow, x) <= CountLe(fast, x)
  {
    if fast != [] {
      SlowerCountsLess(fast[1..], slow[1..], x);
    }
  }

  /** Slower samples have larger order statistics, whatever order sorting puts them in. */
  lemma OrderStatisticsGrow(fast: seq<real>, slow: seq<real>, k: nat)
    requires |fast| == |slow| && k < |fast| && forall i | 0 <= i < |fast| :: fast[i] <= slow[i]
    ensures Sorted(fast)[k] <= Sorted(slow)[k]
  {
    var x := Sorted(slow)[k];
    OrderStatistic(slow, k, x);
    SlowerCountsLess(fast, slow, x);
    OrderStatistic(fast, k, x);
  }

  // --- computeStats ---

  /** Nearest rank: the position of the `p`-th percentile among `n` sorted samples. */
  function Rank(p: nat, n: nat): (k: nat)
    requires n > 0
    ensures k < n
  {
    var ceiling := (p * n + 99) / 100;
    var idx := if n - 1 < ceiling - 1 then n - 1 else ceiling - 1;
    if idx < 0 then 0 else idx
  }

  function Sum(s: seq<real>): real {
    if s == [] then 0.0 else Sum(s[..|s| - 1]) + s[|s| - 1]
  }

  function StatsOf(samples: seq<real>): Stats
    requires samples != []
  {
    var sorted, n := Sorted(samples), |samples|;
    Stats(sorted[Rank(50, n)], sorted[Rank(90, n)], Sum(sorted) / n as real, sorted[0], sorted[n - 1], n)
  }

  lemma {:induction false} SumCons(x: real, s: seq<real>)
    ensures Sum([x] + s) == x + Sum(s)
  {
    if s == [] {
      assert ([x] + s)[..0] == [];
    } else {
      SumCons(x, s[..|s| - 1]);
      assert ([x] + s)[..|s|] == [x] + s[..|s| - 1];
    }
  }

  lemma {:induction false} InsertSums(x: real, sorted: seq<real>)
    ensures Sum(Insert(x, sorted)) == x + Sum(sorted)
    ensures forall y :: y in Insert(x, sorted) <==> y == x || y in sorted
  {
    if sorted == [] || x <= sorted[0] {
      SumCons(x, sorted);
    } else {
      InsertSums(x, sorted[1..]);
      SumCons(sorted[0], Insert(x, sorted[1..]));
      SumCons(sorted[0], sorted[1..]);
      assert sorted == [sorted[0]] + sorted[1..];
    }
  }

  /** Sorting neither adds nor loses anything. */
  lemma {:induction false} SortedSums(samples: seq<real>)
    ensures Sum(Sorted(samples)) == Sum(samples)
    ensures forall y :: y in Sorted(samples) <==> y in samples
  {
    if samples != [] {
      SortedSums(samples[1..]);
      InsertSums(samples[0], Sorted(samples[1..]));
      SumCons(samples[0], samples[1..]);
      assert samples == [samples[0]] + samples[1..];
    }
  }

  /** The smallest value that at least `p` percent of the samples do not exceed. */
  ghost predicate IsPercentile(samples: seq<real>, p: nat, value: real) {
    && 100 * CountLe(samples, value) >= p * |samples|
    && forall y: real | y < value :: 100 * CountLe(samples, y) < p * |samples|
  }

  /** What the statistics mean for the samples, without sorting them. */
  ghost predicate Describes(stats: Stats, samples: seq<real>)
    requires samples != []
  {
    && stats.samples == |samples| && stats.mean == Sum(samples) / |samples| as real
    && stats.min in samples && stats.max in samples && (forall x | x in samples :: stats.min <= x <= stats.max)
    && IsPercentile(samples, 50, stats.p50) && IsPercentile(samples, 90, stats.p90)
  }

  lemma EndsOfOrdered(s: seq<real>, x: real)
    requires s != [] && Ascending(s) && x in s
    ensures s[0] <= x <= s[|s| - 1]
  {
    var i :| 0 <= i < |s| && s[i] == x;
  }

  lemma {:induction false} EndsBound(samples: seq<real>)
    requires samples != []
    ensures var sorted := Sorted(samples);
            && sorted[0] in samples && sorted[|sorted| - 1] in samples
            && forall x | x in samples :: sorted[0] <= x <= sorted[|sorted| - 1]
  {
    var sorted := Sorted(samples);
    SortedSums(samples);
    assert sorted[0] in sorted && sorted[|sorted| - 1] in sorted;
    forall x | x in samples
      ensures sorted[0] <= x <= sorted[|sorted| - 1]
    {
      SortedIs(samples, 0.0);
      EndsOfOrdered(sorted, x);
    }
  }

  lemma {:induction false} StatsDescribe(samples: seq<real>)
    requires samples != []
    ensures Describes(StatsOf(samples), samples)
  {
    EndsBound(samples);
    assert Sum(Sorted(samples)) == Sum(samples) by {
      SortedSums(samples);
    }
    PercentileIsNearestRank(samples, 50);
    PercentileIsNearestRank(samples, 90);
  }

  /** `computeStats`; None is the exception for an empty list. */
  method ComputeStats(samples: seq<real>) returns (r: Option<Stats>)
    ensures r.None? <==> samples == []
    ensures r.Some? ==> Describes(r.value, samples) && r.value == StatsOf(samples)
  {
    if |samples| == 0 {
      return None;
    }
    var sorted := Sorted(samples);
    var n := |sorted|;
    var sum := 0.0;
    var i := 0;
    while i < n
      invariant 0 <= i <= n
      invariant sum == Sum(sorted[..i])
    {
      assert sorted[..i + 1][..i] == sorted[..i];
      sum := sum + sorted[i];
      i := i + 1;
    }
    assert sorted[..n] == sorted;
    r := Some(Stats(sorted[Rank(50, n)], sorted[Rank(90, n)], sum / n as real, sorted[0], sorted[n - 1], n));
    StatsDescribe(samples);
  }

  /** A percentile is the smallest value that enough samples do not exceed. */
  lemma PercentileIsNearestRank(samples: seq<real>, p: nat)
    requires samples != [] && 0 < p <= 100
    ensures IsPercentile(samples, p, Sorted(samples)[Rank(p, |samples|)])
  {
    var k, n := Rank(p, |samples|), |samples|;
    var value := Sorted(samples)[k];
    RankIsNearest(p, n);
    OrderStatistic(samples, k, value);
    forall y: real | y < value
      ensures 100 * CountLe(samples, y) < p * n
    {
      OrderStatistic(samples, k, y);
    }
  }

  lemma RankIsNearest(p: nat, n: nat)
    requires n > 0 && 0 < p <= 100
    ensures 100 * (Rank(p, n) + 1) >= p * n && 100 * Rank(p, n) < p * n
  {
    assert 0 < p * n <= 100 * n;
  }

  // --- compareAgainst ---

  datatype Rule = HardCeiling | DriftP50 | DriftP90

  datatype Violation = Violation(scenario: string, rule: Rule, actual: real, limit: real)

  /** A complete baseline entry; only two of its fields matter to the rules. */
  datatype Baseline = Baseline(p50: real, p90: real)

  function Max(a: real, b: real): real {
    if a < b then b else a
  }

  function Actual(rule: Rule, stats: Stats): real {
    if rule.DriftP90? then stats.p90 else stats.p50
  }

  /** The limit of a rule; the drift rules have none without a baseline. */
  function RuleLimit(rule: Rule, baseline: Option<Baseline>, scenario: Scenario): Option<real> {
    match rule
    case HardCeiling => Some(scenario.budgetMs)
    case DriftP50 =>
      if baseline.None? then None
      else Some(Max(baseline.value.p50 + scenario.absSlopMs, baseline.value.p50 * P50_PCT_TOLERANCE))
    case DriftP90 =>
      if baseline.None? then None
      else Some(Max(baseline.value.p90 + scenario.absSlopMs, baseline.value.p90 * P90_PCT_TOLERANCE))
  }

  predicate Violates(rule: Rule, stats: Stats, baseline: Option<Baseline>, scenario: Scenario) {
    RuleLimit(rule, baseline, scenario).Some? && Actual(rule, stats) > RuleLimit(rule, baseline, scenario).value
  }

  /** The larger of two numbers. */
  ghost predicate IsLarger(x: real, a: real, b: real) {
    a <= x && b <= x && (x == a || x == b)
  }

  /** The ceiling is the budget; with a baseline, the p50 may grow by the slack or a fifth and
      the p90 by the slack or a quarter, whichever is more. */
  ghost predicate IsLimit(rule: Rule, limit: real, baseline: Option<Baseline>, scenario: Scenario) {
    match rule
    case HardCeiling => limit == scenario.budgetMs
    case DriftP50 =>
      baseline.Some? && IsLarger(limit, baseline.value.p50 + scenario.absSlopMs, baseline.value.p50 * 6.0 / 5.0)
    case DriftP90 =>
      baseline.Some? && IsLarger(limit, baseline.value.p90 + scenario.absSlopMs, baseline.value.p90 * 5.0 / 4.0)
  }

  lemma LimitIs(rule: Rule, limit: real, baseline: Option<Baseline>, scenario: Scenario)
    ensures RuleLimit(rule, baseline, scenario) == Some(limit) <==> IsLimit(rule, limit, baseline, scenario)
  {
  }

  /** `v` reports a rule that is broken, the value that breaks it and its limit. */
  ghost predicate IsViolation(v: Violation, scenarioName: string, stats: Stats, baseline: Option<Baseline>,
                              scenario: Scenario)
  {
    && v.scenario == scenarioName && v.actual > v.limit
    && v.actual == (match v.rule case HardCeiling => stats.p50 case DriftP50 => stats.p50 case DriftP90 => stats.p90)
    && IsLimit(v.rule, v.limit, baseline, scenario)
  }

  /** A rule is broken exactly when there is something to report. */
  lemma ViolatesIff(rule: Rule, stats: Stats, baseline: Option<Baseline>, scenario: Scenario, scenarioName: string)
    ensures Violates(rule, stats, baseline, scenario) <==>
            exists v :: IsViolation(v, scenarioName, stats, baseline, scenario) && v.rule == rule
  {
    if Violates(rule, stats, baseline, scenario) {
      var limit := RuleLimit(rule, baseline, scenario).value;
      LimitIs(rule, limit, baseline, scenario);
      var v := Violation(scenarioName, rule, Actual(rule, stats), limit);
      assert IsViolation(v, scenarioName, stats, baseline, scenario);
    }
    if v :| IsViolation(v, scenarioName, stats, baseline, scenario) && v.rule == rule {
      LimitIs(rule, v.limit, baseline, scenario);
    }
  }

  /** `compareAgainst`: one violation per broken rule. */
  method CompareAgainst(scenarioName: string, stats: Stats, baseline: Option<Baseline>, scenario: Scenario)
    returns (violations: seq<Violation>)
    ensures forall v :: v in violations <==> IsViolation(v, scenarioName, stats, baseline, scenario)
    ensures forall i, j | 0 <= i < j < |violations| :: violations[i].rule != violations[j].rule
  {
    violations := [];
    if stats.p50 > scenario.budgetMs {
      violations := violations + [Violation(scenarioName, HardCeiling, stats.p50, scenario.budgetMs)];
    }
    if baseline.Some? {
      var p50Limit := Max(baseline.value.p50 + scenario.absSlopMs, baseline.value.p50 * P50_PCT_TOLERANCE);
      if stats.p50 > p50Limit {
        violations := violations + [Violation(scenarioName, DriftP50, stats.p50, p50Limit)];
      }
      var p90Limit := Max(baseline.value.p90 + scenario.absSlopMs, baseline.value.p90 * P90_PCT_TOLERANCE);
      if stats.p90 > p90Limit {
        violations := violations + [Violation(scenarioName, DriftP90, stats.p90, p90Limit)];
      }
    }
  }

  /** A slower run breaks every rule a faster one breaks, against any baseline. */
  lemma SlowerRunViolatesMore(fast: seq<real>, slow: seq<real>, rule: Rule, baseline: Option<Baseline>,
                              scenario: Scenario)
    requires |fast| == |slow| > 0 && forall i | 0 <= i < |fast| :: fast[i] <= slow[i]
    requires Violates(rule, StatsOf(fast), baseline, scenario)
    ensures Violates(rule, StatsOf(slow), baseline, scenario)
  {
    OrderStatisticsGrow(fast, slow, Rank(50, |fast|));
    OrderStatisticsGrow(fast, slow, Rank(90, |fast|));
  }

  /** A run never drifts from a baseline made of itself, as long as the slack is not
      negative; with negative slack exactly when the measured value is not negative. */
  lemma NoDriftAgainstItself(stats: Stats, scenario: Scenario, rule: Rule)
    requires rule.DriftP50? || rule.DriftP90?
    ensures !Violates(rule, stats, Some(Baseline(stats.p50, stats.p90)), scenario) <==>
            scenario.absSlopMs >= 0.0 || Actual(rule, stats) >= 0.0
  {
    var x := Actual(rule, stats);
    assert x >= 0.0 <==> x * P50_PCT_TOLERANCE >= x;
    assert x >= 0.0 <==> x * P90_PCT_TOLERANCE >= x;
  }
}
