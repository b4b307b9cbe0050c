/** Risks and the readiness score: how verdicts become severities, and severities a score. */
module Readiness {
  import Api = DeprecatedApi
  import opened Ranking
  import opened Retriever
  import opened Wrappers

  datatype Severity = Blocker | High | Medium | Low | Info

  /** A risk; `step` is `related_upgrade_step`, absent for a risk of every step. */
  datatype Risk = Risk(severity: Severity, step: Option<string>)

  function SeverityWeight(s: Severity): nat {
    match s
    case Blocker => 20
    case High => 8
    case Medium => 3
    case Low => 1
    case Info => 0
  }

  function RiskWeight(r: Risk): nat {
    SeverityWeight(r.severity)
  }

  function StepLabel(minor: string): string {
    "-> " + minor
  }

  function CompatSeverity(s: Status): Option<Severity> {
    match s
    case Incompatible => Some(High)
    case Warning => Some(Medium)
    case Unknown => Some(Low)
    case Compatible => None
  }

  function ApiSeverity(s: Api.Status): Option<Severity> {
    match s
    case UpgradeBlocker => Some(Blocker)
    case ActionRequired => Some(High)
    case Unknown => Some(Low)
    case OK => None
  }

  function CompatRisks(results: seq<Answer>): seq<Risk> {
    if results == [] then []
    else
      var last := results[|results|-1];
      CompatRisks(results[..|results|-1])
      + match CompatSeverity(last.status)
        case None => []
        case Some(s) => [Risk(s, Some(StepLabel(last.minor)))]
  }

  function ApiRisks(findings: seq<Api.Finding>): seq<Risk> {
    if findings == [] then []
    else
      var last := findings[|findings|-1];
      ApiRisks(findings[..|findings|-1])
      + match ApiSeverity(last.status)
        case None => []
        case Some(s) => [Risk(s, if last.target != "" then Some(StepLabel(last.target)) else None)]
  }

  /** `build_risk_findings`, after the risks drawn from the structure of the cluster. */
  method BuildRiskFindings(structural: seq<Risk>, results: seq<Answer>, findings: seq<Api.Finding>) returns (risks: seq<Risk>)
    ensures risks == structural + CompatRisks(results) + ApiRisks(findings)
  {
    risks := structural;
    for i := 0 to |results|
      invariant risks == structural + CompatRisks(results[..i])
    {
      assert results[..i + 1][..i] == results[..i];
      var severity := CompatSeverity(results[i].status);
      if severity.Some? {
        risks := risks + [Risk(severity.value, Some(StepLabel(results[i].minor)))];
      }
    }
    assert results[..|results|] == results;
    for i := 0 to |findings|
      invariant risks == structural + CompatRisks(results) + ApiRisks(findings[..i])
    {
      assert findings[..i + 1][..i] == findings[..i];
      var severity := ApiSeverity(findings[i].status);
      if severity.Some? {
        risks := risks + [Risk(severity.value, if findings[i].target != "" then Some(StepLabel(findings[i].target)) else None)];
      }
    }
    assert findings[..|findings|] == findings;
  }

  // ---------------------------------------------------------------- weight of the summaries

  function CompatWeight(a: Answer): nat {
    match CompatSeverity(a.status)
    case None => 0
    case Some(s) => SeverityWeight(s)
  }

  function ApiWeight(f: Api.Finding): nat {
    match ApiSeverity(f.status)
    case None => 0
    case Some(s) => SeverityWeight(s)
  }

  lemma {:induction false} CompatPoints(results: seq<Answer>)
    ensures Sum(CompatRisks(results), RiskWeight) == Sum(results, CompatWeight)
  {
    if results == [] {
    } else {
      var last := results[|results|-1];
      CompatPoints(results[..|results|-1]);
      match CompatSeverity(last.status) {
        case None =>
          assert CompatRisks(results) == CompatRisks(results[..|results|-1]);
        case Some(s) =>
          SumConcat(CompatRisks(results[..|results|-1]), [Risk(s, Some(StepLabel(last.minor)))], RiskWeight);
          SumOne(Risk(s, Some(StepLabel(last.minor))), RiskWeight);
      }
    }
  }

  lemma {:induction false} ApiPoints(findings: seq<Api.Finding>)
    ensures Sum(ApiRisks(findings), RiskWeight) == Sum(findings, ApiWeight)
  {
    if findings == [] {
    } else {
      var last := findings[|findings|-1];
      var step := if last.target != "" then Some(StepLabel(last.target)) else None;
      ApiPoints(findings[..|findings|-1]);
      match ApiSeverity(last.status) {
        case None =>
          assert ApiRisks(findings) == ApiRisks(findings[..|findings|-1]);
        case Some(s) =>
          SumConcat(ApiRisks(findings[..|findings|-1]), [Risk(s, step)], RiskWeight);
          SumOne(Risk(s, step), RiskWeight);
      }
    }
  }

  // ---------------------------------------------------------------- score

  /** The uncapped deduction. */
  function Points(risks: seq<Risk>): nat {
    Sum(risks, RiskWeight)
  }

  function Min(a: int, b: int): int {
    if a <= b then a else b
  }

  function Max(a: int, b: int): int {
    if a <= b then b else a
  }

  function Complexity(risks: seq<Risk>): int {
    Min(100, Points(risks))
  }

  function Score(risks: seq<Risk>): int {
    Max(0, 100 - Points(risks))
  }

  function Is(s: Severity): Risk -> nat {
    (r: Risk) => if r.severity == s then 1 else 0
  }

  function Count(risks: seq<Risk>, s: Severity): nat {
    Sum(risks, Is(s))
  }

  const SEVERITIES := [Blocker, High, Medium, Low, Info]

  datatype Factor = Factor(severity: Severity, count: nat, weight: nat, points: nat)

  /** `complexity_factors` over the first `n` severities: those with both a count and a weight. */
  function Factors(count: Severity -> nat, n: nat): seq<Factor>
    requires n <= 5
  {
    if n == 0 then []
    else
      var s := SEVERITIES[n - 1];
      Factors(count, n - 1)
      + if count(s) > 0 && SeverityWeight(s) > 0
        then [Factor(s, count(s), SeverityWeight(s), SeverityWeight(s) * count(s))] else []
  }

  function FactorPoints(f: Factor): nat {
    f.points
  }

  /** The counts the loop over the findings arrives at. */
  function Counts(risks: seq<Risk>): Severity -> nat {
    s => Count(risks, s)
  }

  lemma {:induction false} CountsAddUp(risks: seq<Risk>)
    ensures Count(risks, Blocker) + Count(risks, High) + Count(risks, Medium) + Count(risks, Low) + Count(risks, Info) == |risks|
    ensures Points(risks) == 20 * Count(risks, Blocker) + 8 * Count(risks, High) + 3 * Count(risks, Medium) + Count(risks, Low)
  {
    if risks == [] {
    } else {
      CountsAddUp(risks[..|risks|-1]);
    }
  }

  lemma FactorsBySeverity(count: Severity -> nat)
    ensures Sum(Factors(count, 5), FactorPoints) == 20 * count(Blocker) + 8 * count(High) + 3 * count(Medium) + count(Low)
  {
    FactorStep(count, 1);
    FactorStep(count, 2);
    FactorStep(count, 3);
    FactorStep(count, 4);
    FactorStep(count, 5);
    assert Factors(count, 0) == [];
  }

  /** The points of the factors that are listed add up to the points of the findings. */
  lemma FactorsAddUp(risks: seq<Risk>)
    ensures Sum(Factors(Counts(risks), 5), FactorPoints) == Points(risks)
  {
    CountsAddUp(risks);
    FactorsBySeverity(Counts(risks));
  }

  lemma FactorStep(count: Severity -> nat, n: nat)
    requires 0 < n <= 5
    ensures Sum(Factors(count, n), FactorPoints) ==
      Sum(Factors(count, n - 1), FactorPoints) + SeverityWeight(SEVERITIES[n - 1]) * count(SEVERITIES[n - 1])
  {
    var s := SEVERITIES[n - 1];
    if count(s) > 0 && SeverityWeight(s) > 0 {
      var f := Factor(s, count(s), SeverityWeight(s), SeverityWeight(s) * count(s));
      SumConcat(Factors(count, n - 1), [f], FactorPoints);
      SumOne(f, FactorPoints);
    } else {
      ZeroProduct(SeverityWeight(s), count(s));
      assert Factors(count, n) == Factors(count, n - 1);
    }
  }

  /** The entry for a severity that occurs, at its weight. */
  function Entered(count: Severity -> nat, s: Severity, weight: nat): seq<Factor> {
    if count(s) > 0 then [Factor(s, count(s), weight, weight * count(s))] else []
  }

  /** The factors are those of the severities that occur and count, worst first. */
  lemma FactorsListed(count: Severity -> nat)
    ensures Factors(count, 5) == Entered(count, Blocker, 20) + Entered(count, High, 8) + Entered(count, Medium, 3) + Entered(count, Low, 1)
  {
    assert Factors(count, 0) == [];
    assert Factors(count, 1) == Entered(count, Blocker, 20);
    assert Factors(count, 2) == Factors(count, 1) + Entered(count, High, 8);
    assert Factors(count, 3) == Factors(count, 2) + Entered(count, Medium, 3);
    assert Factors(count, 4) == Factors(count, 3) + Entered(count, Low, 1);
  }

  lemma ZeroProduct(a: nat, b: nat)
    requires a == 0 || b == 0
    ensures a * b == 0
  {
  }

  /** The score: complexity is the capped sum of the weights, score and complexity add up to
      100, and the order of the findings matters to neither them nor any count. */
  lemma ReadinessLaws(risks: seq<Risk>, others: seq<Risk>)
    ensures 0 <= Complexity(risks) <= 100 && Score(risks) + Complexity(risks) == 100
    ensures Complexity(risks) < 100 ==> Complexity(risks) == Points(risks)
    ensures multiset(risks) == multiset(others) ==>
      && Complexity(risks) == Complexity(others) && Score(risks) == Score(others)
      && forall s :: Count(risks, s) == Count(others, s)
  {
    if multiset(risks) == multiset(others) {
      forall s
        ensures Count(risks, s) == Count(others, s)
      {
        SumPermutes(risks, others, Is(s));
      }
      SumPermutes(risks, others, RiskWeight);
    }
  }

  // ---------------------------------------------------------------- the record

  class ReadinessScore {
    var score: int
    var complexity: int
    var blockerCount: nat
    var highCount: nat
    var mediumCount: nat
    var lowCount: nat
    var infoCount: nat
    var factors: seq<Factor>

    /** Builds the record and runs its validator. A snapshot from before the complexity field
        existed carries a negative complexity. */
    constructor (score: int, complexity: int, counts: map<Severity, nat>, factors: seq<Factor>)
      requires forall s :: s in counts
      ensures this.score == score && this.factors == factors
      ensures this.complexity == if complexity < 0 then Backfilled(score) else complexity
      ensures blockerCount == counts[Blocker] && highCount == counts[High] && mediumCount == counts[Medium]
      ensures lowCount == counts[Low] && infoCount == counts[Info]
    {
      this.score, this.complexity, this.factors := score, complexity, factors;
      blockerCount, highCount, mediumCount := counts[Blocker], counts[High], counts[Medium];
      lowCount, infoCount := counts[Low], counts[Info];
      new;
      BackfillComplexity();
    }

    method BackfillComplexity()
      modifies this`complexity
      ensures complexity == if old(complexity) < 0 then Backfilled(score) else old(complexity)
    {
      if complexity < 0 {
        complexity := Min(100, Max(0, 100 - score));
      }
    }

    /** `from_findings`: counts in one loop, lists the factors in a second, and deducts their
        points; the deduction is the sum of the findings' weights. */
    static method FromFindings(risks: seq<Risk>) returns (r: ReadinessScore)
      ensures fresh(r)
      ensures r.score == Score(risks) && r.complexity == Complexity(risks)
      ensures r.blockerCount == Count(risks, Blocker) && r.highCount == Count(risks, High)
      ensures r.mediumCount == Count(risks, Medium) && r.lowCount == Count(risks, Low) && r.infoCount == Count(risks, Info)
      ensures r.factors == Factors(Counts(risks), 5)
      ensures r.blockerCount + r.highCount + r.mediumCount + r.lowCount + r.infoCount == |risks|
    {
      var counts := CountSeverities(risks);
      var factors, deduction := ListFactors(counts, Counts(risks));
      FactorsAddUp(risks);
      CountsAddUp(risks);
      r := new ReadinessScore(Max(0, 100 - deduction), Min(100, deduction), counts, factors);
    }

    /** The loop over the findings. */
    static method CountSeverities(risks: seq<Risk>) returns (counts: map<Severity, nat>)
      ensures forall s :: s in counts && counts[s] == Count(risks, s)
    {
      counts := map[Blocker := 0, High := 0, Medium := 0, Low := 0, Info := 0];
      forall s: Severity
        ensures s in counts && counts[s] == 0
      {
        match s case Blocker => case High => case Medium => case Low => case Info =>
      }
      for i := 0 to |risks|
        invariant forall s :: s in counts && counts[s] == Count(risks[..i], s)
      {
        assert risks[..i + 1][..i] == risks[..i];
        counts := counts[risks[i].severity := counts[risks[i].severity] + 1];
      }
      assert risks[..|risks|] == risks;
    }

    /** The list of factors and the sum of their points. */
    static method ListFactors(counts: map<Severity, nat>, ghost count: Severity -> nat)
      returns (factors: seq<Factor>, deduction: int)
      requires forall s :: s in counts && counts[s] == count(s)
      ensures factors == Factors(count, 5) && deduction == Sum(factors, FactorPoints)
    {
      factors, deduction := [], 0;
      for n := 0 to 5
        invariant factors == Factors(count, n)
        invariant deduction == Sum(factors, FactorPoints)
      {
        var s := SEVERITIES[n];
        FactorStep(count, n + 1);
        if counts[s] > 0 && SeverityWeight(s) > 0 {
          factors := factors + [Factor(s, counts[s], SeverityWeight(s), SeverityWeight(s) * counts[s])];
          deduction := deduction + SeverityWeight(s) * counts[s];
        } else {
          ZeroProduct(SeverityWeight(s), counts[s]);
        }
      }
    }
  }

  /** The complexity inferred from a score alone. */
  function Backfilled(score: int): int {
    Min(100, Max(0, 100 - score))
  }

  /** Whatever score a snapshot holds, the inferred complexity is one: from 0 to 100, what is missing
      from the score to 100 if that is possible, and else the nearer bound. */
  lemma BackfillBounded(score: int)
    ensures 0 <= Backfilled(score) <= 100
    ensures 0 <= score <= 100 ==> Backfilled(score) + score == 100
    ensures score < 0 ==> Backfilled(score) == 100
    ensures score > 100 ==> Backfilled(score) == 0
  {
  }

  /** An old snapshot, loaded without its complexity, gets back the one it was computed with. */
  lemma BackfillRecovers(risks: seq<Risk>)
    ensures Backfilled(Score(risks)) == Complexity(risks)
  {
  }
}
