/** Which risks the two tables of the report come to, in numbers of rows, and so what the score is
    made of. */
module RiskCounts {
  import Api = DeprecatedApi
  import Compat = Compatibility
  import opened ApiSummary
  import opened Lists
  import opened Pipeline
  import opened Ranking
  import opened Readiness
  import opened Wrappers
  import Retriever

  function Ruled(s: Retriever.Status): Retriever.Answer -> bool {
    (a: Retriever.Answer) => a.status == s
  }

  function RuledAt(s: Retriever.Status, minor: string): Retriever.Answer -> bool {
    (a: Retriever.Answer) => a.status == s && a.minor == minor
  }

  function Flagged(s: Api.Status): Api.Finding -> bool {
    (f: Api.Finding) => f.status == s
  }

  function FlaggedAt(s: Api.Status, minor: string): Api.Finding -> bool {
    (f: Api.Finding) => f.status == s && f.target == minor
  }

  function Graded(s: Severity): Risk -> bool {
    (r: Risk) => r.severity == s
  }

  function GradedAt(s: Severity, minor: string): Risk -> bool {
    (r: Risk) => r.severity == s && r.step == Some("-> " + minor)
  }

  function Never<T>(): T -> bool {
    x => false
  }

  /** The number of items of a kind. */
  function Number<T>(items: seq<T>, kind: T -> bool): nat {
    |Filter(items, kind)|
  }

  lemma NumberNext<T>(items: seq<T>, x: T, kind: T -> bool)
    ensures Number(items + [x], kind) == Number(items, kind) + if kind(x) then 1 else 0
  {
    FilterSnoc(items, x, kind);
  }

  lemma {:induction false} CountIsNumber(risks: seq<Risk>, s: Severity)
    ensures Count(risks, s) == Number(risks, Graded(s))
  {
    if risks == [] {
    } else {
      var front, last := risks[..|risks|-1], risks[|risks|-1];
      CountIsNumber(front, s);
      NumberNext(front, last, Graded(s));
      assert risks == front + [last];
    }
  }

  /** The risk a row of the compatibility table comes to. */
  function CompatRow(a: Retriever.Answer): Option<Risk> {
    match CompatSeverity(a.status)
    case None => None
    case Some(s) => Some(Risk(s, Some(StepLabel(a.minor))))
  }

  /** The risk a row of the deprecated-API table comes to. */
  function ApiRow(f: Api.Finding): Option<Risk> {
    match ApiSeverity(f.status)
    case None => None
    case Some(s) => Some(Risk(s, if f.target != "" then Some(StepLabel(f.target)) else None))
  }

  /** A row is of the kind exactly when it comes to a risk that is kept. */
  ghost predicate Yields<T>(row: T, risk: T -> Option<Risk>, keep: Risk -> bool, kind: T -> bool) {
    kind(row) <==> risk(row).Some? && keep(risk(row).value)
  }

  lemma {:induction false} CompatNumber(rows: seq<Retriever.Answer>, keep: Risk -> bool, kind: Retriever.Answer -> bool)
    requires forall a :: Yields(a, CompatRow, keep, kind)
    ensures Number(CompatRisks(rows), keep) == Number(rows, kind)
  {
    if rows == [] {
    } else {
      var front, last := rows[..|rows|-1], rows[|rows|-1];
      CompatNumber(front, keep, kind);
      NumberNext(front, last, kind);
      assert rows == front + [last] && Yields(last, CompatRow, keep, kind);
      if CompatRow(last).Some? {
        NumberNext(CompatRisks(front), CompatRow(last).value, keep);
      } else {
        assert CompatRisks(rows) == CompatRisks(front);
      }
    }
  }

  lemma {:induction false} ApiNumber(rows: seq<Api.Finding>, keep: Risk -> bool, kind: Api.Finding -> bool)
    requires forall f :: Yields(f, ApiRow, keep, kind)
    ensures Number(ApiRisks(rows), keep) == Number(rows, kind)
  {
    if rows == [] {
    } else {
      var front, last := rows[..|rows|-1], rows[|rows|-1];
      ApiNumber(front, keep, kind);
      NumberNext(front, last, kind);
      assert rows == front + [last] && Yields(last, ApiRow, keep, kind);
      if ApiRow(last).Some? {
        NumberNext(ApiRisks(front), ApiRow(last).value, keep);
      } else {
        assert ApiRisks(rows) == ApiRisks(front);
      }
    }
  }

  lemma {:induction false} NumberNever<T>(items: seq<T>)
    ensures Number(items, Never()) == 0
  {
    if |items| == 0 {
    } else {
      NumberNever(items[1..]);
    }
  }

  // ---------------------------------------------------------------- the counts

  lemma CompatCount(rows: seq<Retriever.Answer>, s: Severity, kind: Retriever.Answer -> bool)
    requires forall a :: Yields(a, CompatRow, Graded(s), kind)
    ensures Count(CompatRisks(rows), s) == Number(rows, kind)
  {
    CountIsNumber(CompatRisks(rows), s);
    CompatNumber(rows, Graded(s), kind);
  }

  lemma ApiCount(rows: seq<Api.Finding>, s: Severity, kind: Api.Finding -> bool)
    requires forall f :: Yields(f, ApiRow, Graded(s), kind)
    ensures Count(ApiRisks(rows), s) == Number(rows, kind)
  {
    CountIsNumber(ApiRisks(rows), s);
    ApiNumber(rows, Graded(s), kind);
  }

  /** An incompatible component is a high risk, one with a warning a medium one, one without a
      ruling a low one, and a compatible one none. */
  lemma CompatCounts(rows: seq<Retriever.Answer>)
    ensures Count(CompatRisks(rows), Blocker) == 0
    ensures Count(CompatRisks(rows), High) == Number(rows, Ruled(Retriever.Incompatible))
    ensures Count(CompatRisks(rows), Medium) == Number(rows, Ruled(Retriever.Warning))
    ensures Count(CompatRisks(rows), Low) == Number(rows, Ruled(Retriever.Unknown))
    ensures Count(CompatRisks(rows), Info) == 0
  {
    NumberNever(rows);
    CompatCount(rows, Blocker, Never());
    CompatCount(rows, High, Ruled(Retriever.Incompatible));
    CompatCount(rows, Medium, Ruled(Retriever.Warning));
    CompatCount(rows, Low, Ruled(Retriever.Unknown));
    CompatCount(rows, Info, Never());
  }

  /** A resource that blocks the upgrade is a blocker, one that requires action a high risk, one
      without evidence a low one, and one in order none. */
  lemma ApiCounts(rows: seq<Api.Finding>)
    ensures Count(ApiRisks(rows), Blocker) == Number(rows, Flagged(Api.UpgradeBlocker))
    ensures Count(ApiRisks(rows), High) == Number(rows, Flagged(Api.ActionRequired))
    ensures Count(ApiRisks(rows), Medium) == 0
    ensures Count(ApiRisks(rows), Low) == Number(rows, Flagged(Api.Unknown))
    ensures Count(ApiRisks(rows), Info) == 0
  {
    NumberNever(rows);
    ApiCount(rows, Blocker, Flagged(Api.UpgradeBlocker));
    ApiCount(rows, High, Flagged(Api.ActionRequired));
    ApiCount(rows, Medium, Never());
    ApiCount(rows, Low, Flagged(Api.Unknown));
    ApiCount(rows, Info, Never());
  }

  // ---------------------------------------------------------------- the steps

  lemma LabelsDiffer(minor: string)
    ensures forall other :: StepLabel(other) == "-> " + minor <==> other == minor
  {
    forall other
      ensures StepLabel(other) == "-> " + minor <==> other == minor
    {
      assert ("-> " + minor)[3..] == minor && StepLabel(other)[3..] == other;
    }
  }

  /** Each compatibility risk is one of its row's step. */
  lemma CompatSteps(rows: seq<Retriever.Answer>, minor: string)
    ensures Number(CompatRisks(rows), GradedAt(High, minor)) == Number(rows, RuledAt(Retriever.Incompatible, minor))
    ensures Number(CompatRisks(rows), GradedAt(Medium, minor)) == Number(rows, RuledAt(Retriever.Warning, minor))
    ensures Number(CompatRisks(rows), GradedAt(Low, minor)) == Number(rows, RuledAt(Retriever.Unknown, minor))
  {
    CompatStep(rows, minor, High, Retriever.Incompatible);
    CompatStep(rows, minor, Medium, Retriever.Warning);
    CompatStep(rows, minor, Low, Retriever.Unknown);
  }

  lemma CompatStep(rows: seq<Retriever.Answer>, minor: string, s: Severity, status: Retriever.Status)
    requires forall other :: CompatSeverity(other) == Some(s) <==> other == status
    ensures Number(CompatRisks(rows), GradedAt(s, minor)) == Number(rows, RuledAt(status, minor))
  {
    LabelsDiffer(minor);
    forall a
      ensures Yields(a, CompatRow, GradedAt(s, minor), RuledAt(status, minor))
    {
      assert CompatSeverity(a.status) == Some(s) <==> a.status == status;
    }
    CompatNumber(rows, GradedAt(s, minor), RuledAt(status, minor));
  }

  /** Each deprecated-API risk is one of its row's step, or of none if the row has none. */
  lemma ApiSteps(rows: seq<Api.Finding>, minor: string)
    requires minor != ""
    ensures Number(ApiRisks(rows), GradedAt(Blocker, minor)) == Number(rows, FlaggedAt(Api.UpgradeBlocker, minor))
    ensures Number(ApiRisks(rows), GradedAt(High, minor)) == Number(rows, FlaggedAt(Api.ActionRequired, minor))
    ensures Number(ApiRisks(rows), GradedAt(Low, minor)) == Number(rows, FlaggedAt(Api.Unknown, minor))
  {
    ApiStep(rows, minor, Blocker, Api.UpgradeBlocker);
    ApiStep(rows, minor, High, Api.ActionRequired);
    ApiStep(rows, minor, Low, Api.Unknown);
  }

  lemma ApiStep(rows: seq<Api.Finding>, minor: string, s: Severity, status: Api.Status)
    requires minor != "" && forall other :: ApiSeverity(other) == Some(s) <==> other == status
    ensures Number(ApiRisks(rows), GradedAt(s, minor)) == Number(rows, FlaggedAt(status, minor))
  {
    LabelsDiffer(minor);
    forall f
      ensures Yields(f, ApiRow, GradedAt(s, minor), FlaggedAt(status, minor))
    {
      assert ApiSeverity(f.status) == Some(s) <==> f.status == status;
    }
    ApiNumber(rows, GradedAt(s, minor), FlaggedAt(status, minor));
  }

  // ---------------------------------------------------------------- the score

  lemma CountConcat(a: seq<Risk>, b: seq<Risk>, s: Severity)
    ensures Count(a + b, s) == Count(a, s) + Count(b, s)
  {
    SumConcat(a, b, Is(s));
  }

  /** What the score is made of: 20 points for each resource that blocks the upgrade, 8 for each
      that requires action and for each incompatible component, 3 for each component with a
      warning, 1 for each row without evidence, and the points of the structural risks. */
  lemma PointsOfRows(structural: seq<Risk>, results: seq<Retriever.Answer>, findings: seq<Api.Finding>)
    ensures var components, resources := Compat.Summary(results), Summary(findings);
      Points(RisksOf(structural, results, findings)) ==
        20 * Number(resources, Flagged(Api.UpgradeBlocker))
        + 8 * (Number(resources, Flagged(Api.ActionRequired)) + Number(components, Ruled(Retriever.Incompatible)))
        + 3 * Number(components, Ruled(Retriever.Warning))
        + Number(resources, Flagged(Api.Unknown)) + Number(components, Ruled(Retriever.Unknown))
        + 20 * Count(structural, Blocker) + 8 * Count(structural, High) + 3 * Count(structural, Medium) + Count(structural, Low)
  {
    var a, b := CompatRisks(Compat.Summary(results)), ApiRisks(Summary(findings));
    CompatCounts(Compat.Summary(results));
    ApiCounts(Summary(findings));
    CountsAddUp(structural + a + b);
    forall s
      ensures Count(structural + a + b, s) == Count(structural, s) + Count(a, s) + Count(b, s)
    {
      CountConcat(structural + a, b, s);
      CountConcat(structural, a, s);
    }
  }
}
