/**
 * The report aggregation of index.ts: the commitment of a sprint report under
 * the two counting policies, and the velocity and effort-breakdown tables
 * built from a list of reports.
 */
module Reports {
  import opened Wrappers
  import opened Interfaces

  /** `value || 0`: a missing estimate counts as zero. */
  function EstimateOrZero(value: Option<real>): real
  {
    match value
    case Some(v) => v
    case None => 0.0
  }

  function ToEstimates(issues: seq<Issue>): (pairs: seq<IssueEstimate>)
    ensures |pairs| == |issues|
    ensures forall i :: 0 <= i < |issues| ==>
      pairs[i] == IssueEstimate(issues[i].key, EstimateOrZero(issues[i].currentEstimate))
  {
    seq(|issues|, i requires 0 <= i < |issues| =>
      IssueEstimate(issues[i].key, EstimateOrZero(issues[i].currentEstimate)))
  }

  /** Completed, then punted, then not-completed issues, as (key, estimate) pairs. */
  function AllIssues(c: SprintReportContents): seq<IssueEstimate>
  {
    ToEstimates(c.completedIssues) + ToEstimates(c.puntedIssues)
      + ToEstimates(c.issuesNotCompletedInCurrentSprint)
  }

  /** The lookup `issueKeysAddedDuringSprint[key]` is truthy. */
  predicate AddedDuringSprint(added: map<string, bool>, key: string)
  {
    key in added && added[key]
  }

  /**
   * The filter of the default policy: keeps, in order, exactly the pairs whose
   * key was not added during the sprint.
   */
  function ExcludeAdded(pairs: seq<IssueEstimate>, added: map<string, bool>): (kept: seq<IssueEstimate>)
    ensures |kept| <= |pairs|
    ensures forall e :: e in kept <==> e in pairs && !AddedDuringSprint(added, e.key)
    ensures (forall i :: 0 <= i < |pairs| ==> !AddedDuringSprint(added, pairs[i].key)) ==> kept == pairs
  {
    if |pairs| == 0 then []
    else
      var rest := ExcludeAdded(pairs[1..], added);
      assert pairs == [pairs[0]] + pairs[1..];
      if AddedDuringSprint(added, pairs[0].key) then rest else [pairs[0]] + rest
  }

  /** `reduce((acc, cur) => acc + cur, 0)` over the estimates: a left fold. */
  function Sum(pairs: seq<IssueEstimate>): real
  {
    if |pairs| == 0 then 0.0 else Sum(pairs[..|pairs| - 1]) + pairs[|pairs| - 1].estimate
  }

  /** `commitment(report, countAll)`. */
  function Commitment(report: SprintReport, countAll: bool): real
  {
    var all := AllIssues(report.contents);
    var counted := if countAll then all else ExcludeAdded(all, report.contents.issueKeysAddedDuringSprint);
    Sum(counted)
  }

  // ---------------------------------------------------------------------------
  // Reference definitions: the committed total computed issue by issue.

  /** Every issue's estimate, missing ones as zero. */
  function Total(issues: seq<Issue>): real
  {
    if |issues| == 0 then 0.0 else EstimateOrZero(issues[0].currentEstimate) + Total(issues[1..])
  }

  /** The estimate of every issue not added during the sprint, missing ones as zero. */
  function CommittedTotal(issues: seq<Issue>, added: map<string, bool>): real
  {
    if |issues| == 0 then 0.0
    else
      (if AddedDuringSprint(added, issues[0].key) then 0.0 else EstimateOrZero(issues[0].currentEstimate))
        + CommittedTotal(issues[1..], added)
  }

  lemma {:induction false} SumAppend(a: seq<IssueEstimate>, b: seq<IssueEstimate>)
    ensures Sum(a + b) == Sum(a) + Sum(b)
  {
    if |b| > 0 {
      assert (a + b)[..|a + b| - 1] == a + b[..|b| - 1];
      SumAppend(a, b[..|b| - 1]);
    } else {
      assert a + b == a;
    }
  }

  lemma {:induction false} SumCons(x: IssueEstimate, rest: seq<IssueEstimate>)
    ensures Sum([x] + rest) == x.estimate + Sum(rest)
  {
    SumAppend([x], rest);
    assert [x][..0] == [];
  }

  /** The filter keeps a pair whose key was not added as often as it occurs, and never a pair whose key was. */
  lemma {:induction false} ExcludeAddedCounts(pairs: seq<IssueEstimate>, added: map<string, bool>)
    ensures forall e ::
      multiset(ExcludeAdded(pairs, added))[e] == if AddedDuringSprint(added, e.key) then 0 else multiset(pairs)[e]
  {
    if |pairs| > 0 {
      ExcludeAddedCounts(pairs[1..], added);
      assert pairs == [pairs[0]] + pairs[1..];
    }
  }

  lemma {:induction false} ExcludeAddedAppend(a: seq<IssueEstimate>, b: seq<IssueEstimate>, added: map<string, bool>)
    ensures ExcludeAdded(a + b, added) == ExcludeAdded(a, added) + ExcludeAdded(b, added)
  {
    if |a| > 0 {
      assert (a + b)[1..] == a[1..] + b;
      ExcludeAddedAppend(a[1..], b, added);
    } else {
      assert a + b == b;
    }
  }

  lemma {:induction false} TotalIsSum(issues: seq<Issue>)
    ensures Sum(ToEstimates(issues)) == Total(issues)
  {
    if |issues| > 0 {
      TotalIsSum(issues[1..]);
      assert ToEstimates(issues) == [ToEstimates(issues)[0]] + ToEstimates(issues[1..]);
      SumCons(ToEstimates(issues)[0], ToEstimates(issues[1..]));
    }
  }

  lemma {:induction false} CommittedTotalIsSum(issues: seq<Issue>, added: map<string, bool>)
    ensures Sum(ExcludeAdded(ToEstimates(issues), added)) == CommittedTotal(issues, added)
  {
    if |issues| > 0 {
      CommittedTotalIsSum(issues[1..], added);
      var pairs := ToEstimates(issues);
      assert pairs[1..] == ToEstimates(issues[1..]);
      if !AddedDuringSprint(added, issues[0].key) {
        SumCons(pairs[0], ExcludeAdded(pairs[1..], added));
      }
    }
  }

  // ---------------------------------------------------------------------------
  // Properties of the commitment.

  /** Counting everything, the commitment is the total estimate of the three categories. */
  lemma CommitmentCountAll(report: SprintReport)
    ensures var c := report.contents;
      Commitment(report, true)
        == Total(c.completedIssues) + Total(c.puntedIssues) + Total(c.issuesNotCompletedInCurrentSprint)
  {
    var c := report.contents;
    SumAppend(ToEstimates(c.completedIssues) + ToEstimates(c.puntedIssues), ToEstimates(c.issuesNotCompletedInCurrentSprint));
    SumAppend(ToEstimates(c.completedIssues), ToEstimates(c.puntedIssues));
    TotalIsSum(c.completedIssues);
    TotalIsSum(c.puntedIssues);
    TotalIsSum(c.issuesNotCompletedInCurrentSprint);
  }

  /**
   * By default, an issue contributes its estimate exactly when its key does
   * not map to `true` among the keys added during the sprint.
   */
  lemma CommitmentDefault(report: SprintReport)
    ensures var c := report.contents;
      var added := c.issueKeysAddedDuringSprint;
      Commitment(report, false)
        == CommittedTotal(c.completedIssues, added) + CommittedTotal(c.puntedIssues, added)
          + CommittedTotal(c.issuesNotCompletedInCurrentSprint, added)
  {
    var c := report.contents;
    var added := c.issueKeysAddedDuringSprint;
    var a, b, d := ToEstimates(c.completedIssues), ToEstimates(c.puntedIssues),
      ToEstimates(c.issuesNotCompletedInCurrentSprint);
    ExcludeAddedAppend(a + b, d, added);
    ExcludeAddedAppend(a, b, added);
    SumAppend(ExcludeAdded(a, added) + ExcludeAdded(b, added), ExcludeAdded(d, added));
    SumAppend(ExcludeAdded(a, added), ExcludeAdded(b, added));
    CommittedTotalIsSum(c.completedIssues, added);
    CommittedTotalIsSum(c.puntedIssues, added);
    CommittedTotalIsSum(c.issuesNotCompletedInCurrentSprint, added);
  }

  /** A key that is listed but maps to `false`, or no key at all: both policies agree. */
  lemma NothingAddedMeansCountAll(report: SprintReport)
    requires forall k :: k in report.contents.issueKeysAddedDuringSprint ==>
      !report.contents.issueKeysAddedDuringSprint[k]
    ensures Commitment(report, false) == Commitment(report, true)
  {
    var c := report.contents;
    var all := AllIssues(c);
    forall i | 0 <= i < |all| ensures !AddedDuringSprint(c.issueKeysAddedDuringSprint, all[i].key) {
    }
  }

  predicate NonNegativeEstimates(issues: seq<Issue>)
  {
    forall i :: 0 <= i < |issues| ==> EstimateOrZero(issues[i].currentEstimate) >= 0.0
  }

  lemma {:induction false} CommittedTotalAtMostTotal(issues: seq<Issue>, added: map<string, bool>)
    requires NonNegativeEstimates(issues)
    ensures CommittedTotal(issues, added) <= Total(issues)
  {
    if |issues| > 0 {
      CommittedTotalAtMostTotal(issues[1..], added);
    }
  }

  /** With non-negative estimates, excluding added issues can only lower the commitment. */
  lemma DefaultAtMostCountAll(report: SprintReport)
    requires var c := report.contents;
      NonNegativeEstimates(c.completedIssues) && NonNegativeEstimates(c.puntedIssues)
        && NonNegativeEstimates(c.issuesNotCompletedInCurrentSprint)
    ensures Commitment(report, false) <= Commitment(report, true)
  {
    var c := report.contents;
    CommitmentCountAll(report);
    CommitmentDefault(report);
    CommittedTotalAtMostTotal(c.completedIssues, c.issueKeysAddedDuringSprint);
    CommittedTotalAtMostTotal(c.puntedIssues, c.issueKeysAddedDuringSprint);
    CommittedTotalAtMostTotal(c.issuesNotCompletedInCurrentSprint, c.issueKeysAddedDuringSprint);
  }

  /** The three issue categories a commitment is drawn from. */
  datatype Category = Completed | Punted | NotCompleted

  /** The report with `issue` appended to one of its categories. */
  function WithIssue(report: SprintReport, category: Category, issue: Issue): SprintReport
  {
    var c := report.contents;
    match category
    case Completed => report.(contents := c.(completedIssues := c.completedIssues + [issue]))
    case Punted => report.(contents := c.(puntedIssues := c.puntedIssues + [issue]))
    case NotCompleted =>
      report.(contents := c.(issuesNotCompletedInCurrentSprint := c.issuesNotCompletedInCurrentSprint + [issue]))
  }

  /**
   * A missing estimate is exactly an explicit zero: an issue without an
   * estimate, appended to any of the three categories, leaves the commitment
   * unchanged under both policies.
   */
  lemma MissingEstimateAddsNothing(report: SprintReport, category: Category, issue: Issue, countAll: bool)
    requires issue.currentEstimate.None? || issue.currentEstimate == Some(0.0)
    ensures Commitment(WithIssue(report, category, issue), countAll) == Commitment(report, countAll)
  {
    var c := report.contents;
    var added := c.issueKeysAddedDuringSprint;
    var r := WithIssue(report, category, issue);
    CommitmentByCategory(report, countAll);
    CommitmentByCategory(r, countAll);
    match category
    case Completed => TotalAppendZero(c.completedIssues, issue, added);
    case Punted => TotalAppendZero(c.puntedIssues, issue, added);
    case NotCompleted => TotalAppendZero(c.issuesNotCompletedInCurrentSprint, issue, added);
  }

  /** The policy's total of one category. */
  function PolicyTotal(issues: seq<Issue>, added: map<string, bool>, countAll: bool): real
  {
    if countAll then Total(issues) else CommittedTotal(issues, added)
  }

  lemma CommitmentByCategory(report: SprintReport, countAll: bool)
    ensures var c := report.contents;
      var added := c.issueKeysAddedDuringSprint;
      Commitment(report, countAll)
        == PolicyTotal(c.completedIssues, added, countAll) + PolicyTotal(c.puntedIssues, added, countAll)
          + PolicyTotal(c.issuesNotCompletedInCurrentSprint, added, countAll)
  {
    if countAll {
      CommitmentCountAll(report);
    } else {
      CommitmentDefault(report);
    }
  }

  lemma {:induction false} TotalAppendZero(issues: seq<Issue>, issue: Issue, added: map<string, bool>)
    requires EstimateOrZero(issue.currentEstimate) == 0.0
    ensures Total(issues + [issue]) == Total(issues)
    ensures CommittedTotal(issues + [issue], added) == CommittedTotal(issues, added)
  {
    if |issues| == 0 {
      assert issues + [issue] == [issue];
    } else {
      assert (issues + [issue])[1..] == issues[1..] + [issue];
      TotalAppendZero(issues[1..], issue, added);
    }
  }

  // ---------------------------------------------------------------------------
  // The velocity table of `writeVelocityReport`.

  datatype VelocityRow = VelocityRow(sprint: string, committed: real, completed: real)

  /**
   * One row per report, in input order: the sprint's name, its commitment,
   * and the report's own completed-estimate total, taken as is.
   */
  function VelocityTable(reports: seq<SprintReport>, countAll: bool): (rows: seq<VelocityRow>)
    ensures |rows| == |reports|
    ensures forall i :: 0 <= i < |reports| ==>
      && rows[i].sprint == reports[i].sprint.name
      && rows[i].committed == Commitment(reports[i], countAll)
      && rows[i].completed == reports[i].contents.completedIssuesEstimateSum.value
  {
    seq(|reports|, i requires 0 <= i < |reports| =>
      VelocityRow(reports[i].sprint.name, Commitment(reports[i], countAll),
        reports[i].contents.completedIssuesEstimateSum.value))
  }

  /** The table follows the order of the reports: no re-sorting. */
  lemma VelocityTableAppend(a: seq<SprintReport>, b: seq<SprintReport>, countAll: bool)
    ensures VelocityTable(a + b, countAll) == VelocityTable(a, countAll) + VelocityTable(b, countAll)
  {
  }

  // ---------------------------------------------------------------------------
  // The effort table of `writeEffortBreakdownReport`.

  datatype EffortRow = EffortRow(sprint: string, issueType: string, estimate: real)

  /** The rows of one report: one per completed issue, in order. */
  function EffortRows(report: SprintReport): (rows: seq<EffortRow>)
    ensures |rows| == |report.contents.completedIssues|
  {
    var issues := report.contents.completedIssues;
    seq(|issues|, j requires 0 <= j < |issues| =>
      EffortRow(report.sprint.name, issues[j].typeName, EstimateOrZero(issues[j].currentEstimate)))
  }

  /** Number of completed issues across the reports. */
  function CompletedCount(reports: seq<SprintReport>): nat
  {
    if |reports| == 0 then 0
    else CompletedCount(reports[..|reports| - 1]) + |reports[|reports| - 1].contents.completedIssues|
  }

  /** The flattening `reduce((obj, item) => obj.concat(item), [])`. */
  function EffortTable(reports: seq<SprintReport>): (rows: seq<EffortRow>)
    ensures |rows| == CompletedCount(reports)
  {
    if |reports| == 0 then []
    else EffortTable(reports[..|reports| - 1]) + EffortRows(reports[|reports| - 1])
  }

  lemma {:induction false} EffortTableAppend(a: seq<SprintReport>, b: seq<SprintReport>)
    ensures EffortTable(a + b) == EffortTable(a) + EffortTable(b)
    ensures CompletedCount(a + b) == CompletedCount(a) + CompletedCount(b)
  {
    if |b| == 0 {
      assert a + b == a;
    } else {
      var init, last := b[..|b| - 1], b[|b| - 1];
      assert (a + b)[..|a + b| - 1] == a + init;
      assert (a + b)[|a + b| - 1] == last;
      EffortTableAppend(a, init);
      assert EffortTable(a + b) == EffortTable(a + init) + EffortRows(last);
      assert EffortTable(b) == EffortTable(init) + EffortRows(last);
    }
  }

  /**
   * Row `CompletedCount(reports[..i]) + j` of the effort table is the `j`-th
   * completed issue of report `i`: its sprint's name, its type and its
   * estimate or zero. The rows are the reports' completed issues, report after
   * report, each in its own order.
   */
  lemma EffortTableAt(reports: seq<SprintReport>, i: nat, j: nat)
    requires i < |reports| && j < |reports[i].contents.completedIssues|
    ensures var issue := reports[i].contents.completedIssues[j];
      && CompletedCount(reports[..i]) + j < |EffortTable(reports)|
      && EffortTable(reports)[CompletedCount(reports[..i]) + j]
        == EffortRow(reports[i].sprint.name, issue.typeName, EstimateOrZero(issue.currentEstimate))
  {
    assert reports == reports[..i] + [reports[i]] + reports[i + 1..];
    EffortTableAppend(reports[..i] + [reports[i]], reports[i + 1..]);
    EffortTableAppend(reports[..i], [reports[i]]);
    assert EffortTable([reports[i]]) == EffortRows(reports[i]) by {
      assert [reports[i]][..0] == [];
    }
  }

  /**
   * Only completed issues feed the effort table: reports that agree on their
   * sprint names and completed issues give the same table, whatever their
   * punted and not-completed issues.
   */
  lemma {:induction false} EffortTableIgnoresOtherIssues(a: seq<SprintReport>, b: seq<SprintReport>)
    requires |a| == |b|
    requires forall i :: 0 <= i < |a| ==>
      a[i].sprint.name == b[i].sprint.name && a[i].contents.completedIssues == b[i].contents.completedIssues
    ensures EffortTable(a) == EffortTable(b)
  {
    if |a| > 0 {
      EffortTableIgnoresOtherIssues(a[..|a| - 1], b[..|b| - 1]);
    }
  }

  // ---------------------------------------------------------------------------
  // The worked example: A=3 completed, B=2 punted, C=5 not completed and added.

  function ExampleReport(): SprintReport
  {
    SprintReport(
      SprintReportContents(
        [Issue("A", "Story", Some(3.0))],
        [Issue("C", "Story", Some(5.0))],
        [Issue("B", "Story", Some(2.0))],
        EstimateSum(3.0),
        map["C" := true]),
      Sprint("Sprint 1"))
  }

  lemma ExampleDefaultPolicy()
    ensures Commitment(ExampleReport(), false) == 5.0
  {
    CommitmentDefault(ExampleReport());
    assert AddedDuringSprint(map["C" := true], "C");
  }

  lemma ExampleCountAll()
    ensures Commitment(ExampleReport(), true) == 10.0
  {
    CommitmentCountAll(ExampleReport());
  }

  /** The example's velocity row: committed 5 by default, 10 counting all; completed 3 either way. */
  lemma ExampleVelocity()
    ensures VelocityTable([ExampleReport()], false) == [VelocityRow("Sprint 1", 5.0, 3.0)]
    ensures VelocityTable([ExampleReport()], true) == [VelocityRow("Sprint 1", 10.0, 3.0)]
  {
    ExampleDefaultPolicy();
    ExampleCountAll();
  }
}
