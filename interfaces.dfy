/**
 * The records the reports are built from (src/interfaces.ts), reduced to the
 * fields the aggregation reads. Numbers are exact reals.
 */
module Interfaces {
  import opened Wrappers

  /**
   * An issue of any category. `currentEstimate` is
   * `currentEstimateStatistic.statFieldValue.value`, which is optional.
   */
  datatype Issue = Issue(key: string, typeName: string, currentEstimate: Option<real>)

  /** Completed, not-completed and punted issues carry the same fields used here. */
  type CompletedIssue = Issue
  type PuntedIssue = Issue

  /** A precomputed estimate total of the report (only `value` is read). */
  datatype EstimateSum = EstimateSum(value: real)

  datatype SprintReportContents = SprintReportContents(
    completedIssues: seq<CompletedIssue>,
    issuesNotCompletedInCurrentSprint: seq<CompletedIssue>,
    puntedIssues: seq<PuntedIssue>,
    completedIssuesEstimateSum: EstimateSum,
    /** Keys added after the sprint started; a key counts as added when it maps to `true`. */
    issueKeysAddedDuringSprint: map<string, bool>)

  /** The sprint a report belongs to (only `name` is read). */
  datatype Sprint = Sprint(name: string)

  datatype SprintReport = SprintReport(contents: SprintReportContents, sprint: Sprint)

  /** One entry of the board's sprint list. */
  datatype SprintElement = SprintElement(id: int, name: string)

  /** A (key, estimate) pair with the missing estimate already replaced by 0. */
  datatype IssueEstimate = IssueEstimate(key: string, estimate: real)
}
