/**
 * The run of index.ts (`main`, `writeVelocityReport`,
 * `writeEffortBreakdownReport`): choose the sprints, fetch one report per
 * sprint, and turn the two tables into CSV text. The remote service is the
 * function `fetch`, number formatting the function `render`; writing files
 * is left to the caller, so a run ends with the text of each file written.
 */
module Driver {
  import opened Wrappers
  import opened Interfaces
  import opened Utilities
  import opened Reports
  import opened Selection

  /** How the report loop ends: every report, or the position of the first missing one. */
  datatype Fetched = AllFetched(reports: seq<SprintReport>) | Missing(index: nat)

  /**
   * The loop over the chosen sprints: reports are pushed in sprint order, and
   * the loop returns at the first sprint whose report is `null`.
   */
  method FetchReports(boardId: int, sprints: seq<SprintElement>, fetch: (int, int) -> Option<SprintReport>)
    returns (result: Fetched)
    ensures result.AllFetched? ==>
      && |result.reports| == |sprints|
      && forall i :: 0 <= i < |sprints| ==> fetch(boardId, sprints[i].id) == Some(result.reports[i])
    ensures result.Missing? ==>
      && result.index < |sprints|
      && fetch(boardId, sprints[result.index].id).None?
      && forall i :: 0 <= i < result.index ==> fetch(boardId, sprints[i].id).Some?
  {
    var reports: seq<SprintReport> := [];
    for i := 0 to |sprints|
      invariant |reports| == i
      invariant forall p :: 0 <= p < i ==> fetch(boardId, sprints[p].id) == Some(reports[p])
    {
      var report := fetch(boardId, sprints[i].id);
      if report.None? {
        return Missing(i);
      }
      reports := reports + [report.value];
    }
    return AllFetched(reports);
  }

  /** A velocity row as the object `{ sprint, committed, completed }`. */
  function VelocityRecord(row: VelocityRow, render: real -> string): Record
  {
    [("sprint", row.sprint), ("committed", render(row.committed)), ("completed", render(row.completed))]
  }

  /** An effort row as the object `{ sprint, type, estimate }`. */
  function EffortRecord(row: EffortRow, render: real -> string): Record
  {
    [("sprint", row.sprint), ("type", row.issueType), ("estimate", render(row.estimate))]
  }

  function VelocityRecords(rows: seq<VelocityRow>, render: real -> string): (records: seq<Record>)
    ensures |records| == |rows|
    ensures forall i :: 0 <= i < |rows| ==> records[i] == VelocityRecord(rows[i], render)
  {
    seq(|rows|, i requires 0 <= i < |rows| => VelocityRecord(rows[i], render))
  }

  function EffortRecords(rows: seq<EffortRow>, render: real -> string): (records: seq<Record>)
    ensures |records| == |rows|
    ensures forall i :: 0 <= i < |rows| ==> records[i] == EffortRecord(rows[i], render)
  {
    seq(|rows|, i requires 0 <= i < |rows| => EffortRecord(rows[i], render))
  }

  lemma VelocityHeader(row: VelocityRow, render: real -> string)
    ensures HeaderLine(VelocityRecord(row, render)) == "sprint,committed,completed"
  {
    assert Keys(VelocityRecord(row, render)) == ["sprint", "committed", "completed"];
    JoinThree("sprint", "committed", "completed", ",");
  }

  lemma EffortHeader(row: EffortRow, render: real -> string)
    ensures HeaderLine(EffortRecord(row, render)) == "sprint,type,estimate"
  {
    assert Keys(EffortRecord(row, render)) == ["sprint", "type", "estimate"];
    JoinThree("sprint", "type", "estimate", ",");
  }

  /**
   * The text `writeVelocityReport` writes; `None` where `convertToCSV` throws
   * because there is no report at all.
   */
  function VelocityCsv(reports: seq<SprintReport>, countAll: bool, render: real -> string): (csv: Option<string>)
    ensures csv.Some? <==> |reports| > 0
    ensures csv.Some? ==> "sprint,committed,completed" <= csv.value
  {
    var rows := VelocityTable(reports, countAll);
    if |rows| == 0 then None
    else
      var records := VelocityRecords(rows, render);
      VelocityHeader(rows[0], render);
      Some(ConvertToCSV(records))
  }

  /**
   * The text `writeEffortBreakdownReport` writes; `None` where `convertToCSV`
   * throws because no report has a completed issue.
   */
  function EffortCsv(reports: seq<SprintReport>, render: real -> string): (csv: Option<string>)
    ensures csv.Some? <==> CompletedCount(reports) > 0
    ensures csv.Some? ==> "sprint,type,estimate" <= csv.value
  {
    var rows := EffortTable(reports);
    if |rows| == 0 then None
    else
      var records := EffortRecords(rows, render);
      EffortHeader(rows[0], render);
      Some(ConvertToCSV(records))
  }

  /** Text free of line breaks. */
  predicate OneLine(s: string)
  {
    '\n' !in s
  }

  lemma VelocityLine(row: VelocityRow, render: real -> string)
    ensures RecordLine(VelocityRecord(row, render))
      == row.sprint + "," + render(row.committed) + "," + render(row.completed)
    ensures OneLine(row.sprint) && OneLine(render(row.committed)) && OneLine(render(row.completed)) ==>
      Free(Values(VelocityRecord(row, render)), '\n')
  {
    assert Values(VelocityRecord(row, render)) == [row.sprint, render(row.committed), render(row.completed)];
    JoinThree(row.sprint, render(row.committed), render(row.completed), ",");
  }

  lemma EffortLine(row: EffortRow, render: real -> string)
    ensures RecordLine(EffortRecord(row, render))
      == row.sprint + "," + row.issueType + "," + render(row.estimate)
    ensures OneLine(row.sprint) && OneLine(row.issueType) && OneLine(render(row.estimate)) ==>
      Free(Values(EffortRecord(row, render)), '\n')
  {
    assert Values(EffortRecord(row, render)) == [row.sprint, row.issueType, render(row.estimate)];
    JoinThree(row.sprint, row.issueType, render(row.estimate), ",");
  }

  /**
   * Read back line by line, the velocity file is its header and then, per
   * report in order, the sprint's name, the commitment and the completed
   * total, separated by commas (when no name or number text holds a newline).
   */
  lemma VelocityCsvLines(reports: seq<SprintReport>, countAll: bool, render: real -> string)
    requires |reports| > 0
    requires forall i :: 0 <= i < |reports| ==> OneLine(reports[i].sprint.name)
    requires forall x :: OneLine(render(x))
    ensures var lines := Split(VelocityCsv(reports, countAll, render).value, '\n');
      && |lines| == |reports| + 1
      && lines[0] == "sprint,committed,completed"
      && forall i :: 0 <= i < |reports| ==>
        lines[i + 1] == reports[i].sprint.name + "," + render(Commitment(reports[i], countAll)) + ","
          + render(reports[i].contents.completedIssuesEstimateSum.value)
  {
    var rows := VelocityTable(reports, countAll);
    var records := VelocityRecords(rows, render);
    VelocityHeader(rows[0], render);
    forall i | 0 <= i < |records|
      ensures Free(Values(records[i]), '\n')
      ensures RecordLine(records[i])
        == rows[i].sprint + "," + render(rows[i].committed) + "," + render(rows[i].completed)
    {
      VelocityLine(rows[i], render);
    }
    assert SafeFor(records, '\n');
  }

  /**
   * Read back line by line, the effort file is its header and then one line
   * per completed issue, report after report: sprint name, issue type and
   * estimate or zero.
   */
  lemma EffortCsvLines(reports: seq<SprintReport>, render: real -> string, i: nat, j: nat)
    requires i < |reports| && j < |reports[i].contents.completedIssues|
    requires forall k :: 0 <= k < |reports| ==> OneLine(reports[k].sprint.name)
    requires forall k, m :: 0 <= k < |reports| && 0 <= m < |reports[k].contents.completedIssues| ==>
      OneLine(reports[k].contents.completedIssues[m].typeName)
    requires forall x :: OneLine(render(x))
    ensures EffortCsv(reports, render).Some?
    ensures var lines := Split(EffortCsv(reports, render).value, '\n');
      var issue := reports[i].contents.completedIssues[j];
      && |lines| == CompletedCount(reports) + 1
      && lines[0] == "sprint,type,estimate"
      && CompletedCount(reports[..i]) + j < CompletedCount(reports)
      && lines[CompletedCount(reports[..i]) + j + 1]
        == reports[i].sprint.name + "," + issue.typeName + "," + render(EstimateOrZero(issue.currentEstimate))
  {
    var rows := EffortTable(reports);
    EffortTableAt(reports, i, j);
    EffortRowsOneLine(reports);
    var records := EffortRecords(rows, render);
    EffortHeader(rows[0], render);
    forall n | 0 <= n < |records|
      ensures Free(Values(records[n]), '\n')
      ensures RecordLine(records[n]) == rows[n].sprint + "," + rows[n].issueType + "," + render(rows[n].estimate)
    {
      EffortLine(rows[n], render);
    }
    assert SafeFor(records, '\n');
  }

  lemma {:induction false} EffortRowsOneLine(reports: seq<SprintReport>)
    requires forall k :: 0 <= k < |reports| ==> OneLine(reports[k].sprint.name)
    requires forall k, m :: 0 <= k < |reports| && 0 <= m < |reports[k].contents.completedIssues| ==>
      OneLine(reports[k].contents.completedIssues[m].typeName)
    ensures forall n :: 0 <= n < |EffortTable(reports)| ==>
      OneLine(EffortTable(reports)[n].sprint) && OneLine(EffortTable(reports)[n].issueType)
  {
    if |reports| > 0 {
      EffortRowsOneLine(reports[..|reports| - 1]);
    }
  }

  /**
   * How a run ends. `NoSprints` and `NoSprintReport` are logged and write
   * nothing. `Finished` holds the text handed to each file; `None` marks the
   * table on which `convertToCSV` threw, after which nothing more is written.
   */
  datatype RunOutcome =
    | NoSprints
    | NoSprintReport(sprint: string)
    | Finished(velocityCsv: Option<string>, effortCsv: Option<string>)

  /** The write step: velocity first, then effort unless the first conversion threw. */
  function WriteStep(reports: seq<SprintReport>, countAll: bool, render: real -> string): (outcome: RunOutcome)
  {
    var velocity := VelocityCsv(reports, countAll, render);
    Finished(velocity, if velocity.None? then None else EffortCsv(reports, render))
  }

  /**
   * `main`: `query` is the board's sprint list as fetched (`None` for
   * `null`), sorted in place; the chosen sprints are fetched one by one; a
   * missing report ends the run before anything is written.
   */
  method Run(boardId: int, query: Option<array<SprintElement>>, s: int, countAll: bool,
             fetch: (int, int) -> Option<SprintReport>, render: real -> string)
    returns (outcome: RunOutcome)
    modifies if query.Some? then {query.value} else {}
    ensures query.None? ==> outcome == NoSprints
    ensures query.Some? ==>
      var sprints := query.value;
      var chosen := Reverse(sprints[..][..SliceEnd(sprints.Length, s)]);
      && SortedByIdDesc(sprints[..])
      && multiset(sprints[..]) == multiset(old(sprints[..]))
      && (outcome.NoSprintReport? ==>
            exists i :: 0 <= i < |chosen| && outcome.sprint == chosen[i].name
              && fetch(boardId, chosen[i].id).None?
              && forall p :: 0 <= p < i ==> fetch(boardId, chosen[p].id).Some?)
      && (outcome.Finished? ==>
            exists reports: seq<SprintReport> ::
              && |reports| == |chosen|
              && (forall i :: 0 <= i < |chosen| ==> fetch(boardId, chosen[i].id) == Some(reports[i]))
              && outcome == WriteStep(reports, countAll, render))
      && (outcome.NoSprintReport? || outcome.Finished?)
  {
    if query.None? {
      return NoSprints;
    }
    var sprints := query.value;
    var chosen := SelectSprints(sprints, s);
    var fetched := FetchReports(boardId, chosen[..], fetch);
    match fetched
    case Missing(i) =>
      outcome := NoSprintReport(chosen[i].name);
    case AllFetched(reports) =>
      outcome := WriteStep(reports, countAll, render);
  }
}
