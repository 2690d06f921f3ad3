/** The paginated gate report: a page window over the findings of all checks, flattened
    in report order, with the per-check structure kept. */
module GatePages {
  import opened Rows
  import opened Paging

  type Finding = string

  /** A check of the parsed report; a missing findings key reads as no findings. */
  datatype Check = Check(checkId: Option<string>, passed: Option<bool>, findingsKey: Option<seq<Finding>>)
  datatype Report = Report(green: Option<bool>, checksKey: Option<seq<Check>>)

  datatype BoundedCheck = BoundedCheck(
    checkId: Option<string>, passed: Option<bool>, findingCount: nat, findings: seq<Finding>)
  datatype BoundedReport = BoundedReport(green: Option<bool>, checks: seq<BoundedCheck>)

  function Findings(check: Check): seq<Finding> {
    if check.findingsKey.Some? then check.findingsKey.value else []
  }

  function Checks(report: Report): seq<Check> {
    if report.checksKey.Some? then report.checksKey.value else []
  }

  /** All findings in report order. */
  function Flatten(checks: seq<Check>): seq<Finding> {
    if checks == [] then [] else Flatten(checks[..|checks| - 1]) + Findings(checks[|checks| - 1])
  }

  /** Each check with its own stretch of the window, whatever limit and offset. */
  function PageChecks(checks: seq<Check>, limit: int, offset: int): (bounded: seq<BoundedCheck>)
    ensures |bounded| == |checks|
  {
    if checks == [] then []
    else
      var front, last := checks[..|checks| - 1], checks[|checks| - 1];
      PageChecks(front, limit, offset)
      + [BoundedCheck(last.checkId, last.passed, |Findings(last)|,
                      Window(Findings(last), |Flatten(front)|, offset, limit))]
  }

  function Page(report: Report, limit: int, offset: int): BoundedReport {
    BoundedReport(report.green, PageChecks(Checks(report), limit, offset))
  }

  /** The verdict of the report, and of each check in its place with the real number of its
      findings; a report without checks, or a check without findings, counts as empty. */
  predicate KeepsReport(report: Report, bounded: BoundedReport) {
    && bounded.green == report.green
    && |bounded.checks| == (if report.checksKey.Some? then |report.checksKey.value| else 0)
    && forall k | 0 <= k < |bounded.checks| ::
         var check := report.checksKey.value[k];
         && bounded.checks[k].checkId == check.checkId && bounded.checks[k].passed == check.passed
         && bounded.checks[k].findingCount == if check.findingsKey.Some? then |check.findingsKey.value| else 0
  }

  lemma KeepsReportOf(report: Report, limit: int, offset: int)
    ensures KeepsReport(report, Page(report, limit, offset))
  {
    forall k | 0 <= k < |Checks(report)|
      ensures PageChecks(Checks(report), limit, offset)[k].checkId == Checks(report)[k].checkId
      ensures PageChecks(Checks(report), limit, offset)[k].passed == Checks(report)[k].passed
      ensures PageChecks(Checks(report), limit, offset)[k].findingCount == |Findings(Checks(report)[k])|
    {
      CheckOnPage(Checks(report), k, limit, offset);
    }
  }

  lemma WindowGrows(q: seq<Finding>, i: nat, start: int, offset: int, limit: int)
    requires i < |q|
    ensures Window(q[..i + 1], start, offset, limit)
         == Window(q[..i], start, offset, limit) + (if offset <= start + i < offset + limit then [q[i]] else [])
  {
    assert q[..i + 1] == q[..i] + [q[i]];
    WindowOfConcat(q[..i], [q[i]], start, offset, limit);
  }

  /** paginate_gate_report_json between parsing and rendering: one counter runs over the
      findings of all checks. */
  method Paginate(report: Report, limit: int, offset: int) returns (bounded: BoundedReport, total: nat)
    ensures bounded == Page(report, limit, offset)
    ensures total == |Flatten(Checks(report))|
    ensures KeepsReport(report, bounded)
  {
    KeepsReportOf(report, limit, offset);
    var checks := Checks(report);
    var flatIndex := 0;
    total := 0;
    var boundedChecks: seq<BoundedCheck> := [];
    for k := 0 to |checks|
      invariant flatIndex == total == |Flatten(checks[..k])|
      invariant boundedChecks == PageChecks(checks[..k], limit, offset)
    {
      assert checks[..k + 1][..k] == checks[..k];
      var findings := Findings(checks[k]);
      var findingCount := |findings|;
      total := total + findingCount;
      var window: seq<Finding> := [];
      ghost var start := flatIndex;
      for i := 0 to |findings|
        invariant flatIndex == start + i
        invariant window == Window(findings[..i], start, offset, limit)
      {
        WindowGrows(findings, i, start, offset, limit);
        if offset <= flatIndex < offset + limit {
          window := window + [findings[i]];
        }
        flatIndex := flatIndex + 1;
      }
      assert findings[..|findings|] == findings;
      boundedChecks := boundedChecks + [BoundedCheck(checks[k].checkId, checks[k].passed, findingCount, window)];
    }
    assert checks[..|checks|] == checks;
    bounded := BoundedReport(report.green, boundedChecks);
  }

  function Bodies(bounded: seq<BoundedCheck>): seq<Finding> {
    if bounded == [] then [] else Bodies(bounded[..|bounded| - 1]) + bounded[|bounded| - 1].findings
  }

  /** The concatenated windows are the flattened findings sliced [offset, offset + limit). */
  lemma {:induction false} PageIsSlice(checks: seq<Check>, limit: int, offset: int)
    ensures Bodies(PageChecks(checks, limit, offset)) == Window(Flatten(checks), 0, offset, limit)
  {
    if checks != [] {
      var front, last := checks[..|checks| - 1], checks[|checks| - 1];
      PageIsSlice(front, limit, offset);
      WindowOfConcat(Flatten(front), Findings(last), 0, offset, limit);
      var bounded := PageChecks(checks, limit, offset);
      assert bounded[..|bounded| - 1] == PageChecks(front, limit, offset);
    }
  }

  /** Check k keeps its place, its verdict and its real finding count on every page. */
  lemma {:induction false} CheckOnPage(checks: seq<Check>, k: nat, limit: int, offset: int)
    requires k < |checks|
    ensures PageChecks(checks, limit, offset)[k]
         == BoundedCheck(checks[k].checkId, checks[k].passed, |Findings(checks[k])|,
                         Window(Findings(checks[k]), |Flatten(checks[..k])|, offset, limit))
  {
    if k < |checks| - 1 {
      CheckOnPage(checks[..|checks| - 1], k, limit, offset);
      assert checks[..|checks| - 1][..k] == checks[..k];
    }
  }

  lemma {:induction false} PrefixIsShorter(checks: seq<Check>, k: nat)
    requires k < |checks|
    ensures |Flatten(checks[..k])| + |Findings(checks[k])| <= |Flatten(checks)|
  {
    if k < |checks| - 1 {
      PrefixIsShorter(checks[..|checks| - 1], k);
      assert checks[..|checks| - 1][..k] == checks[..k];
    } else {
      assert checks[..k] == checks[..|checks| - 1];
    }
  }

  /** What a reader collects for check k from the pages at offsets 0, limit, 2 limit, ... */
  function Collected(report: Report, k: nat, limit: nat, n: nat): seq<Finding>
    requires k < |Checks(report)|
  {
    if n == 0 then []
    else Collected(report, k, limit, n - 1) + Page(report, limit, (n - 1) * limit).checks[k].findings
  }

  lemma {:induction false} CollectedIsPages(report: Report, k: nat, limit: nat, n: nat)
    requires k < |Checks(report)|
    ensures Collected(report, k, limit, n)
         == Pages(Findings(Checks(report)[k]), |Flatten(Checks(report)[..k])|, limit, n)
  {
    if n > 0 {
      CollectedIsPages(report, k, limit, n - 1);
      CheckOnPage(Checks(report), k, limit, (n - 1) * limit);
    }
  }

  /** Reading pages until the total is covered gives every check exactly its findings,
      in order, whatever the page size. */
  lemma PagesReconstructReport(report: Report, k: nat, limit: nat, n: nat)
    requires k < |Checks(report)| && n * limit >= |Flatten(Checks(report))|
    ensures Collected(report, k, limit, n)
         == if report.checksKey.value[k].findingsKey.Some? then report.checksKey.value[k].findingsKey.value else []
  {
    CollectedIsPages(report, k, limit, n);
    PrefixIsShorter(Checks(report), k);
    PagesGiveAll(Findings(Checks(report)[k]), |Flatten(Checks(report)[..k])|, limit, n);
  }
}
