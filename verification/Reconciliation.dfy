/**
 `RevenueReconciliationService`: the quick balance check, the full reconciliation, and how they agree.
 */
module Reconciliation {
  import opened Wrappers
  import opened Filters
  import opened Money
  import opened Reports
  import opened Distribution
  import Balances

  const DEFAULT_TOLERANCE: real := 0.01

  datatype Window = Window(offeringId: string, start: int, end: int)

  datatype Options = Options(tolerance: Option<real>, checkRounding: bool, checkAllocations: bool) {
    function Tolerance(): real {
      if tolerance.None? then DEFAULT_TOLERANCE else tolerance.value
    }
  }

  datatype Kind = RevenueMismatch | StatusInvalid | AllocationError | RoundingLoss

  datatype Severity = Warning | Error | Critical

  datatype Discrepancy = Discrepancy(kind: Kind, severity: Severity, runId: Option<nat>)

  // ------------------------------------------------------------------ the data a window selects

  function DatedIn(w: Window): Run -> bool {
    (r: Run) => r.offeringId == w.offeringId && w.start <= r.date <= w.end
  }

  function RelevantRuns(runs: seq<Run>, w: Window): seq<Run> {
    Filter(runs, DatedIn(w))
  }

  function Amounts(reports: seq<Report>): (amounts: seq<real>)
    ensures |amounts| == |reports|
  {
    seq(|reports|, i requires 0 <= i < |reports| =>
      reports[i].amount.GetOr(0.0))
  }

  predicate IsCompleted(run: Run) {
    run.status == Completed
  }

  function Totals(runs: seq<Run>): (totals: seq<real>)
    ensures |totals| == |runs|
  {
    seq(|runs|, i requires 0 <= i < |runs| => runs[i].total)
  }

  /** The totals of the completed runs. */
  function CompletedTotals(runs: seq<Run>): seq<real> {
    Totals(Filter(runs, IsCompleted))
  }

  /** Cents reported in the window. */
  function ReportedCents(reports: seq<Report>, w: Window): int {
    ToFixed2(Sum(Amounts(RelevantReports(reports, w.offeringId, w.start, w.end))))
  }

  /** Cents paid out in the window: failed, pending and processing runs do not count. */
  function PaidCents(runs: seq<Run>, w: Window): int {
    ToFixed2(Sum(CompletedTotals(RelevantRuns(runs, w))))
  }

  function Difference(reported: int, paid: int): real {
    Abs(Amount(reported) - Amount(paid))
  }

  /** Amounts with two decimals differ by a whole number of cents. */
  lemma CentsOfDifference(a: int, b: int)
    ensures Amount(a) - Amount(b) == Amount(a - b)
    ensures Difference(a, b) == Amount(AbsInt(a - b))
    ensures ToFixed2(Amount(a) - Amount(b)) == a - b
    ensures ToFixed2(Difference(a, b)) == AbsInt(a - b)
    ensures Difference(a, b) <= DEFAULT_TOLERANCE <==> AbsInt(a - b) <= 1
  {
    ToFixed2Amount(a - b);
    ToFixed2Amount(AbsInt(a - b));
  }

  // ------------------------------------------------------------------ findings

  function Mismatch(reported: int, paid: int, tolerance: real): seq<Discrepancy> {
    if Difference(reported, paid) > tolerance then
      [Discrepancy(RevenueMismatch, if Difference(reported, paid) > 1.0 then Critical else Error, None)]
    else []
  }

  function StatusFinding(run: Run): seq<Discrepancy> {
    match run.status
    case Failed => [Discrepancy(StatusInvalid, Error, Some(run.id))]
    case Processing => [Discrepancy(StatusInvalid, Warning, Some(run.id))]
    case _ => []
  }

  /** A completed run whose total is more than a tenth of a cent away from whole cents. */
  predicate OffCents(run: Run) {
    run.status == Completed && Abs(run.total - Amount(RoundHalfUp(run.total * 100.0))) > 0.001
  }

  function RoundingFinding(run: Run): seq<Discrepancy> {
    if OffCents(run) then [Discrepancy(RoundingLoss, Warning, Some(run.id))] else []
  }

  /** Division, with JavaScript's answers for a zero divisor. */
  function Divide(a: real, n: nat): Number {
    if n != 0 then Finite(a / n as real)
    else if a > 0.0 then PlusInfinity
    else if a < 0.0 then MinusInfinity
    else NotANumber
  }

  function AllocationFinding(run: Run, investors: nat): seq<Discrepancy> {
    if run.status == Completed && Divide(run.total, investors).AtMostZero() && run.total > 0.0
    then [Discrepancy(AllocationError, Error, Some(run.id))]
    else []
  }

  /** What a check that looks at runs one by one reports. */
  function PerRun(runs: seq<Run>, finding: Run -> seq<Discrepancy>): seq<Discrepancy> {
    if runs == [] then [] else PerRun(runs[..|runs| - 1], finding) + finding(runs[|runs| - 1])
  }

  function CompletedCount(investments: seq<Balances.Investment>): nat {
    |Filter(investments, (i: Balances.Investment) => i.completed)|
  }

  function AllocationFindings(investments: seq<Balances.Investment>, runs: seq<Run>): seq<Discrepancy> {
    if investments == [] then [] else PerRun(runs, run => AllocationFinding(run, CompletedCount(investments)))
  }

  function WithOptionalChecks(found: seq<Discrepancy>, relevant: seq<Run>, investments: seq<Balances.Investment>,
                              options: Options)
    : seq<Discrepancy>
  {
    var withAllocations :=
      if options.checkAllocations then found + AllocationFindings(investments, relevant) else found;
    if options.checkRounding then withAllocations + PerRun(relevant, RoundingFinding) else withAllocations
  }

  function Findings(reports: seq<Report>, runs: seq<Run>, investments: seq<Balances.Investment>, w: Window,
                    options: Options): seq<Discrepancy> {
    var relevant := RelevantRuns(runs, w);
    var totals := Mismatch(ReportedCents(reports, w), PaidCents(runs, w), options.Tolerance());
    WithOptionalChecks(totals + PerRun(relevant, StatusFinding), relevant, investments, options)
  }

  // ------------------------------------------------------------------ the service

  datatype Summary = Summary(isBalanced: bool, discrepancies: seq<Discrepancy>, reported: int, paid: int,
                             difference: int)

  /** The database it reads; every method only reads. */
  class RevenueReconciliationService {
    var reports: seq<Report>
    var runs: seq<Run>
    var investments: seq<Balances.Investment>

    constructor (reports: seq<Report>, runs: seq<Run>, investments: seq<Balances.Investment>)
      ensures this.reports == reports && this.runs == runs && this.investments == investments
    {
      this.reports, this.runs, this.investments := reports, runs, investments;
    }

    method QuickBalanceCheck(w: Window) returns (isBalanced: bool, difference: int)
      ensures difference == ReportedCents(reports, w) - PaidCents(runs, w)
      ensures isBalanced <==> AbsInt(difference) <= 1
    {
      var relevantReports := RelevantReports(reports, w.offeringId, w.start, w.end);
      var relevantRuns := RelevantRuns(runs, w);
      var totalRevenue := ToFixed2(Sum(Amounts(relevantReports)));
      var totalPayouts := ToFixed2(Sum(CompletedTotals(relevantRuns)));
      isBalanced := Abs(Amount(totalRevenue) - Amount(totalPayouts)) <= DEFAULT_TOLERANCE;
      CentsOfDifference(totalRevenue, totalPayouts);
      difference := ToFixed2(Amount(totalRevenue) - Amount(totalPayouts));
    }

    method CheckDistributionRunIntegrity(run: Run) returns (discrepancies: seq<Discrepancy>)
      ensures discrepancies == StatusFinding(run)
    {
      discrepancies := [];
      if run.status == Failed {
        discrepancies := discrepancies + [Discrepancy(StatusInvalid, Error, Some(run.id))];
      }
      if run.status == Processing {
        discrepancies := discrepancies + [Discrepancy(StatusInvalid, Warning, Some(run.id))];
      }
    }

    method CheckInvestorAllocations(relevantRuns: seq<Run>) returns (discrepancies: seq<Discrepancy>)
      ensures discrepancies == AllocationFindings(investments, relevantRuns)
    {
      discrepancies := [];
      if investments == [] {
        return;
      }
      var investorCount := CompletedCount(investments);
      ghost var finding := run => AllocationFinding(run, investorCount);
      for i := 0 to |relevantRuns|
        invariant discrepancies == PerRun(relevantRuns[..i], finding)
      {
        var run := relevantRuns[i];
        assert relevantRuns[..i + 1][..i] == relevantRuns[..i] && finding(run) == AllocationFinding(run, investorCount);
        if run.status == Completed {
          var expectedMinPayout := Divide(run.total, investorCount);
          if expectedMinPayout.AtMostZero() && run.total > 0.0 {
            discrepancies := discrepancies + [Discrepancy(AllocationError, Error, Some(run.id))];
          }
        }
      }
      assert relevantRuns[..|relevantRuns|] == relevantRuns;
    }

    method CheckRoundingAdjustments(relevantRuns: seq<Run>) returns (discrepancies: seq<Discrepancy>)
      ensures discrepancies == PerRun(relevantRuns, RoundingFinding)
    {
      discrepancies := [];
      for i := 0 to |relevantRuns|
        invariant discrepancies == PerRun(relevantRuns[..i], RoundingFinding)
      {
        var run := relevantRuns[i];
        assert relevantRuns[..i + 1][..i] == relevantRuns[..i];
        if run.status == Completed {
          var rounded := Amount(RoundHalfUp(run.total * 100.0));
          if Abs(run.total - rounded) > 0.001 {
            discrepancies := discrepancies + [Discrepancy(RoundingLoss, Warning, Some(run.id))];
          }
        }
      }
      assert relevantRuns[..|relevantRuns|] == relevantRuns;
    }

    method CheckRuns(relevantRuns: seq<Run>, options: Options,
                     found: seq<Discrepancy>) returns (discrepancies: seq<Discrepancy>)
      ensures discrepancies
           == WithOptionalChecks(found + PerRun(relevantRuns, StatusFinding), relevantRuns, investments, options)
    {
      discrepancies := found;
      for i := 0 to |relevantRuns|
        invariant discrepancies == found + PerRun(relevantRuns[..i], StatusFinding)
      {
        var more := CheckDistributionRunIntegrity(relevantRuns[i]);
        assert relevantRuns[..i + 1][..i] == relevantRuns[..i];
        discrepancies := discrepancies + more;
      }
      assert relevantRuns[..|relevantRuns|] == relevantRuns;
      if options.checkAllocations {
        var more := CheckInvestorAllocations(relevantRuns);
        discrepancies := discrepancies + more;
      }
      if options.checkRounding {
        var more := CheckRoundingAdjustments(relevantRuns);
        discrepancies := discrepancies + more;
      }
    }

    method Reconcile(w: Window, options: Options) returns (summary: Summary)
      ensures summary.discrepancies == Findings(reports, runs, investments, w, options)
      ensures summary.isBalanced <==> summary.discrepancies == []
      ensures summary.reported == ReportedCents(reports, w) && summary.paid == PaidCents(runs, w)
      ensures summary.difference == AbsInt(summary.reported - summary.paid)
    {
      hide Sum, Mismatch, WithOptionalChecks, PerRun, ToFixed2, Difference, RelevantRuns, RelevantReports;
      var relevantReports := RelevantReports(reports, w.offeringId, w.start, w.end);
      var relevantRuns := RelevantRuns(runs, w);
      var reported := ToFixed2(Sum(Amounts(relevantReports)));
      var paid := ToFixed2(Sum(CompletedTotals(relevantRuns)));
      var discrepancies := CheckRuns(relevantRuns, options, Mismatch(reported, paid, options.Tolerance()));

      var hasErrors := exists d :: d in discrepancies && (d.severity == Error || d.severity == Critical);
      var hasWarnings := exists d :: d in discrepancies && d.severity == Warning;
      assert discrepancies != [] ==> discrepancies[0] in discrepancies;
      CentsOfDifference(reported, paid);
      summary := Summary(!hasErrors && !hasWarnings, discrepancies, reported, paid,
                         ToFixed2(Difference(reported, paid)));
    }
  }

  // ------------------------------------------------------------------ the two forms agree

  ghost predicate Contains(discrepancies: seq<Discrepancy>, kind: Kind) {
    exists d :: d in discrepancies && d.kind == kind
  }

  lemma {:induction false} PerRunMembers(runs: seq<Run>, finding: Run -> seq<Discrepancy>)
    ensures forall d :: d in PerRun(runs, finding) <==> exists r :: r in runs && d in finding(r)
  {
    if runs != [] {
      var n := |runs| - 1;
      PerRunMembers(runs[..n], finding);
      assert forall r :: r in runs <==> r in runs[..n] || r == runs[n];
    }
  }

  /** A positive amount divided by any number of investors, zero included, is positive: this check never fires. */
  lemma AllocationCheckNeverFires(investments: seq<Balances.Investment>, runs: seq<Run>)
    ensures AllocationFindings(investments, runs) == []
  {
    if investments != [] {
      var investors := CompletedCount(investments);
      var finding := run => AllocationFinding(run, investors);
      forall r | r in runs
        ensures finding(r) == []
      {
        assert investors != 0 && r.total > 0.0 ==> r.total / investors as real > 0.0;
      }
      PerRunMembers(runs, finding);
      assert PerRun(runs, finding) != [] ==> PerRun(runs, finding)[0] in PerRun(runs, finding);
    }
  }

  lemma EmptyPerRun(runs: seq<Run>, finding: Run -> seq<Discrepancy>)
    ensures PerRun(runs, finding) == [] <==> forall r :: r in runs ==> finding(r) == []
  {
    PerRunMembers(runs, finding);
    var all := PerRun(runs, finding);
    assert all != [] ==> all[0] in all;
    forall r | r in runs && finding(r) != []
      ensures all != []
    {
      assert finding(r)[0] in all;
    }
  }

  lemma MismatchMembers(reported: int, paid: int, tolerance: real)
    ensures Mismatch(reported, paid, tolerance) == [] <==> Difference(reported, paid) <= tolerance
    ensures Contains(Mismatch(reported, paid, tolerance), RevenueMismatch) <==> Difference(reported, paid) > tolerance
    ensures forall d :: d in Mismatch(reported, paid, tolerance) ==>
              d.severity == if AbsInt(reported - paid) > 100 then Critical else Error
  {
    CentsOfDifference(reported, paid);
    var m := Mismatch(reported, paid, tolerance);
    assert m != [] ==> m[0] in m;
  }

  /**
   A full reconciliation is balanced exactly when the totals agree within the tolerance, no run dated in
   the window failed or is still processing, and, if asked, no completed run is off whole cents.
   */
  lemma BalancedExactlyWhen(reports: seq<Report>, runs: seq<Run>, investments: seq<Balances.Investment>, w: Window,
                            options: Options)
    ensures Findings(reports, runs, investments, w, options) == [] <==>
              && Difference(ReportedCents(reports, w), PaidCents(runs, w)) <= options.tolerance.GetOr(0.01)
              && (forall r :: r in RelevantRuns(runs, w) ==> r.status != Failed && r.status != Processing)
              && (options.checkRounding ==> forall r :: r in RelevantRuns(runs, w) ==> !OffCents(r))
  {
    hide Mismatch, Difference, AllocationFindings, PerRun, ReportedCents, PaidCents, RelevantRuns;
    var relevant := RelevantRuns(runs, w);
    MismatchMembers(ReportedCents(reports, w), PaidCents(runs, w), options.Tolerance());
    AllocationCheckNeverFires(investments, relevant);
    EmptyPerRun(relevant, StatusFinding);
    EmptyPerRun(relevant, RoundingFinding);
    assert forall r :: r in relevant ==> (StatusFinding(r) == [] <==> r.status != Failed && r.status != Processing);
    assert forall r :: r in relevant ==> (RoundingFinding(r) == [] <==> !OffCents(r));
  }

  /** Totals with two decimals, such as the engine writes, never trip the rounding check. */
  lemma WholeCentsPassRounding(run: Run)
    requires IsWholeCents(run.total)
    ensures !OffCents(run)
  {
    RoundHalfUpIs(run.total * 100.0, ToFixed2(run.total));
  }

  /**
   At the default tolerance the full form reports a revenue mismatch exactly when the totals differ by two
   cents or more, as critical exactly when they differ by more than a whole unit.
   */
  lemma MismatchExactlyWhenUnbalanced(reports: seq<Report>, runs: seq<Run>, investments: seq<Balances.Investment>,
                                      w: Window, options: Options)
    requires options.tolerance.None?
    ensures Contains(Findings(reports, runs, investments, w, options), RevenueMismatch)
       <==> AbsInt(ReportedCents(reports, w) - PaidCents(runs, w)) > 1
    ensures forall d :: d in Findings(reports, runs, investments, w, options) && d.kind == RevenueMismatch ==>
              d.severity == if AbsInt(ReportedCents(reports, w) - PaidCents(runs, w)) > 100 then Critical else Error
  {
    hide Mismatch, Difference, AllocationFindings, PerRun, ReportedCents, PaidCents, RelevantRuns;
    var reported, paid, relevant := ReportedCents(reports, w), PaidCents(runs, w), RelevantRuns(runs, w);
    CentsOfDifference(reported, paid);
    MismatchMembers(reported, paid, options.Tolerance());
    AllocationCheckNeverFires(investments, relevant);
    PerRunMembers(relevant, StatusFinding);
    PerRunMembers(relevant, RoundingFinding);
    var mismatch := Mismatch(reported, paid, options.Tolerance());
    var findings := Findings(reports, runs, investments, w, options);
    assert forall d :: d in mismatch ==> d in findings;
    assert forall d :: d in findings && d.kind == RevenueMismatch ==> d in mismatch;
  }

  /**
   Whatever the options, the runs that are reported for their status are exactly the failed and the
   processing ones.
   */
  lemma StatusReportedExactly(reports: seq<Report>, runs: seq<Run>, investments: seq<Balances.Investment>, w: Window,
                              options: Options, id: nat)
    ensures Discrepancy(StatusInvalid, Error, Some(id)) in Findings(reports, runs, investments, w, options)
       <==> exists r :: r in RelevantRuns(runs, w) && r.id == id && r.status == Failed
    ensures Discrepancy(StatusInvalid, Warning, Some(id)) in Findings(reports, runs, investments, w, options)
       <==> exists r :: r in RelevantRuns(runs, w) && r.id == id && r.status == Processing
  {
    hide Difference, AllocationFindings, PerRun, ReportedCents, PaidCents, RelevantRuns;
    var relevant := RelevantRuns(runs, w);
    AllocationCheckNeverFires(investments, relevant);
    PerRunMembers(relevant, StatusFinding);
    PerRunMembers(relevant, RoundingFinding);
    forall d: Discrepancy | d.kind == StatusInvalid
      ensures d in Findings(reports, runs, investments, w, options) <==> d in PerRun(relevant, StatusFinding)
    {
    }
    forall r: Run
      ensures Discrepancy(StatusInvalid, Error, Some(id)) in StatusFinding(r) <==> r.id == id && r.status == Failed
      ensures Discrepancy(StatusInvalid, Warning, Some(id)) in StatusFinding(r)
         <==> r.id == id && r.status == Processing
    {
    }
  }

  // ------------------------------------------------------------------ the report, line by line

  /** Completed, of this offering and dated in the window, its ends included. */
  predicate IsPaidIn(r: Run, w: Window) {
    r.status == Completed && r.offeringId == w.offeringId && w.start <= r.date <= w.end
  }

  function PaidIn(w: Window): Run -> bool {
    (r: Run) => IsPaidIn(r, w)
  }

  /** What counts as paid, told from the runs. */
  lemma PaidExactly(runs: seq<Run>, w: Window)
    ensures PaidCents(runs, w) == ToFixed2(Sum(Totals(Filter(runs, PaidIn(w)))))
    ensures forall r :: r in RelevantRuns(runs, w)
                   <==> r in runs && r.offeringId == w.offeringId && w.start <= r.date <= w.end
  {
    hide Filter;
    FilterTwice(runs, DatedIn(w), IsCompleted, PaidIn(w));
    FilterMembers(runs, DatedIn(w));
  }

  predicate IsUnfinished(r: Run) {
    r.status == Failed || r.status == Processing
  }

  function StatusLine(r: Run): Discrepancy {
    Discrepancy(StatusInvalid, if r.status == Failed then Error else Warning, Some(r.id))
  }

  /** Completed, with a total more than a tenth of a cent away from every whole number of cents. */
  ghost predicate IsFarFromCents(r: Run) {
    r.status == Completed && forall cents: int :: Abs(r.total - Amount(cents)) > 0.001
  }

  function RoundingLine(r: Run): Discrepancy {
    Discrepancy(RoundingLoss, Warning, Some(r.id))
  }

  lemma OffCentsExactly(r: Run)
    ensures OffCents(r) <==> IsFarFromCents(r)
  {
    if cents: int :| Abs(r.total - Amount(cents)) <= 0.001 {
      RoundHalfUpIs(r.total * 100.0, cents);
    }
  }

  /** One discrepancy for each run. */
  function Lines(runs: seq<Run>, line: Run -> Discrepancy): seq<Discrepancy> {
    seq(|runs|, i requires 0 <= i < |runs| => line(runs[i]))
  }

  lemma {:induction false} PerRunLines(runs: seq<Run>, finding: Run -> seq<Discrepancy>, reported: Run -> bool,
                                       line: Run -> Discrepancy)
    requires forall r :: finding(r) == if reported(r) then [line(r)] else []
    ensures PerRun(runs, finding) == Lines(Filter(runs, reported), line)
  {
    if runs != [] {
      PerRunLines(runs[..|runs| - 1], finding, reported, line);
    }
  }

  /** The report, in order. */
  ghost predicate IsReport(found: seq<Discrepancy>, reported: int, paid: int, relevant: seq<Run>, options: Options) {
    found == (if Amount(AbsInt(reported - paid)) > options.tolerance.GetOr(0.01)
              then [Discrepancy(RevenueMismatch, if AbsInt(reported - paid) > 100 then Critical else Error, None)]
              else [])
             + Lines(Filter(relevant, IsUnfinished), StatusLine)
             + (if options.checkRounding then Lines(Filter(relevant, IsFarFromCents), RoundingLine) else [])
  }

  /**
   What a full reconciliation reports, line by line: first the totals, if they differ by more than the tolerance asked
   for (a cent by default); then each failed or processing run; then, if asked, each completed run off whole cents.
   */
  lemma FindingsExactly(reports: seq<Report>, runs: seq<Run>, investments: seq<Balances.Investment>, w: Window,
                        options: Options)
    ensures IsReport(Findings(reports, runs, investments, w, options), ReportedCents(reports, w), PaidCents(runs, w),
                     RelevantRuns(runs, w), options)
  {
    hide Difference, AllocationFindings, PerRun, ReportedCents, PaidCents, RelevantRuns, Lines, Filter;
    hide OffCents, IsFarFromCents;
    var relevant := RelevantRuns(runs, w);
    CentsOfDifference(ReportedCents(reports, w), PaidCents(runs, w));
    AllocationCheckNeverFires(investments, relevant);
    PerRunLines(relevant, StatusFinding, IsUnfinished, StatusLine);
    PerRunLines(relevant, RoundingFinding, OffCents, RoundingLine);
    forall i | 0 <= i < |relevant|
      ensures OffCents(relevant[i]) == IsFarFromCents(relevant[i])
    {
      OffCentsExactly(relevant[i]);
    }
    FilterSame(relevant, OffCents, IsFarFromCents);
  }

  /**
   For runs with two-decimal totals, such as the engine writes, the optional checks add nothing: at the default
   tolerance the full form is balanced exactly when the quick form is and no run dated in the window failed
   or is still processing.
   */
  lemma QuickFormAgrees(reports: seq<Report>, runs: seq<Run>, investments: seq<Balances.Investment>, w: Window,
                        options: Options)
    requires options.tolerance.None?
    requires forall r :: r in RelevantRuns(runs, w) ==> IsWholeCents(r.total)
    ensures Findings(reports, runs, investments, w, options) == [] <==>
              && AbsInt(ReportedCents(reports, w) - PaidCents(runs, w)) <= 1
              && forall r :: r in RelevantRuns(runs, w) ==> r.status != Failed && r.status != Processing
  {
    hide Findings, Difference, ReportedCents, PaidCents, OffCents, IsWholeCents, RelevantRuns;
    CentsOfDifference(ReportedCents(reports, w), PaidCents(runs, w));
    BalancedExactlyWhen(reports, runs, investments, w, options);
    forall r | r in RelevantRuns(runs, w)
      ensures !OffCents(r)
    {
      WholeCentsPassRounding(r);
    }
  }
}
