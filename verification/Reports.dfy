/**
 Revenue reports: the gate in `RevenueService.submitReport` and the table behind it.
 A date is a number of milliseconds; a period is the half-open interval from start to end.
 */
module Reports {
  import opened Wrappers
  import opened Filters

  datatype Report = Report(offeringId: string, issuerId: string, amount: Option<real>, start: Option<int>,
                           end: Option<int>)

  /** `amount` is absent when the string fails the format test. */
  datatype Submission = Submission(offeringId: string, issuerId: string, amount: Option<real>, start: int, end: int)

  datatype Rejection = OfferingNotFound | NotTheOwner | BadAmount | AmountNotPositive | EmptyPeriod | Overlapping

  /** The condition of `findOverlappingReport`; a null date never satisfies it. */
  predicate StrictlyOverlaps(r: Report, offeringId: string, start: int, end: int) {
    r.offeringId == offeringId && r.start.Some? && r.end.Some? && r.start.value < end && r.end.value > start
  }

  predicate AnyOverlap(table: seq<Report>, offeringId: string, start: int, end: int) {
    exists i :: 0 <= i < |table| && StrictlyOverlaps(table[i], offeringId, start, end)
  }

  function Row(s: Submission): Report {
    Report(s.offeringId, s.issuerId, s.amount, Some(s.start), Some(s.end))
  }

  /** `submitReport`, as a function of the table. */
  function Submit(owners: map<string, string>, table: seq<Report>, s: Submission): (seq<Report>, Result<Report,
                  Rejection>) {
    if s.offeringId !in owners then (table, Err(OfferingNotFound))
    else if owners[s.offeringId] != s.issuerId then (table, Err(NotTheOwner))
    else if s.amount.None? then (table, Err(BadAmount))
    else if s.amount.value <= 0.0 then (table, Err(AmountNotPositive))
    else if s.end <= s.start then (table, Err(EmptyPeriod))
    else if AnyOverlap(table, s.offeringId, s.start, s.end) then (table, Err(Overlapping))
    else (table + [Row(s)], Ok(Row(s)))
  }

  class RevenueService {
    const owners: map<string, string>
    var reports: seq<Report>

    constructor (owners: map<string, string>)
      ensures this.owners == owners && reports == []
    {
      this.owners, reports := owners, [];
    }

    method FindOverlappingReport(offeringId: string, start: int, end: int) returns (found: Option<Report>)
      ensures found.Some? <==> AnyOverlap(reports, offeringId, start, end)
      ensures found.Some? ==> found.value in reports && StrictlyOverlaps(found.value, offeringId, start, end)
    {
      for i := 0 to |reports|
        invariant forall j :: 0 <= j < i ==> !StrictlyOverlaps(reports[j], offeringId, start, end)
      {
        if StrictlyOverlaps(reports[i], offeringId, start, end) {
          return Some(reports[i]);
        }
      }
      found := None;
    }

    method SubmitReport(s: Submission) returns (result: Result<Report, Rejection>)
      modifies this
      ensures (reports, result) == Submit(owners, old(reports), s)
    {
      if s.offeringId !in owners {
        return Err(OfferingNotFound);
      }
      if owners[s.offeringId] != s.issuerId {
        return Err(NotTheOwner);
      }
      if s.amount.None? {
        return Err(BadAmount);
      }
      if s.amount.value <= 0.0 {
        return Err(AmountNotPositive);
      }
      if s.end <= s.start {
        return Err(EmptyPeriod);
      }
      var overlapping := FindOverlappingReport(s.offeringId, s.start, s.end);
      if overlapping.Some? {
        return Err(Overlapping);
      }
      var report := Row(s);
      reports := reports + [report];
      result := Ok(report);
    }
  }

  // ------------------------------------------------------------------ reachable tables

  function SubmitAll(owners: map<string, string>, submissions: seq<Submission>): seq<Report> {
    if submissions == [] then []
    else
      var n := |submissions| - 1;
      Submit(owners, SubmitAll(owners, submissions[..n]), submissions[n]).0
  }

  /** The report covers the instant `t`. */
  predicate Covers(r: Report, t: int) {
    r.start.Some? && r.end.Some? && r.start.value <= t < r.end.value
  }

  ghost predicate WellFormed(r: Report) {
    r.amount.Some? && r.amount.value > 0.0 && r.start.Some? && r.end.Some? && r.start.value < r.end.value
  }

  /** Periods are non-empty, and no instant is covered by two reports of one offering. */
  ghost predicate Disjoint(table: seq<Report>) {
    && (forall i :: 0 <= i < |table| ==> WellFormed(table[i]))
    && forall i, j, t :: 0 <= i < j < |table| && table[i].offeringId == table[j].offeringId && Covers(table[i], t)
                         ==> !Covers(table[j], t)
  }

  /** For non-empty periods, the strict test asks whether some instant is shared. */
  lemma OverlapIsSharedInstant(r: Report, start: int, end: int)
    requires WellFormed(r) && start < end
    ensures StrictlyOverlaps(r, r.offeringId, start, end) <==> exists t :: start <= t < end && Covers(r, t)
  {
    if StrictlyOverlaps(r, r.offeringId, start, end) {
      var t := if r.start.value < start then start else r.start.value;
      assert Covers(r, t);
    }
  }

  lemma SubmitKeepsDisjoint(owners: map<string, string>, table: seq<Report>, s: Submission)
    requires Disjoint(table)
    ensures Disjoint(Submit(owners, table, s).0)
  {
    var (table', result) := Submit(owners, table, s);
    if result.Ok? {
      forall i, t | 0 <= i < |table| && table[i].offeringId == s.offeringId && Covers(table[i], t)
        ensures !Covers(Row(s), t)
      {
        assert !StrictlyOverlaps(table[i], s.offeringId, s.start, s.end);
      }
    }
  }

  /** Every table that serialized submissions can build is disjoint. */
  lemma {:induction false} ReachableTablesDisjoint(owners: map<string, string>, submissions: seq<Submission>)
    ensures Disjoint(SubmitAll(owners, submissions))
  {
    if submissions != [] {
      var n := |submissions| - 1;
      ReachableTablesDisjoint(owners, submissions[..n]);
      SubmitKeepsDisjoint(owners, SubmitAll(owners, submissions[..n]), submissions[n]);
    }
  }

  /** Some instant of the submission's period is covered by a report of its offering. */
  ghost predicate Taken(table: seq<Report>, s: Submission) {
    exists i, t :: && 0 <= i < |table| && table[i].offeringId == s.offeringId
                   && Covers(table[i], t) && s.start <= t < s.end
  }

  lemma OverlapIsTaken(table: seq<Report>, s: Submission)
    requires Disjoint(table) && s.start < s.end
    ensures AnyOverlap(table, s.offeringId, s.start, s.end) <==> Taken(table, s)
  {
    forall i | 0 <= i < |table| && table[i].offeringId == s.offeringId
      ensures StrictlyOverlaps(table[i], s.offeringId, s.start, s.end)
         <==> exists t :: s.start <= t < s.end && Covers(table[i], t)
    {
      OverlapIsSharedInstant(table[i], s.start, s.end);
    }
  }

  /**
   A submission is accepted exactly if the offering is known, the issuer owns it, the amount is well-formed and
   positive, and the period is not empty and not taken; each rejection is given exactly if its own condition is the
   first that fails.
   */
  lemma SubmitExactly(owners: map<string, string>, table: seq<Report>, s: Submission)
    requires Disjoint(table)
    ensures var result := Submit(owners, table, s).1;
            var known := s.offeringId in owners;
            var owned := known && owners[s.offeringId] == s.issuerId;
            var positive := owned && s.amount.Some? && s.amount.value > 0.0;
            && (result.Ok? <==> positive && s.start < s.end && !Taken(table, s))
            && (result == Err(OfferingNotFound) <==> !known)
            && (result == Err(NotTheOwner) <==> known && owners[s.offeringId] != s.issuerId)
            && (result == Err(BadAmount) <==> owned && s.amount.None?)
            && (result == Err(AmountNotPositive) <==> owned && s.amount.Some? && s.amount.value <= 0.0)
            && (result == Err(EmptyPeriod) <==> positive && s.end <= s.start)
            && (result == Err(Overlapping) <==> positive && s.start < s.end && Taken(table, s))
  {
    hide AnyOverlap, Taken;
    if s.start < s.end {
      OverlapIsTaken(table, s);
    }
  }

  /** An accepted submission adds one row with exactly its values, which is returned; a rejected one adds none. */
  lemma SubmitStores(owners: map<string, string>, table: seq<Report>, s: Submission)
    ensures var (table', result) := Submit(owners, table, s);
            var row := Report(s.offeringId, s.issuerId, s.amount, Some(s.start), Some(s.end));
            if result.Ok? then table' == table + [row] && result.value == row else table' == table
  {
  }

  // ------------------------------------------------------------------ the reconciliation window

  /** `datesOverlap`, applied to a report and a window: both ends count. */
  predicate Touches(r: Report, start: int, end: int) {
    r.start.Some? && r.end.Some? && r.start.value <= end && r.end.value >= start
  }

  function Selects(offeringId: string, start: int, end: int): Report -> bool {
    (r: Report) => r.offeringId == offeringId && Touches(r, start, end)
  }

  function SharesInstant(offeringId: string, start: int, end: int): Report -> bool {
    (r: Report) => StrictlyOverlaps(r, offeringId, start, end)
  }

  function EndsAt(offeringId: string, t: int): Report -> bool {
    (r: Report) => r.offeringId == offeringId && r.end == Some(t)
  }

  function StartsAt(offeringId: string, t: int): Report -> bool {
    (r: Report) => r.offeringId == offeringId && r.start == Some(t)
  }

  /** The reports of an offering that the closed test selects. */
  function RelevantReports(table: seq<Report>, offeringId: string, start: int, end: int): seq<Report> {
    Filter(table, Selects(offeringId, start, end))
  }

  /** Those that share an instant with the window. */
  function StrictReports(table: seq<Report>, offeringId: string, start: int, end: int): seq<Report> {
    Filter(table, SharesInstant(offeringId, start, end))
  }

  lemma {:induction false} ClosedMinusStrict(table: seq<Report>, offeringId: string, start: int, end: int)
    requires start < end
    requires forall i :: 0 <= i < |table| ==> WellFormed(table[i])
    ensures |RelevantReports(table, offeringId, start, end)|
         == |StrictReports(table, offeringId, start, end)|
            + |Filter(table, EndsAt(offeringId, start))| + |Filter(table, StartsAt(offeringId, end))|
  {
    if table != [] {
      var n := |table| - 1;
      ClosedMinusStrict(table[..n], offeringId, start, end);
      assert WellFormed(table[n]);
    }
  }

  lemma TouchingCovers(r: Report, offeringId: string, start: int, end: int)
    requires WellFormed(r)
    ensures EndsAt(offeringId, start)(r) ==> Covers(r, start - 1)
    ensures StartsAt(offeringId, end)(r) ==> Covers(r, end)
  {
  }

  /**
   In a disjoint table the closed test of the reconciliation selects, besides the reports that share
   an instant with the window, only those that touch its ends: at most one on each side.
   */
  lemma WindowSelectsAtMostTwoMore(table: seq<Report>, offeringId: string, start: int, end: int)
    requires Disjoint(table) && start < end
    ensures |Filter(table, EndsAt(offeringId, start))| <= 1
    ensures |Filter(table, StartsAt(offeringId, end))| <= 1
    ensures |RelevantReports(table, offeringId, start, end)|
         == |StrictReports(table, offeringId, start, end)|
            + |Filter(table, EndsAt(offeringId, start))| + |Filter(table, StartsAt(offeringId, end))|
  {
    hide Filter;
    ClosedMinusStrict(table, offeringId, start, end);
    forall i, j | 0 <= i < j < |table|
      ensures !(EndsAt(offeringId, start)(table[i]) && EndsAt(offeringId, start)(table[j]))
      ensures !(StartsAt(offeringId, end)(table[i]) && StartsAt(offeringId, end)(table[j]))
    {
      TouchingCovers(table[i], offeringId, start, end);
      TouchingCovers(table[j], offeringId, start, end);
    }
    FilterAtMostOne(table, EndsAt(offeringId, start));
    FilterAtMostOne(table, StartsAt(offeringId, end));
  }

  // ------------------------------------------------------------------ back-to-back periods

  /** Submissions for periods that follow each other without a gap. */
  function BackToBack(offeringId: string, issuerId: string, amounts: seq<real>,
                      bounds: seq<int>): (submissions: seq<Submission>)
    requires |bounds| == |amounts| + 1
    ensures |submissions| == |amounts|
  {
    seq(|amounts|, i requires 0 <= i < |amounts| =>
      Submission(offeringId, issuerId, Some(amounts[i]), bounds[i], bounds[i + 1]))
  }

  function RowsOf(submissions: seq<Submission>): (table: seq<Report>)
    ensures |table| == |submissions|
  {
    seq(|submissions|, i requires 0 <= i < |submissions| => Row(submissions[i]))
  }

  ghost predicate Increasing(bounds: seq<int>) {
    forall i, j :: 0 <= i < j < |bounds| ==> bounds[i] < bounds[j]
  }

  lemma LastAccepted(owners: map<string, string>, table: seq<Report>, s: Submission)
    requires s.offeringId in owners && owners[s.offeringId] == s.issuerId
    requires s.amount.Some? && s.amount.value > 0.0 && s.start < s.end
    requires forall i :: 0 <= i < |table| ==> table[i].end.Some? && table[i].end.value <= s.start
    ensures Submit(owners, table, s).0 == table + [Row(s)]
  {
  }

  /** All of them are accepted. */
  lemma {:induction false} BackToBackAccepted(owners: map<string, string>, offeringId: string, amounts: seq<real>,
                                              bounds: seq<int>)
    requires |bounds| == |amounts| + 1 && Increasing(bounds) && offeringId in owners
    requires forall i :: 0 <= i < |amounts| ==> amounts[i] > 0.0
    ensures var submissions := BackToBack(offeringId, owners[offeringId], amounts, bounds);
            SubmitAll(owners, submissions) == RowsOf(submissions)
    decreases |amounts|
  {
    var submissions := BackToBack(offeringId, owners[offeringId], amounts, bounds);
    if amounts != [] {
      var n := |amounts| - 1;
      var before := BackToBack(offeringId, owners[offeringId], amounts[..n], bounds[..n + 1]);
      BackToBackAccepted(owners, offeringId, amounts[..n], bounds[..n + 1]);
      assert submissions[..n] == before;
      LastAccepted(owners, RowsOf(before), submissions[n]);
      assert RowsOf(submissions) == RowsOf(before) + [Row(submissions[n])];
    }
  }

  /** How the i-th and the k-th of the periods between increasing bounds lie. */
  lemma PeriodPosition(r: Report, offeringId: string, bounds: seq<int>, i: nat, k: nat)
    requires Increasing(bounds) && i < |bounds| - 1 && k < |bounds| - 1
    requires r.offeringId == offeringId && r.start == Some(bounds[i]) && r.end == Some(bounds[i + 1])
    ensures Selects(offeringId, bounds[k], bounds[k + 1])(r) <==> k - 1 <= i <= k + 1
    ensures SharesInstant(offeringId, bounds[k], bounds[k + 1])(r) <==> i == k
  {
  }

  lemma SelectedNeighbours(table: seq<Report>, offeringId: string, bounds: seq<int>, k: nat, lo: nat, hi: nat)
    requires |bounds| == |table| + 1 && Increasing(bounds) && k < |table|
    requires lo == (if k > 0 then k - 1 else 0) && hi == if k + 2 <= |table| then k + 2 else |table|
    requires forall i :: 0 <= i < |table| ==>
               table[i].offeringId == offeringId
               && table[i].start == Some(bounds[i]) && table[i].end == Some(bounds[i + 1])
    ensures RelevantReports(table, offeringId, bounds[k], bounds[k + 1]) == table[lo..hi]
    ensures StrictReports(table, offeringId, bounds[k], bounds[k + 1]) == table[k..k + 1]
  {
    hide Filter, Increasing, Selects, SharesInstant;
    var start, end := bounds[k], bounds[k + 1];
    forall i | 0 <= i < |table|
      ensures Selects(offeringId, start, end)(table[i]) <==> lo <= i < hi
      ensures SharesInstant(offeringId, start, end)(table[i]) <==> k <= i < k + 1
    {
      PeriodPosition(table[i], offeringId, bounds, i, k);
    }
    FilterSlice(table, Selects(offeringId, start, end), lo, hi);
    FilterSlice(table, SharesInstant(offeringId, start, end), k, k + 1);
  }

  /**
   Among any back-to-back periods, a window that is one of them selects its neighbours too: the one
   before, the one itself and the one after, as far as they exist, where the strict test selects one.
   */
  lemma NeighboursAreSelected(owners: map<string, string>, offeringId: string, amounts: seq<real>, bounds: seq<int>,
                              k: nat)
    requires |bounds| == |amounts| + 1 && Increasing(bounds) && offeringId in owners && k < |amounts|
    requires forall i :: 0 <= i < |amounts| ==> amounts[i] > 0.0
    ensures var table := SubmitAll(owners, BackToBack(offeringId, owners[offeringId], amounts, bounds));
            var lo, hi := if k > 0 then k - 1 else 0, if k + 2 <= |amounts| then k + 2 else |amounts|;
            && |table| == |amounts|
            && RelevantReports(table, offeringId, bounds[k], bounds[k + 1]) == table[lo..hi]
            && StrictReports(table, offeringId, bounds[k], bounds[k + 1]) == [table[k]]
  {
    hide SubmitAll, Increasing, RelevantReports, StrictReports;
    BackToBackAccepted(owners, offeringId, amounts, bounds);
    var table := RowsOf(BackToBack(offeringId, owners[offeringId], amounts, bounds));
    var lo, hi := if k > 0 then k - 1 else 0, if k + 2 <= |table| then k + 2 else |table|;
    SelectedNeighbours(table, offeringId, bounds, k, lo, hi);
  }
}
