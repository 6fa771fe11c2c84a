/**
 From reported revenue to reconciled payouts: what the two-decimal rounding of each run can do to
 the comparison of totals over a window.
 */
module EndToEnd {
  import opened Wrappers
  import opened Filters
  import opened Money
  import opened Reports
  import opened Distribution
  import opened Reconciliation

  // ------------------------------------------------------------------ arithmetic

  /** Each amount to two decimals, as a run stores it. */
  function Rounded(amounts: seq<real>): (totals: seq<real>)
    ensures |totals| == |amounts|
  {
    seq(|amounts|, i requires 0 <= i < |amounts| => Amount(ToFixed2(amounts[i])))
  }

  /** In cents, the rounded amounts sum to a whole number at most n/2 above, and less than n/2 below, the exact sum. */
  lemma {:induction false} SumOfRounded(amounts: seq<real>) returns (cents: int)
    requires forall i :: 0 <= i < |amounts| ==> amounts[i] >= 0.0
    ensures Sum(Rounded(amounts)) == Amount(cents) && cents >= 0
    ensures Sum(amounts) >= 0.0
    ensures -(|amounts| as real) / 2.0 <= Sum(amounts) * 100.0 - cents as real
    ensures Sum(amounts) * 100.0 - cents as real < |amounts| as real / 2.0 || |amounts| == 0
    ensures |amounts| == 0 ==> cents == 0 && Sum(amounts) == 0.0
  {
    if amounts == [] {
      cents := 0;
    } else {
      var n := |amounts| - 1;
      var before := SumOfRounded(amounts[..n]);
      assert Rounded(amounts)[..n] == Rounded(amounts[..n]);
      cents := before + ToFixed2(amounts[n]);
    }
  }

  lemma NearestCents(total: int, cents: int, n: nat, exact: real)
    requires total as real - 0.5 <= exact < total as real + 0.5
    requires cents as real - n as real / 2.0 <= exact
    requires exact < cents as real + n as real / 2.0 || (n == 0 && exact == cents as real)
    ensures AbsInt(total - cents) <= n / 2
  {
    assert 2 * total - 1 < 2 * cents + n || n == 0;
    assert 2 * total + 1 > 2 * cents - n;
  }

  /** Totals of n amounts and of their roundings differ by at most floor(n/2) cents. */
  lemma RoundedTotals(amounts: seq<real>)
    requires forall i :: 0 <= i < |amounts| ==> amounts[i] >= 0.0
    ensures AbsInt(ToFixed2(Sum(amounts)) - ToFixed2(Sum(Rounded(amounts)))) <= |amounts| / 2
  {
    hide Sum, Rounded;
    var cents := SumOfRounded(amounts);
    ToFixed2Amount(cents);
    NearestCents(ToFixed2(Sum(amounts)), cents, |amounts|, Sum(amounts) * 100.0);
  }

  lemma {:induction false} SumOfHalfCents(n: nat)
    ensures Sum(seq(n, _ => 0.005)) == n as real * 0.005
    ensures Sum(Rounded(seq(n, _ => 0.005))) == Amount(n)
  {
    if n > 0 {
      SumOfHalfCents(n - 1);
      assert seq(n, _ => 0.005)[..n - 1] == seq(n - 1, _ => 0.005);
      assert Rounded(seq(n, _ => 0.005))[..n - 1] == Rounded(seq(n - 1, _ => 0.005));
      RoundHalfUpIs(0.5, 1);
    }
  }

  /** The bound is attained for every n: n reports of half a cent. */
  lemma RoundedTotalsAttained(n: nat)
    ensures ToFixed2(Sum(Rounded(seq(n, _ => 0.005)))) - ToFixed2(Sum(seq(n, _ => 0.005))) == n / 2
  {
    SumOfHalfCents(n);
    ToFixed2Amount(n);
    RoundHalfUpIs(n as real / 2.0, (n + 1) / 2);
  }

  // ------------------------------------------------------------------ distributing every report once

  function Complete(tables: Tables, id: nat): Tables {
    if id < |tables.runs| then tables.(runs := tables.runs[id := tables.runs[id].(status := Completed)]) else tables
  }

  /** The period of a submitted report, as the caller hands it to the engine. */
  function PeriodOf(r: Report): Option<Period> {
    if r.start.None? || r.end.None? then None else Some(Period(r.start.value, r.end.value))
  }

  /** One successful engine call for each report's own amount, each returned run then marked completed. */
  function DistributeEach(env: Environment, w: World, attempts: nat, reports: seq<Report>): (World, bool)
    decreases |reports|
  {
    if reports == [] then (w, true)
    else
      var n := |reports| - 1;
      var (w1, ok) := DistributeEach(env, w, attempts, reports[..n]);
      if !ok || reports[n].amount.None? then (w1, false)
      else
        var r := reports[n];
        var (w2, result) := Distribute(env, w1, attempts, r.offeringId, PeriodOf(r), r.amount.value);
        if result.Err? then (w2, false)
        else (World(Complete(w2.tables, result.value.run.id), w2.calls), true)
  }

  /** The totals that count for a window. */
  function PaidTotals(runs: seq<Run>, w: Window): seq<real> {
    CompletedTotals(RelevantRuns(runs, w))
  }

  lemma CompletedAppend(runs: seq<Run>, run: Run)
    ensures CompletedTotals(runs + [run]) == CompletedTotals(runs) + if run.status == Completed then [run.total] else []
  {
    hide Filter;
    FilterAppend(runs, run, IsCompleted);
  }

  lemma PaidTotalsAppend(runs: seq<Run>, run: Run, w: Window)
    ensures PaidTotals(runs + [run], w)
         == PaidTotals(runs, w) + if DatedIn(w)(run) && run.status == Completed then [run.total] else []
  {
    hide Filter, CompletedTotals;
    FilterAppend(runs, run, DatedIn(w));
    CompletedAppend(RelevantRuns(runs, w), run);
    assert RelevantRuns(runs, w) + [] == RelevantRuns(runs, w);
  }

  lemma {:induction false} UnfinishedRunsDoNotCount(before: seq<Run>, after: seq<Run>, w: Window)
    requires before <= after
    requires forall i :: |before| <= i < |after| ==> after[i].status != Completed
    ensures PaidTotals(after, w) == PaidTotals(before, w)
    decreases |after|
  {
    hide PaidTotals;
    if |before| == |after| {
      assert before == after;
    } else {
      var n := |after| - 1;
      UnfinishedRunsDoNotCount(before, after[..n], w);
      PaidTotalsAppend(after[..n], after[n], w);
      assert after == after[..n] + [after[n]];
    }
  }

  /**
   One engine call and the completion of its run add exactly the rounded amount, whatever the failures on the
   way, if the period ends in the window, and nothing otherwise.
   */
  lemma OneReport(env: Environment, w: World, attempts: nat, offeringId: string, period: Period, revenue: real,
                  window: Window)
    requires w.tables.Valid()
    ensures var (w', result) := Distribute(env, w, attempts, offeringId, Some(period), revenue);
            result.Ok? ==>
              && var after := Complete(w'.tables, result.value.run.id);
              && after.Valid() && revenue > 0.0
              && PaidTotals(after.runs, window)
              == PaidTotals(w.tables.runs, window)
                 + if offeringId == window.offeringId && window.start <= period.end <= window.end
                   then [Amount(ToFixed2(revenue))] else []
  {
    hide Retry, DistributeRows, PaidTotals, CopyCounts, Copied;
    var (w', result) := Distribute(env, w, attempts, offeringId, Some(period), revenue);
    if result.Ok? {
      var (w1, _) := Retry(env, w, FetchBalances, attempts);
      var n := RetryInserts(env, w, FetchBalances, attempts);
      RepeatedFetch(w.tables, n);
      var rows := env.balances(w1.calls - 1);
      var copies := DistributeUnderFaults(env, w1, attempts, offeringId, period.end, revenue, rows);
      var runs := w'.tables.runs;
      var last := |runs| - 1;
      var done := runs[last].(status := Completed);
      UnfinishedRunsDoNotCount(w.tables.runs, runs[..last], window);
      PaidTotalsAppend(runs[..last], done, window);
      assert runs[last := done] == runs[..last] + [done];
    }
  }

  // ------------------------------------------------------------------ what a window is due

  /** The report's run, dated at the end of its period, falls in the window. */
  function DueIn(w: Window): Report -> bool {
    (r: Report) => r.offeringId == w.offeringId && r.end.Some? && w.start <= r.end.value <= w.end
  }

  function DueReports(reports: seq<Report>, w: Window): seq<Report> {
    Filter(reports, DueIn(w))
  }

  /** The report is of the offering, and its period goes on after the end of the window. */
  function Outlasts(w: Window): Report -> bool {
    (r: Report) => r.offeringId == w.offeringId && Covers(r, w.end)
  }

  /** The reports that a window counts as reported, and that are paid only later. */
  function LateReports(reports: seq<Report>, w: Window): seq<Report> {
    Filter(reports, Outlasts(w))
  }

  /** At most one, as no instant is covered twice. */
  lemma AtMostOneLate(table: seq<Report>, w: Window)
    requires Disjoint(table)
    ensures |LateReports(table, w)| <= 1
  {
    hide Filter;
    FilterAtMostOne(table, Outlasts(w));
  }

  /** For a well-formed report: selected by the closed test is due or late, and never both. */
  lemma SelectedIsDueOrLate(r: Report, w: Window)
    requires WellFormed(r) && w.start <= w.end
    ensures Selects(w.offeringId, w.start, w.end)(r) <==> DueIn(w)(r) || Outlasts(w)(r)
    ensures !(DueIn(w)(r) && Outlasts(w)(r))
  {
  }

  lemma AmountsAppend(reports: seq<Report>, r: Report)
    ensures Amounts(reports + [r]) == Amounts(reports) + [r.amount.GetOr(0.0)]
    ensures Sum(Amounts(reports + [r])) == Sum(Amounts(reports)) + r.amount.GetOr(0.0)
  {
    assert Amounts(reports + [r]) == Amounts(reports) + [r.amount.GetOr(0.0)];
    assert Amounts(reports + [r])[..|reports|] == Amounts(reports);
  }

  lemma SumOfSelectedAppend(reports: seq<Report>, r: Report, p: Report -> bool)
    ensures Sum(Amounts(Filter(reports + [r], p)))
         == Sum(Amounts(Filter(reports, p))) + if p(r) then r.amount.GetOr(0.0) else 0.0
  {
    hide Filter, Sum;
    FilterAppend(reports, r, p);
    if p(r) {
      AmountsAppend(Filter(reports, p), r);
    } else {
      assert Filter(reports, p) + [] == Filter(reports, p);
    }
  }

  /** What is reported in a window is what is due in it and what is late. */
  lemma {:induction false} ReportedIsDueAndLate(table: seq<Report>, w: Window)
    requires w.start <= w.end
    requires forall i :: 0 <= i < |table| ==> WellFormed(table[i])
    ensures Sum(Amounts(RelevantReports(table, w.offeringId, w.start, w.end)))
         == Sum(Amounts(DueReports(table, w))) + Sum(Amounts(LateReports(table, w)))
  {
    if table != [] {
      hide Filter, Sum, Selects, DueIn, Outlasts, WellFormed;
      var n := |table| - 1;
      var r := table[n];
      ReportedIsDueAndLate(table[..n], w);
      assert table == table[..n] + [r];
      SumOfSelectedAppend(table[..n], r, Selects(w.offeringId, w.start, w.end));
      SumOfSelectedAppend(table[..n], r, DueIn(w));
      SumOfSelectedAppend(table[..n], r, Outlasts(w));
      SelectedIsDueOrLate(r, w);
    }
  }

  lemma RoundedAppend(reports: seq<Report>, r: Report)
    requires r.amount.Some?
    ensures Rounded(Amounts(reports + [r])) == Rounded(Amounts(reports)) + [Amount(ToFixed2(r.amount.value))]
  {
    hide Sum, ToFixed2;
    AmountsAppend(reports, r);
  }

  /** Only a report with a period can be distributed. */
  lemma NoPeriodNoRun(env: Environment, w: World, attempts: nat, r: Report)
    requires r.amount.Some?
    ensures Distribute(env, w, attempts, r.offeringId, PeriodOf(r), r.amount.value).1.Ok?
            ==> PeriodOf(r).Some? && r.end.Some?
  {
    hide DistributeRows, Retry;
  }

  /** Whatever is distributed, and under any failures: the window is paid exactly the rounded amounts due in it. */
  lemma {:induction false} EachReport(env: Environment, w: World, attempts: nat, reports: seq<Report>, window: Window)
    requires w.tables.Valid()
    ensures var (w', ok) := DistributeEach(env, w, attempts, reports);
            ok ==>
              && w'.tables.Valid()
              && PaidTotals(w'.tables.runs, window)
              == PaidTotals(w.tables.runs, window) + Rounded(Amounts(DueReports(reports, window)))
    decreases |reports|
  {
    hide PaidTotals, Distribute, Complete, Tables.Valid, ToFixed2, Filter;
    if reports == [] {
      FilterNone(reports, DueIn(window));
      assert PaidTotals(w.tables.runs, window) + [] == PaidTotals(w.tables.runs, window);
    } else {
      var n := |reports| - 1;
      var r := reports[n];
      var (w1, ok) := DistributeEach(env, w, attempts, reports[..n]);
      EachReport(env, w, attempts, reports[..n], window);
      assert reports == reports[..n] + [r];
      FilterAppend(reports[..n], r, DueIn(window));
      if DistributeEach(env, w, attempts, reports).1 {
        NoPeriodNoRun(env, w1, attempts, r);
        var period := PeriodOf(r).value;
        OneReport(env, w1, attempts, r.offeringId, period, r.amount.value, window);
        var paid, due := PaidTotals(w.tables.runs, window), DueReports(reports[..n], window);
        if DueIn(window)(r) {
          RoundedAppend(due, r);
          Associative(paid, Rounded(Amounts(due)), [Amount(ToFixed2(r.amount.value))]);
        } else {
          assert due + [] == due && paid + Rounded(Amounts(due)) + [] == paid + Rounded(Amounts(due));
        }
      }
    }
  }

  // ------------------------------------------------------------------ reported against paid

  lemma ToFixed2Plus(x: real, cents: nat)
    requires x >= 0.0
    ensures ToFixed2(x + Amount(cents)) == ToFixed2(x) + cents
  {
    RoundHalfUpIs((x + Amount(cents)) * 100.0, ToFixed2(x) + cents);
  }

  /** The total of some amounts and a late one, against the total of the roundings of those amounts. */
  lemma RoundedAndLate(amounts: seq<real>, late: real)
    requires forall i :: 0 <= i < |amounts| ==> amounts[i] >= 0.0
    requires late >= 0.0
    ensures var difference := ToFixed2(Sum(amounts) + late) - ToFixed2(Sum(Rounded(amounts)));
            && Within(difference, late, (|amounts| + 1) as real / 2.0)
            && (IsWholeCents(late) ==> AbsInt(difference - ToFixed2(late)) <= |amounts| / 2)
            && (IsWholeCents(late) && Rounded(amounts) == amounts ==> difference == ToFixed2(late))
  {
    hide Sum, Rounded;
    var cents := SumOfRounded(amounts);
    ToFixed2Amount(cents);
    if IsWholeCents(late) {
      ToFixed2Plus(Sum(amounts), ToFixed2(late));
      RoundedTotals(amounts);
    }
  }

  /**
   A table of reports, a window, what was distributed in which order, the world it happened in and what
   had been before.
   */
  datatype Settlement = Settlement(table: seq<Report>, window: Window, order: seq<Report>, env: Environment,
                                   world: World, attempts: nat) {
    function Outcome(): (World, bool) {
      DistributeEach(env, world, attempts, order)
    }

    function Due(): seq<Report> {
      DueReports(table, window)
    }

    function Late(): seq<Report> {
      LateReports(table, window)
    }

    function LateAmount(): real {
      Sum(Amounts(Late()))
    }

    /** Cents reported less cents paid. */
    function Difference(): int {
      ReportedCents(table, window) - PaidCents(Outcome().0.tables.runs, window)
    }

    predicate InWholeCents() {
      && (forall i :: 0 <= i < |Due()| ==> IsWholeCents(Due()[i].amount.GetOr(0.0)))
      && (forall i :: 0 <= i < |Late()| ==> IsWholeCents(Late()[i].amount.GetOr(0.0)))
    }

    /**
     All reports due in the window were distributed once, in any order, among whatever else and under any
     failures, and no other completed run is dated in the window.
     */
    ghost predicate Settled() {
      && Disjoint(table) && window.start <= window.end
      && multiset(DueReports(order, window)) == multiset(Due())
      && world.tables.Valid() && PaidTotals(world.tables.runs, window) == []
      && Outcome().1
    }
  }

  /** To distribute every report of the table once, in any order, is enough for that. */
  lemma EveryReportOnce(table: seq<Report>, order: seq<Report>, window: Window)
    requires multiset(order) == multiset(table)
    ensures multiset(DueReports(order, window)) == multiset(DueReports(table, window))
  {
    FilterOfPermutation(order, table, DueIn(window));
  }

  lemma AmountsWithout(s: seq<Report>, k: nat)
    requires k < |s|
    ensures Sum(Amounts(s)) == Sum(Amounts(s[..k] + s[k + 1..])) + s[k].amount.GetOr(0.0)
  {
    hide Sum;
    SumWithout(Amounts(s), k);
    assert Amounts(s)[..k] + Amounts(s)[k + 1..] == Amounts(s[..k] + s[k + 1..]);
  }

  lemma {:induction false} SumOfReorderedAmounts(a: seq<Report>, b: seq<Report>)
    requires multiset(a) == multiset(b)
    ensures Sum(Amounts(a)) == Sum(Amounts(b))
  {
    hide Sum, Amounts;
    if a == [] {
      assert |multiset(b)| == 0;
    } else {
      var k := TakeFirst(a, b);
      SumOfReorderedAmounts(a[1..], b[..k] + b[k + 1..]);
      AmountsWithout(a, 0);
      AmountsWithout(b, k);
      assert a[..0] + a[1..] == a[1..];
    }
  }

  lemma {:induction false} RoundedWholeCents(amounts: seq<real>)
    requires forall i :: 0 <= i < |amounts| ==> IsWholeCents(amounts[i])
    ensures Rounded(amounts) == amounts
  {
  }

  lemma SameMembers<T>(a: seq<T>, b: seq<T>)
    requires multiset(a) == multiset(b)
    ensures |a| == |b| && forall x :: x in a <==> x in b
  {
    assert forall x :: x in a <==> x in multiset(a);
    assert forall x :: x in b <==> x in multiset(b);
    assert |multiset(a)| == |a| && |multiset(b)| == |b|;
  }

  lemma PositiveAmounts(table: seq<Report>, p: Report -> bool)
    requires forall i :: 0 <= i < |table| ==> WellFormed(table[i])
    ensures forall r :: r in Filter(table, p) ==> r.amount.Some? && r.amount.value > 0.0
  {
    hide Filter;
    FilterMembers(table, p);
  }

  /**
   The amounts due, in the order they were distributed: same sum, same number, all positive, and whole
   cents if they were.
   */
  lemma DueInOrder(st: Settlement)
    requires st.Settled()
    ensures var due := DueReports(st.order, st.window);
            && |due| == |st.Due()| && Sum(Amounts(due)) == Sum(Amounts(st.Due()))
            && (forall i :: 0 <= i < |due| ==> Amounts(due)[i] > 0.0)
            && (st.InWholeCents() ==> Rounded(Amounts(due)) == Amounts(due))
  {
    hide Filter, Sum, IsWholeCents, Rounded, DistributeEach, PaidTotals, Tables.Valid;
    var due := DueReports(st.order, st.window);
    SameMembers(due, st.Due());
    SumOfReorderedAmounts(due, st.Due());
    PositiveAmounts(st.table, DueIn(st.window));
    forall i | 0 <= i < |due|
      ensures Amounts(due)[i] > 0.0 && (st.InWholeCents() ==> IsWholeCents(Amounts(due)[i]))
    {
      assert due[i] in st.Due();
    }
    if st.InWholeCents() {
      RoundedWholeCents(Amounts(due));
    }
  }

  lemma SumOfAtMostOne(reports: seq<Report>)
    requires |reports| <= 1
    ensures Sum(Amounts(reports)) == if reports == [] then 0.0 else reports[0].amount.GetOr(0.0)
  {
    if reports != [] {
      SumOfOne(Amounts(reports)[0]);
      assert Amounts(reports) == [Amounts(reports)[0]];
    }
  }

  lemma LateIsPositive(st: Settlement)
    requires st.Settled()
    ensures |st.Late()| <= 1
    ensures if st.Late() == [] then st.LateAmount() == 0.0 else st.LateAmount() == st.Late()[0].amount.GetOr(0.0) > 0.0
    ensures st.InWholeCents() || st.Late() == [] ==> IsWholeCents(st.LateAmount())
  {
    hide Filter, Sum, DistributeEach, PaidTotals, Tables.Valid;
    AtMostOneLate(st.table, st.window);
    SumOfAtMostOne(st.Late());
    PositiveAmounts(st.table, Outlasts(st.window));
    ToFixed2Amount(0);
  }

  lemma ReportedIs(st: Settlement)
    requires st.Settled()
    ensures ReportedCents(st.table, st.window) == ToFixed2(Sum(Amounts(st.Due())) + st.LateAmount())
  {
    hide Filter, Sum, DistributeEach, Tables.Valid, ToFixed2;
    hide RelevantReports, DueReports, LateReports, PaidTotals, WellFormed;
    ReportedIsDueAndLate(st.table, st.window);
  }

  lemma PaidIs(st: Settlement)
    requires st.Settled()
    ensures PaidCents(st.Outcome().0.tables.runs, st.window)
         == ToFixed2(Sum(Rounded(Amounts(DueReports(st.order, st.window)))))
  {
    hide Filter, Sum, DistributeEach, Tables.Valid, ToFixed2, Rounded;
    hide DueReports, Disjoint, CompletedTotals, RelevantRuns;
    EachReport(st.env, st.world, st.attempts, st.order, st.window);
    var due := Amounts(DueReports(st.order, st.window));
    assert [] + Rounded(due) == Rounded(due);
  }

  lemma DifferenceIs(st: Settlement)
    requires st.Settled()
    ensures var due := Amounts(DueReports(st.order, st.window));
            st.Difference() == ToFixed2(Sum(due) + st.LateAmount()) - ToFixed2(Sum(Rounded(due)))
  {
    hide Settlement.Settled, Settlement.Due, Settlement.LateAmount, Settlement.Outcome;
    hide Sum, ToFixed2, Rounded, DueReports, ReportedCents, PaidCents;
    DueInOrder(st);
    ReportedIs(st);
    PaidIs(st);
  }

  lemma NoCents()
    ensures ToFixed2(0.0) == 0 && IsWholeCents(0.0)
  {
    RoundHalfUpIs(0.0, 0);
  }

  lemma NothingLate(difference: int, n: nat)
    ensures AbsInt(difference) <= n / 2 ==> Within(difference, 0.0, n as real / 2.0)
  {
  }

  /**
   Reported and paid differ by the report, if there is one, whose period goes on after the window: up to half
   a cent for each report due in the window and for that one, up to floor(n/2) cents if that one is in
   whole cents or there is none, and exactly if all are in whole cents.
   */
  lemma ReportedMatchesPaid(st: Settlement)
    requires st.Settled()
    ensures |st.Late()| <= 1
    ensures Within(st.Difference(), st.LateAmount(), (|st.Due()| + |st.Late()|) as real / 2.0)
    ensures IsWholeCents(st.LateAmount()) ==> AbsInt(st.Difference() - ToFixed2(st.LateAmount())) <= |st.Due()| / 2
    ensures st.Late() == [] ==> st.LateAmount() == 0.0 && AbsInt(st.Difference()) <= |st.Due()| / 2
    ensures st.InWholeCents() ==> st.Difference() == ToFixed2(st.LateAmount())
  {
    hide Settlement.Settled, Settlement.Due, Settlement.Late, Settlement.LateAmount;
    hide Settlement.Difference, Settlement.InWholeCents;
    hide Sum, Rounded, IsWholeCents, DueReports, ToFixed2, Within;
    DifferenceIs(st);
    DueInOrder(st);
    LateIsPositive(st);
    RoundedAndLate(Amounts(DueReports(st.order, st.window)), st.LateAmount());
    NoCents();
    NothingLate(st.Difference(), |st.Due()|);
  }

  /**
   When the quick check finds the window balanced: always, if no report outlasts the window and at most three are
   due; only if what outlasts it is no more than rounding can hide; and in whole cents exactly if that is
   at most one cent.
   */
  lemma BalancedWhen(st: Settlement)
    requires st.Settled()
    ensures st.Late() == [] && |st.Due()| <= 3 ==> AbsInt(st.Difference()) <= 1
    ensures AbsInt(st.Difference()) <= 1 ==> st.LateAmount() * 100.0 <= 1.0 + (|st.Due()| + |st.Late()|) as real / 2.0
    ensures st.InWholeCents() ==> (AbsInt(st.Difference()) <= 1 <==> st.LateAmount() <= 0.01)
  {
    ReportedMatchesPaid(st);
    LateIsPositive(st);
    hide Settlement.Settled, Settlement.Due, Settlement.Late, Settlement.LateAmount;
    hide Settlement.Difference, Settlement.InWholeCents;
  }
}
