/**
 Which windows the quick check finds balanced: every window among back-to-back periods but the last is off,
 and otherwise three reports is as many as rounding can never unbalance.
 */
module BalancedWindows {
  import opened Wrappers
  import opened Filters
  import opened Money
  import opened Reports
  import opened Distribution
  import opened Reconciliation
  import opened EndToEnd

  // ------------------------------------------------------------------ a world without failures

  ghost predicate IsReachable(table: seq<Report>) {
    exists owners, submissions :: table == SubmitAll(owners, submissions)
  }

  /** Nothing fails, and one holder has everything. */
  function CalmEnvironment(): Environment {
    Environment(_ => Works, _ => [BalanceRow("h", 1.0)])
  }

  lemma CalmRetry(w: World, op: Operation)
    ensures Retry(CalmEnvironment(), w, op, 1).1
  {
  }

  lemma {:induction false} CalmPersist(w: World, runId: nat, items: seq<Item>)
    ensures Persist(CalmEnvironment(), w, runId, items, 1).1.None?
    decreases |items|
  {
    hide Retry;
    if items != [] {
      CalmRetry(w, CreatePayout(runId, items[0]));
      CalmPersist(Retry(CalmEnvironment(), w, CreatePayout(runId, items[0]), 1).0, runId, items[1..]);
    }
  }

  lemma CalmRows(w: World, offeringId: string, date: int, revenue: real, rows: seq<BalanceRow>)
    requires rows == [BalanceRow("h", 1.0)]
    ensures DistributeRows(CalmEnvironment(), w, 1, offeringId, date, revenue, rows).1.Ok?
  {
    hide Retry, Persist, Items, Sum;
    SumOfOne(1.0);
    assert Values(rows) == [1.0];
    var op := CreateRun(offeringId, ToFixed2(revenue), date);
    CalmRetry(w, op);
    var w1 := Retry(CalmEnvironment(), w, op, 1).0;
    CalmPersist(w1, w1.tables.runs[|w1.tables.runs| - 1].id, Items(rows, revenue));
  }

  lemma CalmDistribute(w: World, offeringId: string, period: Period, revenue: real)
    requires offeringId != "" && revenue > 0.0
    ensures Distribute(CalmEnvironment(), w, 1, offeringId, Some(period), revenue).1.Ok?
  {
    hide Retry, DistributeRows;
    CalmRetry(w, FetchBalances);
    var w1 := Retry(CalmEnvironment(), w, FetchBalances, 1).0;
    CalmRows(w1, offeringId, period.end, revenue, CalmEnvironment().balances(w1.calls - 1));
  }

  lemma {:induction false} CalmEach(w: World, reports: seq<Report>)
    requires forall i :: 0 <= i < |reports| ==> WellFormed(reports[i]) && reports[i].offeringId != ""
    ensures DistributeEach(CalmEnvironment(), w, 1, reports).1
  {
    hide Distribute, Complete;
    if reports != [] {
      var n := |reports| - 1;
      CalmEach(w, reports[..n]);
      assert WellFormed(reports[n]);
      var w1 := DistributeEach(CalmEnvironment(), w, 1, reports[..n]).0;
      CalmDistribute(w1, reports[n].offeringId, PeriodOf(reports[n]).value, reports[n].amount.value);
    }
  }

  lemma NothingPaid(w: Window)
    ensures PaidTotals([], w) == []
  {
  }

  /** Every report of the table is distributed once, in order, and nothing had been before. */
  function CalmSettlement(table: seq<Report>, window: Window): Settlement {
    Settlement(table, window, table, CalmEnvironment(), World(Tables([], []), 0), 1)
  }

  lemma CalmSettles(table: seq<Report>, window: Window)
    requires Disjoint(table) && window.start <= window.end
    requires forall i :: 0 <= i < |table| ==> table[i].offeringId != ""
    ensures CalmSettlement(table, window).Settled()
  {
    hide DistributeEach, DueReports, WellFormed;
    CalmEach(World(Tables([], []), 0), table);
    NothingPaid(window);
  }

  // ------------------------------------------------------------------ back-to-back periods

  /** Where the i-th of the periods between increasing bounds lies, seen from the k-th as a window. */
  lemma DuePosition(r: Report, offeringId: string, bounds: seq<int>, i: nat, k: nat)
    requires Increasing(bounds) && i < |bounds| - 1 && k < |bounds| - 1
    requires r.offeringId == offeringId && r.start == Some(bounds[i]) && r.end == Some(bounds[i + 1])
    ensures Outlasts(Window(offeringId, bounds[k], bounds[k + 1]))(r) <==> i == k + 1
  {
  }

  lemma BackToBackLate(table: seq<Report>, offeringId: string, bounds: seq<int>, k: nat)
    requires |bounds| == |table| + 1 && Increasing(bounds) && k + 1 < |table|
    requires forall i :: 0 <= i < |table| ==>
               table[i].offeringId == offeringId
               && table[i].start == Some(bounds[i]) && table[i].end == Some(bounds[i + 1])
    ensures LateReports(table, Window(offeringId, bounds[k], bounds[k + 1])) == [table[k + 1]]
  {
    hide Filter, Increasing, Outlasts;
    var w := Window(offeringId, bounds[k], bounds[k + 1]);
    forall i | 0 <= i < |table|
      ensures Outlasts(w)(table[i]) <==> k + 1 <= i < k + 2
    {
      DuePosition(table[i], offeringId, bounds, i, k);
    }
    FilterSlice(table, Outlasts(w), k + 1, k + 2);
  }

  /** In whole cents, every report has a whole number of them. */
  lemma WholeCentsThroughout(st: Settlement)
    requires forall i :: 0 <= i < |st.table| ==> IsWholeCents(st.table[i].amount.GetOr(0.0))
    ensures st.InWholeCents()
  {
    hide Filter, IsWholeCents;
    FilterMembers(st.table, DueIn(st.window));
    FilterMembers(st.table, Outlasts(st.window));
    assert forall r :: r in st.table ==> IsWholeCents(r.amount.GetOr(0.0));
    assert forall i :: 0 <= i < |st.Due()| ==> st.Due()[i] in st.Due();
    assert forall i :: 0 <= i < |st.Late()| ==> st.Late()[i] in st.Late();
  }

  /**
   Among back-to-back periods with positive amounts, every window that is one of them, but the last, is off by the
   report that follows it: however the reports were distributed, that is the late one, and in whole cents the
   difference is its amount.
   */
  lemma EveryWindowIsOff(owners: map<string, string>, offeringId: string, amounts: seq<real>, bounds: seq<int>,
                         k: nat, st: Settlement)
    requires |bounds| == |amounts| + 1 && Increasing(bounds) && offeringId in owners && k + 1 < |amounts|
    requires forall i :: 0 <= i < |amounts| ==> amounts[i] > 0.0
    requires st.table == SubmitAll(owners, BackToBack(offeringId, owners[offeringId], amounts, bounds))
    requires st.window == Window(offeringId, bounds[k], bounds[k + 1]) && st.Settled()
    ensures |st.table| == |amounts| && st.Late() == [st.table[k + 1]] && st.LateAmount() == amounts[k + 1]
    ensures (forall i :: 0 <= i < |amounts| ==> IsWholeCents(amounts[i]))
            ==> st.Difference() == ToFixed2(amounts[k + 1])
  {
    hide SubmitAll, Increasing;
    hide Settlement.Settled, Settlement.Difference, Settlement.LateAmount, Settlement.InWholeCents;
    hide IsWholeCents, ToFixed2, LateReports, DueReports;
    BackToBackAccepted(owners, offeringId, amounts, bounds);
    BackToBackLate(st.table, offeringId, bounds, k);
    LateIsPositive(st);
    if forall i :: 0 <= i < |amounts| ==> IsWholeCents(amounts[i]) {
      WholeCentsThroughout(st);
      ReportedMatchesPaid(st);
    }
  }

  /** And there is such a settlement, whatever the amounts and bounds. */
  lemma BackToBackSettles(owners: map<string, string>, offeringId: string, amounts: seq<real>, bounds: seq<int>, k: nat)
    requires |bounds| == |amounts| + 1 && Increasing(bounds) && k < |amounts|
    requires offeringId in owners && offeringId != ""
    requires forall i :: 0 <= i < |amounts| ==> amounts[i] > 0.0
    ensures var table := SubmitAll(owners, BackToBack(offeringId, owners[offeringId], amounts, bounds));
            IsReachable(table) && CalmSettlement(table, Window(offeringId, bounds[k], bounds[k + 1])).Settled()
  {
    hide SubmitAll, Settlement.Settled;
    var submissions := BackToBack(offeringId, owners[offeringId], amounts, bounds);
    BackToBackAccepted(owners, offeringId, amounts, bounds);
    ReachableTablesDisjoint(owners, submissions);
    CalmSettles(SubmitAll(owners, submissions), Window(offeringId, bounds[k], bounds[k + 1]));
  }

  // ------------------------------------------------------------------ three reports

  function Halves(n: nat): seq<real> {
    seq(n, _ => 0.005)
  }

  function Days(n: nat): seq<int> {
    seq(n + 1, i => i)
  }

  /** The rows of n reports of half a cent, back to back. */
  function HalfCentReports(n: nat): seq<Report> {
    RowsOf(BackToBack("o", "i", Halves(n), Days(n)))
  }

  function HalfCentSettlement(n: nat): Settlement {
    CalmSettlement(HalfCentReports(n), Window("o", 0, n))
  }

  lemma HalfCentsReachable(n: nat)
    ensures HalfCentReports(n) == SubmitAll(map["o" := "i"], BackToBack("o", "i", Halves(n), Days(n)))
    ensures IsReachable(HalfCentReports(n)) && Disjoint(HalfCentReports(n))
  {
    var owners := map["o" := "i"];
    BackToBackAccepted(owners, "o", Halves(n), Days(n));
    ReachableTablesDisjoint(owners, BackToBack("o", "i", Halves(n), Days(n)));
    hide SubmitAll, Disjoint, BackToBack, RowsOf;
  }

  lemma HalfCentsDue(n: nat)
    ensures var st := HalfCentSettlement(n);
            st.Due() == HalfCentReports(n) && st.Late() == []
  {
    var st := HalfCentSettlement(n);
    hide Filter;
    FilterAll(st.table, DueIn(st.window));
    FilterNone(st.table, Outlasts(st.window));
  }

  lemma HalfCentsOffering(n: nat)
    ensures forall i :: 0 <= i < |HalfCentReports(n)| ==> HalfCentReports(n)[i].offeringId == "o"
  {
  }

  lemma HalfCentsSettled(n: nat)
    ensures HalfCentSettlement(n).Settled()
  {
    hide SubmitAll, HalfCentReports, Settlement.Settled;
    HalfCentsReachable(n);
    HalfCentsOffering(n);
    CalmSettles(HalfCentReports(n), Window("o", 0, n));
  }

  lemma HalfCentsOff(n: nat)
    ensures HalfCentSettlement(n).Difference() == -(n / 2)
  {
    hide Settlement.Settled, Settlement.Difference, Settlement.Late, Settlement.LateAmount;
    hide DistributeEach, Sum, Rounded, ToFixed2, Filter;
    HalfCentsSettled(n);
    HalfCentsDue(n);
    DifferenceIs(HalfCentSettlement(n));
    assert Amounts(HalfCentReports(n)) == Halves(n);
    LateIsPositive(HalfCentSettlement(n));
    RoundedTotalsAttained(n);
  }

  function Units(n: nat): seq<real> {
    seq(n, _ => 1.0)
  }

  /** The rows of n+1 reports of one unit, back to back; the last begins where the window ends. */
  function UnitSettlement(n: nat): Settlement {
    CalmSettlement(RowsOf(BackToBack("o", "i", Units(n + 1), Days(n + 1))), Window("o", 0, n))
  }

  lemma UnitsSettled(n: nat)
    ensures UnitSettlement(n).Settled() && IsReachable(UnitSettlement(n).table)
  {
    hide SubmitAll, Settlement.Settled;
    var owners := map["o" := "i"];
    BackToBackAccepted(owners, "o", Units(n + 1), Days(n + 1));
    ReachableTablesDisjoint(owners, BackToBack("o", "i", Units(n + 1), Days(n + 1)));
    CalmSettles(UnitSettlement(n).table, Window("o", 0, n));
  }

  lemma OneUnit()
    ensures ToFixed2(1.0) == 100 && IsWholeCents(1.0)
  {
    RoundHalfUpIs(100.0, 100);
  }

  lemma UnitsDueAndLate(n: nat)
    ensures var st := UnitSettlement(n);
            st.Due() == st.table[..n] && st.Late() == [st.table[n]] && st.InWholeCents()
  {
    hide Filter, IsWholeCents;
    var st := UnitSettlement(n);
    FilterSlice(st.table, DueIn(st.window), 0, n);
    FilterSlice(st.table, Outlasts(st.window), n, n + 1);
    OneUnit();
    WholeCentsThroughout(st);
  }

  /** The difference is the late unit. */
  lemma UnitsOff(n: nat)
    ensures UnitSettlement(n).Difference() == 100
  {
    hide Settlement.Settled, Settlement.Difference, Settlement.InWholeCents, Settlement.LateAmount;
    hide ToFixed2, IsWholeCents;
    UnitsSettled(n);
    UnitsDueAndLate(n);
    LateIsPositive(UnitSettlement(n));
    ReportedMatchesPaid(UnitSettlement(n));
    OneUnit();
  }

  /**
   Over all reachable tables, windows, orders and failures: a window with n reports due and m late is balanced
   whatever the amounts exactly if nothing is late and at most three are due.
   */
  lemma BalancedWhateverTheAmounts(n: nat, m: nat)
    requires m <= 1
    ensures (forall st: Settlement :: st.Settled() && IsReachable(st.table) && |st.Due()| == n && |st.Late()| == m
                                      ==> AbsInt(st.Difference()) <= 1)
       <==> n <= 3 && m == 0
  {
    hide Settlement.Settled, Settlement.Due, Settlement.Late, Settlement.Difference, IsReachable;
    if n <= 3 && m == 0 {
      forall st: Settlement | st.Settled() && IsReachable(st.table) && |st.Due()| == n && |st.Late()| == m
        ensures AbsInt(st.Difference()) <= 1
      {
        BalancedWhen(st);
      }
    } else if m == 0 {
      HalfCentsReachable(n);
      HalfCentsSettled(n);
      HalfCentsDue(n);
      HalfCentsOff(n);
    } else {
      UnitsSettled(n);
      UnitsDueAndLate(n);
      UnitsOff(n);
    }
  }
}
