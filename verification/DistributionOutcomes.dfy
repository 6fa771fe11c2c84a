/**
 When a distribution succeeds, whom it pays and which error it ends with otherwise, told from its arguments and
 from what happens to its calls, number by number.
 */
module DistributionOutcomes {
  import opened Wrappers
  import opened Money
  import opened Proration
  import opened Distribution

  // ------------------------------------------------------------------ payouts

  /** How many of `items` payouts succeed one after another, if the first call for them is number `from`. */
  function StoredCount(env: Environment, from: nat, items: nat, attempts: nat): (stored: nat)
    ensures stored <= items
    decreases items
  {
    if items == 0 then 0
    else
      match FirstWorking(env, from, attempts)
      case None => 0
      case Some(call) => 1 + StoredCount(env, call + 1, items - 1, attempts)
  }

  /** The payouts fail for good at the first item none of whose calls works. */
  lemma {:induction false} PersistOutcome(env: Environment, w: World, runId: nat, items: seq<Item>, attempts: nat)
    ensures var stored := StoredCount(env, w.calls, |items|, attempts);
            Persist(env, w, runId, items, attempts).1 == if stored == |items| then None else Some(stored)
    decreases |items|
  {
    hide Retry;
    if items != [] {
      var op := CreatePayout(runId, items[0]);
      RetryExactly(env, w, op, attempts);
      PersistOutcome(env, Retry(env, w, op, attempts).0, runId, items[1..], attempts);
    }
  }

  // ------------------------------------------------------------------ from the balances on

  /** Balances that can be distributed over: there are some, and their total is positive. */
  predicate Payable(rows: seq<BalanceRow>) {
    rows != [] && Sum(Values(rows)) > 0.0
  }

  /** The run is created, and then each of `n` payouts. */
  ghost predicate AllStored(env: Environment, from: nat, n: nat, attempts: nat) {
    && FirstWorking(env, from, attempts).Some?
    && StoredCount(env, FirstWorking(env, from, attempts).value + 1, n, attempts) == n
  }

  /** Each outcome, from the balances on, exactly when it is due. */
  lemma RowsOutcome(env: Environment, w: World, attempts: nat,
                    offeringId: string, date: int, revenue: real, rows: seq<BalanceRow>)
    ensures var result := DistributeRows(env, w, attempts, offeringId, date, revenue, rows).1;
            var created := FirstWorking(env, w.calls, attempts);
            && (result == Err(NoBalances) <==> rows == [])
            && (result == Err(TotalNotPositive) <==> rows != [] && Sum(Values(rows)) <= 0.0)
            && (result == Err(RunNotCreated) <==> Payable(rows) && created.None?)
            && (result.Ok? <==> Payable(rows) && AllStored(env, w.calls, |rows|, attempts))
            && (result.Err? && result.error.PayoutNotCreated? <==>
                  Payable(rows) && created.Some? && !AllStored(env, w.calls, |rows|, attempts))
            && (result.Err? && result.error.PayoutNotCreated? ==>
                  var stored := StoredCount(env, created.value + 1, |rows|, attempts);
                  stored < |rows| && result.error.investorId == rows[stored].investorId)
  {
    hide Retry, Persist, Payouts, Sum, FirstWorking, StoredCount;
    if Payable(rows) {
      var op := CreateRun(offeringId, ToFixed2(revenue), date);
      RetryExactly(env, w, op, attempts);
      var (w1, created) := Retry(env, w, op, attempts);
      if created {
        PersistOutcome(env, w1, w1.tables.runs[|w1.tables.runs| - 1].id, Items(rows, revenue), attempts);
      }
    }
  }

  /** Who is paid: every row of the balances, in order, the amount the arithmetic gives it. */
  lemma RowsPaid(env: Environment, w: World, attempts: nat,
                 offeringId: string, date: int, revenue: real, rows: seq<BalanceRow>)
    requires DistributeRows(env, w, attempts, offeringId, date, revenue, rows).1.Ok?
    ensures var d := DistributeRows(env, w, attempts, offeringId, date, revenue, rows).1.value;
            && Sum(Values(rows)) > 0.0 && |d.payouts| == |rows|
            && (forall i :: 0 <= i < |rows| ==>
                  d.payouts[i] == Item(rows[i].investorId, Payouts(Values(rows), revenue)[i]))
            && d.run == Run(d.run.id, offeringId, Amount(ToFixed2(revenue)), date, Processing)
  {
    hide Retry, Persist, Payouts, Sum;
  }

  /** The row of an investor's payout. */
  predicate IsPayoutOf(p: Payout, runId: nat, rows: seq<BalanceRow>, revenue: real, i: nat)
    requires i < |rows| && Sum(Values(rows)) > 0.0
  {
    p.runId == runId && p.investorId == rows[i].investorId && p.cents == Payouts(Values(rows), revenue)[i]
  }

  /**
   What a successful distribution stores, row by row, if none of its calls takes effect and fails nevertheless: all
   there was, one run after it, and one payout under that run for each row of the balances, in order.
   */
  lemma StoredRowByRow(env: Environment, w: World, attempts: nat,
                       offeringId: string, date: int, revenue: real, rows: seq<BalanceRow>)
    requires CleanDistribution(env, w, attempts, offeringId, date, revenue, rows)
    requires DistributeRows(env, w, attempts, offeringId, date, revenue, rows).1.Ok?
    ensures var before, after := w.tables, DistributeRows(env, w, attempts, offeringId, date, revenue, rows).0.tables;
            var n, m := |before.runs|, |before.payouts|;
            && after.runs == before.runs + [Run(n, offeringId, Amount(ToFixed2(revenue)), date, Processing)]
            && |after.payouts| == m + |rows| && after.payouts[..m] == before.payouts
            && Sum(Values(rows)) > 0.0
            && forall i :: 0 <= i < |rows| ==> IsPayoutOf(after.payouts[m..][i], n, rows, revenue, i)
  {
    hide DistributeRows, Sum, Payouts, CleanDistribution;
    DistributeWithoutSideEffects(env, w, attempts, offeringId, date, revenue, rows);
    RowsPaid(env, w, attempts, offeringId, date, revenue, rows);
    var (w', result) := DistributeRows(env, w, attempts, offeringId, date, revenue, rows);
    assert w'.tables.payouts[|w.tables.payouts|..] == PayoutRows(|w.tables.runs|, result.value.payouts);
  }

  lemma {:induction false} CopiedAreItems(runId: nat, items: seq<Item>, copies: seq<nat>)
    requires |copies| <= |items|
    ensures forall p :: p in Copied(runId, items, copies) ==>
              exists i :: 0 <= i < |items| && p == Payout(runId, items[i].investorId, items[i].cents)
  {
    if copies != [] {
      CopiedAreItems(runId, items[1..], copies[1..]);
      forall p | p in Copied(runId, items[1..], copies[1..])
        ensures exists i :: 0 <= i < |items| && p == Payout(runId, items[i].investorId, items[i].cents)
      {
        var i :| 0 <= i < |items[1..]| && p == Payout(runId, items[1..][i].investorId, items[1..][i].cents);
        assert items[1..][i] == items[i + 1];
      }
    }
  }

  /** The payout is one row's share, under this run. */
  ghost predicate IsSomePayout(p: Payout, runId: int, rows: seq<BalanceRow>, revenue: real) {
    Sum(Values(rows)) > 0.0
    && exists i :: 0 <= i < |rows| && rows[i].investorId == p.investorId && p.runId == runId
                   && p.cents == Payouts(Values(rows), revenue)[i]
  }

  /** Whatever fails, nothing stored is lost, and a payout that is added is one row's share, under the last run. */
  lemma AddedArePayouts(env: Environment, w: World, attempts: nat,
                        offeringId: string, date: int, revenue: real, rows: seq<BalanceRow>)
    requires w.tables.Valid()
    ensures var before, after := w.tables, DistributeRows(env, w, attempts, offeringId, date, revenue, rows).0.tables;
            && before.runs <= after.runs && before.payouts <= after.payouts
            && forall p :: p in after.payouts[|before.payouts|..] ==>
                 |after.runs| > |before.runs| && IsSomePayout(p, |after.runs| - 1, rows, revenue)
  {
    hide DistributeRows, Sum, Payouts, Copied, CopyCounts;
    var copies := DistributeUnderFaults(env, w, attempts, offeringId, date, revenue, rows);
    var after := DistributeRows(env, w, attempts, offeringId, date, revenue, rows).0.tables;
    forall p | p in after.payouts[|w.tables.payouts|..]
      ensures |after.runs| > |w.tables.runs| && IsSomePayout(p, |after.runs| - 1, rows, revenue)
    {
      var items := Items(rows, revenue);
      CopiedAreItems(|after.runs| - 1, items, copies);
      assert after.payouts[|w.tables.payouts|..] == Copied(|after.runs| - 1, items, copies);
      var i :| 0 <= i < |items| && p == Payout(|after.runs| - 1, items[i].investorId, items[i].cents);
      assert rows[i].investorId == p.investorId;
    }
  }

  // ------------------------------------------------------------------ the whole distribution

  /** The arguments pass the checks. */
  predicate Acceptable(offeringId: string, period: Option<Period>, revenue: real) {
    offeringId != "" && revenue > 0.0 && period.Some?
  }

  /** Fetching balances stores nothing. */
  lemma FetchStoresNothing(env: Environment, w: World, attempts: nat)
    ensures Retry(env, w, FetchBalances, attempts).0.tables == w.tables
  {
    hide Retry;
    var n := RetryInserts(env, w, FetchBalances, attempts);
    RepeatedFetch(w.tables, n);
  }

  /**
   Each early outcome exactly when it is due, without any effect on the tables; and past them the distribution goes on
   with the balances that the first call that works returns, dated at the end of the period.
   */
  lemma DistributeOutcome(env: Environment, w: World, attempts: nat,
                          offeringId: string, period: Option<Period>, revenue: real)
    ensures var (w', result) := Distribute(env, w, attempts, offeringId, period, revenue);
            var fetched := FirstWorking(env, w.calls, attempts);
            && (result == Err(OfferingIdRequired) <==> offeringId == "")
            && (result == Err(RevenueNotPositive) <==> offeringId != "" && revenue <= 0.0)
            && (result == Err(PeriodRequired) <==> offeringId != "" && revenue > 0.0 && period.None?)
            && (result == Err(BalancesUnavailable) <==> Acceptable(offeringId, period, revenue) && fetched.None?)
            && (!Acceptable(offeringId, period, revenue) ==> w' == w)
            && (fetched.None? ==> w'.tables == w.tables)
            && (Acceptable(offeringId, period, revenue) && fetched.Some? ==>
                  (w', result) == DistributeRows(env, World(w.tables, fetched.value + 1), attempts, offeringId,
                                                 period.value.end, revenue, env.balances(fetched.value)))
  {
    hide Retry, FirstWorking, DistributeRows;
    RetryExactly(env, w, FetchBalances, attempts);
    FetchStoresNothing(env, w, attempts);
    if Acceptable(offeringId, period, revenue) && FirstWorking(env, w.calls, attempts).Some? {
      var call := FirstWorking(env, w.calls, attempts).value;
      RowsOutcome(env, World(w.tables, call + 1), attempts, offeringId, period.value.end, revenue, env.balances(call));
    }
  }

  /** The run and the payouts are for these balances, all of them, and each in proportion. */
  ghost predicate PaysExactly(d: Distributed, rows: seq<BalanceRow>,
                              offeringId: string, period: Option<Period>, revenue: real)
  {
    && Sum(Values(rows)) > 0.0 && revenue > 0.0 && period.Some?
    && |d.payouts| == |rows|
    && (forall i :: 0 <= i < |rows| ==> d.payouts[i].investorId == rows[i].investorId)
    && (forall m: nat :: IsFirstLargest(Values(rows), m) ==>
          IsFairSplit(Cents(d.payouts), Values(rows), revenue, m))
    && d.run == Run(d.run.id, offeringId, Amount(ToFixed2(revenue)), period.value.end, Processing)
  }

  lemma PaidExactly(env: Environment, w: World, attempts: nat,
                    offeringId: string, period: Period, revenue: real, rows: seq<BalanceRow>)
    requires DistributeRows(env, w, attempts, offeringId, period.end, revenue, rows).1.Ok? && revenue > 0.0
    ensures var d := DistributeRows(env, w, attempts, offeringId, period.end, revenue, rows).1.value;
            PaysExactly(d, rows, offeringId, Some(period), revenue)
  {
    hide DistributeRows, Payouts, Sum, IsFirstLargest, IsFairSplit;
    RowsPaid(env, w, attempts, offeringId, period.end, revenue, rows);
    var d := DistributeRows(env, w, attempts, offeringId, period.end, revenue, rows).1.value;
    assert Cents(d.payouts) == Payouts(Values(rows), revenue);
    forall m: nat | IsFirstLargest(Values(rows), m)
      ensures IsFairSplit(Cents(d.payouts), Values(rows), revenue, m)
    {
      PayoutsExactly(Values(rows), revenue, Cents(d.payouts), m);
    }
  }

  /**
   A distribution that succeeds pays the balances that its first call that works returned: one payout for each row, in
   order, to that row's investor, of the part of the revenue that the balance is of their total, to the nearest cent;
   but the first of the largest balances gets what makes the sum the rounded revenue.
   */
  lemma FetchedArePaid(env: Environment, w: World, attempts: nat,
                       offeringId: string, period: Option<Period>, revenue: real)
    requires Distribute(env, w, attempts, offeringId, period, revenue).1.Ok?
    ensures var d := Distribute(env, w, attempts, offeringId, period, revenue).1.value;
            exists c :: && w.calls <= c < w.calls + attempts && env.faults(c) == Works
                        && (forall b :: w.calls <= b < c ==> env.faults(b) != Works)
                        && PaysExactly(d, env.balances(c), offeringId, period, revenue)
  {
    hide Retry, FirstWorking, DistributeRows, Distribute, PaysExactly;
    DistributeOutcome(env, w, attempts, offeringId, period, revenue);
    var c := FirstWorking(env, w.calls, attempts).value;
    PaidExactly(env, World(w.tables, c + 1), attempts, offeringId, period.value, revenue, env.balances(c));
  }
}
