/**
 `DistributionEngine` and `DistributionRepository` as the program writes them: fields, loops and an
 array corrected in place.  Every method is tied to its specification in `Distribution`.
 */
module DistributionService {
  import opened Wrappers
  import opened Money
  import opened Proration
  import D = Distribution
  import opened Distribution

  /** The repository, with the world's failures built in. */
  class DistributionRepository {
    const env: Environment
    var runs: seq<Run>
    var payouts: seq<Payout>
    var calls: nat

    constructor (env: Environment)
      ensures this.env == env && State() == D.World(Tables([], []), 0)
    {
      this.env, runs, payouts, calls := env, [], [], 0;
    }

    function State(): World
      reads this
    {
      D.World(Tables(runs, payouts), calls)
    }

    /** One call of the function handed to `withRetry`. */
    method Call(op: Operation) returns (ok: bool)
      modifies this
      ensures (State(), ok) == Perform(env, old(State()), op)
    {
      var fault := env.faults(calls);
      calls := calls + 1;
      if fault != FailsBefore {
        match op {
          case FetchBalances =>
          case CreateRun(offeringId, cents, date) =>
            runs := runs + [Run(|runs|, offeringId, Amount(cents), date, Processing)];
          case CreatePayout(runId, item) =>
            payouts := payouts + [Payout(runId, item.investorId, item.cents)];
        }
      }
      ok := fault == Works;
    }
  }

  function Shifted(r: (World, Option<nat>), i: nat): (World, Option<nat>) {
    (r.0, if r.1.None? then None else Some(r.1.value + i))
  }

  lemma PersistOne(env: Environment, w: World, runId: nat, items: seq<Item>, attempts: nat, i: nat)
    requires items != []
    ensures var (w', ok) := Retry(env, w, CreatePayout(runId, items[0]), attempts);
            var all := Shifted(Persist(env, w, runId, items, attempts), i);
            if ok then all == Shifted(Persist(env, w', runId, items[1..], attempts), i + 1) else all == (w', Some(i))
  {
    hide Retry;
  }

  lemma PersistNone(env: Environment, w: World, runId: nat, attempts: nat)
    ensures Persist(env, w, runId, [], attempts) == (w, None)
  {
  }

  class DistributionEngine {
    const repo: DistributionRepository
    const maxRetries: int

    constructor (repo: DistributionRepository, maxRetries: int := 3)
      ensures this.repo == repo && this.maxRetries == maxRetries
    {
      this.repo, this.maxRetries := repo, maxRetries;
    }

    function Attempts(): nat {
      if maxRetries < 0 then 0 else maxRetries
    }

    method WithRetry(op: Operation) returns (ok: bool)
      modifies repo
      ensures (repo.State(), ok) == Retry(repo.env, old(repo.State()), op, Attempts())
    {
      var attempt := 1;
      while attempt <= maxRetries
        invariant 1 <= attempt <= Attempts() + 1
        invariant Retry(repo.env, old(repo.State()), op, Attempts())
               == Retry(repo.env, repo.State(), op, Attempts() + 1 - attempt)
      {
        ok := repo.Call(op);
        if ok {
          return;
        }
        attempt := attempt + 1;
      }
      ok := false;
    }

    method LargestIndex(rawShares: seq<real>) returns (maxIdx: nat)
      requires rawShares != []
      ensures maxIdx == FirstLargest(rawShares)
    {
      maxIdx := 0;
      for i := 1 to |rawShares|
        invariant maxIdx == FirstLargest(rawShares[..i])
      {
        assert rawShares[..i + 1][..i] == rawShares[..i];
        if rawShares[i] > rawShares[maxIdx] {
          maxIdx := i;
        }
      }
      assert rawShares[..|rawShares|] == rawShares;
    }

    method AbsorbDifference(rawShares: seq<real>, rounded: array<int>, revenue: real)
      requires rawShares != [] && rounded[..] == Provisional(rawShares) && revenue > 0.0
      modifies rounded
      ensures rounded[..] == AdjustedTo(rawShares, ToFixed2(revenue))
    {
      hide Provisional, FirstLargest, RoundHalfUp;
      var roundedSum := 0;
      for i := 0 to rounded.Length
        invariant roundedSum == SumCents(rounded[..i])
      {
        assert rounded[..i + 1][..i] == rounded[..i];
        roundedSum := roundedSum + rounded[i];
      }
      assert rounded[..rounded.Length] == rounded[..];

      var diff := RoundHalfUp((revenue - Amount(roundedSum)) * 100.0);
      RoundHalfUpIs(revenue * 100.0, diff + roundedSum);
      if Abs(Amount(diff)) >= 0.01 {
        var maxIdx := LargestIndex(rawShares);
        RoundHalfUpIs((Amount(rounded[maxIdx]) + Amount(diff)) * 100.0, rounded[maxIdx] + diff);
        rounded[maxIdx] := RoundHalfUp((Amount(rounded[maxIdx]) + Amount(diff)) * 100.0);
      }
    }

    /** Shares, rounding and the correction of the largest share, in place. */
    method Round(rows: seq<BalanceRow>, totalBalance: real, revenue: real) returns (rounded: array<int>)
      requires totalBalance == Sum(Values(rows)) > 0.0 && revenue > 0.0
      ensures fresh(rounded)
      ensures rounded[..] == Payouts(Values(rows), revenue)
    {
      var n := |rows|;
      var rawShares := seq(n, i requires 0 <= i < n => Share(rows[i].balance, totalBalance, revenue));
      ghost var raw := RawShares(Values(rows), revenue);
      forall i | 0 <= i < n
        ensures rawShares[i] == raw[i]
      {
        assert Values(rows)[i] == rows[i].balance;
      }
      assert rawShares == raw;
      rounded := new int[n](i requires 0 <= i < n => RoundHalfUp(rawShares[i] * 100.0));
      assert rounded[..] == Provisional(rawShares);
      AbsorbDifference(rawShares, rounded, revenue);
    }

    method TotalBalance(rows: seq<BalanceRow>) returns (total: real)
      ensures total == Sum(Values(rows))
    {
      total := 0.0;
      for i := 0 to |rows|
        invariant total == Sum(Values(rows)[..i])
      {
        assert Values(rows)[..i + 1][..i] == Values(rows)[..i];
        total := total + rows[i].balance;
      }
      assert Values(rows)[..|rows|] == Values(rows);
    }

    /** Step 6: the payouts, one at a time. */
    method PersistPayouts(runId: nat, rows: seq<BalanceRow>, rounded: array<int>) returns (payouts: seq<Item>,
                          failed: Option<nat>)
      requires rounded.Length == |rows|
      modifies repo
      ensures (repo.State(), failed) == Persist(repo.env, old(repo.State()), runId, Zip(rows, rounded[..]), Attempts())
      ensures failed.None? ==> payouts == Zip(rows, rounded[..])
    {
      hide Retry, Persist;
      payouts := [];
      ghost var items := Zip(rows, rounded[..]);
      assert items[0..] == items;
      for i := 0 to |rows|
        invariant payouts == items[..i]
        invariant Persist(repo.env, old(repo.State()), runId, items, Attempts())
               == Shifted(Persist(repo.env, repo.State(), runId, items[i..], Attempts()), i)
      {
        var item := Item(rows[i].investorId, rounded[i]);
        assert item == items[i..][0] && items[i..][1..] == items[i + 1..];
        PersistOne(repo.env, repo.State(), runId, items[i..], Attempts(), i);
        var ok := WithRetry(CreatePayout(runId, item));
        if !ok {
          return payouts, Some(i);
        }
        payouts := payouts + [item];
      }
      assert items[|rows|..] == [];
      PersistNone(repo.env, repo.State(), runId, Attempts());
      failed := None;
    }

    /** Steps 2 to 6, from the balances on. */
    method DistributeRows(offeringId: string, date: int, revenue: real, rows: seq<BalanceRow>)
      returns (result: Result<Distributed, Failure>)
      requires revenue > 0.0
      modifies repo
      ensures (repo.State(), result)
           == D.DistributeRows(repo.env, old(repo.State()), Attempts(), offeringId, date, revenue, rows)
    {
      hide Retry, Persist, Payouts, Insert;
      if rows == [] {
        return Err(NoBalances);
      }

      var totalBalance := TotalBalance(rows);
      if totalBalance <= 0.0 {
        return Err(TotalNotPositive);
      }
      var rounded := Round(rows, totalBalance, revenue);

      var created := WithRetry(CreateRun(offeringId, ToFixed2(revenue), date));
      if !created {
        return Err(RunNotCreated);
      }
      var run := repo.runs[|repo.runs| - 1];

      var payouts, failed := PersistPayouts(run.id, rows, rounded);
      if failed.Some? {
        return Err(PayoutNotCreated(rows[failed.value].investorId));
      }
      return Ok(Distributed(run, payouts));
    }

    method Distribute(offeringId: string, period: Option<Period>, revenue: real)
      returns (result: Result<Distributed, Failure>)
      modifies repo
      ensures (repo.State(), result)
           == D.Distribute(repo.env, old(repo.State()), Attempts(), offeringId, period, revenue)
    {
      hide D.DistributeRows, Retry;
      if offeringId == "" {
        result := Err(OfferingIdRequired);
      } else if revenue <= 0.0 {
        result := Err(RevenueNotPositive);
      } else if period.None? {
        result := Err(PeriodRequired);
      } else {
        var fetched := WithRetry(FetchBalances);
        if !fetched {
          result := Err(BalancesUnavailable);
        } else {
          var rows := repo.env.balances(repo.calls - 1);
          result := DistributeRows(offeringId, period.value.end, revenue, rows);
        }
      }
    }
  }
}
