/**
 What `DistributionEngine.distribute` does to the two tables it appends to, and what that means.

 Every call that leaves the process (fetching balances, inserting a row) is numbered, and a fault
 schedule says what happens to it: it works, it fails without effect, or it takes effect and the
 caller nevertheless sees a failure.  Theorems quantify over all schedules.
 */
module Distribution {
  import opened Wrappers
  import opened Money
  import opened Proration

  datatype RunStatus = Pending | Processing | Completed | Failed

  datatype Run = Run(id: nat, offeringId: string, total: real, date: int, status: RunStatus)

  datatype Payout = Payout(runId: nat, investorId: string, cents: int)

  /** `distribution_runs` and `payouts`, in insertion order; a run's id is its position. */
  datatype Tables = Tables(runs: seq<Run>, payouts: seq<Payout>) {
    /** Ids are consistent, and no payout lacks its run. */
    ghost predicate Valid() {
      && (forall i :: 0 <= i < |runs| ==> runs[i].id == i)
      && (forall p :: p in payouts ==> p.runId < |runs|)
    }
  }

  datatype BalanceRow = BalanceRow(investorId: string, balance: real)

  datatype Period = Period(start: int, end: int)

  datatype Item = Item(investorId: string, cents: int)

  /** What the outside world does at each numbered call. */
  datatype Environment = Environment(faults: nat -> Fault, balances: nat -> seq<BalanceRow>) {
    /** No call from number `from` up to `until` takes effect and fails nevertheless. */
    ghost predicate Clean(from: nat, until: nat) {
      forall c :: from <= c < until ==> faults(c) != FailsAfter
    }
  }

  datatype World = World(tables: Tables, calls: nat)

  /** The operations the engine wraps in `withRetry`. */
  datatype Operation =
    | FetchBalances
    | CreateRun(offeringId: string, totalCents: int, date: int)
    | CreatePayout(runId: nat, item: Item)

  datatype Failure =
    | OfferingIdRequired
    | RevenueNotPositive
    | PeriodRequired
    | BalancesUnavailable
    | NoBalances
    | TotalNotPositive
    | RunNotCreated
    | PayoutNotCreated(investorId: string)

  datatype Distributed = Distributed(run: Run, payouts: seq<Item>)

  // ------------------------------------------------------------------ specification

  function Insert(tables: Tables, op: Operation): Tables {
    match op
    case FetchBalances => tables
    case CreateRun(offeringId, cents, date) =>
      tables.(runs := tables.runs + [Run(|tables.runs|, offeringId, Amount(cents), date, Processing)])
    case CreatePayout(runId, item) =>
      tables.(payouts := tables.payouts + [Payout(runId, item.investorId, item.cents)])
  }

  /** One call: its effect on the tables, and whether the caller sees it succeed. */
  function Perform(env: Environment, w: World, op: Operation): (World, bool) {
    var fault := env.faults(w.calls);
    (World(if fault == FailsBefore then w.tables else Insert(w.tables, op), w.calls + 1), fault == Works)
  }

  /** Up to `left` calls, stopping at the first that is seen to succeed. */
  function Retry(env: Environment, w: World, op: Operation, left: nat): (r: (World, bool))
    ensures w.calls <= r.0.calls <= w.calls + left
    ensures r.1 ==> w.calls < r.0.calls && env.faults(r.0.calls - 1) == Works
    ensures r.1 && op.CreateRun? ==>
              var n := |r.0.tables.runs|;
              n > 0 && r.0.tables.runs[n - 1] == Run(n - 1, op.offeringId, Amount(op.totalCents), op.date, Processing)
    decreases left
  {
    if left == 0 then (w, false)
    else
      var (w', ok) := Perform(env, w, op);
      if ok then (w', true) else Retry(env, w', op, left - 1)
  }

  /** The payouts one after another, each with its own retries; the index of the first that fails for good. */
  function Persist(env: Environment, w: World, runId: nat, items: seq<Item>, attempts: nat): (r: (World, Option<nat>))
    ensures r.1.Some? ==> r.1.value < |items|
    decreases |items|
  {
    if items == [] then (w, None)
    else
      var (w', ok) := Retry(env, w, CreatePayout(runId, items[0]), attempts);
      if !ok then (w', Some(0))
      else
        var (w'', failed) := Persist(env, w', runId, items[1..], attempts);
        (w'', if failed.None? then None else Some(failed.value + 1))
  }

  function Values(rows: seq<BalanceRow>): (balances: seq<real>)
    ensures |balances| == |rows|
  {
    seq(|rows|, i requires 0 <= i < |rows| => rows[i].balance)
  }

  function Zip(rows: seq<BalanceRow>, cents: seq<int>): (items: seq<Item>)
    requires |rows| == |cents|
    ensures |items| == |rows|
  {
    seq(|rows|, i requires 0 <= i < |rows| => Item(rows[i].investorId, cents[i]))
  }

  /** What each investor is to be paid. */
  function Items(rows: seq<BalanceRow>, revenue: real): (items: seq<Item>)
    requires Sum(Values(rows)) > 0.0
    ensures |items| == |rows|
  {
    Zip(rows, Payouts(Values(rows), revenue))
  }

  function Cents(items: seq<Item>): (cents: seq<int>)
    ensures |cents| == |items|
  {
    seq(|items|, i requires 0 <= i < |items| => items[i].cents)
  }

  function DistributeRows(env: Environment, w: World, attempts: nat,
                          offeringId: string, date: int, revenue: real, rows: seq<BalanceRow>)
    : (World, Result<Distributed, Failure>)
  {
    if rows == [] then (w, Err(NoBalances))
    else if Sum(Values(rows)) <= 0.0 then (w, Err(TotalNotPositive))
    else
      var (w1, created) := Retry(env, w, CreateRun(offeringId, ToFixed2(revenue), date), attempts);
      if !created then (w1, Err(RunNotCreated))
      else
        var run := w1.tables.runs[|w1.tables.runs| - 1];
        var items := Items(rows, revenue);
        var (w2, failed) := Persist(env, w1, run.id, items, attempts);
        (w2, if failed.None? then Ok(Distributed(run, items))
             else Err(PayoutNotCreated(items[failed.value].investorId)))
  }

  /** `distribute`, as a function of the world. */
  function Distribute(env: Environment, w: World, attempts: nat,
                      offeringId: string, period: Option<Period>, revenue: real)
    : (World, Result<Distributed, Failure>)
  {
    if offeringId == "" then (w, Err(OfferingIdRequired))
    else if revenue <= 0.0 then (w, Err(RevenueNotPositive))
    else if period.None? then (w, Err(PeriodRequired))
    else
      var (w1, fetched) := Retry(env, w, FetchBalances, attempts);
      if !fetched then (w1, Err(BalancesUnavailable))
      else DistributeRows(env, w1, attempts, offeringId, period.value.end, revenue, env.balances(w1.calls - 1))
  }

  // ------------------------------------------------------------------ retries

  /** The first of `attempts` calls, from number `from` on, that works. */
  function FirstWorking(env: Environment, from: nat, attempts: nat): (call: Option<nat>)
    ensures call.None? <==> forall c :: from <= c < from + attempts ==> env.faults(c) != Works
    ensures call.Some? ==> from <= call.value < from + attempts && env.faults(call.value) == Works
    ensures call.Some? ==> forall c :: from <= c < call.value ==> env.faults(c) != Works
    decreases attempts
  {
    if attempts == 0 then None
    else if env.faults(from) == Works then Some(from)
    else FirstWorking(env, from + 1, attempts - 1)
  }

  /** A retried operation ends with the first call that works, or after all its attempts. */
  lemma {:induction false} RetryExactly(env: Environment, w: World, op: Operation, left: nat)
    ensures var (w', ok) := Retry(env, w, op, left);
            var call := FirstWorking(env, w.calls, left);
            ok == call.Some? && w'.calls == if call.Some? then call.value + 1 else w.calls + left
    decreases left
  {
    if left > 0 && env.faults(w.calls) != Works {
      RetryExactly(env, Perform(env, w, op).0, op, left - 1);
    }
  }

  /** `n` copies of the row that `op` inserts (run rows get successive ids). */
  function Repeated(tables: Tables, op: Operation, n: nat): Tables
    decreases n
  {
    if n == 0 then tables else Repeated(Insert(tables, op), op, n - 1)
  }

  /**
   The row is inserted at least once if the caller sees success and at most once per call; and exactly
   once on success, not at all on failure, exactly if no call took effect and failed nevertheless.
   */
  lemma {:induction false} RetryInserts(env: Environment, w: World, op: Operation, left: nat) returns (n: nat)
    ensures var (w', ok) := Retry(env, w, op, left);
            && w'.tables == Repeated(w.tables, op, n)
            && n <= w'.calls - w.calls <= left
            && (ok ==> n >= 1)
            && (n == (if ok then 1 else 0) <==> env.Clean(w.calls, w'.calls))
    decreases left
  {
    hide Insert;
    if left == 0 {
      n := 0;
    } else {
      var (w', ok) := Perform(env, w, op);
      var here := if env.faults(w.calls) == FailsBefore then 0 else 1;
      if ok {
        assert Repeated(w.tables, op, 1) == Repeated(Insert(w.tables, op), op, 0);
        n := here;
      } else {
        var rest := RetryInserts(env, w', op, left - 1);
        n := here + rest;
      }
    }
  }

  lemma {:induction false} RepeatedFetch(tables: Tables, n: nat)
    ensures Repeated(tables, FetchBalances, n) == tables
  {
    if n > 0 {
      RepeatedFetch(tables, n - 1);
    }
  }

  lemma {:induction false} RepeatedRun(tables: Tables, op: Operation, n: nat)
    requires op.CreateRun?
    ensures var after := Repeated(tables, op, n);
            && after.payouts == tables.payouts
            && |after.runs| == |tables.runs| + n
            && after.runs[..|tables.runs|] == tables.runs
            && forall i :: |tables.runs| <= i < |after.runs| ==>
                 after.runs[i] == Run(i, op.offeringId, Amount(op.totalCents), op.date, Processing)
    decreases n
  {
    if n > 0 {
      RepeatedRun(Insert(tables, op), op, n - 1);
    }
  }

  /** `n` equal rows for one item. */
  function Rows(runId: nat, item: Item, n: nat): seq<Payout> {
    seq(n, _ => Payout(runId, item.investorId, item.cents))
  }

  lemma {:induction false} RepeatedPayout(tables: Tables, runId: nat, item: Item, n: nat)
    ensures Repeated(tables, CreatePayout(runId, item), n)
         == tables.(payouts := tables.payouts + Rows(runId, item, n))
    decreases n
  {
    if n == 0 {
      assert tables.payouts + Rows(runId, item, 0) == tables.payouts;
    } else {
      var op := CreatePayout(runId, item);
      RepeatedPayout(Insert(tables, op), runId, item, n - 1);
      assert Rows(runId, item, n) == Rows(runId, item, 1) + Rows(runId, item, n - 1);
      assert Insert(tables, op).payouts + Rows(runId, item, n - 1) == tables.payouts + Rows(runId, item, n);
    }
  }

  // ------------------------------------------------------------------ payouts

  /** Item after item, as many equal rows as `copies` says. */
  function Copied(runId: nat, items: seq<Item>, copies: seq<nat>): seq<Payout>
    requires |copies| <= |items|
  {
    if copies == [] then [] else Rows(runId, items[0], copies[0]) + Copied(runId, items[1..], copies[1..])
  }

  /** At most `attempts` rows, and at least one unless the item is the one that failed. */
  predicate CopyCount(n: nat, failed: bool, attempts: nat) {
    n <= attempts && (!failed ==> n >= 1)
  }

  /** All items are attempted on success, those up to the failed one otherwise. */
  ghost predicate CopyCounts(copies: seq<nat>, items: nat, failed: Option<nat>, attempts: nat) {
    && |copies| == (if failed.None? then items else failed.value + 1)
    && forall i :: 0 <= i < |copies| ==> CopyCount(copies[i], failed == Some(i), attempts)
  }

  predicate Single(n: nat, failed: bool) {
    n == if failed then 0 else 1
  }

  /** One row for each item, and none for number `failed`. */
  ghost predicate Once(copies: seq<nat>, failed: Option<nat>) {
    forall i :: 0 <= i < |copies| ==> Single(copies[i], failed == Some(i))
  }

  function Shift(failed: Option<nat>): Option<nat> {
    if failed.None? then None else Some(failed.value + 1)
  }

  lemma ShiftIs(failed: Option<nat>)
    ensures Shift(failed) == if failed.None? then None else Some(failed.value + 1)
  {
  }

  lemma OneMoreItem(n: nat, rest: seq<nat>, items: nat, failed: Option<nat>, attempts: nat)
    requires CopyCounts(rest, items, failed, attempts) && CopyCount(n, false, attempts)
    ensures CopyCounts([n] + rest, items + 1, Shift(failed), attempts)
  {
    hide CopyCount;
    var copies := [n] + rest;
    forall i | 0 <= i < |copies|
      ensures CopyCount(copies[i], Shift(failed) == Some(i), attempts)
    {
      if i > 0 {
        assert CopyCount(rest[i - 1], failed == Some(i - 1), attempts);
      }
    }
  }

  lemma PrependOnce(n: nat, rest: seq<nat>, failed: Option<nat>)
    requires Single(n, false) && Once(rest, failed)
    ensures Once([n] + rest, Shift(failed))
  {
    hide Single;
    var copies := [n] + rest;
    forall i | 0 <= i < |copies|
      ensures Single(copies[i], Shift(failed) == Some(i))
    {
      if i > 0 {
        assert copies[i] == rest[i - 1] && Single(rest[i - 1], failed == Some(i - 1));
      }
    }
  }

  lemma DropOnce(n: nat, rest: seq<nat>, failed: Option<nat>)
    requires Once([n] + rest, Shift(failed))
    ensures Single(n, false) && Once(rest, failed)
  {
    hide Single;
    var copies := [n] + rest;
    assert Single(copies[0], Shift(failed) == Some(0));
    forall i | 0 <= i < |rest|
      ensures Single(rest[i], failed == Some(i))
    {
      assert copies[i + 1] == rest[i] && Single(copies[i + 1], Shift(failed) == Some(i + 1));
    }
  }

  lemma OnceMore(n: nat, rest: seq<nat>, failed: Option<nat>)
    ensures Once([n] + rest, Shift(failed)) <==> Single(n, false) && Once(rest, failed)
  {
    hide Single, Once, Shift;
    if Single(n, false) && Once(rest, failed) {
      PrependOnce(n, rest, failed);
    }
    if Once([n] + rest, Shift(failed)) {
      DropOnce(n, rest, failed);
    }
  }

  lemma CopiedCons(runId: nat, items: seq<Item>, n: nat, rest: seq<nat>)
    requires |rest| < |items|
    ensures Copied(runId, items, [n] + rest) == Rows(runId, items[0], n) + Copied(runId, items[1..], rest)
  {
    assert ([n] + rest)[1..] == rest;
  }

  lemma FailedItem(n: nat, items: nat, attempts: nat)
    requires n <= attempts
    ensures CopyCounts([n], items, Some(0), attempts)
    ensures Once([n], Some(0)) <==> n == 0
  {
    assert [n][0] == n;
  }

  lemma RetryPayout(env: Environment, w: World, runId: nat, item: Item, attempts: nat) returns (n: nat)
    ensures var (w', ok) := Retry(env, w, CreatePayout(runId, item), attempts);
            && w'.tables == w.tables.(payouts := w.tables.payouts + Rows(runId, item, n))
            && n <= attempts
            && (ok ==> n >= 1)
            && (n == (if ok then 1 else 0) <==> env.Clean(w.calls, w'.calls))
  {
    n := RetryInserts(env, w, CreatePayout(runId, item), attempts);
    RepeatedPayout(w.tables, runId, item, n);
  }

  lemma Associative<T>(a: seq<T>, b: seq<T>, c: seq<T>)
    ensures a + (b + c) == a + b + c
  {
  }

  lemma NoItems(runId: nat, items: seq<Item>, attempts: nat)
    ensures CopyCounts([], 0, None, attempts) && Once([], None) && Copied(runId, items, []) == []
  {
  }

  lemma CleanParts(env: Environment, a: nat, b: nat, c: nat)
    requires a <= b <= c
    ensures env.Clean(a, c) <==> env.Clean(a, b) && env.Clean(b, c)
    ensures env.Clean(a, a)
  {
  }

  lemma {:induction false} CallsGoUp(env: Environment, w: World, runId: nat, items: seq<Item>, attempts: nat)
    ensures w.calls <= Persist(env, w, runId, items, attempts).0.calls
    decreases |items|
  {
    hide Retry;
    if items != [] {
      CallsGoUp(env, Retry(env, w, CreatePayout(runId, items[0]), attempts).0, runId, items[1..], attempts);
    }
  }

  lemma CopiedOne(runId: nat, items: seq<Item>, n: nat)
    requires items != []
    ensures Copied(runId, items, [n]) == Rows(runId, items[0], n)
  {
    CopiedCons(runId, items, n, []);
    assert [n] + [] == [n];
  }

  /**
   Whatever the failures: the rows added are the items in order, each repeated as `CopyCounts` allows; and not
   repeated exactly if no call took effect and failed nevertheless.
   */
  lemma {:induction false} PersistShape(env: Environment, w: World, runId: nat, items: seq<Item>, attempts: nat)
    returns (copies: seq<nat>)
    ensures |copies| <= |items|
    ensures var (w', failed) := Persist(env, w, runId, items, attempts);
            && w'.tables == w.tables.(payouts := w.tables.payouts + Copied(runId, items, copies))
            && CopyCounts(copies, |items|, failed, attempts)
            && (Once(copies, failed) <==> env.Clean(w.calls, w'.calls))
    decreases |items|
  {
    hide Retry, Rows, CopyCounts, Once, Environment.Clean, Copied, Shift;
    CleanParts(env, w.calls, w.calls, w.calls);
    if items == [] {
      copies := [];
      NoItems(runId, items, attempts);
      assert w.tables.payouts + [] == w.tables.payouts;
    } else {
      var (w1, ok) := Retry(env, w, CreatePayout(runId, items[0]), attempts);
      var n := RetryPayout(env, w, runId, items[0], attempts);
      if !ok {
        copies := [n];
        FailedItem(n, |items|, attempts);
        CopiedOne(runId, items, n);
      } else {
        var rest := PersistShape(env, w1, runId, items[1..], attempts);
        copies := [n] + rest;
        var (w2, failed) := Persist(env, w1, runId, items[1..], attempts);
        OneMoreItem(n, rest, |items| - 1, failed, attempts);
        OnceMore(n, rest, failed);
        ShiftIs(failed);
        CopiedCons(runId, items, n, rest);
        Associative(w.tables.payouts, Rows(runId, items[0], n), Copied(runId, items[1..], rest));
        CallsGoUp(env, w1, runId, items[1..], attempts);
        CleanParts(env, w.calls, w1.calls, w2.calls);
      }
    }
  }

  /** The calls each attempted item costs. */
  function ItemCalls(env: Environment, w: World, runId: nat, items: seq<Item>, attempts: nat): (calls: seq<nat>)
    decreases |items|
  {
    if items == [] then []
    else
      var (w', ok) := Retry(env, w, CreatePayout(runId, items[0]), attempts);
      [w'.calls - w.calls] + if ok then ItemCalls(env, w', runId, items[1..], attempts) else []
  }

  function Total(counts: seq<nat>): nat {
    if counts == [] then 0 else counts[0] + Total(counts[1..])
  }

  predicate CallCount(calls: nat, failed: bool, attempts: nat) {
    if failed then calls == attempts else 1 <= calls <= attempts
  }

  ghost predicate CallCounts(calls: seq<nat>, items: nat, failed: Option<nat>, attempts: nat) {
    && |calls| == (if failed.None? then items else failed.value + 1)
    && forall i :: 0 <= i < |calls| ==> CallCount(calls[i], failed == Some(i), attempts)
  }

  lemma OneMoreCall(n: nat, rest: seq<nat>, items: nat, failed: Option<nat>, attempts: nat)
    requires CallCounts(rest, items, failed, attempts) && CallCount(n, false, attempts)
    ensures CallCounts([n] + rest, items + 1, Shift(failed), attempts)
    ensures Total([n] + rest) == n + Total(rest)
  {
    hide CallCount;
    var calls := [n] + rest;
    assert calls[1..] == rest;
    forall i | 0 <= i < |calls|
      ensures CallCount(calls[i], Shift(failed) == Some(i), attempts)
    {
      if i > 0 {
        assert CallCount(rest[i - 1], failed == Some(i - 1), attempts);
      }
    }
  }

  lemma NoCalls(attempts: nat)
    ensures CallCounts([], 0, None, attempts) && Total([]) == 0
  {
  }

  lemma StoredCalls(n: nat, attempts: nat)
    requires 1 <= n <= attempts
    ensures CallCount(n, false, attempts)
  {
  }

  lemma LastCall(n: nat, items: nat, attempts: nat)
    requires n == attempts
    ensures CallCounts([n], items, Some(0), attempts) && Total([n]) == n
  {
    assert [n][1..] == [];
  }

  /**
   Each item that is stored costs between one and `attempts` calls, an item that fails for good exactly
   `attempts`, the items after it none; and there are no other calls.
   */
  lemma {:induction false} PersistCalls(env: Environment, w: World, runId: nat, items: seq<Item>, attempts: nat)
    ensures var (w', failed) := Persist(env, w, runId, items, attempts);
            var calls := ItemCalls(env, w, runId, items, attempts);
            && CallCounts(calls, |items|, failed, attempts)
            && w'.calls == w.calls + Total(calls)
    decreases |items|
  {
    hide Retry, CallCounts, CallCount, Total, Shift;
    if items == [] {
      NoCalls(attempts);
    } else {
      var op := CreatePayout(runId, items[0]);
      var (w1, ok) := Retry(env, w, op, attempts);
      RetryExactly(env, w, op, attempts);
      var n := w1.calls - w.calls;
      if ok {
        PersistCalls(env, w1, runId, items[1..], attempts);
        var failed := Persist(env, w1, runId, items[1..], attempts).1;
        StoredCalls(n, attempts);
        OneMoreCall(n, ItemCalls(env, w1, runId, items[1..], attempts), |items| - 1, failed, attempts);
        ShiftIs(failed);
      } else {
        LastCall(n, |items|, attempts);
        assert [n] + [] == [n];
      }
    }
  }

  /** One payout row for each item. */
  function PayoutRows(runId: nat, items: seq<Item>): (rows: seq<Payout>)
    ensures |rows| == |items|
  {
    seq(|items|, i requires 0 <= i < |items| => Payout(runId, items[i].investorId, items[i].cents))
  }

  lemma {:induction false} CopiedOnce(runId: nat, items: seq<Item>, copies: seq<nat>, k: nat)
    requires k <= |copies| <= |items| && |copies| <= k + 1
    requires forall i :: 0 <= i < |copies| ==> copies[i] == if i == k then 0 else 1
    ensures Copied(runId, items, copies) == PayoutRows(runId, items[..k])
  {
    if copies != [] {
      if k == 0 {
        assert Copied(runId, items[1..], copies[1..]) == [];
      } else {
        CopiedOnce(runId, items[1..], copies[1..], k - 1);
        assert items[..k] == [items[0]] + items[1..][..k - 1];
      }
    }
  }

  lemma {:induction false} CopiedLength(runId: nat, items: seq<Item>, copies: seq<nat>)
    requires |copies| <= |items|
    ensures |Copied(runId, items, copies)| == Total(copies)
  {
    if copies != [] {
      CopiedLength(runId, items[1..], copies[1..]);
    }
  }

  /** Counts of at least one, with a last one that may be zero, add up to the least exactly if each is the least. */
  lemma {:induction false} LeastTotal(copies: seq<nat>, k: nat)
    requires k <= |copies| <= k + 1
    requires forall i :: 0 <= i < k ==> copies[i] >= 1
    ensures Total(copies) >= k
    ensures Total(copies) == k <==> forall i :: 0 <= i < |copies| ==> copies[i] == if i == k then 0 else 1
  {
    if copies != [] {
      if k > 0 {
        var rest := copies[1..];
        LeastTotal(rest, k - 1);
        assert forall i :: 0 <= i < |rest| ==> rest[i] == copies[i + 1];
        assert forall i :: 0 < i < |copies| ==> copies[i] == rest[i - 1];
      } else {
        assert copies[1..] == [];
      }
    }
  }

  /** The rows of the items before the one that fails for good. */
  function StoredRows(runId: nat, items: seq<Item>, failed: Option<nat>): seq<Payout>
    requires failed.Some? ==> failed.value <= |items|
  {
    PayoutRows(runId, items[..if failed.None? then |items| else failed.value])
  }

  lemma OnceIs(copies: seq<nat>, failed: Option<nat>, k: nat)
    requires forall i :: 0 <= i < |copies| ==> (failed == Some(i) <==> i == k)
    ensures Once(copies, failed) <==> forall i :: 0 <= i < |copies| ==> copies[i] == if i == k then 0 else 1
  {
    if Once(copies, failed) {
      assert forall i :: 0 <= i < |copies| ==> Single(copies[i], failed == Some(i));
    }
  }

  lemma CopiedExactly(runId: nat, items: seq<Item>, failed: Option<nat>, attempts: nat, copies: seq<nat>)
    requires failed.Some? ==> failed.value < |items|
    requires |copies| <= |items| && CopyCounts(copies, |items|, failed, attempts)
    ensures Copied(runId, items, copies) == StoredRows(runId, items, failed) <==> Once(copies, failed)
  {
    hide Copied, Total, PayoutRows, Once;
    var k := if failed.None? then |items| else failed.value;
    assert forall i :: 0 <= i < |copies| ==> (failed == Some(i) <==> i == k);
    assert forall i :: 0 <= i < k ==> CopyCount(copies[i], failed == Some(i), attempts);
    OnceIs(copies, failed, k);
    LeastTotal(copies, k);
    CopiedLength(runId, items, copies);
    if Once(copies, failed) {
      CopiedOnce(runId, items, copies, k);
    }
  }

  lemma SamePart<T>(a: seq<T>, b: seq<T>, c: seq<T>)
    ensures a + b == a + c <==> b == c
  {
    assert (a + b)[|a|..] == b && (a + c)[|a|..] == c;
  }

  /**
   The rows added are exactly the items before the one that fails for good, once each, in order, exactly if no call
   took effect and failed nevertheless.
   */
  lemma PersistExactly(env: Environment, w: World, runId: nat, items: seq<Item>, attempts: nat)
    ensures var (w', failed) := Persist(env, w, runId, items, attempts);
            (w'.tables == w.tables.(payouts := w.tables.payouts + StoredRows(runId, items, failed))
             <==> env.Clean(w.calls, w'.calls))
  {
    hide Persist, Copied, CopyCounts, Once, StoredRows, Environment.Clean;
    var copies := PersistShape(env, w, runId, items, attempts);
    var (w', failed) := Persist(env, w, runId, items, attempts);
    CopiedExactly(runId, items, failed, attempts, copies);
    SamePart(w.tables.payouts, Copied(runId, items, copies), StoredRows(runId, items, failed));
  }

  // ------------------------------------------------------------------ the whole distribution

  /** The run row of one distribution: its total is the revenue to two decimals. */
  ghost predicate SameRow(run: Run, offeringId: string, revenue: real, date: int) {
    && run.offeringId == offeringId && run.total == Amount(ToFixed2(revenue))
    && run.date == date && run.status == Processing
  }

  /** The payouts add up to the total of their run. */
  lemma ItemsAddUp(rows: seq<BalanceRow>, revenue: real)
    requires Sum(Values(rows)) > 0.0
    ensures SumCents(Cents(Items(rows, revenue))) == ToFixed2(revenue)
  {
    hide Payouts, ToFixed2, Sum, SumCents;
    Conservation(Values(rows), revenue);
    assert Cents(Items(rows, revenue)) == Payouts(Values(rows), revenue);
  }

  lemma CreateRunUnderFaults(env: Environment, w: World, attempts: nat, offeringId: string, date: int, revenue: real)
    ensures var (w', created) := Retry(env, w, CreateRun(offeringId, ToFixed2(revenue), date), attempts);
            && w'.tables.payouts == w.tables.payouts
            && w.tables.runs <= w'.tables.runs && |w'.tables.runs| <= |w.tables.runs| + attempts
            && (forall i :: |w.tables.runs| <= i < |w'.tables.runs| ==>
                  w'.tables.runs[i].id == i && SameRow(w'.tables.runs[i], offeringId, revenue, date))
            && (created ==> |w'.tables.runs| > |w.tables.runs|)
  {
    var op := CreateRun(offeringId, ToFixed2(revenue), date);
    var n := RetryInserts(env, w, op, attempts);
    RepeatedRun(w.tables, op, n);
  }

  /** The calls that `DistributeRows` makes. */
  ghost predicate CleanDistribution(env: Environment, w: World, attempts: nat,
                                    offeringId: string, date: int, revenue: real, rows: seq<BalanceRow>)
  {
    env.Clean(w.calls, DistributeRows(env, w, attempts, offeringId, date, revenue, rows).0.calls)
  }

  /** One new run, if it was created, and no other. */
  lemma CreateRunExactly(env: Environment, w: World, attempts: nat, offeringId: string, date: int, revenue: real)
    ensures var (w', created) := Retry(env, w, CreateRun(offeringId, ToFixed2(revenue), date), attempts);
            && (|w'.tables.runs| == |w.tables.runs| + (if created then 1 else 0) <==> env.Clean(w.calls, w'.calls))
            && (!created && env.Clean(w.calls, w'.calls) ==> w'.tables == w.tables)
  {
    hide Retry;
    var op := CreateRun(offeringId, ToFixed2(revenue), date);
    var n := RetryInserts(env, w, op, attempts);
    RepeatedRun(w.tables, op, n);
  }

  /**
   No call takes effect and fails nevertheless.  Success leaves one new run whose total is the sum of its
   payouts, and the computed payouts once each, in order.  A payout that fails for good leaves the run and
   exactly the payouts before it.  Every other failure leaves the tables alone.
   */
  lemma DistributeWithoutSideEffects(env: Environment, w: World, attempts: nat,
                                     offeringId: string, date: int, revenue: real, rows: seq<BalanceRow>)
    requires CleanDistribution(env, w, attempts, offeringId, date, revenue, rows)
    ensures var (w', result) := DistributeRows(env, w, attempts, offeringId, date, revenue, rows);
            var id := |w.tables.runs|;
            match result
            case Ok(d) =>
              && d.run.id == id && SameRow(d.run, offeringId, revenue, date)
              && Sum(Values(rows)) > 0.0 && d.payouts == Items(rows, revenue)
              && d.run.total == Amount(SumCents(Cents(d.payouts)))
              && w'.tables == Tables(w.tables.runs + [d.run], w.tables.payouts + PayoutRows(id, d.payouts))
            case Err(PayoutNotCreated(investor)) =>
              && Sum(Values(rows)) > 0.0
              && |w'.tables.runs| == id + 1 && w'.tables.runs[..id] == w.tables.runs
              && SameRow(w'.tables.runs[id], offeringId, revenue, date)
              && exists k: nat {:trigger Items(rows, revenue)[..k]} ::
                   && k < |rows| && Items(rows, revenue)[k].investorId == investor
                   && w'.tables.payouts == w.tables.payouts + PayoutRows(id, Items(rows, revenue)[..k])
            case Err(_) => w'.tables == w.tables
  {
    hide Retry, Payouts, Environment.Clean, Persist, SameRow;
    if rows != [] && Sum(Values(rows)) > 0.0 {
      var (w1, created) := Retry(env, w, CreateRun(offeringId, ToFixed2(revenue), date), attempts);
      CreateRunExactly(env, w, attempts, offeringId, date, revenue);
      CreateRunUnderFaults(env, w, attempts, offeringId, date, revenue);
      if created {
        var items := Items(rows, revenue);
        var run := w1.tables.runs[|w1.tables.runs| - 1];
        CallsGoUp(env, w1, run.id, items, attempts);
        CleanParts(env, w.calls, w1.calls, Persist(env, w1, run.id, items, attempts).0.calls);
        PersistExactly(env, w1, run.id, items, attempts);
        assert items[..|items|] == items;
        assert w1.tables.runs == w.tables.runs + [run];
        ItemsAddUp(rows, revenue);
      }
    }
  }

  lemma PersistKeepsRuns(env: Environment, w: World, runId: nat, items: seq<Item>, attempts: nat)
    ensures Persist(env, w, runId, items, attempts).0.tables.runs == w.tables.runs
  {
    hide Persist;
    var copies := PersistShape(env, w, runId, items, attempts);
  }

  /**
   A distribution that succeeds stores one run and each payout once exactly if no call took effect and
   failed nevertheless.
   */
  lemma StoredOnceExactly(env: Environment, w: World, attempts: nat,
                          offeringId: string, date: int, revenue: real, rows: seq<BalanceRow>)
    requires DistributeRows(env, w, attempts, offeringId, date, revenue, rows).1.Ok?
    ensures var (w', result) := DistributeRows(env, w, attempts, offeringId, date, revenue, rows);
            var d := result.value;
            (w'.tables == Tables(w.tables.runs + [d.run], w.tables.payouts + PayoutRows(d.run.id, d.payouts))
             <==> CleanDistribution(env, w, attempts, offeringId, date, revenue, rows))
  {
    hide Retry, Payouts, Environment.Clean;
    var items := Items(rows, revenue);
    var (w1, created) := Retry(env, w, CreateRun(offeringId, ToFixed2(revenue), date), attempts);
    CreateRunExactly(env, w, attempts, offeringId, date, revenue);
    CreateRunUnderFaults(env, w, attempts, offeringId, date, revenue);
    var id := w1.tables.runs[|w1.tables.runs| - 1].id;
    CallsGoUp(env, w1, id, items, attempts);
    CleanParts(env, w.calls, w1.calls, Persist(env, w1, id, items, attempts).0.calls);
    PersistExactly(env, w1, id, items, attempts);
    PersistKeepsRuns(env, w1, id, items, attempts);
    assert items[..|items|] == items;
  }

  lemma {:induction false} CopiedBelong(runId: nat, items: seq<Item>, copies: seq<nat>)
    requires |copies| <= |items|
    ensures forall p :: p in Copied(runId, items, copies) ==> p.runId == runId
  {
    if copies != [] {
      CopiedBelong(runId, items[1..], copies[1..]);
    }
  }

  /**
   There is a new run, and the payouts added are copies of the items under the last one, up to the one
   that failed.
   */
  ghost predicate PaidUnderLastRun(before: Tables, after: Tables, items: seq<Item>, failed: Option<nat>,
                                   attempts: nat, copies: seq<nat>) {
    && |after.runs| > |before.runs|
    && |copies| <= |items| && CopyCounts(copies, |items|, failed, attempts)
    && after.payouts == before.payouts + Copied(|after.runs| - 1, items, copies)
  }

  /** At most `attempts` runs are new, all of them for this distribution. */
  ghost predicate NewRuns(before: Tables, after: Tables, attempts: nat, offeringId: string, revenue: real, date: int) {
    && before.runs <= after.runs && |after.runs| <= |before.runs| + attempts
    && forall i :: |before.runs| <= i < |after.runs| ==> SameRow(after.runs[i], offeringId, revenue, date)
  }

  /**
   Arbitrary failures, including calls that take effect and are then repeated: the tables stay
   consistent, so no payout is ever stored without its run, and at most `attempts` run rows are added,
   all alike.  Success returns the last of them, with all computed payouts under it, in order, between one and
   `attempts` rows for each.  A payout that fails for good leaves that run too, with the payouts before
   it in the same way and at most `attempts` rows of its own.  Every other failure adds no payout.
   */
  lemma DistributeUnderFaults(env: Environment, w: World, attempts: nat,
                              offeringId: string, date: int, revenue: real, rows: seq<BalanceRow>)
    returns (copies: seq<nat>)
    requires w.tables.Valid()
    ensures var (w', result) := DistributeRows(env, w, attempts, offeringId, date, revenue, rows);
            && w'.tables.Valid()
            && NewRuns(w.tables, w'.tables, attempts, offeringId, revenue, date)
            && match result
               case Ok(d) =>
                 && Sum(Values(rows)) > 0.0 && d.payouts == Items(rows, revenue)
                 && PaidUnderLastRun(w.tables, w'.tables, d.payouts, None, attempts, copies)
                 && d.run == w'.tables.runs[|w'.tables.runs| - 1]
               case Err(PayoutNotCreated(investor)) =>
                 && Sum(Values(rows)) > 0.0
                 && 0 < |copies| <= |rows| && Items(rows, revenue)[|copies| - 1].investorId == investor
                 && PaidUnderLastRun(w.tables, w'.tables, Items(rows, revenue), Some(|copies| - 1), attempts, copies)
               case Err(_) => w'.tables.payouts == w.tables.payouts
  {
    hide Retry, Copied, Payouts, Persist, SameRow, Once, Environment.Clean, CopyCount;
    copies := [];
    if rows != [] && Sum(Values(rows)) > 0.0 {
      CreateRunUnderFaults(env, w, attempts, offeringId, date, revenue);
      var (w1, created) := Retry(env, w, CreateRun(offeringId, ToFixed2(revenue), date), attempts);
      if created {
        var run := w1.tables.runs[|w1.tables.runs| - 1];
        copies := PersistShape(env, w1, run.id, Items(rows, revenue), attempts);
        CopiedBelong(run.id, Items(rows, revenue), copies);
      }
    }
  }
}
