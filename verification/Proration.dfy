/**
 The arithmetic of `DistributionEngine.distribute`: proration of revenue over balances,
 rounding to cents, and the absorption of the rounding difference by the largest share.
 */
module Proration {
  import opened Money

  /** The unrounded share of one holder, in currency units. */
  function Share(balance: real, total: real, revenue: real): real
    requires total > 0.0
  {
    balance / total * revenue
  }

  function Shares(balances: seq<real>, total: real, revenue: real): (raw: seq<real>)
    requires total > 0.0
    ensures |raw| == |balances|
  {
    seq(|balances|, i requires 0 <= i < |balances| => Share(balances[i], total, revenue))
  }

  function RawShares(balances: seq<real>, revenue: real): (raw: seq<real>)
    requires Sum(balances) > 0.0
    ensures |raw| == |balances| > 0
  {
    Shares(balances, Sum(balances), revenue)
  }

  /** Each share rounded to cents on its own. */
  function Provisional(raw: seq<real>): (cents: seq<int>)
    ensures |cents| == |raw|
    ensures forall i :: 0 <= i < |raw| ==> Within(cents[i], raw[i], 0.5)
  {
    seq(|raw|, i requires 0 <= i < |raw| => RoundHalfUp(raw[i] * 100.0))
  }

  /** The first index of a largest element. */
  function FirstLargest(s: seq<real>): (m: nat)
    requires s != []
    ensures m < |s|
    ensures forall i :: 0 <= i < |s| ==> s[i] <= s[m]
    ensures forall i :: 0 <= i < m ==> s[i] < s[m]
  {
    var n := |s| - 1;
    if n == 0 then 0
    else
      var k := FirstLargest(s[..n]);
      if s[n] > s[k] then n else k
  }

  /** `p` with element `m` changed so that the sum is `target`. */
  function Corrected(p: seq<int>, m: nat, target: int): (cents: seq<int>)
    requires m < |p|
    ensures |cents| == |p|
    ensures forall i :: 0 <= i < |p| && i != m ==> cents[i] == p[i]
  {
    p[m := p[m] + (target - SumCents(p))]
  }

  /** Rounded shares, the first largest one corrected so that they add up to `target` cents. */
  function AdjustedTo(raw: seq<real>, target: int): (cents: seq<int>)
    requires raw != []
    ensures |cents| == |raw|
    ensures forall i :: 0 <= i < |raw| && i != FirstLargest(raw) ==> Within(cents[i], raw[i], 0.5)
  {
    Corrected(Provisional(raw), FirstLargest(raw), target)
  }

  /** The payouts of a distribution, in cents, in the order of the balances. */
  function Payouts(balances: seq<real>, revenue: real): (cents: seq<int>)
    requires Sum(balances) > 0.0
    ensures |cents| == |balances|
  {
    AdjustedTo(RawShares(balances, revenue), ToFixed2(revenue))
  }

  /** The holder whose payout absorbs the rounding difference. */
  function Absorber(balances: seq<real>, revenue: real): (m: nat)
    requires Sum(balances) > 0.0
    ensures m < |balances|
  {
    FirstLargest(RawShares(balances, revenue))
  }

  /** The rounding difference, in cents: what the independently rounded shares miss of the total. */
  function Adjustment(balances: seq<real>, revenue: real): int
    requires Sum(balances) > 0.0
  {
    ToFixed2(revenue) - SumCents(Provisional(RawShares(balances, revenue)))
  }

  // ------------------------------------------------------------------ conservation

  /**
   Whatever the balances and the revenue, the payouts add up to the stored total of the run; that is the
   revenue itself exactly if the revenue is a whole number of cents.
   */
  lemma Conservation(balances: seq<real>, revenue: real)
    requires Sum(balances) > 0.0
    ensures SumCents(Payouts(balances, revenue)) == ToFixed2(revenue)
    ensures Amount(SumCents(Payouts(balances, revenue))) == revenue <==> IsWholeCents(revenue)
  {
    var raw := RawShares(balances, revenue);
    var p, m := Provisional(raw), FirstLargest(raw);
    SumCentsUpdate(p, m, p[m] + (ToFixed2(revenue) - SumCents(p)));
  }

  lemma ShareOfSum(a: real, b: real, total: real, revenue: real)
    requires total > 0.0
    ensures Share(a + b, total, revenue) == Share(a, total, revenue) + Share(b, total, revenue)
  {
    assert (a + b) / total == a / total + b / total;
  }

  lemma {:induction false} SumOfShares(balances: seq<real>, total: real, revenue: real)
    requires total > 0.0
    ensures Sum(Shares(balances, total, revenue)) == Share(Sum(balances), total, revenue)
  {
    if balances != [] {
      var n := |balances| - 1;
      var all, init := Shares(balances, total, revenue), Shares(balances[..n], total, revenue);
      SumOfShares(balances[..n], total, revenue);
      assert all[..n] == init by {
        forall i | 0 <= i < n ensures all[i] == init[i] {
          assert balances[..n][i] == balances[i];
        }
      }
      ShareOfSum(Sum(balances[..n]), balances[n], total, revenue);
    }
  }

  lemma ShareOfTotal(total: real, revenue: real)
    requires total > 0.0
    ensures Share(total, total, revenue) == revenue
  {
    assert total / total == 1.0;
  }

  /** The exact shares add up to the revenue. */
  lemma RawSharesSum(balances: seq<real>, revenue: real)
    requires Sum(balances) > 0.0
    ensures Sum(RawShares(balances, revenue)) == revenue
  {
    SumOfShares(balances, Sum(balances), revenue);
    ShareOfTotal(Sum(balances), revenue);
  }

  // ------------------------------------------------------------------ fairness

  lemma ProvisionalSlice(raw: seq<real>, lo: nat, hi: nat)
    requires lo <= hi <= |raw|
    ensures Provisional(raw)[lo..hi] == Provisional(raw[lo..hi])
  {
    forall i | 0 <= i < hi - lo
      ensures Provisional(raw)[lo..hi][i] == Provisional(raw[lo..hi])[i]
    {
      assert raw[lo..hi][i] == raw[lo + i];
    }
  }

  /** Rounding `n` shares independently moves their sum by less than n/2 cents down, at most n/2 up. */
  lemma {:induction false} RoundingDrift(raw: seq<real>)
    ensures var drift := SumCents(Provisional(raw)) as real - Sum(raw) * 100.0;
            && -(|raw| as real) / 2.0 <= drift <= |raw| as real / 2.0
            && (raw != [] ==> -(|raw| as real) / 2.0 < drift)
  {
    if raw != [] {
      var n := |raw| - 1;
      RoundingDrift(raw[..n]);
      ProvisionalSlice(raw, 0, n);
      assert raw[0..n] == raw[..n] && Provisional(raw)[0..n] == Provisional(raw)[..n];
    }
  }

  lemma SplitSum(raw: seq<real>, m: nat)
    requires m < |raw|
    ensures Sum(raw) == Sum(raw[..m]) + raw[m] + Sum(raw[m + 1..])
  {
    assert raw == raw[..m + 1] + raw[m + 1..];
    SumConcat(raw[..m + 1], raw[m + 1..]);
    assert raw[..m + 1][..m] == raw[..m];
  }

  lemma SplitCents(p: seq<int>, m: nat)
    requires m < |p|
    ensures SumCents(p) == SumCents(p[..m]) + p[m] + SumCents(p[m + 1..])
  {
    assert p == p[..m + 1] + p[m + 1..];
    SumCentsConcat(p[..m + 1], p[m + 1..]);
    assert p[..m + 1][..m] == p[..m];
  }

  lemma SplitProvisional(raw: seq<real>, m: nat)
    requires m < |raw|
    ensures SumCents(Provisional(raw))
         == SumCents(Provisional(raw[..m])) + Provisional(raw)[m] + SumCents(Provisional(raw[m + 1..]))
  {
    SplitCents(Provisional(raw), m);
    ProvisionalSlice(raw, 0, m);
    ProvisionalSlice(raw, m + 1, |raw|);
    assert raw[0..m] == raw[..m] && raw[m + 1..|raw|] == raw[m + 1..];
    assert Provisional(raw)[0..m] == Provisional(raw)[..m];
    assert Provisional(raw)[m + 1..|raw|] == Provisional(raw)[m + 1..];
  }

  /** With one share `m` set aside, only the other n-1 can drift. */
  lemma DriftOfOthers(raw: seq<real>, m: nat)
    requires m < |raw|
    ensures var p := Provisional(raw);
            var drift := (SumCents(p) - p[m]) as real - (Sum(raw) - raw[m]) * 100.0;
            && -((|raw| - 1) as real) / 2.0 <= drift <= (|raw| - 1) as real / 2.0
            && (|raw| > 1 ==> -((|raw| - 1) as real) / 2.0 < drift)
  {
    RoundingDrift(raw[..m]);
    RoundingDrift(raw[m + 1..]);
    SplitSum(raw, m);
    SplitProvisional(raw, m);
  }

  lemma AbsorberPaid(raw: seq<real>, target: int)
    requires raw != []
    ensures var p, m := Provisional(raw), FirstLargest(raw);
            AdjustedTo(raw, target)[m] == target - (SumCents(p) - p[m])
  {
  }

  /** The absorber deviates by the drift of the target less that of the other shares. */
  lemma AbsorberDeviation(raw: seq<real>, target: int)
    requires raw != []
    ensures var m, n := FirstLargest(raw), |raw|;
            var drift := target as real - Sum(raw) * 100.0;
            var deviation := AdjustedTo(raw, target)[m] as real - raw[m] * 100.0;
            && drift - (n - 1) as real / 2.0 <= deviation <= drift + (n - 1) as real / 2.0
            && (n > 1 ==> deviation < drift + (n - 1) as real / 2.0)
  {
    hide AdjustedTo, Provisional, SumCents, Sum, FirstLargest;
    AbsorberPaid(raw, target);
    DriftOfOthers(raw, FirstLargest(raw));
  }

  lemma TargetDrift(revenue: real)
    requires revenue > 0.0
    ensures -0.5 < ToFixed2(revenue) as real - revenue * 100.0 <= 0.5
    ensures IsWholeCents(revenue) ==> ToFixed2(revenue) as real == revenue * 100.0
  {
  }

  /**
   Every payout but the absorber's is within half a cent of the exact share.  The absorber, the first
   holder of a largest share, ends less than n/2 cents below it and at most n/2 above, less with two
   holders and more; for whole-cent revenue at most (n-1)/2 cents below, and again less above.
   */
  lemma RoundingFairness(balances: seq<real>, revenue: real)
    requires Sum(balances) > 0.0 && revenue > 0.0
    ensures var raw := RawShares(balances, revenue);
            var paid := Payouts(balances, revenue);
            var m := Absorber(balances, revenue);
            var n := |balances|;
            var deviation := paid[m] as real - raw[m] * 100.0;
            && (forall i :: 0 <= i < n ==> raw[i] <= raw[m])
            && (forall i :: 0 <= i < m ==> raw[i] < raw[m])
            && (forall i :: 0 <= i < n && i != m ==> Within(paid[i], raw[i], 0.5))
            && -(n as real) / 2.0 < deviation <= n as real / 2.0
            && (n > 1 ==> deviation < n as real / 2.0)
            && (IsWholeCents(revenue) ==> Within(paid[m], raw[m], (n - 1) as real / 2.0))
            && (IsWholeCents(revenue) && n > 1 ==> deviation < (n - 1) as real / 2.0)
  {
    hide RawShares, Provisional, FirstLargest, AdjustedTo, ToFixed2, Sum, IsWholeCents;
    var raw := RawShares(balances, revenue);
    RawSharesSum(balances, revenue);
    AbsorberDeviation(raw, ToFixed2(revenue));
    TargetDrift(revenue);
  }

  // ------------------------------------------------------------------ sign and order

  lemma ShareMonotone(a: real, b: real, total: real, revenue: real)
    requires a <= b && total > 0.0 && revenue > 0.0
    ensures Share(a, total, revenue) <= Share(b, total, revenue)
  {
    assert a / total <= b / total;
  }

  lemma SharesNonNegative(balances: seq<real>, total: real, revenue: real)
    requires total > 0.0 && revenue > 0.0
    requires forall i :: 0 <= i < |balances| ==> balances[i] >= 0.0
    ensures forall i :: 0 <= i < |balances| ==> Shares(balances, total, revenue)[i] >= 0.0
  {
    forall i | 0 <= i < |balances|
      ensures Shares(balances, total, revenue)[i] >= 0.0
    {
      ShareMonotone(0.0, balances[i], total, revenue);
    }
  }

  lemma SharesAreNonNegative(balances: seq<real>, revenue: real)
    requires Sum(balances) > 0.0 && revenue > 0.0
    requires forall i :: 0 <= i < |balances| ==> balances[i] >= 0.0
    ensures forall i :: 0 <= i < |balances| ==> RawShares(balances, revenue)[i] >= 0.0
  {
    SharesNonNegative(balances, Sum(balances), revenue);
  }

  lemma OthersNonNegative(raw: seq<real>, target: int)
    requires raw != []
    requires forall i :: 0 <= i < |raw| ==> raw[i] >= 0.0
    ensures forall i :: 0 <= i < |raw| && i != FirstLargest(raw) ==> AdjustedTo(raw, target)[i] >= 0
  {
    hide FirstLargest, AdjustedTo;
  }

  /**
   No payout is negative if the largest exact share is at least (n-2)/2 cents, nor, for whole-cent
   revenue, if it is above (n-3)/2 cents.
   */
  lemma NonNegativeAboveThreshold(balances: seq<real>, revenue: real)
    requires Sum(balances) > 0.0 && revenue > 0.0
    requires forall i :: 0 <= i < |balances| ==> balances[i] >= 0.0
    requires var largest := RawShares(balances, revenue)[Absorber(balances, revenue)] * 100.0;
             || largest >= (|balances| - 2) as real / 2.0
             || (IsWholeCents(revenue) && largest > (|balances| - 3) as real / 2.0)
    ensures forall i :: 0 <= i < |balances| ==> Payouts(balances, revenue)[i] >= 0
  {
    hide RawShares, FirstLargest, AdjustedTo, ToFixed2, Sum, IsWholeCents;
    var raw := RawShares(balances, revenue);
    RawSharesSum(balances, revenue);
    SharesAreNonNegative(balances, revenue);
    OthersNonNegative(raw, ToFixed2(revenue));
    AbsorberDeviation(raw, ToFixed2(revenue));
    TargetDrift(revenue);
  }

  lemma {:induction false} SumCentsAtMost(p: seq<int>, bound: int)
    requires forall i :: 0 <= i < |p| ==> p[i] <= bound
    ensures SumCents(p) <= |p| * bound
  {
    if p != [] {
      SumCentsAtMost(p[..|p| - 1], bound);
    }
  }

  lemma OthersAtMost(p: seq<int>, m: nat, bound: int)
    requires m < |p|
    requires forall i :: 0 <= i < |p| ==> p[i] <= bound
    ensures SumCents(p) - p[m] <= (|p| - 1) * bound
  {
    hide SumCents;
    SplitCents(p, m);
    SumCentsAtMost(p[..m], bound);
    SumCentsAtMost(p[m + 1..], bound);
    assert m * bound + (|p| - 1 - m) * bound == (|p| - 1) * bound;
  }

  /**
   If no share rounds to more than `bound` cents, the absorber is left at least the target less the
   others' n-1 bounds.
   */
  lemma AbsorberKeepsRest(raw: seq<real>, target: int, bound: int)
    requires raw != []
    requires forall i :: 0 <= i < |raw| ==> Provisional(raw)[i] <= bound
    ensures AdjustedTo(raw, target)[FirstLargest(raw)] >= target - (|raw| - 1) * bound
  {
    hide AdjustedTo, Provisional, FirstLargest;
    AbsorberPaid(raw, target);
    OthersAtMost(Provisional(raw), FirstLargest(raw), bound);
  }

  /** In cents: (n-1) * floor((n-2)/2), which is n(n-3)/2 + 1 for even n. */
  function SafeRevenue(n: nat): int {
    (n - 1) * ((n - 2) / 2)
  }

  /** A share below (n-2)/2 cents rounds to at most floor((n-2)/2). */
  lemma SmallShareRounds(raw: seq<real>, n: nat, i: nat)
    requires i < |raw| && raw[i] * 100.0 < (n - 2) as real / 2.0
    ensures Provisional(raw)[i] <= (n - 2) / 2
  {
    assert 2 * Provisional(raw)[i] < n - 1;
  }

  /** No payout is negative if the revenue reaches `SafeRevenue` cents, whatever the (non-negative) balances are. */
  lemma NonNegativeForRevenue(balances: seq<real>, revenue: real)
    requires Sum(balances) > 0.0 && revenue > 0.0
    requires forall i :: 0 <= i < |balances| ==> balances[i] >= 0.0
    requires ToFixed2(revenue) >= SafeRevenue(|balances|)
    ensures forall i :: 0 <= i < |balances| ==> Payouts(balances, revenue)[i] >= 0
  {
    var raw, n := RawShares(balances, revenue), |balances|;
    hide RawShares, Provisional, FirstLargest, AdjustedTo, ToFixed2, Sum;
    if raw[FirstLargest(raw)] * 100.0 >= (n - 2) as real / 2.0 {
      NonNegativeAboveThreshold(balances, revenue);
    } else {
      SharesAreNonNegative(balances, revenue);
      OthersNonNegative(raw, ToFixed2(revenue));
      forall i | 0 <= i < n
        ensures Provisional(raw)[i] <= (n - 2) / 2
      {
        SmallShareRounds(raw, n, i);
      }
      AbsorberKeepsRest(raw, ToFixed2(revenue), (n - 2) / 2);
    }
  }

  /** Among holders other than the absorber, a larger balance never receives less. */
  lemma PayoutsMonotone(balances: seq<real>, revenue: real, i: nat, j: nat)
    requires Sum(balances) > 0.0 && revenue > 0.0
    requires i < |balances| && j < |balances| && balances[i] <= balances[j]
    requires i != Absorber(balances, revenue) && j != Absorber(balances, revenue)
    ensures Payouts(balances, revenue)[i] <= Payouts(balances, revenue)[j]
  {
    ShareMonotone(balances[i], balances[j], Sum(balances), revenue);
  }

  // ------------------------------------------------------------------ the documented bound

  lemma {:induction false} SumOfEqual(n: nat, x: real)
    ensures Sum(seq(n, _ => x)) == n as real * x
  {
    if n > 0 {
      SumOfEqual(n - 1, x);
      assert seq(n, _ => x)[..n - 1] == seq(n - 1, _ => x);
    }
  }

  lemma {:induction false} SumOfEqualCents(n: nat, c: int)
    ensures SumCents(seq(n, _ => c)) == n * c
  {
    if n > 0 {
      SumOfEqualCents(n - 1, c);
      assert seq(n, _ => c)[..n - 1] == seq(n - 1, _ => c);
    }
  }

  /** The share of c + 1/2 cents, in currency units. */
  function HalfCentShare(c: nat): real {
    (c as real + 0.5) / 100.0
  }

  lemma HalfCentRounds(c: nat)
    ensures RoundHalfUp(HalfCentShare(c) * 100.0) == c + 1
  {
    RoundHalfUpIs(c as real + 0.5, c + 1);
  }

  lemma SmallAdjustment(balances: seq<real>, revenue: real)
    requires Sum(balances) > 0.0 && revenue > 0.0 && |balances| <= 3
    ensures -1 <= Adjustment(balances, revenue) <= 1
  {
    RawSharesSum(balances, revenue);
    RoundingDrift(RawShares(balances, revenue));
  }

  /** Four equal holders of two cents, and any number of holders of nothing. */
  function FourAmong(n: nat): seq<real>
    requires n >= 4
  {
    seq(4, _ => 1.0) + seq(n - 4, _ => 0.0)
  }

  lemma LargeAdjustment(n: nat)
    requires n >= 4
    ensures Sum(FourAmong(n)) == 4.0 && Adjustment(FourAmong(n), 0.02) == -2
  {
    SumOfEqual(4, 1.0);
    SumOfEqual(n - 4, 0.0);
    SumConcat(seq(4, _ => 1.0), seq(n - 4, _ => 0.0));
    var raw := RawShares(FourAmong(n), 0.02);
    assert forall i :: 0 <= i < 4 ==> FourAmong(n)[i] == 1.0;
    assert forall i :: 4 <= i < n ==> FourAmong(n)[i] == 0.0;
    assert Share(1.0, 4.0, 0.02) == 0.005 && Share(0.0, 4.0, 0.02) == 0.0;
    RoundHalfUpIs(0.5, 1);
    RoundHalfUpIs(0.0, 0);
    assert Provisional(raw) == seq(4, _ => 1) + seq(n - 4, _ => 0);
    SumOfEqualCents(4, 1);
    SumOfEqualCents(n - 4, 0);
    SumCentsConcat(seq(4, _ => 1), seq(n - 4, _ => 0));
    RoundHalfUpIs(2.0, 2);
  }

  /**
   The design document puts the adjustment at "up to 0.01 units".  For n holders that is so for
   all balances and revenues exactly when n <= 3.
   */
  lemma DocumentedAdjustment(n: nat)
    requires n > 0
    ensures (forall balances: seq<real>, revenue: real ::
               |balances| == n && Sum(balances) > 0.0 && revenue > 0.0
               ==> -1 <= Adjustment(balances, revenue) <= 1)
       <==> n <= 3
  {
    if n <= 3 {
      forall balances: seq<real>, revenue: real | |balances| == n && Sum(balances) > 0.0 && revenue > 0.0
        ensures -1 <= Adjustment(balances, revenue) <= 1
      {
        SmallAdjustment(balances, revenue);
      }
    } else {
      LargeAdjustment(n);
      assert |FourAmong(n)| == n;
    }
  }

  // ------------------------------------------------------------------ the payouts, told from the balances

  /** The first holder of a largest balance. */
  predicate IsFirstLargest(balances: seq<real>, m: nat) {
    && m < |balances|
    && (forall i :: 0 <= i < |balances| ==> balances[i] <= balances[m])
    && (forall i :: 0 <= i < m ==> balances[i] < balances[m])
  }

  lemma ShareStrictlyMonotone(a: real, b: real, total: real, revenue: real)
    requires total > 0.0 && revenue > 0.0
    ensures Share(a, total, revenue) <= Share(b, total, revenue) <==> a <= b
  {
    if a <= b {
      ShareMonotone(a, b, total, revenue);
    } else {
      assert a / total > b / total;
    }
  }

  /** The first largest elements of two lists in the same order are at the same index. */
  lemma SameOrderSameLargest(a: seq<real>, b: seq<real>, m: nat)
    requires |a| == |b| > 0
    requires forall i, j :: 0 <= i < |a| && 0 <= j < |a| ==> (a[i] <= a[j] <==> b[i] <= b[j])
    ensures m == FirstLargest(a) <==> IsFirstLargest(b, m)
  {
    hide FirstLargest;
    var first := FirstLargest(a);
    if IsFirstLargest(b, m) {
      assert b[first] <= b[m] && a[m] <= a[first];
    }
  }

  lemma SharesInOrder(balances: seq<real>, revenue: real, i: nat, j: nat)
    requires Sum(balances) > 0.0 && revenue > 0.0 && i < |balances| && j < |balances|
    ensures RawShares(balances, revenue)[i] <= RawShares(balances, revenue)[j] <==> balances[i] <= balances[j]
  {
    hide Sum, Share;
    ShareStrictlyMonotone(balances[i], balances[j], Sum(balances), revenue);
  }

  /** The largest share is that of the largest balance. */
  lemma AbsorberExactly(balances: seq<real>, revenue: real, m: nat)
    requires Sum(balances) > 0.0 && revenue > 0.0
    ensures m == Absorber(balances, revenue) <==> IsFirstLargest(balances, m)
  {
    hide Sum, RawShares, FirstLargest, IsFirstLargest;
    forall i, j | 0 <= i < |balances| && 0 <= j < |balances|
      ensures RawShares(balances, revenue)[i] <= RawShares(balances, revenue)[j] <==> balances[i] <= balances[j]
    {
      SharesInOrder(balances, revenue, i, j);
    }
    SameOrderSameLargest(RawShares(balances, revenue), balances, m);
  }

  /** The part of the revenue that the balance is of the total, to the nearest cent, the larger on a tie. */
  predicate IsDue(cents: int, balance: real, total: real, revenue: real)
    requires total > 0.0
  {
    cents as real - 0.5 <= balance / total * revenue * 100.0 < cents as real + 0.5
  }

  lemma DueExactly(cents: int, balance: real, total: real, revenue: real)
    requires total > 0.0
    ensures IsDue(cents, balance, total, revenue) <==> cents == RoundHalfUp(Share(balance, total, revenue) * 100.0)
  {
    if IsDue(cents, balance, total, revenue) {
      RoundHalfUpIs(Share(balance, total, revenue) * 100.0, cents);
    }
  }

  /** One list of amounts at most has a given sum and given amounts for all but one. */
  lemma SameButOne(a: seq<int>, b: seq<int>, m: nat)
    requires |a| == |b| && m < |a| && SumCents(a) == SumCents(b)
    requires forall i :: 0 <= i < |a| && i != m ==> a[i] == b[i]
    ensures a == b
  {
    SumCentsUpdate(a, m, b[m]);
    assert a[m := b[m]] == b;
  }

  lemma PaidIsRounded(balances: seq<real>, revenue: real, i: nat)
    requires Sum(balances) > 0.0 && i < |balances| && i != Absorber(balances, revenue)
    ensures Payouts(balances, revenue)[i] == RoundHalfUp(Share(balances[i], Sum(balances), revenue) * 100.0)
  {
    hide Sum, FirstLargest, RoundHalfUp, Share, SumCents, ToFixed2;
  }

  lemma PaidToOther(balances: seq<real>, revenue: real, m: nat, i: nat, cents: int)
    requires Sum(balances) > 0.0 && revenue > 0.0 && IsFirstLargest(balances, m) && i < |balances| && i != m
    ensures IsDue(cents, balances[i], Sum(balances), revenue) <==> cents == Payouts(balances, revenue)[i]
  {
    AbsorberExactly(balances, revenue, m);
    hide Sum, Payouts, Absorber, RoundHalfUp, IsDue, IsFirstLargest, Share;
    PaidIsRounded(balances, revenue, i);
    DueExactly(cents, balances[i], Sum(balances), revenue);
  }

  /** The payments add up to the rounded revenue, and each but one is the part due to its balance. */
  ghost predicate IsFairSplit(paid: seq<int>, balances: seq<real>, revenue: real, m: nat)
    requires Sum(balances) > 0.0
  {
    && |paid| == |balances| && SumCents(paid) == ToFixed2(revenue)
    && forall i :: 0 <= i < |balances| && i != m ==> IsDue(paid[i], balances[i], Sum(balances), revenue)
  }

  /**
   The payouts are the only amounts that add up to the rounded revenue and are, but for the first holder of a largest
   balance, each the part of the revenue that the balance is of the total, rounded to the nearest cent.
   */
  lemma PayoutsExactly(balances: seq<real>, revenue: real, paid: seq<int>, m: nat)
    requires Sum(balances) > 0.0 && revenue > 0.0 && IsFirstLargest(balances, m)
    ensures paid == Payouts(balances, revenue) <==> IsFairSplit(paid, balances, revenue, m)
  {
    hide Sum, Payouts, SumCents, ToFixed2, IsDue;
    Conservation(balances, revenue);
    if |paid| == |balances| {
      forall i | 0 <= i < |balances| && i != m
        ensures IsDue(paid[i], balances[i], Sum(balances), revenue) <==> paid[i] == Payouts(balances, revenue)[i]
      {
        PaidToOther(balances, revenue, m, i, paid[i]);
      }
      if IsFairSplit(paid, balances, revenue, m) {
        SameButOne(paid, Payouts(balances, revenue), m);
      }
    }
  }
}
