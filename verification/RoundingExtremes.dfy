/**
 How far rounding can go: one family of distributions that attains every bound of `Proration`, and so the
 exact bound on the absorber's deviation and the exact thresholds below which payouts can be negative.
 */
module RoundingExtremes {
  import opened Money
  import opened Proration

  // ------------------------------------------------------------------ the extreme distributions

  /** The whole cents of their revenue. */
  function ExtremeTotal(n: nat, c: nat): nat {
    n * c + (n + 1) / 2
  }

  /** What the others leave of the total and of `extra` cents. */
  function ExtremeShare(n: nat, c: nat, extra: real): real
    requires n > 0
  {
    (ExtremeTotal(n, c) as real + extra) / 100.0 - (n - 1) as real * HalfCentShare(c)
  }

  /**
   n-1 holders have c + 1/2 cents each, and all of them round up.  The first holder has as little more as
   makes the total whole cents, and `extra`; for even n and no extra all holders are equal.
   */
  function Extreme(n: nat, c: nat, extra: real): (balances: seq<real>)
    requires n > 0
    ensures |balances| == n
  {
    [ExtremeShare(n, c, extra)] + seq(n - 1, _ => HalfCentShare(c))
  }

  /** If the balances are the amounts to pay, each share is its balance. */
  lemma OwnShares(balances: seq<real>)
    requires Sum(balances) > 0.0
    ensures RawShares(balances, Sum(balances)) == balances
  {
    var total := Sum(balances);
    forall i | 0 <= i < |balances|
      ensures RawShares(balances, total)[i] == balances[i]
    {
      assert balances[i] / total * total == balances[i];
    }
  }

  lemma FirstOfAll(s: seq<real>)
    requires s != [] && forall i :: 0 <= i < |s| ==> s[i] <= s[0]
    ensures FirstLargest(s) == 0
  {
    hide FirstLargest;
    assert s[FirstLargest(s)] <= s[0];
  }

  lemma ExtremeSum(n: nat, c: nat, extra: real)
    requires n > 0
    ensures Sum(Extreme(n, c, extra)) == (ExtremeTotal(n, c) as real + extra) / 100.0
  {
    hide Sum, HalfCentShare, ExtremeTotal;
    var first, b := ExtremeShare(n, c, extra), HalfCentShare(c);
    SumOfOne(first);
    SumOfEqual(n - 1, b);
    SumConcat([first], seq(n - 1, _ => b));
  }

  lemma ExtremeCents(n: nat, c: nat, extra: real)
    requires n > 0 && 0.0 <= extra < 0.5
    ensures var revenue := (ExtremeTotal(n, c) as real + extra) / 100.0;
            && revenue > 0.0 && ToFixed2(revenue) == ExtremeTotal(n, c)
            && (IsWholeCents(revenue) <==> extra == 0.0)
  {
    assert ExtremeTotal(n, c) >= 1;
    RoundHalfUpIs(ExtremeTotal(n, c) as real + extra, ExtremeTotal(n, c));
  }

  /** The others' c + 1 cents each leave c + 1 - floor(n/2) of the total. */
  lemma ExtremeRest(n: nat, c: nat)
    requires n > 0
    ensures ExtremeTotal(n, c) - (n - 1) * (c + 1) == c + 1 - n / 2
  {
    assert (n - 1) * (c + 1) == n * c + n - c - 1;
  }

  /** In cents: (n-1)/2 more than the others leave of the total once they are rounded. */
  lemma ExtremeShareIs(n: nat, c: nat, extra: real)
    requires n > 0
    ensures ExtremeShare(n, c, extra) * 100.0 == (c + 1 - n / 2) as real + (n - 1) as real / 2.0 + extra
  {
    ExtremeRest(n, c);
    assert (n - 1) as real * (c as real + 0.5) == ((n - 1) * (c + 1)) as real - (n - 1) as real / 2.0;
  }

  lemma ExtremeOrder(n: nat, c: nat, extra: real)
    requires n > 0 && extra >= 0.0
    ensures forall i :: 0 <= i < n ==> 0.0 <= Extreme(n, c, extra)[i] <= Extreme(n, c, extra)[0]
    ensures FirstLargest(Extreme(n, c, extra)) == 0
  {
    ExtremeShareIs(n, c, extra);
    assert HalfCentShare(c) * 100.0 == c as real + 0.5;
    FirstOfAll(Extreme(n, c, extra));
  }

  lemma NoCents()
    ensures SumCents([]) == 0
  {
  }

  lemma ExtremeRounded(n: nat, c: nat, extra: real)
    requires n > 0
    ensures var p := Provisional(Extreme(n, c, extra));
            SumCents(p) - p[0] == (n - 1) * (c + 1)
  {
    hide SumCents, ExtremeShare;
    var p := Provisional(Extreme(n, c, extra));
    HalfCentRounds(c);
    assert p[1..] == seq(n - 1, _ => c + 1);
    SumOfEqualCents(n - 1, c + 1);
    SplitCents(p, 0);
    assert p[..0] == [];
    NoCents();
  }

  lemma FirstIs(n: nat, c: nat, extra: real)
    requires n > 0
    ensures Extreme(n, c, extra)[0] == ExtremeShare(n, c, extra)
  {
  }

  /** Positive revenue over non-negative balances with a positive total. */
  ghost predicate Admissible(balances: seq<real>, revenue: real): (ok: bool)
    ensures ok ==> Sum(balances) > 0.0
  {
    && Sum(balances) > 0.0 && revenue > 0.0
    && forall i :: 0 <= i < |balances| ==> balances[i] >= 0.0
  }

  /** The largest exact share, in cents. */
  function LargestShare(balances: seq<real>, revenue: real): real
    requires Sum(balances) > 0.0
  {
    RawShares(balances, revenue)[Absorber(balances, revenue)] * 100.0
  }

  /** The first holder absorbs, is paid c + 1 - floor(n/2) cents, and ends (n-1)/2 cents and the extra short. */
  lemma ExtremeOutcome(n: nat, c: nat, extra: real)
    requires n > 0 && 0.0 <= extra < 0.5
    ensures var balances := Extreme(n, c, extra);
            var revenue := Sum(balances);
            && Admissible(balances, revenue) && ToFixed2(revenue) == ExtremeTotal(n, c)
            && (IsWholeCents(revenue) <==> extra == 0.0)
            && Absorber(balances, revenue) == 0
            && Payouts(balances, revenue)[0] == c + 1 - n / 2
            && LargestShare(balances, revenue) == (c + 1 - n / 2) as real + (n - 1) as real / 2.0 + extra
  {
    hide ExtremeTotal, ExtremeShare, FirstLargest, Provisional, AdjustedTo, Extreme, RawShares, Sum, SumCents;
    hide ToFixed2, IsWholeCents;
    var balances := Extreme(n, c, extra);
    ExtremeSum(n, c, extra);
    ExtremeCents(n, c, extra);
    ExtremeOrder(n, c, extra);
    OwnShares(balances);
    AbsorberPaid(balances, ExtremeTotal(n, c));
    ExtremeRounded(n, c, extra);
    ExtremeRest(n, c);
    ExtremeShareIs(n, c, extra);
    FirstIs(n, c, extra);
  }

  // ------------------------------------------------------------------ the absorber's bound is exact

  /** The absorber's payout is within `slack` cents of its exact share. */
  ghost predicate AbsorberWithin(balances: seq<real>, revenue: real, slack: real)
    requires Sum(balances) > 0.0
  {
    var m := Absorber(balances, revenue);
    Within(Payouts(balances, revenue)[m], RawShares(balances, revenue)[m], slack)
  }

  lemma EnoughSlack(balances: seq<real>, revenue: real, slack: real)
    requires Admissible(balances, revenue)
    requires slack >= |balances| as real / 2.0 || (IsWholeCents(revenue) && slack >= (|balances| - 1) as real / 2.0)
    ensures AbsorberWithin(balances, revenue, slack)
  {
    hide Payouts, Absorber, RawShares, Sum, IsWholeCents;
    RoundingFairness(balances, revenue);
  }

  lemma TooLittleSlack(n: nat, slack: real, extra: real)
    requires n > 0 && 0.0 <= extra < 0.5 && slack < (n - 1) as real / 2.0 + extra
    ensures var balances := Extreme(n, 0, extra);
            Admissible(balances, Sum(balances)) && !AbsorberWithin(balances, Sum(balances), slack)
  {
    hide Payouts, Absorber, RawShares, Sum, Extreme, ToFixed2, IsWholeCents;
    ExtremeOutcome(n, 0, extra);
  }

  /** For whole-cent revenue the absorber's bound is (n-1)/2 cents, for every number of holders exactly. */
  lemma WholeCentsBoundExact(n: nat, slack: real)
    requires n > 0
    ensures (forall balances, revenue :: |balances| == n && Admissible(balances, revenue) && IsWholeCents(revenue)
                                         ==> AbsorberWithin(balances, revenue, slack))
       <==> slack >= (n - 1) as real / 2.0
  {
    hide Admissible, AbsorberWithin, Extreme, Sum, IsWholeCents, LargestShare, Payouts, Absorber;
    if slack >= (n - 1) as real / 2.0 {
      forall balances, revenue | |balances| == n && Admissible(balances, revenue) && IsWholeCents(revenue)
        ensures AbsorberWithin(balances, revenue, slack)
      {
        EnoughSlack(balances, revenue, slack);
      }
    } else {
      ExtremeOutcome(n, 0, 0.0);
      TooLittleSlack(n, slack, 0.0);
    }
  }

  /** For any revenue it is n/2 cents. */
  lemma AnyRevenueBoundExact(n: nat, slack: real)
    requires n > 0
    ensures (forall balances, revenue :: |balances| == n && Admissible(balances, revenue)
                                         ==> AbsorberWithin(balances, revenue, slack))
       <==> slack >= n as real / 2.0
  {
    hide Admissible, AbsorberWithin, Extreme, Sum;
    if slack >= n as real / 2.0 {
      forall balances, revenue | |balances| == n && Admissible(balances, revenue)
        ensures AbsorberWithin(balances, revenue, slack)
      {
        EnoughSlack(balances, revenue, slack);
      }
    } else {
      var gap := slack - (n - 1) as real / 2.0;
      TooLittleSlack(n, slack, if gap < 0.0 then 0.0 else (gap + 0.5) / 2.0);
    }
  }

  // ------------------------------------------------------------------ the thresholds are exact

  ghost predicate NonePaidNegative(balances: seq<real>, revenue: real)
    requires Sum(balances) > 0.0
  {
    forall i :: 0 <= i < |balances| ==> Payouts(balances, revenue)[i] >= 0
  }

  lemma SafeIsOneMore(n: nat)
    requires n >= 4
    ensures ExtremeTotal(n, n / 2 - 2) == SafeRevenue(n) - 1
  {
    var k := n / 2;
    if n % 2 == 0 {
      assert n == 2 * k && (n - 2) / 2 == k - 1;
      assert 2 * k * (k - 2) + k == (2 * k - 1) * (k - 1) - 1;
    } else {
      assert n == 2 * k + 1 && (n - 2) / 2 == k - 1;
      assert (2 * k + 1) * (k - 2) + k + 1 == 2 * k * (k - 1) - 1;
    }
  }

  /**
   From four holders on: a largest share from (n-3)/2 up to (n-2)/2 cents, one cent less than is safe, and
   a payout of -1.
   */
  lemma ExtremeIsNegative(n: nat, extra: real)
    requires n >= 4 && 0.0 <= extra < 0.5
    ensures var balances := Extreme(n, n / 2 - 2, extra);
            var revenue := Sum(balances);
            && Admissible(balances, revenue) && ToFixed2(revenue) == SafeRevenue(n) - 1
            && (IsWholeCents(revenue) <==> extra == 0.0)
            && LargestShare(balances, revenue) == (n - 3) as real / 2.0 + extra
            && Payouts(balances, revenue)[0] == -1 && !NonePaidNegative(balances, revenue)
  {
    hide ExtremeTotal, Extreme, SafeRevenue, Sum, ToFixed2, IsWholeCents, LargestShare, Payouts, Absorber, Admissible;
    ExtremeOutcome(n, n / 2 - 2, extra);
    SafeIsOneMore(n);
  }

  lemma EnoughShare(balances: seq<real>, revenue: real)
    requires Admissible(balances, revenue)
    requires || LargestShare(balances, revenue) >= (|balances| - 2) as real / 2.0
             || (IsWholeCents(revenue) && LargestShare(balances, revenue) > (|balances| - 3) as real / 2.0)
    ensures NonePaidNegative(balances, revenue)
  {
    NonNegativeAboveThreshold(balances, revenue);
  }

  /**
   For whole-cent revenue (n-3)/2 cents is exactly the bound above which a largest share rules out
   negative payouts.
   */
  lemma WholeCentsShareThresholdExact(n: nat, cents: real)
    requires n >= 4
    ensures (forall balances, revenue ::
               (&& |balances| == n && Admissible(balances, revenue) && IsWholeCents(revenue)
                && LargestShare(balances, revenue) > cents)
               ==> NonePaidNegative(balances, revenue))
       <==> cents >= (n - 3) as real / 2.0
  {
    hide Admissible, NonePaidNegative, LargestShare, Extreme, SafeRevenue, Sum, IsWholeCents, ToFixed2, Payouts;
    if cents >= (n - 3) as real / 2.0 {
      forall balances, revenue | |balances| == n && Admissible(balances, revenue) && IsWholeCents(revenue)
                                 && LargestShare(balances, revenue) > cents
        ensures NonePaidNegative(balances, revenue)
      {
        EnoughShare(balances, revenue);
      }
    } else {
      ExtremeIsNegative(n, 0.0);
    }
  }

  /** For any revenue (n-2)/2 cents is exactly the bound from which on it does. */
  lemma AnyRevenueShareThresholdExact(n: nat, cents: real)
    requires n >= 4
    ensures (forall balances, revenue ::
               |balances| == n && Admissible(balances, revenue) && LargestShare(balances, revenue) >= cents
               ==> NonePaidNegative(balances, revenue))
       <==> cents >= (n - 2) as real / 2.0
  {
    hide Admissible, NonePaidNegative, LargestShare, Extreme, SafeRevenue, Sum, IsWholeCents, ToFixed2, Payouts;
    if cents >= (n - 2) as real / 2.0 {
      forall balances, revenue | |balances| == n && Admissible(balances, revenue)
                                 && LargestShare(balances, revenue) >= cents
        ensures NonePaidNegative(balances, revenue)
      {
        EnoughShare(balances, revenue);
      }
    } else {
      var gap := cents - (n - 3) as real / 2.0;
      ExtremeIsNegative(n, if gap < 0.0 then 0.0 else gap);
    }
  }

  lemma EnoughRevenue(balances: seq<real>, revenue: real)
    requires Admissible(balances, revenue) && ToFixed2(revenue) >= SafeRevenue(|balances|)
    ensures NonePaidNegative(balances, revenue)
  {
    NonNegativeForRevenue(balances, revenue);
  }

  lemma SafeForFew(n: nat)
    ensures 0 < n <= 3 ==> SafeRevenue(n) == 0
  {
  }

  /**
   For any number of holders and any revenue, `SafeRevenue` is exactly what it takes, in rounded cents, to
   rule out negative payouts.
   */
  lemma RevenueThresholdExact(n: nat, cents: nat)
    requires n > 0
    ensures (forall balances, revenue :: |balances| == n && Admissible(balances, revenue) && ToFixed2(revenue) >= cents
                                         ==> NonePaidNegative(balances, revenue))
       <==> cents >= SafeRevenue(n)
  {
    hide Admissible, NonePaidNegative, LargestShare, Extreme, SafeRevenue, Sum, IsWholeCents, ToFixed2, Payouts;
    if cents >= SafeRevenue(n) {
      forall balances, revenue | |balances| == n && Admissible(balances, revenue) && ToFixed2(revenue) >= cents
        ensures NonePaidNegative(balances, revenue)
      {
        EnoughRevenue(balances, revenue);
      }
    } else {
      SafeForFew(n);
      ExtremeIsNegative(n, 0.0);
    }
  }
}
