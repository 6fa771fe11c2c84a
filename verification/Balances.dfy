/**
 `createDbBalanceProviderFromInvestments` and `normalizeBalances`: one balance for each investor,
 the sum of that investor's own completed investments.
 */
module Balances {
  import opened Wrappers
  import opened Filters
  import opened Money
  import opened Proration
  import opened Distribution

  /** `amount` is absent when the stored value is not a number. */
  datatype Investment = Investment(investorId: string, amount: Option<real>, completed: bool)

  /** A `Map`: its entries, and the order in which keys were first set. */
  datatype Accumulator = Accumulator(order: seq<string>, totals: map<string, real>) {
    ghost predicate Valid() {
      && (forall i, j :: 0 <= i < j < |order| ==> order[i] != order[j])
      && (forall id :: id in order <==> id in totals)
    }

    function Entries(): (holders: seq<BalanceRow>)
      requires Valid()
      ensures |holders| == |order|
    {
      seq(|order|, i requires 0 <= i < |order| => BalanceRow(order[i], totals[order[i]]))
    }
  }

  predicate Counts(inv: Investment) {
    inv.completed && inv.amount.Some? && inv.amount.value > 0.0
  }

  function Add(acc: Accumulator, inv: Investment): Accumulator {
    if !Counts(inv) then acc
    else if inv.investorId in acc.totals then
      acc.(totals := acc.totals[inv.investorId := acc.totals[inv.investorId] + inv.amount.value])
    else
      Accumulator(acc.order + [inv.investorId], acc.totals[inv.investorId := 0.0 + inv.amount.value])
  }

  function Aggregate(investments: seq<Investment>): (acc: Accumulator)
    ensures acc.Valid()
  {
    if investments == [] then Accumulator([], map[])
    else Add(Aggregate(investments[..|investments| - 1]), investments[|investments| - 1])
  }

  /** The provider's loop. */
  method GetBalances(investments: seq<Investment>) returns (balances: seq<BalanceRow>)
    ensures balances == Aggregate(investments).Entries()
  {
    var order: seq<string> := [];
    var byInvestor: map<string, real> := map[];
    for i := 0 to |investments|
      invariant Accumulator(order, byInvestor) == Aggregate(investments[..i])
    {
      var inv := investments[i];
      assert investments[..i + 1][..i] == investments[..i];
      if inv.completed {
        var current := if inv.investorId in byInvestor then byInvestor[inv.investorId] else 0.0;
        if inv.amount.Some? && inv.amount.value > 0.0 {
          if inv.investorId !in byInvestor {
            order := order + [inv.investorId];
          }
          byInvestor := byInvestor[inv.investorId := current + inv.amount.value];
        }
      }
    }
    assert investments[..|investments|] == investments;
    balances := Accumulator(order, byInvestor).Entries();
  }

  // ------------------------------------------------------------------ what the loop computes

  function Contribution(inv: Investment, id: string): real {
    if Counts(inv) && inv.investorId == id then inv.amount.value else 0.0
  }

  /** The completed, positive investments of one investor. */
  function Holding(investments: seq<Investment>, id: string): (total: real)
    ensures total >= 0.0
    ensures total > 0.0 <==> exists inv :: inv in investments && Counts(inv) && inv.investorId == id
  {
    if investments == [] then 0.0
    else Holding(investments[..|investments| - 1], id) + Contribution(investments[|investments| - 1], id)
  }

  /** All completed, positive investments together. */
  function Invested(investments: seq<Investment>): real {
    if investments == [] then 0.0
    else
      var inv := investments[|investments| - 1];
      Invested(investments[..|investments| - 1]) + if Counts(inv) then inv.amount.value else 0.0
  }

  /** An investor is listed exactly if some investment counts, once, with the sum of those that do. */
  lemma {:induction false} AggregateIsHolding(investments: seq<Investment>)
    ensures var totals := Aggregate(investments).totals;
            forall id :: (id in totals <==> Holding(investments, id) > 0.0)
                      && (id in totals ==> totals[id] == Holding(investments, id))
  {
    if investments != [] {
      AggregateIsHolding(investments[..|investments| - 1]);
    }
  }

  lemma AddConserves(acc: Accumulator, inv: Investment)
    requires acc.Valid() && Add(acc, inv).Valid()
    ensures Sum(Values(Add(acc, inv).Entries()))
         == Sum(Values(acc.Entries())) + if Counts(inv) then inv.amount.value else 0.0
  {
    hide Sum;
    var before, after := Values(acc.Entries()), Values(Add(acc, inv).Entries());
    if Counts(inv) {
      if inv.investorId in acc.totals {
        var k :| 0 <= k < |acc.order| && acc.order[k] == inv.investorId;
        assert after == before[k := before[k] + inv.amount.value];
        SumUpdate(before, k, before[k] + inv.amount.value);
      } else {
        assert after == before + [inv.amount.value];
        SumConcat(before, [inv.amount.value]);
        SumOfOne(inv.amount.value);
      }
    }
  }

  /** Nothing is lost or made up: the balances add up to everything that counts. */
  lemma {:induction false} AggregateConserves(investments: seq<Investment>)
    ensures Sum(Values(Aggregate(investments).Entries())) == Invested(investments)
  {
    if investments != [] {
      AggregateConserves(investments[..|investments| - 1]);
      AddConserves(Aggregate(investments[..|investments| - 1]), investments[|investments| - 1]);
    }
  }

  lemma {:induction false} HoldingConcat(a: seq<Investment>, b: seq<Investment>, id: string)
    ensures Holding(a + b, id) == Holding(a, id) + Holding(b, id)
  {
    if b == [] {
      assert a + b == a;
    } else {
      HoldingConcat(a, b[..|b| - 1], id);
      assert (a + b)[..|a + b| - 1] == a + b[..|b| - 1];
    }
  }

  lemma HoldingWithout(s: seq<Investment>, k: nat, id: string)
    requires k < |s|
    ensures Holding(s, id) == Holding(s[..k] + s[k + 1..], id) + Contribution(s[k], id)
  {
    assert s == s[..k] + ([s[k]] + s[k + 1..]);
    HoldingConcat(s[..k], [s[k]] + s[k + 1..], id);
    HoldingConcat([s[k]], s[k + 1..], id);
    HoldingConcat(s[..k], s[k + 1..], id);
    assert [s[k]][..0] == [];
  }

  lemma {:induction false} HoldingOfPermutation(a: seq<Investment>, b: seq<Investment>, id: string)
    requires multiset(a) == multiset(b)
    ensures Holding(a, id) == Holding(b, id)
  {
    hide Holding, Counts, Contribution;
    if a == [] {
      assert |multiset(b)| == 0;
    } else {
      var k := TakeFirst(a, b);
      HoldingOfPermutation(a[1..], b[..k] + b[k + 1..], id);
      HoldingWithout(a, 0, id);
      HoldingWithout(b, k, id);
      assert a[..0] + a[1..] == a[1..];
    }
  }

  /** As a map from investors to balances, the result does not depend on the order of the investments. */
  lemma OrderDoesNotMatter(a: seq<Investment>, b: seq<Investment>)
    requires multiset(a) == multiset(b)
    ensures Aggregate(a).totals == Aggregate(b).totals
  {
    hide Holding, Aggregate;
    AggregateIsHolding(a);
    AggregateIsHolding(b);
    forall id
      ensures Holding(a, id) == Holding(b, id)
    {
      HoldingOfPermutation(a, b, id);
    }
  }

  // ------------------------------------------------------------------ normalization

  /** `balance` is a number here, so only the sign and the id are left to test. */
  predicate Usable(h: BalanceRow) {
    h.investorId != "" && h.balance > 0.0
  }

  function Normalize(holders: seq<BalanceRow>): seq<BalanceRow> {
    Filter(holders, Usable)
  }

  lemma NormalizeKeepsAll(holders: seq<BalanceRow>)
    ensures forall h :: h in Normalize(holders) <==> h in holders && h.investorId != "" && h.balance > 0.0
    ensures Normalize(holders) == holders
       <==> forall i :: 0 <= i < |holders| ==> holders[i].investorId != "" && holders[i].balance > 0.0
  {
    FilterMembers(holders, Usable);
    FilterKeepsAllExactly(holders, Usable);
  }

  lemma EntriesAreUsable(investments: seq<Investment>, i: nat)
    requires i < |Aggregate(investments).order|
    ensures Usable(Aggregate(investments).Entries()[i]) <==> Aggregate(investments).order[i] != ""
  {
    hide Aggregate, Holding;
    AggregateIsHolding(investments);
    assert Aggregate(investments).order[i] in Aggregate(investments).totals;
  }

  lemma EntryIsHolding(investments: seq<Investment>, i: nat)
    requires i < |Aggregate(investments).order|
    ensures var row := Aggregate(investments).Entries()[i];
            row.balance == Holding(investments, row.investorId) > 0.0
  {
    hide Aggregate, Holding;
    AggregateIsHolding(investments);
    assert Aggregate(investments).order[i] in Aggregate(investments).totals;
  }

  lemma ListedExactly(investments: seq<Investment>, id: string)
    ensures id in Aggregate(investments).order
       <==> exists inv :: inv in investments && Counts(inv) && inv.investorId == id
  {
    hide Aggregate, Holding, Counts;
    AggregateIsHolding(investments);
    assert id in Aggregate(investments).order <==> id in Aggregate(investments).totals;
  }

  /** Completed investments of positive amounts, by one investor. */
  function CompletedOf(id: string): Investment -> bool {
    (inv: Investment) => inv.investorId == id && inv.completed && inv.amount.Some? && inv.amount.value > 0.0
  }

  function AmountsOf(investments: seq<Investment>): (amounts: seq<real>)
    ensures |amounts| == |investments|
  {
    seq(|investments|, i requires 0 <= i < |investments| => investments[i].amount.GetOr(0.0))
  }

  lemma {:induction false} HoldingIsSum(investments: seq<Investment>, id: string)
    ensures Holding(investments, id) == Sum(AmountsOf(Filter(investments, CompletedOf(id))))
  {
    if investments != [] {
      var n := |investments| - 1;
      HoldingIsSum(investments[..n], id);
      var before := Filter(investments[..n], CompletedOf(id));
      if CompletedOf(id)(investments[n]) {
        assert AmountsOf(before + [investments[n]]) == AmountsOf(before) + [investments[n].amount.value];
        assert Sum(AmountsOf(before) + [investments[n].amount.value])
            == Sum(AmountsOf(before)) + investments[n].amount.value by {
          assert (AmountsOf(before) + [investments[n].amount.value])[..|before|] == AmountsOf(before);
        }
      } else {
        assert Filter(investments, CompletedOf(id)) == before;
      }
    }
  }

  /** The first completed investment of `a` of a positive amount comes before all of `b`. */
  ghost predicate Earlier(investments: seq<Investment>, a: string, b: string) {
    exists k :: 0 <= k < |investments| && CompletedOf(a)(investments[k])
                && forall l :: 0 <= l <= k ==> !CompletedOf(b)(investments[l])
  }

  lemma ListedSomewhere(investments: seq<Investment>, id: string)
    ensures id in Aggregate(investments).order
       <==> exists k :: 0 <= k < |investments| && CompletedOf(id)(investments[k])
  {
    hide Aggregate;
    ListedExactly(investments, id);
  }

  lemma {:induction false} ListedInOrder(investments: seq<Investment>, i: nat, j: nat)
    requires i < j < |Aggregate(investments).order|
    ensures Earlier(investments, Aggregate(investments).order[i], Aggregate(investments).order[j])
  {
    hide CompletedOf;
    var n := |investments| - 1;
    var before, order := Aggregate(investments[..n]).order, Aggregate(investments).order;
    if j < |before| {
      ListedInOrder(investments[..n], i, j);
      var k :| 0 <= k < n && CompletedOf(order[i])(investments[..n][k])
               && forall l :: 0 <= l <= k ==> !CompletedOf(order[j])(investments[..n][l]);
      assert forall l :: 0 <= l <= k ==> investments[..n][l] == investments[l];
    } else {
      ListedSomewhere(investments[..n], order[i]);
      ListedSomewhere(investments[..n], order[j]);
      var k :| 0 <= k < n && CompletedOf(order[i])(investments[..n][k]);
      assert forall l :: 0 <= l <= k ==> investments[..n][l] == investments[l];
    }
  }

  /**
   What the provider returns, told from the investments: an entry for each investor with a completed investment of a
   positive amount, in the order of the first of these, with the sum of these.
   */
  lemma ProviderListsExactly(investments: seq<Investment>)
    ensures var rows := Aggregate(investments).Entries();
            && (forall id :: (exists i :: 0 <= i < |rows| && rows[i].investorId == id)
                        <==> exists k :: 0 <= k < |investments| && CompletedOf(id)(investments[k]))
            && (forall i :: 0 <= i < |rows| ==>
                  rows[i].balance == Sum(AmountsOf(Filter(investments, CompletedOf(rows[i].investorId)))))
            && (forall i, j :: 0 <= i < j < |rows| ==>
                  Earlier(investments, rows[i].investorId, rows[j].investorId))
  {
    hide Aggregate, Holding, CompletedOf, Filter, Sum, Earlier;
    var rows := Aggregate(investments).Entries();
    forall id
      ensures (exists i :: 0 <= i < |rows| && rows[i].investorId == id)
         <==> exists k :: 0 <= k < |investments| && CompletedOf(id)(investments[k])
    {
      ListedSomewhere(investments, id);
      assert forall i :: 0 <= i < |rows| ==> rows[i].investorId == Aggregate(investments).order[i];
    }
    forall i | 0 <= i < |rows|
      ensures rows[i].balance == Sum(AmountsOf(Filter(investments, CompletedOf(rows[i].investorId))))
    {
      EntryIsHolding(investments, i);
      HoldingIsSum(investments, rows[i].investorId);
    }
    forall i, j | 0 <= i < j < |rows|
      ensures Earlier(investments, rows[i].investorId, rows[j].investorId)
    {
      ListedInOrder(investments, i, j);
    }
  }

  /**
   Balances that come from the provider survive normalization whole exactly if no investment that counts
   has an empty investor id.
   */
  lemma ProviderOutputIsNormal(investments: seq<Investment>)
    ensures Normalize(Aggregate(investments).Entries()) == Aggregate(investments).Entries()
       <==> forall inv :: inv in investments && Counts(inv) ==> inv.investorId != ""
  {
    hide Aggregate, Holding, Normalize, Counts;
    NormalizeKeepsAll(Aggregate(investments).Entries());
    ListedExactly(investments, "");
    forall i | 0 <= i < |Aggregate(investments).order|
      ensures Usable(Aggregate(investments).Entries()[i]) <==> Aggregate(investments).order[i] != ""
    {
      EntriesAreUsable(investments, i);
    }
  }

  // ------------------------------------------------------------------ from investments to payouts

  lemma EntriesDistinct(investments: seq<Investment>, i: nat, j: nat)
    requires i < j < |Aggregate(investments).order|
    ensures Aggregate(investments).Entries()[i].investorId != Aggregate(investments).Entries()[j].investorId
  {
    hide Aggregate;
  }

  /** One of the payments. */
  lemma InvestorPaidInProportion(investments: seq<Investment>, revenue: real, i: nat)
    requires Invested(investments) > 0.0 && revenue > 0.0 && i < |Aggregate(investments).order|
    ensures var rows := Aggregate(investments).Entries();
            && Sum(Values(rows)) > 0.0
            && Items(rows, revenue)[i].investorId == Aggregate(investments).order[i]
            && Within(Items(rows, revenue)[i].cents,
                      Share(Holding(investments, Aggregate(investments).order[i]), Invested(investments), revenue),
                      if i == Absorber(Values(rows), revenue) then |rows| as real / 2.0 else 0.5)
  {
    hide Aggregate, Holding, Invested, Payouts, Absorber, Share, Sum;
    var rows := Aggregate(investments).Entries();
    AggregateConserves(investments);
    RoundingFairness(Values(rows), revenue);
    EntryIsHolding(investments, i);
    assert RawShares(Values(rows), revenue)[i]
        == Share(Holding(investments, Aggregate(investments).order[i]), Invested(investments), revenue);
  }

  /**
   Revenue distributed over the balances the provider makes of a list of investments: exactly the
   investors with a holding are paid, each once, the rounded revenue in all; and each but the absorber
   gets, to within half a cent, the part of the revenue that the holding is of everything invested.
   */
  lemma InvestorsPaidInProportion(investments: seq<Investment>, revenue: real)
    requires Invested(investments) > 0.0 && revenue > 0.0
    ensures var rows := Aggregate(investments).Entries();
            && Sum(Values(rows)) > 0.0
            && var items, absorber := Items(rows, revenue), Absorber(Values(rows), revenue);
               && (forall id :: Holding(investments, id) > 0.0
                              <==> exists i :: 0 <= i < |items| && items[i].investorId == id)
               && (forall i, j :: 0 <= i < j < |items| ==> items[i].investorId != items[j].investorId)
               && (forall i :: 0 <= i < |items| ==>
                     Within(items[i].cents,
                            Share(Holding(investments, items[i].investorId), Invested(investments), revenue),
                            if i == absorber then |items| as real / 2.0 else 0.5))
               && SumCents(Payouts(Values(rows), revenue)) == ToFixed2(revenue)
  {
    hide Aggregate, Holding, Invested, Payouts, Absorber, Share, Sum, SumCents, Within, Items;
    var rows := Aggregate(investments).Entries();
    AggregateConserves(investments);
    Conservation(Values(rows), revenue);
    forall i | 0 <= i < |rows|
      ensures Items(rows, revenue)[i].investorId == Aggregate(investments).order[i]
      ensures Within(Items(rows, revenue)[i].cents,
                     Share(Holding(investments, Aggregate(investments).order[i]), Invested(investments), revenue),
                     if i == Absorber(Values(rows), revenue) then |rows| as real / 2.0 else 0.5)
    {
      InvestorPaidInProportion(investments, revenue, i);
    }
    forall i, j | 0 <= i < j < |rows|
      ensures Aggregate(investments).order[i] != Aggregate(investments).order[j]
    {
      EntriesDistinct(investments, i, j);
    }
    forall id
      ensures Holding(investments, id) > 0.0 <==> id in Aggregate(investments).order
    {
      AggregateIsHolding(investments);
    }
  }
}
