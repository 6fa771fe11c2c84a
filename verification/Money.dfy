/**
 Amounts of money.  A decimal amount is an exact rational (`real`); a string with
 two decimals is a whole number of cents (`int`).  IEEE-754 effects are not modelled.
 */
module Money {

  /** `Math.round`: the nearest integer, the larger one on a tie. */
  function RoundHalfUp(x: real): (n: int)
    ensures n as real - 0.5 <= x < n as real + 0.5
  {
    (x + 0.5).Floor
  }

  /** The interval in the contract of `RoundHalfUp` pins its result down. */
  lemma RoundHalfUpIs(x: real, n: int)
    requires n as real - 0.5 <= x < n as real + 0.5
    ensures RoundHalfUp(x) == n
  {
  }

  /** The cents of `x.toFixed(2)`: the sign is set aside first, so a tie goes away from zero. */
  function ToFixed2(x: real): (cents: int)
    ensures -0.5 <= cents as real - x * 100.0 <= 0.5
    ensures x >= 0.0 ==> cents == RoundHalfUp(x * 100.0) && cents >= 0
    ensures x < 0.0 ==> cents as real - x * 100.0 < 0.5
  {
    if x < 0.0 then -RoundHalfUp(-x * 100.0) else RoundHalfUp(x * 100.0)
  }

  /** The decimal amount of a number of cents (what `parseFloat` reads back). */
  function Amount(cents: int): real {
    cents as real / 100.0
  }

  /** The amount survives `toFixed(2)` unchanged. */
  predicate IsWholeCents(x: real) {
    Amount(ToFixed2(x)) == x
  }

  lemma ToFixed2Amount(cents: int)
    ensures ToFixed2(Amount(cents)) == cents
  {
  }

  /** `paid` cents are within `slack` cents of an exact amount. */
  ghost predicate Within(paid: int, exact: real, slack: real) {
    -slack <= paid as real - exact * 100.0 <= slack
  }

  function Abs(x: real): real {
    if x < 0.0 then -x else x
  }

  function AbsInt(x: int): nat {
    if x < 0 then -x else x
  }

  /** `reduce((s, x) => s + x, 0)` over decimal amounts. */
  function Sum(s: seq<real>): real {
    if s == [] then 0.0 else Sum(s[..|s| - 1]) + s[|s| - 1]
  }

  /** The same fold over cents. */
  function SumCents(s: seq<int>): int {
    if s == [] then 0 else SumCents(s[..|s| - 1]) + s[|s| - 1]
  }

  lemma {:induction false} SumConcat(a: seq<real>, b: seq<real>)
    ensures Sum(a + b) == Sum(a) + Sum(b)
  {
    if b == [] {
      assert a + b == a;
    } else {
      SumConcat(a, b[..|b| - 1]);
      assert (a + b)[..|a + b| - 1] == a + b[..|b| - 1];
    }
  }

  lemma {:induction false} SumCentsConcat(a: seq<int>, b: seq<int>)
    ensures SumCents(a + b) == SumCents(a) + SumCents(b)
  {
    if b == [] {
      assert a + b == a;
    } else {
      SumCentsConcat(a, b[..|b| - 1]);
      assert (a + b)[..|a + b| - 1] == a + b[..|b| - 1];
    }
  }

  lemma {:induction false} SumUpdate(s: seq<real>, i: nat, v: real)
    requires i < |s|
    ensures Sum(s[i := v]) == Sum(s) - s[i] + v
  {
    var n := |s| - 1;
    if i < n {
      SumUpdate(s[..n], i, v);
      assert s[i := v][..n] == s[..n][i := v];
    } else {
      assert s[i := v][..n] == s[..n];
    }
  }

  lemma {:induction false} SumCentsUpdate(s: seq<int>, i: nat, v: int)
    requires i < |s|
    ensures SumCents(s[i := v]) == SumCents(s) - s[i] + v
  {
    var n := |s| - 1;
    if i < n {
      SumCentsUpdate(s[..n], i, v);
      assert s[i := v][..n] == s[..n][i := v];
    } else {
      assert s[i := v][..n] == s[..n];
    }
  }

  lemma SumOfOne(x: real)
    ensures Sum([x]) == x
  {
    assert [x][..0] == [];
  }

  lemma SumWithout(s: seq<real>, k: nat)
    requires k < |s|
    ensures Sum(s) == Sum(s[..k] + s[k + 1..]) + s[k]
  {
    hide Sum;
    var before, one, after := s[..k], [s[k]], s[k + 1..];
    assert s == before + (one + after);
    SumConcat(before, one + after);
    SumConcat(one, after);
    SumConcat(before, after);
    SumOfOne(s[k]);
  }

  lemma MultisetWithout<T>(s: seq<T>, k: nat)
    requires k < |s|
    ensures multiset(s[..k] + s[k + 1..]) == multiset(s) - multiset{s[k]}
  {
    assert s == s[..k] + [s[k]] + s[k + 1..];
  }

  lemma MultisetTail<T>(s: seq<T>)
    requires s != []
    ensures multiset(s[1..]) == multiset(s) - multiset{s[0]}
    ensures s[0] in multiset(s)
  {
    assert s == [s[0]] + s[1..];
  }

  lemma Position<T>(s: seq<T>, x: T) returns (k: nat)
    requires x in multiset(s)
    ensures k < |s| && s[k] == x
  {
    k :| 0 <= k < |s| && s[k] == x;
  }

  /** Two lists with the same elements stay so when the first element of one is taken out of both. */
  lemma TakeFirst<T>(a: seq<T>, b: seq<T>) returns (k: nat)
    requires a != [] && multiset(a) == multiset(b)
    ensures k < |b| && b[k] == a[0]
    ensures multiset(a[1..]) == multiset(b[..k] + b[k + 1..])
  {
    MultisetTail(a);
    k := Position(b, a[0]);
    MultisetWithout(b, k);
  }
}
