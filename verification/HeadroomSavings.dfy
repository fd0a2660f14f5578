/**
 * How Headroom's total of saved output tokens is split between the two providers: in proportion to a
 * weight each, every share rounded on its own, over exact reals.
 */
module HeadroomSavings {
  import opened HeadroomRouting

  /** Rounding to the nearest integer, halves upwards. */
  function Round(x: real): int {
    (x + 0.5).Floor
  }

  /** The counters a share is weighed by. */
  datatype Row = Row(outputTokens: real, requests: real)

  function Weight(row: Row, active: bool): real {
    if row.outputTokens != 0.0 then row.outputTokens
    else if row.requests != 0.0 then row.requests
    else if active then 1.0 else 0.0
  }

  function Share(total: int, weight: real, totalWeight: real): real
    requires totalWeight > 0.0
  {
    total as real * (weight / totalWeight)
  }

  /** A share: output tokens count before requests, these before mere activity, and nothing for none of them. */
  ghost predicate InProportion(saved: int, total: int, row: Row, active: bool, totalWeight: real)
    requires totalWeight > 0.0
  {
    if row.outputTokens > 0.0 then saved == Round(total as real * (row.outputTokens / totalWeight))
    else if row.requests > 0.0 then saved == Round(total as real * (row.requests / totalWeight))
    else if active then saved == Round(total as real * (1.0 / totalWeight))
    else saved == 0
  }

  lemma CountersInOrder(total: int, row: Row, active: bool, totalWeight: real)
    requires totalWeight > 0.0 && row.outputTokens >= 0.0 && row.requests >= 0.0
    ensures InProportion(Round(Share(total, Weight(row, active), totalWeight)), total, row, active, totalWeight)
  {
    WholeIsOne(totalWeight);
    RoundIs(0.0, 0);
  }

  /** The rounded share of each provider; nothing when nothing carries weight. */
  method SplitOutputSavings(total: int, rows: map<Provider, Row>, active: set<Provider>)
    returns (saved: map<Provider, int>, totalWeight: real)
    requires forall p: Provider :: p in rows && rows[p].outputTokens >= 0.0 && rows[p].requests >= 0.0
    ensures totalWeight == Weight(rows[Codex], Codex in active) + Weight(rows[Claude], Claude in active)
    ensures saved.Keys == {Codex, Claude}
    ensures totalWeight > 0.0 ==>
              saved[Codex] + saved[Claude] ==
                if IsHalf(Share(total, Weight(rows[Codex], Codex in active), totalWeight)) then total + 1 else total
    ensures forall p: Provider :: p in saved && saved[p] ==
              if totalWeight > 0.0 then Round(Share(total, Weight(rows[p], p in active), totalWeight)) else 0
    ensures forall p: Provider | totalWeight > 0.0 :: InProportion(saved[p], total, rows[p], p in active, totalWeight)
  {
    var providers := [Codex, Claude];
    totalWeight := 0.0;
    var i := 0;
    while i < |providers|
      invariant i <= 2
      invariant totalWeight == (if i > 0 then Weight(rows[Codex], Codex in active) else 0.0) +
                               (if i > 1 then Weight(rows[Claude], Claude in active) else 0.0)
    {
      totalWeight := totalWeight + Weight(rows[providers[i]], providers[i] in active);
      i := i + 1;
    }
    saved := map[];
    i := 0;
    while i < |providers|
      invariant i <= 2
      invariant saved.Keys == set k | 0 <= k < i :: providers[k]
      invariant forall p :: p in saved ==>
        saved[p] == if totalWeight > 0.0 then Round(Share(total, Weight(rows[p], p in active), totalWeight)) else 0
    {
      var p := providers[i];
      var weight := Weight(rows[p], p in active);
      saved := saved[p := if totalWeight > 0.0 then Round(Share(total, weight, totalWeight)) else 0];
      i := i + 1;
    }
    assert providers[0] in saved && providers[1] in saved;
    forall p: Provider ensures p in saved {
      assert p == Codex || p == Claude;
    }
    if totalWeight > 0.0 {
      forall p: Provider ensures InProportion(saved[p], total, rows[p], p in active, totalWeight) {
        CountersInOrder(total, rows[p], p in active, totalWeight);
      }
      SavingsAreConserved(total, Weight(rows[Codex], Codex in active), Weight(rows[Claude], Claude in active));
    }
  }

  /** A share is an exact half: it lies midway between two integers. */
  predicate IsHalf(x: real) {
    x - x.Floor as real == 0.5
  }

  lemma SharesAddUp(total: int, a: real, b: real)
    requires a >= 0.0 && b >= 0.0 && a + b > 0.0
    ensures Share(total, a, a + b) + Share(total, b, a + b) == total as real
  {
    assert a / (a + b) + b / (a + b) == 1.0;
  }

  lemma RoundIs(x: real, n: int)
    requires n as real - 0.5 <= x < n as real + 0.5
    ensures Round(x) == n
  {
    var z := x + 0.5;
    assert n as real <= z < (n + 1) as real;
    assert z.Floor as real <= z < (z.Floor + 1) as real;
  }

  lemma HalfIs(x: real, n: int)
    requires n as real <= x < (n + 1) as real
    ensures IsHalf(x) <==> x == n as real + 0.5
  {
    assert x.Floor as real <= x < (x.Floor + 1) as real;
    assert x.Floor == n;
  }

  lemma RoundedPair(total: int, x: real, y: real)
    requires x + y == total as real
    ensures IsHalf(x) <==> IsHalf(y)
    ensures Round(x) + Round(y) == if IsHalf(x) then total + 1 else total
  {
    var n := x.Floor;
    var f := x - n as real;
    var m := total - n;
    assert 0.0 <= f < 1.0 && y == m as real - f;
    HalfIs(x, n);
    HalfIs(y, if f == 0.0 then m else m - 1);
    RoundIs(x, if f < 0.5 then n else n + 1);
    RoundIs(y, if f <= 0.5 then m else m - 1);
  }

  /**
   * The rounded shares conserve the total, or exceed it by one exactly when both shares are exact
   * halves.
   */
  lemma SavingsAreConserved(total: int, a: real, b: real)
    requires a >= 0.0 && b >= 0.0 && a + b > 0.0
    ensures var x, y := Share(total, a, a + b), Share(total, b, a + b);
            && Round(x) + Round(y) == (if IsHalf(x) then total + 1 else total)
            && (IsHalf(x) <==> IsHalf(y))
  {
    SharesAddUp(total, a, b);
    RoundedPair(total, Share(total, a, a + b), Share(total, b, a + b));
  }

  lemma ScaledOrder(t: real, x: real, y: real)
    requires 0.0 <= t && x <= y
    ensures t * x <= t * y
  {
    var d := y - x;
    assert t * d >= 0.0;
    Distribute(t, x, d);
  }

  lemma Distribute(t: real, x: real, d: real)
    ensures t * (x + d) == t * x + t * d
  {
  }

  lemma DividedOrder(s: real, a: real, b: real)
    requires s > 0.0 && a <= b
    ensures a / s <= b / s
  {
    var i := 1.0 / s;
    assert i > 0.0;
    ScaledOrder(i, a, b);
    assert a / s == i * a && b / s == i * b;
  }

  lemma WholeIsOne(s: real)
    requires s > 0.0
    ensures s / s == 1.0 && 0.0 / s == 0.0
  {
  }

  /** The shares of a non-negative total lie between nothing and all of it, in the order of the weights. */
  lemma SharesAreOrdered(total: int, a: real, b: real)
    requires total >= 0 && 0.0 <= a <= b && a + b > 0.0
    ensures 0.0 <= Share(total, a, a + b) <= Share(total, b, a + b) <= total as real
  {
    var s, t := a + b, total as real;
    WholeIsOne(s);
    DividedOrder(s, 0.0, a);
    DividedOrder(s, a, b);
    DividedOrder(s, b, s);
    ScaledOrder(t, 0.0, a / s);
    ScaledOrder(t, a / s, b / s);
    ScaledOrder(t, b / s, 1.0);
  }

  lemma RoundIsMonotone(x: real, y: real)
    requires x <= y
    ensures Round(x) <= Round(y)
  {
    var z, w := x + 0.5, y + 0.5;
    assert z.Floor as real <= z <= w < (w.Floor + 1) as real;
  }

  /** Of a non-negative total the larger weight never gets the smaller share. */
  lemma LargerWeightLargerShare(total: int, a: real, b: real)
    requires total >= 0 && 0.0 <= a <= b && a + b > 0.0
    ensures 0 <= Round(Share(total, a, a + b)) <= Round(Share(total, b, a + b)) <= total
  {
    var x, y := Share(total, a, a + b), Share(total, b, a + b);
    SharesAreOrdered(total, a, b);
    RoundIs(0.0, 0);
    RoundIs(total as real, total);
    RoundIsMonotone(0.0, x);
    RoundIsMonotone(x, y);
    RoundIsMonotone(y, total as real);
  }
}
