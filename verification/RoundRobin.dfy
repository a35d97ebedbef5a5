/**
 Smooth weighted round-robin over the upstreams of a channel.

 `Next` is one call on the vector of current weights; `CurrentAfter` and `Picks` describe a whole run
 from the all-zero start.  `BaseChannel` is the imperative code, tied to that run by the number of
 calls it has served.
 */
module RoundRobin {
  import opened Wrappers

  // ---------- Sums ----------

  function SumTo(s: seq<int>, n: nat): int
    requires n <= |s|
  {
    if n == 0 then 0 else SumTo(s, n - 1) + s[n - 1]
  }

  function Sum(s: seq<int>): int {
    SumTo(s, |s|)
  }

  lemma {:induction false} SumUpdate(s: seq<int>, k: nat, v: int, n: nat)
    requires k < |s| && n <= |s|
    ensures SumTo(s[k := v], n) == SumTo(s, n) + if k < n then v - s[k] else 0
  {
    if n > 0 {
      SumUpdate(s, k, v, n - 1);
    }
  }

  // Every element but the k-th is at least `low`, so the rest of the sum is too.
  lemma {:induction false} SumOfOthers(s: seq<int>, k: nat, low: int, n: nat)
    requires k < |s| && n <= |s|
    requires forall i :: 0 <= i < |s| ==> low <= s[i]
    ensures (if k < n then n - 1 else n) * low <= SumTo(s, n) - if k < n then s[k] else 0
  {
    if n > 0 {
      SumOfOthers(s, k, low, n - 1);
      assert n * low == (n - 1) * low + low;
      assert (n - 1) * low == (n - 2) * low + low;
    }
  }

  lemma {:induction false} SumOfNonPositive(s: seq<int>, n: nat)
    requires n <= |s|
    requires forall i :: 0 <= i < |s| ==> s[i] <= 0
    ensures SumTo(s, n) <= 0
    ensures SumTo(s, n) == 0 ==> forall i :: 0 <= i < n ==> s[i] == 0
  {
    if n > 0 {
      SumOfNonPositive(s, n - 1);
    }
  }

  lemma {:induction false} SumOfNonNegative(s: seq<int>, n: nat)
    requires n <= |s|
    requires forall i :: 0 <= i < |s| ==> 0 <= s[i]
    ensures 0 <= SumTo(s, n)
    ensures SumTo(s, n) == 0 ==> forall i :: 0 <= i < n ==> s[i] == 0
  {
    if n > 0 {
      SumOfNonNegative(s, n - 1);
    }
  }

  // ---------- One call ----------

  /** Every current weight raised by its own weight. */
  function Raised(current: seq<int>, weights: seq<int>): (r: seq<int>)
    requires |current| == |weights|
    ensures |r| == |weights|
  {
    seq(|weights|, i requires 0 <= i < |weights| => current[i] + weights[i])
  }

  lemma {:induction false} SumRaised(current: seq<int>, weights: seq<int>, n: nat)
    requires |current| == |weights| && n <= |weights|
    ensures SumTo(Raised(current, weights), n) == SumTo(current, n) + SumTo(weights, n)
  {
    if n > 0 {
      SumRaised(current, weights, n - 1);
    }
  }

  /** The position of the first maximum of s[..n]: ties go to the upstream listed first. */
  function FirstMax(s: seq<int>, n: nat): (k: nat)
    requires 0 < n <= |s|
    ensures k < n
  {
    if n == 1 then 0
    else
      var k := FirstMax(s, n - 1);
      if s[n - 1] > s[k] then n - 1 else k
  }

  lemma {:induction false} FirstMaxIsFirstAndGreatest(s: seq<int>, n: nat)
    requires 0 < n <= |s|
    ensures forall j :: 0 <= j < n ==> s[j] <= s[FirstMax(s, n)]
    ensures forall j :: 0 <= j < FirstMax(s, n) ==> s[j] < s[FirstMax(s, n)]
  {
    if n > 1 {
      FirstMaxIsFirstAndGreatest(s, n - 1);
    }
  }

  function Pick(current: seq<int>, weights: seq<int>): (k: nat)
    requires |current| == |weights| > 0
    ensures k < |weights|
  {
    FirstMax(Raised(current, weights), |weights|)
  }

  function Next(current: seq<int>, weights: seq<int>): (r: seq<int>)
    requires |current| == |weights| > 0
    ensures |r| == |weights|
  {
    var raised := Raised(current, weights);
    var k := Pick(current, weights);
    raised[k := raised[k] - Sum(weights)]
  }

  /** Ties go to the upstream listed first, everything else to the greatest raised weight. */
  lemma PickIsFirstAndGreatest(current: seq<int>, weights: seq<int>)
    requires |current| == |weights| > 0
    ensures var k := Pick(current, weights);
            && (forall j :: 0 <= j < |weights| ==> current[j] + weights[j] <= current[k] + weights[k])
            && forall j :: 0 <= j < k ==> current[j] + weights[j] < current[k] + weights[k]
  {
    var raised := Raised(current, weights);
    FirstMaxIsFirstAndGreatest(raised, |weights|);
    assert forall j :: 0 <= j < |weights| ==> raised[j] == current[j] + weights[j];
  }

  // ---------- Whole runs ----------

  predicate PositiveWeights(weights: seq<int>) {
    weights != [] && forall i :: 0 <= i < |weights| ==> 1 <= weights[i]
  }

  function CurrentAfter(weights: seq<int>, calls: nat): (r: seq<int>)
    requires weights != []
    ensures |r| == |weights|
  {
    if calls == 0 then seq(|weights|, _ => 0) else Next(CurrentAfter(weights, calls - 1), weights)
  }

  function PickAt(weights: seq<int>, call: nat): (k: nat)
    requires weights != []
    ensures k < |weights|
  {
    Pick(CurrentAfter(weights, call), weights)
  }

  /**
   Each call returns the first upstream whose current weight, raised by its own weight, no other exceeds.
   With CurrentIsShareMinusPicks: the one that is furthest behind its share of the calls so far.
   */
  lemma PickAtIsFirstAndGreatest(weights: seq<int>, call: nat)
    requires weights != []
    ensures var k, current := PickAt(weights, call), CurrentAfter(weights, call);
            && (forall j :: 0 <= j < |weights| ==> current[j] + weights[j] <= current[k] + weights[k])
            && forall j :: 0 <= j < k ==> current[j] + weights[j] < current[k] + weights[k]
  {
    PickIsFirstAndGreatest(CurrentAfter(weights, call), weights);
  }

  /** The upstreams returned by the first `calls` calls, in order. */
  function History(weights: seq<int>, calls: nat): (h: seq<nat>)
    requires weights != []
    ensures |h| == calls
  {
    if calls == 0 then [] else History(weights, calls - 1) + [PickAt(weights, calls - 1)]
  }

  function Count(h: seq<nat>, i: nat): nat {
    if h == [] then 0 else Count(h[..|h| - 1], i) + if h[|h| - 1] == i then 1 else 0
  }

  /** How often upstream i was returned by the first `calls` calls. */
  function Picks(weights: seq<int>, i: nat, calls: nat): nat
    requires weights != []
  {
    Count(History(weights, calls), i)
  }

  lemma {:induction false} CountAppend(g: seq<nat>, h: seq<nat>, i: nat)
    ensures Count(g + h, i) == Count(g, i) + Count(h, i)
  {
    if h == [] {
      assert g + h == g;
    } else {
      assert (g + h)[..|g + h| - 1] == g + h[..|h| - 1];
      CountAppend(g, h[..|h| - 1], i);
    }
  }

  lemma {:induction false} HistoryPrefix(weights: seq<int>, calls: nat, more: nat)
    requires weights != []
    ensures History(weights, calls + more)[..calls] == History(weights, calls)
  {
    if more > 0 {
      HistoryPrefix(weights, calls, more - 1);
    }
  }

  /** One more call: one history entry, so one more pick for the upstream picked. */
  lemma PicksStep(weights: seq<int>, i: nat, calls: nat)
    requires weights != []
    ensures Picks(weights, i, calls + 1) == Picks(weights, i, calls) + if PickAt(weights, calls) == i then 1 else 0
  {
    var h := History(weights, calls + 1);
    assert h[..|h| - 1] == History(weights, calls);
  }

  /** What one call does to current weights that sum to zero. */
  lemma NextFacts(before: seq<int>, weights: seq<int>)
    requires |before| == |weights| && PositiveWeights(weights) && Sum(before) == 0
    ensures var now := Next(before, weights); var k := Pick(before, weights); var total := Sum(weights);
            && 0 < total
            && Sum(now) == 0
            && (forall i :: 0 <= i < |weights| ==> now[i] == before[i] + weights[i] - if i == k then total else 0)
            && -total < now[k]
  {
    TotalIsPositive(weights);
    var raised := Raised(before, weights);
    var k := Pick(before, weights);
    SumRaised(before, weights, |weights|);
    SumUpdate(raised, k, raised[k] - Sum(weights), |weights|);
    FirstMaxIsFirstAndGreatest(raised, |raised|);
    if raised[k] <= 0 {
      SumOfNonPositive(raised, |raised|);
    }
  }

  lemma TotalIsPositive(weights: seq<int>)
    requires PositiveWeights(weights)
    ensures 0 < Sum(weights)
  {
    SumOfNonNegative(weights, |weights|);
    assert weights[0] != 0;
  }

  lemma {:induction false} CurrentsSumToZero(weights: seq<int>, calls: nat)
    requires PositiveWeights(weights)
    ensures Sum(CurrentAfter(weights, calls)) == 0
  {
    var now := CurrentAfter(weights, calls);
    if calls == 0 {
      SumOfNonPositive(now, |now|);
      SumOfNonNegative(now, |now|);
    } else {
      CurrentsSumToZero(weights, calls - 1);
      NextFacts(CurrentAfter(weights, calls - 1), weights);
    }
  }

  /**
   The current weight is exactly the upstream's share of the calls minus what it was served, and it
   never falls as low as minus the total weight.
   */
  lemma {:induction false} CurrentIsShareMinusPicks(weights: seq<int>, i: nat, calls: nat)
    requires PositiveWeights(weights) && i < |weights|
    ensures CurrentAfter(weights, calls)[i] == calls * weights[i] - Sum(weights) * Picks(weights, i, calls)
    ensures -Sum(weights) < CurrentAfter(weights, calls)[i]
  {
    TotalIsPositive(weights);
    if calls > 0 {
      CurrentIsShareMinusPicks(weights, i, calls - 1);
      CurrentsSumToZero(weights, calls - 1);
      PicksStep(weights, i, calls - 1);
      ShareStep(calls - 1, weights[i], Sum(weights), Picks(weights, i, calls - 1));
      CurrentStep(CurrentAfter(weights, calls - 1), weights, i);
    }
  }

  lemma CurrentStep(before: seq<int>, weights: seq<int>, i: nat)
    requires |before| == |weights| && PositiveWeights(weights) && Sum(before) == 0 && i < |weights|
    ensures Next(before, weights)[i] == before[i] + weights[i] - if i == Pick(before, weights) then Sum(weights) else 0
    ensures -Sum(weights) < before[i] ==> -Sum(weights) < Next(before, weights)[i]
  {
    NextFacts(before, weights);
  }

  lemma ShareStep(calls: int, weight: int, total: int, served: int)
    ensures calls * weight + weight == (calls + 1) * weight
    ensures total * served + total == total * (served + 1)
  {
  }

  /** Every current weight lies in [-(W-1), (n-1)(W-1)]. */
  lemma CurrentIsBounded(weights: seq<int>, i: nat, calls: nat)
    requires PositiveWeights(weights) && i < |weights|
    ensures -(Sum(weights) - 1) <= CurrentAfter(weights, calls)[i] <= (|weights| - 1) * (Sum(weights) - 1)
  {
    var now, low := CurrentAfter(weights, calls), -(Sum(weights) - 1);
    forall j | 0 <= j < |weights|
      ensures low <= now[j]
    {
      CurrentIsShareMinusPicks(weights, j, calls);
    }
    CurrentsSumToZero(weights, calls);
    SumOfOthers(now, i, low, |now|);
    NegatedProduct(|weights| - 1, Sum(weights) - 1);
  }

  lemma NegatedProduct(x: int, y: int)
    ensures x * -y == -(x * y)
  {
  }

  /** No upstream is ever a full pick or more ahead of its share of the calls, and its lag is bounded. */
  lemma ShareIsBounded(weights: seq<int>, i: nat, calls: nat)
    requires PositiveWeights(weights) && i < |weights|
    ensures Sum(weights) * Picks(weights, i, calls) < calls * weights[i] + Sum(weights)
    ensures calls * weights[i] - (|weights| - 1) * (Sum(weights) - 1) <= Sum(weights) * Picks(weights, i, calls)
  {
    CurrentIsShareMinusPicks(weights, i, calls);
    CurrentIsBounded(weights, i, calls);
  }

  lemma FullCycleShare(weights: seq<int>, i: nat, total: nat)
    requires PositiveWeights(weights) && i < |weights| && total == Sum(weights)
    ensures CurrentAfter(weights, total)[i] == total * (weights[i] - Picks(weights, i, total))
    ensures 0 <= CurrentAfter(weights, total)[i]
  {
    TotalIsPositive(weights);
    CurrentIsShareMinusPicks(weights, i, total);
    Distribute(total, weights[i], Picks(weights, i, total));
    MultipleAboveMinusTotal(total, weights[i] - Picks(weights, i, total));
  }

  lemma Distribute(total: int, x: int, y: int)
    ensures total * (x - y) == total * x - total * y
  {
  }

  lemma MultipleAboveMinusTotal(total: int, x: int)
    requires 0 < total && -total < total * x
    ensures 0 <= total * x
  {
    assert x <= -1 ==> total * x <= total * -1;
  }

  lemma ZeroProduct(total: int, x: int)
    requires 0 < total && total * x == 0
    ensures x == 0
  {
    assert x >= 1 ==> total * x >= total * 1;
    assert x <= -1 ==> total * x <= total * -1;
  }

  /** After W calls the current weights are back at zero and every upstream was returned w_i times. */
  lemma FullCycle(weights: seq<int>)
    requires PositiveWeights(weights)
    ensures 0 < Sum(weights)
    ensures CurrentAfter(weights, Sum(weights)) == CurrentAfter(weights, 0)
    ensures forall i :: 0 <= i < |weights| ==> Picks(weights, i, Sum(weights)) == weights[i]
  {
    TotalIsPositive(weights);
    var total: nat := Sum(weights);
    var now := CurrentAfter(weights, total);
    forall i | 0 <= i < |weights|
      ensures 0 <= now[i]
    {
      FullCycleShare(weights, i, total);
    }
    CurrentsSumToZero(weights, total);
    SumOfNonNegative(now, |now|);
    forall i | 0 <= i < |weights|
      ensures now[i] == 0 && Picks(weights, i, total) == weights[i]
    {
      BackAtZero(weights, i, total);
    }
  }

  lemma BackAtZero(weights: seq<int>, i: nat, total: nat)
    requires PositiveWeights(weights) && i < |weights| && total == Sum(weights)
    ensures CurrentAfter(weights, total)[i] == 0 ==> Picks(weights, i, total) == weights[i]
  {
    FullCycleShare(weights, i, total);
    TotalIsPositive(weights);
    if CurrentAfter(weights, total)[i] == 0 {
      ZeroProduct(total, weights[i] - Picks(weights, i, total));
    }
  }

  lemma {:induction false} RunIsPeriodic(weights: seq<int>, period: nat, calls: nat)
    requires weights != [] && CurrentAfter(weights, period) == CurrentAfter(weights, 0)
    ensures CurrentAfter(weights, calls + period) == CurrentAfter(weights, calls)
  {
    if calls > 0 {
      RunIsPeriodic(weights, period, calls - 1);
    }
  }

  lemma PicksInWindow(weights: seq<int>, i: nat, start: nat, length: nat)
    requires weights != []
    ensures Count(History(weights, start + length)[start..], i) ==
            Picks(weights, i, start + length) - Picks(weights, i, start)
  {
    HistoryPrefix(weights, start, length);
    var h := History(weights, start + length);
    assert h == h[..start] + h[start..];
    CountAppend(h[..start], h[start..], i);
  }

  /** Exact fairness: every window of W consecutive calls returns upstream i exactly weights[i] times. */
  lemma EveryWindowIsFair(weights: seq<int>, i: nat, start: nat)
    requires PositiveWeights(weights) && i < |weights|
    ensures 0 < Sum(weights)
    ensures Count(History(weights, start + Sum(weights))[start..], i) == weights[i]
  {
    TotalIsPositive(weights);
    var total: nat := Sum(weights);
    assert Picks(weights, i, start + total) - Picks(weights, i, start) == weights[i] by {
      FullCycle(weights);
      RunIsPeriodic(weights, total, start);
      PicksOverPeriod(weights, i, start, total);
    }
    PicksInWindow(weights, i, start, total);
  }

  lemma PicksOverPeriod(weights: seq<int>, i: nat, start: nat, total: nat)
    requires PositiveWeights(weights) && i < |weights| && total == Sum(weights) > 0
    requires CurrentAfter(weights, start + total)[i] == CurrentAfter(weights, start)[i]
    ensures Picks(weights, i, start + total) - Picks(weights, i, start) == weights[i]
  {
    CurrentIsShareMinusPicks(weights, i, start);
    CurrentIsShareMinusPicks(weights, i, start + total);
    EqualSharesOfWindow(start, total, weights[i], Picks(weights, i, start), Picks(weights, i, start + total));
  }

  lemma EqualSharesOfWindow(start: nat, total: int, weight: int, before: nat, after: nat)
    requires 0 < total && start * weight - total * before == (start + total) * weight - total * after
    ensures after - before == weight
  {
    assert (start + total) * weight == start * weight + total * weight;
    Distribute(total, after - before, weight);
    Distribute(total, after, before);
    ZeroProduct(total, after - before - weight);
  }

  /** How far upstream i is behind its share of `calls + 1` calls, in units of 1/W. */
  function Behind(weights: seq<int>, i: nat, calls: nat): int
    requires weights != [] && i < |weights|
  {
    (calls + 1) * weights[i] - Sum(weights) * Picks(weights, i, calls)
  }

  /** Every call serves the upstream that is furthest behind its share, the first of them on a tie. */
  lemma FurthestBehindIsServed(weights: seq<int>, calls: nat, j: nat)
    requires PositiveWeights(weights) && j < |weights|
    ensures var k := PickAt(weights, calls);
            && Behind(weights, j, calls) <= Behind(weights, k, calls)
            && (j < k ==> Behind(weights, j, calls) < Behind(weights, k, calls))
  {
    var k := PickAt(weights, calls);
    PickAtIsFirstAndGreatest(weights, calls);
    BehindIsRaised(weights, j, calls);
    BehindIsRaised(weights, k, calls);
  }

  lemma BehindIsRaised(weights: seq<int>, i: nat, calls: nat)
    requires PositiveWeights(weights) && i < |weights|
    ensures Behind(weights, i, calls) == CurrentAfter(weights, calls)[i] + weights[i]
  {
    CurrentIsShareMinusPicks(weights, i, calls);
    ShareStep(calls, weights[i], 0, 0);
  }

  // ---------- The channel ----------

  datatype UpstreamDef = UpstreamDef(url: string, weight: int)

  datatype UpstreamInfo = UpstreamInfo(url: string, weight: int, currentWeight: int)

  /** The weight a configured weight stands for: anything below 1 counts as 1. */
  function Normalised(weight: int): (w: int)
    ensures w >= 1 && w >= weight && (w == weight || w == 1)
  {
    if weight <= 0 then 1 else weight
  }

  function WeightsOf(infos: seq<UpstreamInfo>): (r: seq<int>)
    ensures |r| == |infos|
  {
    seq(|infos|, i requires 0 <= i < |infos| => infos[i].weight)
  }

  function CurrentOf(infos: seq<UpstreamInfo>): (r: seq<int>)
    ensures |r| == |infos|
  {
    seq(|infos|, i requires 0 <= i < |infos| => infos[i].currentWeight)
  }

  /** The same upstreams with other current weights. */
  function WithCurrent(infos: seq<UpstreamInfo>, current: seq<int>): (r: seq<UpstreamInfo>)
    requires |current| == |infos|
    ensures |r| == |infos|
  {
    seq(|infos|, i requires 0 <= i < |infos| => infos[i].(currentWeight := current[i]))
  }

  /** No upstream has a greater raised weight than the k-th, and none before it as great a one. */
  predicate FurthestBehind(infos: seq<UpstreamInfo>, k: nat)
    requires k < |infos|
  {
    && (forall j :: 0 <= j < |infos| ==>
          infos[j].currentWeight + infos[j].weight <= infos[k].currentWeight + infos[k].weight)
    && forall j :: 0 <= j < k ==>
         infos[j].currentWeight + infos[j].weight < infos[k].currentWeight + infos[k].weight
  }

  /** The first n upstreams raised, the others not yet. */
  function RaisedTo(infos: seq<UpstreamInfo>, n: nat): (r: seq<UpstreamInfo>)
    requires n <= |infos|
    ensures |r| == |infos|
  {
    var raised := Raised(CurrentOf(infos), WeightsOf(infos));
    seq(|infos|, i requires 0 <= i < |infos| => if i < n then infos[i].(currentWeight := raised[i]) else infos[i])
  }

  /** Where the loop stands before upstream i: the sum so far and the first maximum so far. */
  predicate RaisedSoFar(infos: seq<UpstreamInfo>, now: seq<UpstreamInfo>, i: nat, best: nat, total: int)
    requires i <= |infos|
  {
    && now == RaisedTo(infos, i) && total == SumTo(WeightsOf(infos), i)
    && if i == 0 then best == 0 else best == FirstMax(Raised(CurrentOf(infos), WeightsOf(infos)), i)
  }

  lemma RaiseOne(infos: seq<UpstreamInfo>, now: seq<UpstreamInfo>, i: nat, best: nat, total: int)
    requires i < |infos| && RaisedSoFar(infos, now, i, best, total) && best < |now|
    ensures var up := now[i].(currentWeight := now[i].currentWeight + now[i].weight);
            var next := now[i := up];
            var k := if i == 0 || up.currentWeight > next[best].currentWeight then i else best;
            RaisedSoFar(infos, next, i + 1, k, total + now[i].weight)
  {
    var raised := Raised(CurrentOf(infos), WeightsOf(infos));
    assert WeightsOf(infos)[i] == infos[i].weight && raised[i] == infos[i].currentWeight + infos[i].weight;
    assert RaisedTo(infos, i + 1) == now[i := infos[i].(currentWeight := raised[i])];
    assert i > 0 ==> now[best].currentWeight == raised[best];
  }

  lemma AllRaised(infos: seq<UpstreamInfo>, now: seq<UpstreamInfo>, best: nat, total: int)
    requires infos != [] && RaisedSoFar(infos, now, |infos|, best, total)
    ensures now == WithCurrent(infos, Raised(CurrentOf(infos), WeightsOf(infos)))
    ensures best == Pick(CurrentOf(infos), WeightsOf(infos)) && total == Sum(WeightsOf(infos))
  {
  }

  lemma PickedIsFurthestBehind(infos: seq<UpstreamInfo>)
    requires infos != []
    ensures FurthestBehind(infos, Pick(CurrentOf(infos), WeightsOf(infos)))
  {
    var current, weights := CurrentOf(infos), WeightsOf(infos);
    PickIsFirstAndGreatest(current, weights);
    assert forall j :: 0 <= j < |infos| ==>
        infos[j].currentWeight + infos[j].weight == current[j] + weights[j];
  }

  lemma WithCurrentFields(infos: seq<UpstreamInfo>, current: seq<int>)
    requires |current| == |infos|
    ensures WeightsOf(WithCurrent(infos, current)) == WeightsOf(infos)
    ensures CurrentOf(WithCurrent(infos, current)) == current
  {
  }

  class BaseChannel {
    var upstreams: array<UpstreamInfo>
    ghost var calls: nat

    /** The channel stands at some point of the run of its own weights. */
    ghost predicate Valid()
      reads this, upstreams
    {
      upstreams.Length > 0 ==>
        && PositiveWeights(WeightsOf(upstreams[..]))
        && CurrentOf(upstreams[..]) == CurrentAfter(WeightsOf(upstreams[..]), calls)
    }

    constructor (defs: seq<UpstreamDef>)
      ensures Valid() && fresh(upstreams)
      ensures upstreams.Length == |defs| && calls == 0
      ensures forall i :: 0 <= i < |defs| ==>
                upstreams[i] == UpstreamInfo(defs[i].url, Normalised(defs[i].weight), 0)
    {
      var infos := new UpstreamInfo[|defs|](i requires 0 <= i < |defs| =>
        UpstreamInfo(defs[i].url, Normalised(defs[i].weight), 0));
      upstreams := infos;
      calls := 0;
    }

    /** Selects an upstream of the run; none is returned exactly when none is configured. */
    method GetUpstreamUrl() returns (url: Option<string>)
      requires Valid()
      modifies this`calls, upstreams
      ensures Valid()
      ensures upstreams.Length == 0 ==> url == None
      ensures upstreams.Length > 0 ==>
                var weights := old(WeightsOf(upstreams[..]));
                && calls == old(calls) + 1
                && url == Some(old(upstreams[PickAt(WeightsOf(upstreams[..]), calls)].url))
                && upstreams[..] == WithCurrent(old(upstreams[..]), CurrentAfter(weights, calls))
      ensures upstreams.Length > 0 ==>
                exists k :: 0 <= k < upstreams.Length && url == Some(old(upstreams[..])[k].url)
                            && FurthestBehind(old(upstreams[..]), k)
    {
      if upstreams.Length == 0 {
        return None;
      }
      ghost var infos := upstreams[..];
      ghost var weights := WeightsOf(infos);
      calls := calls + 1;
      WithCurrentFields(infos, CurrentAfter(weights, calls));
      if upstreams.Length == 1 {
        SingleUpstreamStaysAtZero(weights, calls);
        SingleUpstreamStaysAtZero(weights, old(calls));
        assert infos[0].currentWeight == CurrentOf(infos)[0] == 0;
        assert FurthestBehind(infos, 0);
        return Some(upstreams[0].url);
      }
      var best := SelectBest();
      assert FurthestBehind(infos, best);
      return Some(upstreams[best].url);
    }

    /** The loop over two or more upstreams, and the subtraction from the one it picked. */
    method SelectBest() returns (best: nat)
      requires upstreams.Length > 1
      modifies upstreams
      ensures var infos := old(upstreams[..]);
              && best == Pick(CurrentOf(infos), WeightsOf(infos)) && FurthestBehind(infos, best)
              && upstreams[..] == WithCurrent(infos, Next(CurrentOf(infos), WeightsOf(infos)))
    {
      ghost var infos := upstreams[..];
      ghost var raised := Raised(CurrentOf(infos), WeightsOf(infos));
      PickedIsFurthestBehind(infos);
      var totalWeight;
      best, totalWeight := RaiseAll();
      upstreams[best] := upstreams[best].(currentWeight := upstreams[best].currentWeight - totalWeight);
      assert upstreams[..] ==
             WithCurrent(infos, raised)[best := infos[best].(currentWeight := raised[best] - totalWeight)];
    }

    method RaiseAll() returns (best: nat, totalWeight: int)
      requires upstreams.Length > 1
      modifies upstreams
      ensures var infos := old(upstreams[..]); var raised := Raised(CurrentOf(infos), WeightsOf(infos));
              && best == Pick(CurrentOf(infos), WeightsOf(infos)) && totalWeight == Sum(WeightsOf(infos))
              && upstreams[..] == WithCurrent(infos, raised)
    {
      ghost var infos := upstreams[..];
      best, totalWeight := 0, 0;
      for i := 0 to upstreams.Length
        invariant best < upstreams.Length && RaisedSoFar(infos, upstreams[..], i, best, totalWeight)
      {
        RaiseOne(infos, upstreams[..], i, best, totalWeight);
        var up := upstreams[i];
        totalWeight := totalWeight + up.weight;
        upstreams[i] := up.(currentWeight := up.currentWeight + up.weight);
        if i == 0 || upstreams[i].currentWeight > upstreams[best].currentWeight {
          best := i;
        }
      }
      AllRaised(infos, upstreams[..], best, totalWeight);
    }
  }

  lemma SingleUpstreamStaysAtZero(weights: seq<int>, calls: nat)
    requires PositiveWeights(weights) && |weights| == 1
    ensures CurrentAfter(weights, calls) == [0]
  {
    CurrentsSumToZero(weights, calls);
    assert SumTo(CurrentAfter(weights, calls), 0) == 0;
  }
}
