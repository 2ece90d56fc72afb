/** The required totals of the scopes of a partition against that of an unscoped caller. */
module ReserveLaws {
  import opened Budgets
  import opened BudgetLaws
  import opened Domain
  import opened Money
  import opened Reserve
  import opened Sums

  function Whole(r: Request): Request {
    r.(allowed := None)
  }

  function Scoped(r: Request, scope: set<UnitId>): Request {
    r.(allowed := Some(scope))
  }

  /** The scopes partition the object's units and every item's, and all splits are complete. */
  predicate PartitionsRequest(r: Request, scopes: seq<set<UnitId>>) {
    && PartitionsAll(r.items, scopes)
    && Partition(WertquotenSplit(r.obj.units), scopes)
    && PermilleSplit(Shares(WertquotenSplit(r.obj.units)))
  }

  function YearCents(r: Request, scopes: seq<set<UnitId>>, year: int): (xs: seq<int>)
    ensures |xs| == |scopes|
  {
    seq(|scopes|, i requires 0 <= i < |scopes| => PlannedCents(Scoped(r, scopes[i]), year))
  }

  function FutureTotals(r: Request, scopes: seq<set<UnitId>>, last: int): (xs: seq<int>)
    ensures |xs| == |scopes|
  {
    seq(|scopes|, i requires 0 <= i < |scopes| => FutureTotal(Scoped(r, scopes[i]), last))
  }

  function InitialReserves(r: Request, scopes: seq<set<UnitId>>): (xs: seq<real>)
    ensures |xs| == |scopes|
  {
    seq(|scopes|, i requires 0 <= i < |scopes| => InitialReserve(Scoped(r, scopes[i])))
  }

  function RequiredTotals(r: Request, scopes: seq<set<UnitId>>): (xs: seq<real>)
    ensures |xs| == |scopes|
  {
    seq(|scopes|, i requires 0 <= i < |scopes| => RequiredTotal(Scoped(r, scopes[i])))
  }

  /** Half a cent a cell: n scopes and the whole, over `years` rows. */
  function RowSlack(n: nat, years: nat): real {
    if years == 0 then 0.0 else RowSlack(n, years - 1) + HALF_CENT * (n + 1) as real
  }

  lemma {:induction false} RowSlackValue(n: nat, years: nat)
    ensures RowSlack(n, years) == HALF_CENT * ((n + 1) * years) as real
  {
    if years > 0 {
      RowSlackValue(n, years - 1);
      assert (n + 1) * years == (n + 1) * (years - 1) + (n + 1);
    }
  }

  lemma {:induction false} SumAdds(xs: seq<int>, ys: seq<int>, zs: seq<int>)
    requires |xs| == |ys| == |zs|
    requires forall i :: 0 <= i < |xs| ==> zs[i] == xs[i] + ys[i]
    ensures Sum(zs) == Sum(xs) + Sum(ys)
  {
    if xs != [] {
      var n := |xs| - 1;
      SumAdds(xs[..n], ys[..n], zs[..n]);
    }
  }

  lemma YearCentsClose(r: Request, scopes: seq<set<UnitId>>, year: int)
    requires PartitionsAll(r.items, scopes)
    ensures Abs(Chf(Sum(YearCents(r, scopes, year))) - Chf(PlannedCents(Whole(r), year))) <= HALF_CENT * (|scopes| + 1) as real
  {
    hide RowSum, Quantise, PartitionsAll;
    var v := r.View();
    RoundedScopeAdditivity(r.items, v, scopes, year, InflatedSum);
    assert YearCents(r, scopes, year) == QuantiseAll(ScopeSums(r.items, v, scopes, year, InflatedSum));
  }

  /** Rows apart, the future totals of the scopes are those of the whole. */
  lemma {:induction false} FutureTotalsClose(r: Request, scopes: seq<set<UnitId>>, last: int)
    requires PartitionsAll(r.items, scopes) && last >= r.currentYear
    ensures Abs(Chf(Sum(FutureTotals(r, scopes, last))) - Chf(FutureTotal(Whole(r), last)))
         <= RowSlack(|scopes|, last - r.currentYear)
    decreases last - r.currentYear
  {
    hide PlannedCents, PartitionsAll;
    var now := FutureTotals(r, scopes, last);
    if last == r.currentYear {
      SumZeros(now);
    } else {
      var before, cents := FutureTotals(r, scopes, last - 1), YearCents(r, scopes, last);
      FutureTotalsClose(r, scopes, last - 1);
      YearCentsClose(r, scopes, last);
      SumAdds(before, cents, now);
      hide *;
      assert FutureTotal(Whole(r), last) == FutureTotal(Whole(r), last - 1) + PlannedCents(Whole(r), last) by { TotalsStep(Whole(r), last); }
      SlackStep(|scopes|, last - r.currentYear);
      CloseSums(Sum(before), Sum(cents), FutureTotal(Whole(r), last - 1), PlannedCents(Whole(r), last),
        RowSlack(|scopes|, last - 1 - r.currentYear), HALF_CENT * (|scopes| + 1) as real);
    }
  }

  lemma SlackStep(n: nat, years: nat)
    requires years > 0
    ensures RowSlack(n, years) == RowSlack(n, years - 1) + HALF_CENT * (n + 1) as real
  {
  }

  lemma CloseSums(a: int, b: int, x: int, y: int, d: real, e: real)
    requires Abs(Chf(a) - Chf(x)) <= d && Abs(Chf(b) - Chf(y)) <= e
    ensures Abs(Chf(a + b) - Chf(x + y)) <= d + e
  {
    assert Chf(a + b) == Chf(a) + Chf(b) && Chf(x + y) == Chf(x) + Chf(y);
  }

  lemma ScopedReserve(r: Request, scope: set<UnitId>)
    ensures InitialReserve(Scoped(r, scope))
         == Part(Chf(r.obj.initialReserve), ScopeShare(WertquotenSplit(r.obj.units), scope), 1000.0)
    ensures InitialReserve(Whole(r)) == Chf(r.obj.initialReserve)
  {
  }

  /** The scopes share out the initial reserve completely. */
  lemma ReservesAddUp(r: Request, scopes: seq<set<UnitId>>)
    requires PartitionsRequest(r, scopes)
    ensures SumReal(InitialReserves(r, scopes)) == InitialReserve(Whole(r))
  {
    var split, reserve := WertquotenSplit(r.obj.units), Chf(r.obj.initialReserve);
    PartitionShares(split, scopes);
    PortionsSum(reserve, ScopeShares(split, scopes));
    PartIsWhole(reserve, TOTAL_PERMILLE);
    ScopedReserve(r, {});
    forall i | 0 <= i < |scopes|
      ensures InitialReserves(r, scopes)[i] == Portions(reserve, ScopeShares(split, scopes))[i]
    {
      ScopedReserve(r, scopes[i]);
    }
    hide InitialReserve, Part;
    assert InitialReserves(r, scopes) == Portions(reserve, ScopeShares(split, scopes));
  }

  lemma {:induction false} ClampedSum(future: seq<int>, reserves: seq<real>, clamped: seq<real>)
    requires |future| == |reserves| == |clamped|
    requires forall i :: 0 <= i < |future| ==> clamped[i] == AtLeastZero(Chf(future[i]) - reserves[i])
    ensures SumReal(clamped) >= Chf(Sum(future)) - SumReal(reserves)
    ensures SumReal(clamped) >= 0.0
  {
    if future != [] {
      var n := |future| - 1;
      ClampedSum(future[..n], reserves[..n], clamped[..n]);
      assert Chf(Sum(future)) == Chf(Sum(future[..n])) + Chf(future[n]);
    }
  }

  lemma EnoughUpToSlack(r: Request, scopes: seq<set<UnitId>>)
    requires PartitionsRequest(r, scopes)
    ensures SumReal(RequiredTotals(r, scopes)) >= RequiredTotal(Whole(r)) - RowSlack(|scopes|, r.obj.horizon)
  {
    hide FutureTotals, InitialReserves, RequiredTotals, FutureTotal, InitialReserve, RequiredTotal,
      AtLeastZero, Sum, SumReal, RowSlack, Chf, Abs, PartitionsAll, Partition, PermilleSplit, Shares;
    var last := r.HorizonEnd();
    var future, reserves, required := FutureTotals(r, scopes, last), InitialReserves(r, scopes), RequiredTotals(r, scopes);
    FutureTotalsClose(r, scopes, last);
    ReservesAddUp(r, scopes);
    RequiredMeans(r, scopes);
    ClampedSum(future, reserves, required);
    ClampedGap(Sum(future), FutureTotal(Whole(r), last), InitialReserve(Whole(r)), SumReal(required),
      RowSlack(|scopes|, last - r.currentYear));
  }

  /** Planning scope by scope never asks for less than planning as a whole: before their own rounding the required
      totals add up to at least the unscoped one, up to half a cent per future row and cell. The clamp at zero makes
      it an inequality, since one scope's surplus does not pay for another's gap. */
  lemma ScopesRequireEnough(r: Request, scopes: seq<set<UnitId>>)
    requires PartitionsRequest(r, scopes)
    ensures SumReal(RequiredTotals(r, scopes))
         >= RequiredTotal(Whole(r)) - HALF_CENT * ((|scopes| + 1) * r.obj.horizon) as real
  {
    hide *;
    EnoughUpToSlack(r, scopes);
    RowSlackValue(|scopes|, r.obj.horizon);
  }

  lemma RequiredMeans(r: Request, scopes: seq<set<UnitId>>)
    ensures var last := r.HorizonEnd();
      var future, reserves, required := FutureTotals(r, scopes, last), InitialReserves(r, scopes), RequiredTotals(r, scopes);
      && (forall i :: 0 <= i < |scopes| ==> required[i] == AtLeastZero(Chf(future[i]) - reserves[i]))
      && RequiredTotal(Whole(r)) == AtLeastZero(Chf(FutureTotal(Whole(r), last)) - InitialReserve(Whole(r)))
  {
    hide FutureTotal, InitialReserve, AtLeastZero;
  }

  lemma ClampedGap(scoped: int, whole: int, reserve: real, required: real, slack: real)
    requires Abs(Chf(scoped) - Chf(whole)) <= slack
    requires required >= Chf(scoped) - reserve && required >= 0.0
    ensures required >= AtLeastZero(Chf(whole) - reserve) - slack
  {
  }
}
