/** The required-contribution plan derived from the rounded rows of the inflated timeline. */
module Reserve {
  import opened Budgets
  import opened BudgetLaws
  import opened Domain
  import opened Ledger
  import opened Money
  import opened Sums

  datatype Request = Request(obj: ObjectRow, items: seq<CostItem>, allowed: Option<set<UnitId>>, currentYear: int) {
    function View(): View {
      ViewOf(obj, allowed, true, currentYear)
    }

    function HorizonEnd(): int {
      currentYear + obj.horizon
    }
  }

  /** The row conditions that the database checks. */
  predicate CheckedRequest(r: Request) {
    && r.obj.inflationRate >= 0.0
    && forall i :: 0 <= i < |r.items| ==> SharesNonNegative(r.items[i]) && NonNegativeAmounts(r.items[i])
  }

  /** The rounded inflated spend of a year, as the timeline row carries it. */
  function PlannedCents(r: Request, year: int): int {
    Quantise(RowSum(Entries(r.items, r.View()), year, InflatedSum))
  }

  /** Planned spend after the current year and up to `last`. */
  function FutureTotal(r: Request, last: int): int
    decreases last - r.currentYear
  {
    if last <= r.currentYear then 0 else FutureTotal(r, last - 1) + PlannedCents(r, last)
  }

  datatype LumpSum = LumpSum(year: int, amount: int)

  function LumpSums(r: Request, last: int): seq<LumpSum>
    decreases last - r.currentYear
  {
    if last <= r.currentYear then []
    else if PlannedCents(r, last) > 0 then LumpSums(r, last - 1) + [LumpSum(last, PlannedCents(r, last))]
    else LumpSums(r, last - 1)
  }

  function WertquoteFactor(units: seq<Unit>, allowed: Option<set<UnitId>>): real {
    if allowed.None? then 1.0 else ScopeShare(WertquotenSplit(units), allowed.value) as real / 1000.0
  }

  /** The caller's part of the initial reserve, unrounded. */
  function InitialReserve(r: Request): real {
    Scaled(r.obj.initialReserve, WertquoteFactor(r.obj.units, r.allowed))
  }

  function AtLeastZero(x: real): real {
    if x < 0.0 then 0.0 else x
  }

  function RequiredTotal(r: Request): real {
    AtLeastZero(Chf(FutureTotal(r, r.HorizonEnd())) - InitialReserve(r))
  }

  function RequiredPerYear(r: Request): real {
    if r.obj.horizon == 0 then 0.0 else RequiredTotal(r) / r.obj.horizon as real
  }

  datatype ReservePlan = ReservePlan(
    horizon: nat,
    initialReserve: int,
    totalPlannedInflated: int,
    requiredTotal: int,
    requiredPerYear: int,
    requiredPerMonth: int,
    lumpSums: seq<LumpSum>)

  function PlanOf(r: Request): ReservePlan {
    ReservePlan(
      r.obj.horizon,
      Quantise(InitialReserve(r)),
      FutureTotal(r, r.HorizonEnd()),
      Quantise(RequiredTotal(r)),
      Quantise(RequiredPerYear(r)),
      Quantise(RequiredPerYear(r) / 12.0),
      LumpSums(r, r.HorizonEnd()))
  }

  /** _reserve_scope_factor, and its twin _scope_factor in renofond.py */
  method ReserveScopeFactor(units: seq<Unit>, allowed: Option<set<UnitId>>) returns (factor: real)
    ensures factor == WertquoteFactor(units, allowed)
  {
    if allowed.None? {
      return 1.0;
    }
    var inScope := 0;
    ghost var split := WertquotenSplit(units);
    for i := 0 to |units|
      invariant inScope == ScopeShare(split[..i], allowed.value)
    {
      ScopeShareLast(split[..i + 1], allowed.value);
      assert split[..i + 1][..i] == split[..i];
      if units[i].id in allowed.value {
        inScope := inScope + units[i].wertquote;
      }
    }
    assert split[..|units|] == split;
    factor := inScope as real / 1000.0;
  }

  lemma RowAt(r: Request, year: int)
    requires Earliest(r.items, r.currentYear) <= year <= r.HorizonEnd()
    ensures var rows := TimelineRows(r.items, r.View());
      var i := year - Earliest(r.items, r.currentYear);
      i < |rows| && rows[i].year == year && rows[i].plannedInflated == PlannedCents(r, year)
  {
    hide TimelineRows, Quantise, QuantPairs, RowSum, Entries, YearLedger, Buckets, Earliest;
    var i := year - Earliest(r.items, r.currentYear);
    assert TimelineRows(r.items, r.View())[i] == RowOf(Entries(r.items, r.View()), year, r.allowed);
  }

  lemma RowCount(r: Request)
    ensures |TimelineRows(r.items, r.View())| == r.HorizonEnd() - Earliest(r.items, r.currentYear) + 1
    ensures Earliest(r.items, r.currentYear) <= r.currentYear
  {
    hide RowOf;
  }

  /** One row a year from `first` to the horizon, each with its year's spend. */
  predicate RowsMatch(r: Request, rows: seq<TimelineRow>, first: int) {
    && |rows| == r.HorizonEnd() - first + 1 && first <= r.currentYear
    && forall i :: 0 <= i < |rows| ==> rows[i].year == first + i && rows[i].plannedInflated == PlannedCents(r, first + i)
  }

  lemma RowsAre(r: Request)
    ensures RowsMatch(r, TimelineRows(r.items, r.View()), Earliest(r.items, r.currentYear))
  {
    hide TimelineRows, Earliest, PlannedCents;
    RowCount(r);
    var rows, first := TimelineRows(r.items, r.View()), Earliest(r.items, r.currentYear);
    forall i | 0 <= i < |rows|
      ensures rows[i].year == first + i && rows[i].plannedInflated == PlannedCents(r, first + i)
    {
      RowAt(r, first + i);
    }
  }

  /** The totals before the first row, and what the next row adds to them. */
  lemma TotalsStep(r: Request, year: int)
    ensures year <= r.currentYear ==> FutureTotal(r, year) == 0 && LumpSums(r, year) == []
    ensures year > r.currentYear ==>
      && FutureTotal(r, year) == FutureTotal(r, year - 1) + PlannedCents(r, year)
      && LumpSums(r, year)
         == LumpSums(r, year - 1) + if PlannedCents(r, year) > 0 then [LumpSum(year, PlannedCents(r, year))] else []
  {
    hide PlannedCents;
  }

  /** The two passes of compute_reserve_plan over the timeline rows: the total and the lump sums. */
  method FutureSpend(r: Request, timeline: Timeline, ghost first: int) returns (futureTotal: int, lumpSums: seq<LumpSum>)
    requires RowsMatch(r, timeline.rows, first) && timeline.currentYear == r.currentYear
    ensures futureTotal == FutureTotal(r, r.HorizonEnd())
    ensures lumpSums == LumpSums(r, r.HorizonEnd())
  {
    hide PlannedCents, FutureTotal, LumpSums, Quantise;
    TotalsStep(r, first - 1);
    var rows := timeline.rows;
    futureTotal := 0;
    for i := 0 to |rows|
      invariant futureTotal == FutureTotal(r, first + i - 1)
    {
      TotalsStep(r, first + i - 1);
      TotalsStep(r, first + i);
      if rows[i].year > timeline.currentYear {
        futureTotal := futureTotal + rows[i].plannedInflated;
      }
    }
    lumpSums := [];
    for i := 0 to |rows|
      invariant lumpSums == LumpSums(r, first + i - 1)
    {
      TotalsStep(r, first + i - 1);
      TotalsStep(r, first + i);
      var row := rows[i];
      if row.year > timeline.currentYear && row.plannedInflated > 0 {
        QuantiseExact(row.plannedInflated);
        lumpSums := lumpSums + [LumpSum(row.year, Quantise(Chf(row.plannedInflated)))];
      }
    }
  }

  /** compute_reserve_plan */
  method ComputeReservePlan(r: Request) returns (plan: ReservePlan)
    ensures plan == PlanOf(r)
  {
    hide TimelineRows, FutureTotal, LumpSums, Quantise, WertquoteFactor, Chf, ViewOf, RowsMatch, Earliest;
    var timeline := ComputeTimeline(r.obj, r.items, r.allowed, true, r.currentYear);
    RowsAre(r);
    var futureTotal, lumpSums := FutureSpend(r, timeline, Earliest(r.items, r.currentYear));
    var factor := ReserveScopeFactor(r.obj.units, r.allowed);
    var initialReserve := Chf(r.obj.initialReserve) * factor;
    assert initialReserve == InitialReserve(r);
    var requiredTotal := Chf(futureTotal) - initialReserve;
    if requiredTotal < 0.0 {
      requiredTotal := 0.0;
    }
    assert requiredTotal == RequiredTotal(r);
    var horizon := r.obj.horizon;
    var perYear := if horizon != 0 then requiredTotal / horizon as real else 0.0;
    assert perYear == RequiredPerYear(r);
    QuantiseExact(futureTotal);
    plan := ReservePlan(horizon, Quantise(initialReserve), Quantise(Chf(futureTotal)), Quantise(requiredTotal),
      Quantise(perYear), Quantise(perYear / 12.0), lumpSums);
  }

  // ---- Laws ----

  function Amounts(lumps: seq<LumpSum>): (xs: seq<int>)
    ensures |xs| == |lumps|
  {
    seq(|lumps|, i requires 0 <= i < |lumps| => lumps[i].amount)
  }

  lemma PlannedCentsNonNegative(r: Request, year: int)
    requires CheckedRequest(r)
    ensures PlannedCents(r, year) >= 0
  {
    RowInflation(r.items, r.View(), year);
    QuantiseSign(RowSum(Entries(r.items, r.View()), year, InflatedSum));
  }

  lemma {:induction false} LumpsAddUpTo(r: Request, last: int)
    requires CheckedRequest(r)
    ensures Sum(Amounts(LumpSums(r, last))) == FutureTotal(r, last)
    decreases last - r.currentYear
  {
    if last > r.currentYear {
      LumpsAddUpTo(r, last - 1);
      PlannedCentsNonNegative(r, last);
      var before, cents := LumpSums(r, last - 1), PlannedCents(r, last);
      if cents > 0 {
        assert Amounts(LumpSums(r, last)) == Amounts(before) + [cents];
        SumAppend(Amounts(before), cents);
      } else {
        assert LumpSums(r, last) == before;
      }
    }
  }

  /** Paying every lump sum pays the announced total to the cent. */
  lemma LumpsAddUp(r: Request)
    requires CheckedRequest(r)
    ensures Sum(Amounts(PlanOf(r).lumpSums)) == PlanOf(r).totalPlannedInflated
  {
    LumpsAddUpTo(r, r.HorizonEnd());
  }

  lemma FutureTotalNonNegative(r: Request, last: int)
    requires CheckedRequest(r)
    ensures FutureTotal(r, last) >= 0
    decreases last - r.currentYear
  {
    if last > r.currentYear {
      FutureTotalNonNegative(r, last - 1);
      PlannedCentsNonNegative(r, last);
    }
  }

  /** The returned figures, each rounded on its own, still cover the gap: the required total is the
      future spend less the reserve or nothing, and rounding can only add a single cent to it. */
  lemma RequiredCoversGap(r: Request)
    ensures var p := PlanOf(r);
      var gap := p.totalPlannedInflated - p.initialReserve;
      && 0 <= p.requiredTotal
      && gap <= p.requiredTotal <= (if gap < 0 then 0 else gap) + 1
  {
    var f, reserve := FutureTotal(r, r.HorizonEnd()), InitialReserve(r);
    QuantiseSign(RequiredTotal(r));
    var t, q := Quantise(RequiredTotal(r)), Quantise(reserve);
    assert Abs(Chf(t) - RequiredTotal(r)) <= HALF_CENT && Abs(Chf(q) - reserve) <= HALF_CENT;
    assert Chf(f - q) == Chf(f) - Chf(q);
    if Chf(f) - reserve < 0.0 {
      QuantiseMonotone(Chf(f), reserve);
      QuantiseExact(f);
      QuantiseExact(0);
    } else {
      assert Chf(f - q) - Chf(t) <= 0.01 && Chf(t) - Chf(f - q) <= 0.01;
      RoundedGap(Chf(f) - reserve, f, reserve);
    }
  }

  /** Rounding f - x never falls below f minus the rounded x. */
  lemma RoundedGap(gap: real, f: int, x: real)
    requires gap == Chf(f) - x && gap >= 0.0
    ensures Quantise(gap) >= f - Quantise(x)
  {
    var t, q := Quantise(gap), Quantise(x);
    assert Abs(Chf(t) - gap) <= HALF_CENT && Abs(Chf(q) - x) <= HALF_CENT;
    assert Chf(f - q) == Chf(f) - Chf(q);
    assert t >= f - q - 1;
  }
}
