/** What a returned reserve plan and a returned projection show, in terms of the timeline rows and the deposits. */
module PlanMeaning {
  import opened Budgets
  import opened Domain
  import opened Money
  import opened Renofond
  import opened Reserve

  // ---- The reserve plan ----

  /** The rows of the inflated timeline. */
  function Rows(r: Request): seq<TimelineRow> {
    TimelineRows(r.items, ViewOf(r.obj, r.allowed, true, r.currentYear))
  }

  /** What the rows after the current year show as inflated spend. */
  function LaterSpend(rows: seq<TimelineRow>, currentYear: int): int {
    if rows == [] then 0
    else
      var row := rows[|rows| - 1];
      LaterSpend(rows[..|rows| - 1], currentYear) + if row.year > currentYear then row.plannedInflated else 0
  }

  /** The caller's part of the initial reserve. */
  function ReservePart(r: Request): real {
    match r.allowed
    case None => Chf(r.obj.initialReserve)
    case Some(scope) => Part(Chf(r.obj.initialReserve), ScopeShare(WertquotenSplit(r.obj.units), scope), 1000.0)
  }

  /** What the future spend exceeds the reserve by, if it does. */
  function Gap(r: Request): real {
    var gap := Chf(LaterSpend(Rows(r), r.currentYear)) - ReservePart(r);
    if gap > 0.0 then gap else 0.0
  }

  lemma {:induction false} LaterSpendIsFuture(r: Request, rows: seq<TimelineRow>, first: int, n: nat)
    requires RowsMatch(r, rows, first) && n <= |rows|
    ensures LaterSpend(rows[..n], r.currentYear) == FutureTotal(r, first + n - 1)
  {
    hide FutureTotal, PlannedCents;
    TotalsStep(r, first + n - 1);
    if n > 0 {
      LaterSpendIsFuture(r, rows, first, n - 1);
      assert rows[..n][..n - 1] == rows[..n - 1];
      TotalsStep(r, first + n - 2);
    }
  }

  lemma TotalIsLaterSpend(r: Request)
    ensures FutureTotal(r, r.HorizonEnd()) == LaterSpend(Rows(r), r.currentYear)
  {
    hide LaterSpend, FutureTotal, TimelineRows, PlannedCents, Earliest;
    RowsAre(r);
    LaterSpendIsFuture(r, Rows(r), Earliest(r.items, r.currentYear), |Rows(r)|);
    assert Rows(r)[..|Rows(r)|] == Rows(r);
  }

  lemma ReserveIsPart(r: Request)
    ensures InitialReserve(r) == ReservePart(r)
  {
  }

  lemma RequiredIsGap(r: Request)
    ensures RequiredTotal(r) == Gap(r) >= 0.0
  {
    hide FutureTotal, LaterSpend, InitialReserve, ReservePart;
    TotalIsLaterSpend(r);
    ReserveIsPart(r);
  }

  /** Twelve rounded months miss the rounded year by less than a rounding each. */
  lemma MonthsAndYear(yearly: real)
    ensures -6 <= 12 * Quantise(yearly / 12.0) - Quantise(yearly) <= 6
  {
    var m, y := Quantise(yearly / 12.0), Quantise(yearly);
    assert Abs(Chf(m) - yearly / 12.0) <= HALF_CENT && Abs(Chf(y) - yearly) <= HALF_CENT;
    assert 12.0 * (yearly / 12.0) == yearly;
    assert Chf(12 * m) == 12.0 * Chf(m);
    assert Abs(Chf(12 * m) - Chf(y)) <= 0.065;
    assert Chf(12 * m) - Chf(y) == (12 * m - y) as real / 100.0;
  }

  /** Every amount of a returned plan. */
  lemma PlanFigures(r: Request)
    ensures var p := PlanOf(r);
      && p.horizon == r.obj.horizon
      && IsNearestCent(ReservePart(r), p.initialReserve)
      && (r.allowed.None? ==> p.initialReserve == r.obj.initialReserve)
      && p.totalPlannedInflated == LaterSpend(Rows(r), r.currentYear)
      && IsNearestCent(Gap(r), p.requiredTotal)
      && (p.horizon == 0 ==> p.requiredPerYear == 0)
      && (p.horizon > 0 ==> IsNearestCent(Gap(r) / p.horizon as real, p.requiredPerYear))
      && -6 <= 12 * p.requiredPerMonth - p.requiredPerYear <= 6
  {
    hide LaterSpend, FutureTotal, ReservePart, Gap, InitialReserve, RequiredTotal, Quantise, IsNearestCent;
    TotalIsLaterSpend(r);
    ReserveIsPart(r);
    RequiredIsGap(r);
    MonthsAndYear(RequiredPerYear(r));
    QuantiseExact(0);
    assert Chf(0) == 0.0;
    QuantiseExact(r.obj.initialReserve);
    if r.allowed.None? { UnscopedPart(r); }
  }

  lemma UnscopedPart(r: Request)
    requires r.allowed.None?
    ensures ReservePart(r) == Chf(r.obj.initialReserve)
  {
  }

  // ---- The lump sums ----

  predicate LumpFor(row: TimelineRow, currentYear: int, l: LumpSum) {
    row.year > currentYear && row.plannedInflated > 0 && l == LumpSum(row.year, row.plannedInflated)
  }

  /** The lump sums are, in the order of the years, the positive amounts of the rows after the current year. */
  function LumpsOf(rows: seq<TimelineRow>, currentYear: int): (lumps: seq<LumpSum>)
    ensures forall l :: l in lumps <==> exists i :: 0 <= i < |rows| && LumpFor(rows[i], currentYear, l)
  {
    if rows == [] then []
    else
      var n := |rows| - 1;
      var front, row := LumpsOf(rows[..n], currentYear), rows[n];
      assert forall i :: 0 <= i < n ==> rows[i] == rows[..n][i];
      var l := LumpSum(row.year, row.plannedInflated);
      if row.year > currentYear && row.plannedInflated > 0 then
        assert LumpFor(row, currentYear, l);
        front + [l]
      else front
  }

  lemma {:induction false} LumpsAre(r: Request, rows: seq<TimelineRow>, first: int, n: nat)
    requires RowsMatch(r, rows, first) && n <= |rows|
    ensures LumpsOf(rows[..n], r.currentYear) == LumpSums(r, first + n - 1)
  {
    hide LumpSums, PlannedCents;
    TotalsStep(r, first + n - 1);
    if n > 0 {
      LumpsAre(r, rows, first, n - 1);
      assert rows[..n][..n - 1] == rows[..n - 1];
      TotalsStep(r, first + n - 2);
    }
  }

  lemma {:induction false} LumpsAscend(rows: seq<TimelineRow>, currentYear: int)
    requires forall i, j :: 0 <= i < j < |rows| ==> rows[i].year < rows[j].year
    ensures forall i, j :: 0 <= i < j < |LumpsOf(rows, currentYear)| ==>
      LumpsOf(rows, currentYear)[i].year < LumpsOf(rows, currentYear)[j].year
  {
    if rows != [] {
      var n := |rows| - 1;
      LumpsAscend(rows[..n], currentYear);
      var front := LumpsOf(rows[..n], currentYear);
      forall i | 0 <= i < |front| ensures front[i].year < rows[n].year {
        assert front[i] in front;
      }
    }
  }

  /** One lump sum for exactly each later year with a positive amount, in the order of the years, each over exactly
      what that year's row shows. */
  lemma LumpsByRow(r: Request)
    ensures var lumps, rows := PlanOf(r).lumpSums, Rows(r);
      && (forall i, j :: 0 <= i < j < |lumps| ==> lumps[i].year < lumps[j].year)
      && (forall l :: l in lumps <==> exists i :: 0 <= i < |rows| && LumpFor(rows[i], r.currentYear, l))
  {
    hide LumpSums, TimelineRows, LumpsOf, PlannedCents, Earliest;
    RowsAre(r);
    LumpsAre(r, Rows(r), Earliest(r.items, r.currentYear), |Rows(r)|);
    assert Rows(r)[..|Rows(r)|] == Rows(r);
    LumpsAscend(Rows(r), r.currentYear);
  }

  // ---- The projection ----

  /** The recorded deposits of a year. */
  function Recorded(deposits: seq<Deposit>, year: int): int {
    if deposits == [] then 0
    else (if deposits[0].year == year then deposits[0].amount else 0) + Recorded(deposits[1..], year)
  }

  lemma {:induction false} RecordedIsDepositsIn(deposits: seq<Deposit>, year: int)
    ensures Recorded(deposits, year) == DepositsIn(deposits, year)
  {
    if deposits != [] {
      RecordedIsDepositsIn(deposits[1..], year);
      FirstDeposit(deposits, year);
    }
  }

  lemma {:induction false} FirstDeposit(deposits: seq<Deposit>, year: int)
    requires deposits != []
    ensures DepositsIn(deposits, year)
         == (if deposits[0].year == year then deposits[0].amount else 0) + DepositsIn(deposits[1..], year)
  {
    if |deposits| > 1 {
      var n := |deposits| - 1;
      assert deposits[1..][..n - 1] == deposits[..n][1..];
      FirstDeposit(deposits[..n], year);
    } else {
      assert deposits[..0] == [] && deposits[1..] == [];
    }
  }

  /** The caller's part of the deposits of a year. */
  function DepositPart(r: Request, deposits: seq<Deposit>, year: int): real {
    match r.allowed
    case None => Chf(Recorded(deposits, year))
    case Some(scope) => Part(Chf(Recorded(deposits, year)), ScopeShare(WertquotenSplit(r.obj.units), scope), 1000.0)
  }

  lemma DepositsArePart(r: Request, deposits: seq<Deposit>, year: int)
    ensures ActualDeposits(r, deposits, year) == DepositPart(r, deposits, year)
  {
    RecordedIsDepositsIn(deposits, year);
  }

  lemma {:induction false} RowsInOrder(r: Request, deposits: seq<Deposit>, last: int)
    requires last >= r.currentYear - 1
    ensures |RowsTo(r, deposits, last)| == last - r.currentYear + 1
    ensures forall i :: 0 <= i < |RowsTo(r, deposits, last)| ==>
      RowsTo(r, deposits, last)[i] == RowFor(r, deposits, r.currentYear + i)
    decreases last - r.currentYear
  {
    hide RowFor;
    if last >= r.currentYear { RowsInOrder(r, deposits, last - 1); }
  }

  /** One row a year from the current one to the horizon. Apart from the balance, which `UnscopedProjectionExact` and
      the rounding laws speak about: nothing is required in the current year and the plan's yearly figure afterwards;
      deposits are the caller's part, rounded; planned is the timeline's figure, accumulated row by row. */
  lemma ProjectionRows(r: Request, deposits: seq<Deposit>, i: nat)
    requires i <= r.obj.horizon
    ensures var p, rows := ProjectionOf(r, deposits), Rows(r);
      && |p.rows| == r.obj.horizon + 1
      && p.initialReserve == PlanOf(r).initialReserve && p.requiredPerYear == PlanOf(r).requiredPerYear
      && p.rows[i].year == r.currentYear + i
      && p.rows[i].required == (if i == 0 then 0 else p.requiredPerYear)
      && p.rows[i].actual == Quantise(DepositPart(r, deposits, r.currentYear + i))
      && |rows| > r.obj.horizon
      && p.rows[i].planned == rows[|rows| - 1 - r.obj.horizon + i].plannedInflated
      && rows[|rows| - 1 - r.obj.horizon + i].year == p.rows[i].year
      && p.rows[i].cumulativePlanned == p.rows[i].planned + if i == 0 then 0 else p.rows[i - 1].cumulativePlanned
  {
    hide PlanOf, PlannedCents, TimelineRows, Quantise, DepositPart, ActualDeposits, BalanceAt, Earliest;
    RowsInOrder(r, deposits, r.HorizonEnd());
    RowsAre(r);
    DepositsArePart(r, deposits, r.currentYear + i);
    assert CumulativePlanned(r, r.currentYear - 1) == 0;
  }

  /** The balance of every caller: what the row before left, unrounded, and the row's own figures; shown rounded. */
  lemma ProjectionBalances(r: Request, deposits: seq<Deposit>, i: nat)
    requires i <= r.obj.horizon
    ensures |ProjectionOf(r, deposits).rows| == r.obj.horizon + 1
    ensures var row, year := ProjectionOf(r, deposits).rows[i], r.currentYear + i;
      && row.balance == Quantise(BalanceAt(r, deposits, year))
      && row.isUnderfunded == (BalanceAt(r, deposits, year) < 0.0)
      && BalanceAt(r, deposits, year)
         == (if i == 0 then Chf(ProjectionOf(r, deposits).initialReserve) else BalanceAt(r, deposits, year - 1))
            + Chf(row.required) + DepositPart(r, deposits, year) - Chf(row.planned)
  {
    hide ProjectionOf, Contribution, PlannedCents, Quantise, DepositPart, ActualDeposits, BalanceAt, PlanOf, Chf;
    RowIs(r, deposits, i);
    BalanceStep(r, deposits, r.currentYear + i);
    if i == 0 { OpeningBalance(r, deposits); }
  }

  lemma RowIs(r: Request, deposits: seq<Deposit>, i: nat)
    requires i <= r.obj.horizon
    ensures var p := ProjectionOf(r, deposits);
      && |p.rows| == r.obj.horizon + 1 && p.rows[i] == RowFor(r, deposits, r.currentYear + i)
      && p.initialReserve == PlanOf(r).initialReserve
  {
    hide PlanOf, RowsTo, RowFor;
    RowsInOrder(r, deposits, r.HorizonEnd());
  }

  lemma OpeningBalance(r: Request, deposits: seq<Deposit>)
    ensures BalanceAt(r, deposits, r.currentYear - 1) == Chf(PlanOf(r).initialReserve)
  {
    hide PlanOf;
  }

  lemma BalanceStep(r: Request, deposits: seq<Deposit>, year: int)
    requires year >= r.currentYear
    ensures BalanceAt(r, deposits, year)
         == BalanceAt(r, deposits, year - 1)
            + Chf(Contribution(r, year)) + DepositPart(r, deposits, year) - Chf(PlannedCents(r, year))
  {
    hide PlanOf, PlannedCents, DepositPart, ActualDeposits;
    DepositsArePart(r, deposits, year);
  }

  predicate Flagged(rows: seq<ProjectionRow>, year: int) {
    exists i :: 0 <= i < |rows| && rows[i].year == year && rows[i].isUnderfunded
  }

  lemma ListedIsFlagged(r: Request, deposits: seq<Deposit>, year: int)
    ensures Listed(ProjectionOf(r, deposits).underfunding, year) <==> Flagged(ProjectionOf(r, deposits).rows, year)
  {
    hide PlanOf, PlannedCents, Quantise, BalanceAt, UnderfundedTo, RowsTo;
    var p := ProjectionOf(r, deposits);
    RowsInOrder(r, deposits, r.HorizonEnd());
    UnderfundingListExact(r, deposits, r.HorizonEnd());
    if Listed(p.underfunding, year) {
      var k :| 0 <= k < |p.underfunding| && p.underfunding[k].year == year;
      assert IsRedEntry(r, deposits, p.underfunding[k], r.HorizonEnd());
      assert p.rows[year - r.currentYear] == RowFor(r, deposits, year);
    }
    if Flagged(p.rows, year) {
      var i :| 0 <= i < |p.rows| && p.rows[i].year == year && p.rows[i].isUnderfunded;
      assert p.rows[i] == RowFor(r, deposits, r.currentYear + i);
      assert InRed(r, deposits, year, r.HorizonEnd());
    }
  }

  lemma ShortfallShown(r: Request, deposits: seq<Deposit>, k: nat)
    requires k < |ProjectionOf(r, deposits).underfunding|
    ensures var p := ProjectionOf(r, deposits);
      var year := p.underfunding[k].year; var i := year - r.currentYear;
      && p.underfunding[k].shortfall == Quantise(-BalanceAt(r, deposits, year))
      && 0 <= i < |p.rows| && (r.allowed.None? ==> p.underfunding[k].shortfall == -p.rows[i].balance)
  {
    hide PlanOf, PlannedCents, Quantise, BalanceAt, UnderfundedTo, RowsTo;
    var p := ProjectionOf(r, deposits);
    var year := p.underfunding[k].year;
    RowsInOrder(r, deposits, r.HorizonEnd());
    UnderfundingListExact(r, deposits, r.HorizonEnd());
    assert IsRedEntry(r, deposits, p.underfunding[k], r.HorizonEnd());
    assert p.rows[year - r.currentYear] == RowFor(r, deposits, year);
    if r.allowed.None? { ShortfallIsBalance(r, deposits, year); }
  }

  /** The returned list: ascending, the years of exactly the flagged rows, each shortfall the rounded missing amount,
      which for unscoped callers is the shown balance with its sign changed. */
  lemma ProjectionUnderfunding(r: Request, deposits: seq<Deposit>)
    ensures var p := ProjectionOf(r, deposits);
      && Ascending(p.underfunding)
      && (forall y :: Listed(p.underfunding, y) <==> Flagged(p.rows, y))
      && forall k :: 0 <= k < |p.underfunding| ==>
           var i := p.underfunding[k].year - r.currentYear;
           && 0 <= i < |p.rows|
           && p.underfunding[k].shortfall == Quantise(-BalanceAt(r, deposits, p.underfunding[k].year))
           && (r.allowed.None? ==> p.underfunding[k].shortfall == -p.rows[i].balance)
  {
    hide ProjectionOf, Listed, Flagged, Ascending, Quantise, BalanceAt;
    var p := ProjectionOf(r, deposits);
    forall y ensures Listed(p.underfunding, y) <==> Flagged(p.rows, y) {
      ListedIsFlagged(r, deposits, y);
    }
    forall k | 0 <= k < |p.underfunding|
      ensures var i := p.underfunding[k].year - r.currentYear;
        && 0 <= i < |p.rows|
        && p.underfunding[k].shortfall == Quantise(-BalanceAt(r, deposits, p.underfunding[k].year))
        && (r.allowed.None? ==> p.underfunding[k].shortfall == -p.rows[i].balance)
    {
      ShortfallShown(r, deposits, k);
    }
    ReturnedAscending(r, deposits);
  }

  lemma ReturnedAscending(r: Request, deposits: seq<Deposit>)
    ensures Ascending(ProjectionOf(r, deposits).underfunding)
  {
    hide Ascending, UnderfundedTo, RowsTo, PlanOf;
    UnderfundingListExact(r, deposits, r.HorizonEnd());
  }

  lemma ShortfallIsBalance(r: Request, deposits: seq<Deposit>, year: int)
    requires r.allowed.None?
    ensures Quantise(-BalanceAt(r, deposits, year)) == -Quantise(BalanceAt(r, deposits, year))
  {
    hide BalanceAt;
    UnscopedBalanceIsWhole(r, deposits, year);
    QuantiseExact(CentBalance(r, deposits, year));
    QuantiseExact(-CentBalance(r, deposits, year));
    assert Chf(-CentBalance(r, deposits, year)) == -Chf(CentBalance(r, deposits, year));
  }
}
