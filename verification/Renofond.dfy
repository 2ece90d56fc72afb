/** The reserve balance walked forward year by year over the planning horizon. */
module Renofond {
  import opened Budgets
  import opened Domain
  import opened Money
  import opened Reserve

  /** An actual deposit row; amounts are whole cents. */
  datatype Deposit = Deposit(year: int, amount: int)

  function DepositsIn(deposits: seq<Deposit>, year: int): int {
    if deposits == [] then 0
    else
      var d := deposits[|deposits| - 1];
      DepositsIn(deposits[..|deposits| - 1], year) + if d.year == year then d.amount else 0
  }

  /** Deposits of the years first..last. */
  function DepositsBetween(deposits: seq<Deposit>, first: int, last: int): int
    decreases last - first
  {
    if last < first then 0 else DepositsBetween(deposits, first, last - 1) + DepositsIn(deposits, last)
  }

  datatype ProjectionRow = ProjectionRow(
    year: int,
    required: int,
    actual: int,
    planned: int,
    balance: int,
    cumulativePlanned: int,
    isUnderfunded: bool)

  datatype UnderfundingYear = UnderfundingYear(year: int, shortfall: int)

  datatype Projection = Projection(
    initialReserve: int,
    requiredPerYear: int,
    rows: seq<ProjectionRow>,
    underfunding: seq<UnderfundingYear>)

  function Factor(r: Request): real {
    WertquoteFactor(r.obj.units, r.allowed)
  }

  /** The modelled deposit: nothing in the current year, the rounded yearly figure afterwards. */
  function Contribution(r: Request, year: int): int {
    if year > r.currentYear then PlanOf(r).requiredPerYear else 0
  }

  function ActualDeposits(r: Request, deposits: seq<Deposit>, year: int): real {
    Scaled(DepositsIn(deposits, year), Factor(r))
  }

  /** The unrounded end-of-year balance. */
  function BalanceAt(r: Request, deposits: seq<Deposit>, year: int): real
    decreases year - r.currentYear
  {
    if year < r.currentYear then Chf(PlanOf(r).initialReserve)
    else
      BalanceAt(r, deposits, year - 1)
      + Chf(Contribution(r, year)) + ActualDeposits(r, deposits, year) - Chf(PlannedCents(r, year))
  }

  function CumulativePlanned(r: Request, year: int): int
    decreases year - r.currentYear
  {
    if year < r.currentYear then 0 else CumulativePlanned(r, year - 1) + PlannedCents(r, year)
  }

  function RowFor(r: Request, deposits: seq<Deposit>, year: int): ProjectionRow {
    ProjectionRow(
      year,
      Contribution(r, year),
      Quantise(ActualDeposits(r, deposits, year)),
      PlannedCents(r, year),
      Quantise(BalanceAt(r, deposits, year)),
      CumulativePlanned(r, year),
      BalanceAt(r, deposits, year) < 0.0)
  }

  function RowsTo(r: Request, deposits: seq<Deposit>, last: int): seq<ProjectionRow>
    decreases last - r.currentYear
  {
    if last < r.currentYear then [] else RowsTo(r, deposits, last - 1) + [RowFor(r, deposits, last)]
  }

  /** The years with a negative balance, each with the rounded shortfall. */
  function UnderfundedTo(r: Request, deposits: seq<Deposit>, last: int): seq<UnderfundingYear>
    decreases last - r.currentYear
  {
    if last < r.currentYear then []
    else if BalanceAt(r, deposits, last) < 0.0 then
      UnderfundedTo(r, deposits, last - 1) + [UnderfundingYear(last, Quantise(-BalanceAt(r, deposits, last)))]
    else UnderfundedTo(r, deposits, last - 1)
  }

  function ProjectionOf(r: Request, deposits: seq<Deposit>): Projection {
    Projection(PlanOf(r).initialReserve, PlanOf(r).requiredPerYear,
               RowsTo(r, deposits, r.HorizonEnd()), UnderfundedTo(r, deposits, r.HorizonEnd()))
  }

  function Get<V>(m: map<int, V>, key: int, default: V): V {
    if key in m then m[key] else default
  }

  method PlannedPerYear(r: Request, timeline: Timeline, ghost first: int) returns (planned: map<int, int>)
    requires RowsMatch(r, timeline.rows, first) && timeline.currentYear == r.currentYear
    ensures forall y :: r.currentYear <= y <= r.HorizonEnd() ==> Get(planned, y, 0) == PlannedCents(r, y)
  {
    hide PlannedCents;
    planned := map[];
    for i := 0 to |timeline.rows|
      invariant forall y :: r.currentYear <= y < first + i ==> Get(planned, y, 0) == PlannedCents(r, y)
      invariant forall y :: y >= first + i ==> y !in planned
    {
      var row := timeline.rows[i];
      if row.year >= timeline.currentYear {
        planned := planned[row.year := Get(planned, row.year, 0) + row.plannedInflated];
      }
    }
  }

  method ActualPerYear(deposits: seq<Deposit>, factor: real) returns (actual: map<int, real>)
    ensures forall y :: Get(actual, y, 0.0) == Scaled(DepositsIn(deposits, y), factor)
  {
    hide Scaled;
    ScaledSum(0, 0, factor);
    actual := map[];
    for i := 0 to |deposits|
      invariant forall y :: Get(actual, y, 0.0) == Scaled(DepositsIn(deposits[..i], y), factor)
    {
      var d := deposits[i];
      assert deposits[..i + 1][..i] == deposits[..i];
      ScaledSum(DepositsIn(deposits[..i], d.year), d.amount, factor);
      actual := actual[d.year := Get(actual, d.year, 0.0) + Scaled(d.amount, factor)];
    }
    assert deposits[..|deposits|] == deposits;
  }

  /** compute_projection */
  method ComputeProjection(r: Request, deposits: seq<Deposit>) returns (p: Projection)
    ensures p == ProjectionOf(r, deposits)
  {
    hide TimelineRows, PlannedCents, PlanOf, Factor, DepositsIn, Quantise, Scaled, Chf, ViewOf, Entries;
    var plan := ComputeReservePlan(r);
    var timeline := ComputeTimeline(r.obj, r.items, r.allowed, true, r.currentYear);
    RowsAre(r);
    var plannedPerYear := PlannedPerYear(r, timeline, Earliest(r.items, r.currentYear));
    var factor := ReserveScopeFactor(r.obj.units, r.allowed);
    assert factor == Factor(r) by { FactorMeaning(r); }
    var actualPerYear := ActualPerYear(deposits, factor);
    var rows, underfunding := [], [];
    var balance, cumulativePlanned := Chf(plan.initialReserve), 0;
    for year := r.currentYear to timeline.horizonEnd + 1
      invariant balance == BalanceAt(r, deposits, year - 1)
      invariant cumulativePlanned == CumulativePlanned(r, year - 1)
      invariant rows == RowsTo(r, deposits, year - 1)
      invariant underfunding == UnderfundedTo(r, deposits, year - 1)
    {
      var planned := Get(plannedPerYear, year, 0);
      var actual := Get(actualPerYear, year, 0.0);
      var contribution := if year > r.currentYear then plan.requiredPerYear else 0;
      assert contribution == Contribution(r, year) && actual == ActualDeposits(r, deposits, year);
      balance := balance + Chf(contribution) + actual - Chf(planned);
      cumulativePlanned := cumulativePlanned + planned;
      var isUnderfunded := balance < 0.0;
      QuantiseExact(contribution);
      QuantiseExact(planned);
      QuantiseExact(cumulativePlanned);
      rows := rows + [ProjectionRow(year, Quantise(Chf(contribution)), Quantise(actual), Quantise(Chf(planned)),
                                    Quantise(balance), Quantise(Chf(cumulativePlanned)), isUnderfunded)];
      if isUnderfunded {
        underfunding := underfunding + [UnderfundingYear(year, Quantise(-balance))];
      }
    }
    QuantiseExact(plan.initialReserve);
    QuantiseExact(plan.requiredPerYear);
    p := Projection(Quantise(Chf(plan.initialReserve)), Quantise(Chf(plan.requiredPerYear)), rows, underfunding);
  }

  lemma FactorMeaning(r: Request)
    ensures Factor(r) == WertquoteFactor(r.obj.units, r.allowed)
  {
  }

  // ---- The two rounding stages ----

  /** The walk in closed form: whole cents, plus the pro-rated deposits so far. */
  lemma {:induction false} BalanceClosedForm(r: Request, deposits: seq<Deposit>, year: int)
    requires year >= r.currentYear
    ensures BalanceAt(r, deposits, year)
         == Chf(PlanOf(r).initialReserve + (year - r.currentYear) * PlanOf(r).requiredPerYear
                - PlannedCents(r, r.currentYear) - FutureTotal(r, year))
            + Scaled(DepositsBetween(deposits, r.currentYear, year), Factor(r))
    decreases year - r.currentYear
  {
    hide PlanOf, PlannedCents, Factor, DepositsIn, Scaled;
    var cy := r.currentYear;
    ScaledSum(DepositsBetween(deposits, cy, year - 1), DepositsIn(deposits, year), Factor(r));
    if year == cy {
      assert BalanceAt(r, deposits, cy - 1) == Chf(PlanOf(r).initialReserve);
    } else {
      BalanceClosedForm(r, deposits, year - 1);
      var rate := PlanOf(r).requiredPerYear;
      assert (year - 1 - cy) * rate + rate == (year - cy) * rate;
    }
  }

  lemma ScaledError(n: nat, x: real, y: real, e: real)
    requires Abs(x - y) <= e
    ensures Abs(n as real * x - n as real * y) <= e * n as real
  {
    var d := n as real * x - n as real * y;
    assert d == n as real * (x - y);
    assert d <= n as real * e && -d <= n as real * e;
  }

  /** What the last balance would be without any rounding: what was actually deposited, less the
      current year's spend, plus whatever the reserve exceeds the future spend by. */
  function IdealLastBalance(r: Request, deposits: seq<Deposit>): real {
    Scaled(DepositsBetween(deposits, r.currentYear, r.HorizonEnd()), Factor(r))
    - Chf(PlannedCents(r, r.currentYear))
    + AtLeastZero(InitialReserve(r) - Chf(FutureTotal(r, r.HorizonEnd())))
  }

  lemma Divided(x: real, n: nat)
    requires n > 0
    ensures n as real * (x / n as real) == x
  {
  }

  lemma YearlyFigure(r: Request)
    requires r.obj.horizon > 0
    ensures r.obj.horizon as real * RequiredPerYear(r) == RequiredTotal(r)
  {
    hide RequiredTotal;
    Divided(RequiredTotal(r), r.obj.horizon);
  }

  lemma ScaledCents(n: nat, cents: int)
    ensures n as real * Chf(cents) == Chf(n * cents)
  {
    assert (n * cents) as real == n as real * cents as real;
  }

  lemma RepeatedRounding(n: nat, x: real, total: real)
    requires n as real * x == total
    ensures Abs(Chf(n * Quantise(x)) - total) <= HALF_CENT * n as real
  {
    ScaledError(n, Chf(Quantise(x)), x, HALF_CENT);
    ScaledCents(n, Quantise(x));
  }

  lemma YearlyDeposits(r: Request)
    requires r.obj.horizon > 0
    ensures Abs(Chf(r.obj.horizon * PlanOf(r).requiredPerYear) - RequiredTotal(r)) <= HALF_CENT * r.obj.horizon as real
  {
    hide *;
    YearlyFigure(r);
    RepeatedRounding(r.obj.horizon, RequiredPerYear(r), RequiredTotal(r));
    PlanPerYear(r);
  }

  lemma PlanPerYear(r: Request)
    ensures PlanOf(r).requiredPerYear == Quantise(RequiredPerYear(r))
  {
  }

  /** Two-stage rounding bound: the rounded opening reserve and the h rounded yearly deposits together
      move the last balance by at most half a cent each, in either direction. */
  lemma TwoStageRounding(r: Request, deposits: seq<Deposit>)
    requires r.obj.horizon > 0
    ensures Abs(BalanceAt(r, deposits, r.HorizonEnd()) - IdealLastBalance(r, deposits))
         <= HALF_CENT * (r.obj.horizon + 1) as real
  {
    hide Quantise, FutureTotal, InitialReserve, Factor, DepositsBetween, PlannedCents, BalanceAt, RequiredPerYear, Scaled;
    var h, p := r.obj.horizon, PlanOf(r);
    assert r.HorizonEnd() - r.currentYear == h;
    BalanceClosedForm(r, deposits, r.HorizonEnd());
    YearlyDeposits(r);
    assert Abs(Chf(p.initialReserve) - InitialReserve(r)) <= HALF_CENT;
    var open, yearly := p.initialReserve, h * p.requiredPerYear;
    var now, future := PlannedCents(r, r.currentYear), FutureTotal(r, r.HorizonEnd());
    assert Chf(open + yearly - now - future) == Chf(open) + Chf(yearly) - Chf(now) - Chf(future);
    assert HALF_CENT * (h + 1) as real == HALF_CENT * h as real + HALF_CENT;
  }

  /** The plan is sufficient: with the modelled deposits the horizon ends no lower than the actual
      deposits less the current year's spend, up to the rounding. */
  lemma PlanSuffices(r: Request, deposits: seq<Deposit>)
    requires r.obj.horizon > 0
    ensures BalanceAt(r, deposits, r.HorizonEnd())
         >= Scaled(DepositsBetween(deposits, r.currentYear, r.HorizonEnd()), Factor(r))
            - Chf(PlannedCents(r, r.currentYear)) - HALF_CENT * (r.obj.horizon + 1) as real
  {
    hide BalanceAt, DepositsBetween, PlannedCents, InitialReserve, FutureTotal, Factor, Scaled;
    TwoStageRounding(r, deposits);
  }

  /** The projection and the reserve plan tell one story: what the last row has accumulated is the current
      year's spend plus the total that the plan announces. */
  lemma {:induction false} CumulativeMatchesPlan(r: Request, year: int)
    requires year >= r.currentYear
    ensures CumulativePlanned(r, year) == PlannedCents(r, r.currentYear) + FutureTotal(r, year)
    ensures year == r.HorizonEnd() ==>
      CumulativePlanned(r, year) == PlannedCents(r, r.currentYear) + PlanOf(r).totalPlannedInflated
    decreases year - r.currentYear
  {
    hide PlannedCents;
    if year > r.currentYear {
      CumulativeMatchesPlan(r, year - 1);
    } else {
      assert CumulativePlanned(r, year - 1) == 0;
    }
  }

  // ---- The documented recurrence ----

  /** The header formula: every year, the current one included, adds the required deposit. */
  predicate DocumentedStep(r: Request, deposits: seq<Deposit>, year: int) {
    BalanceAt(r, deposits, year)
    == BalanceAt(r, deposits, year - 1)
       + Chf(PlanOf(r).requiredPerYear) + ActualDeposits(r, deposits, year) - Chf(PlannedCents(r, year))
  }

  /** It holds in every later year, and in the current year only when nothing is required at all. */
  lemma DocumentedStepExactly(r: Request, deposits: seq<Deposit>, year: int)
    requires year >= r.currentYear
    ensures DocumentedStep(r, deposits, year) <==> year > r.currentYear || PlanOf(r).requiredPerYear == 0
  {
    hide PlanOf, PlannedCents, ActualDeposits;
  }

  /** One franc to spend next year and no reserve: the documented formula would deposit it this year. */
  function NextYearRequest(): Request {
    Request(
      ObjectRow(0.0, 1, 0, [Unit(0, 1000)]),
      [CostItem(0, None, None, [], [Allocation(0, 1000)], UnitScope, Planned, Med, Some(2027), Some(100), None, None)],
      None,
      2026)
  }

  lemma NextYearPlanned()
    ensures PlannedCents(NextYearRequest(), 2027) == 100
  {
    var r := NextYearRequest();
    var item, v := r.items[0], r.View();
    assert r.items[..0] == [];
    assert PlannedEntry(item, v).inflated == 1.0;
    assert Entries(r.items, v) == [] + ([PlannedEntry(item, v)] + []);
    RowSumAppend([], PlannedEntry(item, v), 2027, InflatedSum);
    assert [] + [PlannedEntry(item, v)] == Entries(r.items, v);
    QuantiseExact(100);
  }

  lemma NextYearRequired()
    ensures RequiredPerYear(NextYearRequest()) == 1.0
  {
    hide PlannedCents;
    var r := NextYearRequest();
    NextYearPlanned();
    assert FutureTotal(r, 2026) == 0;
    assert FutureTotal(r, 2027) == 100;
  }

  lemma DocumentedStepWitness()
    ensures CheckedRequest(NextYearRequest()) && !DocumentedStep(NextYearRequest(), [], 2026)
  {
    assert CheckedRequest(NextYearRequest()) && NextYearRequest().currentYear == 2026;
    assert Chf(100) == 1.0;
    hide *;
    NextYearRequired();
    QuantiseExact(100);
    PlanPerYear(NextYearRequest());
    DocumentedStepExactly(NextYearRequest(), [], 2026);
  }

  // ---- Exactness for unscoped callers, and the underfunding flag ----

  /** The balance of an unscoped caller in whole cents. */
  function CentBalance(r: Request, deposits: seq<Deposit>, year: int): int
    decreases year - r.currentYear
  {
    if year < r.currentYear then PlanOf(r).initialReserve
    else CentBalance(r, deposits, year - 1) + Contribution(r, year) + DepositsIn(deposits, year) - PlannedCents(r, year)
  }

  lemma {:induction false} UnscopedBalanceIsWhole(r: Request, deposits: seq<Deposit>, year: int)
    requires r.allowed.None?
    ensures BalanceAt(r, deposits, year) == Chf(CentBalance(r, deposits, year))
    decreases year - r.currentYear
  {
    hide PlannedCents, DepositsIn, PlanOf, Scaled;
    if year >= r.currentYear {
      UnscopedBalanceIsWhole(r, deposits, year - 1);
      ScaledSum(DepositsIn(deposits, year), 0, 1.0);
    } else {
      ScaledSum(r.obj.initialReserve, 0, 1.0);
    }
  }

  /** For an unscoped caller nothing is lost: each row carries the unrounded balance, the rows satisfy
      the balance recurrence to the cent, and the flag says exactly that the shown balance is negative. */
  lemma UnscopedProjectionExact(r: Request, deposits: seq<Deposit>, year: int)
    requires r.allowed.None? && r.currentYear <= year <= r.HorizonEnd()
    ensures var row := RowFor(r, deposits, year);
      var opening := if year == r.currentYear then Quantise(Chf(r.obj.initialReserve))
                     else RowFor(r, deposits, year - 1).balance;
      && Chf(row.balance) == BalanceAt(r, deposits, year)
      && row.balance == opening + row.required + row.actual - row.planned
      && (row.isUnderfunded <==> row.balance < 0)
  {
    hide PlannedCents, DepositsIn;
    UnscopedBalanceIsWhole(r, deposits, year);
    UnscopedBalanceIsWhole(r, deposits, year - 1);
    QuantiseExact(CentBalance(r, deposits, year));
    QuantiseExact(CentBalance(r, deposits, year - 1));
    QuantiseExact(DepositsIn(deposits, year));
    assert Factor(r) == 1.0;
    ScaledSum(r.obj.initialReserve, 0, 1.0);
    ScaledSum(DepositsIn(deposits, year), 0, 1.0);
  }

  /** The permille of the object that the caller sees. */
  function ScopePermille(r: Request): int {
    if r.allowed.None? then 1000 else ScopeShare(WertquotenSplit(r.obj.units), r.allowed.value)
  }

  /** The shown balance movements up to `year` in cents, the recorded deposits apart. */
  function WholeCents(r: Request, year: int): int {
    PlanOf(r).initialReserve + (year - r.currentYear) * PlanOf(r).requiredPerYear
    - PlannedCents(r, r.currentYear) - FutureTotal(r, year)
  }

  /** The balance in thousandths of a cent, a whole number: shown figures and deposits as recorded. */
  function MilliCents(r: Request, deposits: seq<Deposit>, year: int): int {
    1000 * WholeCents(r, year) + DepositsBetween(deposits, r.currentYear, year) * ScopePermille(r)
  }

  lemma MilliCentScale(whole: int, deposits: int, permille: int)
    ensures Chf(whole) + Scaled(deposits, permille as real / 1000.0) == (1000 * whole + deposits * permille) as real / 100000.0
  {
    var d, p := deposits as real, permille as real;
    assert (deposits * permille) as real == d * p;
    assert d / 100.0 * (p / 1000.0) == d * p / 100000.0;
  }

  lemma BalanceInMilliCents(r: Request, deposits: seq<Deposit>, year: int)
    requires year >= r.currentYear
    ensures BalanceAt(r, deposits, year) == MilliCents(r, deposits, year) as real / 100000.0
  {
    BalanceClosedForm(r, deposits, year);
    assert Factor(r) == ScopePermille(r) as real / 1000.0;
    hide BalanceAt, PlanOf, PlannedCents, FutureTotal, DepositsBetween, Factor, ScopePermille, Scaled, Chf;
    MilliCentScale(WholeCents(r, year), DepositsBetween(deposits, r.currentYear, year), ScopePermille(r));
  }

  /** For every caller a shown negative balance is flagged. Flag and shown balance disagree exactly when the
      whole-cent movements and the deposits, taken at the caller's permille, leave less than half a cent missing. */
  lemma UnderfundedFlag(r: Request, deposits: seq<Deposit>, year: int)
    requires year >= r.currentYear
    ensures var row := RowFor(r, deposits, year);
      && (row.balance < 0 ==> row.isUnderfunded)
      && ((row.isUnderfunded <==> row.balance < 0)
          <==> !(-500 < 1000 * WholeCents(r, year)
                        + DepositsBetween(deposits, r.currentYear, year) * ScopePermille(r) < 0))
  {
    hide BalanceAt, WholeCents, DepositsBetween, ScopePermille, PlannedCents, PlanOf, Quantise;
    QuantiseSign(BalanceAt(r, deposits, year));
    BalanceInMilliCents(r, deposits, year);
  }

  /** So they agree whenever the caller's part of the deposits is a whole number of cents: for unscoped callers,
      and without any deposit, always. */
  lemma FlagAgreesOnWholeCents(r: Request, deposits: seq<Deposit>, year: int)
    requires year >= r.currentYear
    requires DepositsBetween(deposits, r.currentYear, year) * ScopePermille(r) % 1000 == 0
    ensures RowFor(r, deposits, year).isUnderfunded <==> RowFor(r, deposits, year).balance < 0
  {
    hide WholeCents, DepositsBetween, ScopePermille, RowFor;
    UnderfundedFlag(r, deposits, year);
    var part := DepositsBetween(deposits, r.currentYear, year) * ScopePermille(r);
    assert part == 1000 * (part / 1000);
  }

  /** An object with one planned centime, borne by a unit of 999 permille. */
  function CentimeRequest(): Request {
    Request(
      ObjectRow(0.0, 1, 0, [Unit(0, 1), Unit(1, 999)]),
      [CostItem(0, None, None, [], [Allocation(1, 1000)], UnitScope, Planned, Med, Some(2026), Some(1), None, None)],
      Some({1}),
      2026)
  }

  lemma CentimePlanned()
    ensures PlannedCents(CentimeRequest(), 2026) == 1
  {
    var r := CentimeRequest();
    var item, v := r.items[0], r.View();
    ScopeShareLast(item.allocations, {1});
    assert item.allocations[..0] == [] && r.items[..0] == [];
    assert PlannedEntry(item, v).inflated == 0.01;
    assert Entries(r.items, v) == [] + ([PlannedEntry(item, v)] + []);
    RowSumAppend([], PlannedEntry(item, v), 2026, InflatedSum);
    assert [] + [PlannedEntry(item, v)] == Entries(r.items, v);
    QuantiseExact(1);
  }

  lemma CentimeFactor()
    ensures Factor(CentimeRequest()) == 0.999
  {
    var split := WertquotenSplit(CentimeRequest().obj.units);
    ScopeShareLast(split, {1});
    ScopeShareLast(split[..1], {1});
    assert split[..1][..0] == [];
  }

  /** The scoped owner of that unit, whose share of a deposit of one centime is 0.999 of a centime: the
      year is flagged as underfunded although the balance and the shortfall shown are both 0.00. */
  lemma FlaggedZeroBalanceWitness()
    ensures var r, deposits := CentimeRequest(), [Deposit(2026, 1)];
      && CheckedRequest(r)
      && RowFor(r, deposits, 2026).isUnderfunded && RowFor(r, deposits, 2026).balance == 0
      && UnderfundedTo(r, deposits, 2026) == [UnderfundingYear(2026, 0)]
  {
    var r, deposits := CentimeRequest(), [Deposit(2026, 1)];
    CentimePlanned();
    CentimeFactor();
    assert deposits[..0] == [];
    assert ActualDeposits(r, deposits, 2026) == 0.00999;
    QuantiseExact(0);
    assert BalanceAt(r, deposits, 2025) == 0.0;
    assert BalanceAt(r, deposits, 2026) == -0.00001;
    QuantiseUnique(-0.00001, 0);
    QuantiseUnique(0.00001, 0);
    assert UnderfundedTo(r, deposits, 2025) == [];
  }

  // ---- The underfunding list ----

  predicate InRed(r: Request, deposits: seq<Deposit>, year: int, last: int) {
    r.currentYear <= year <= last && BalanceAt(r, deposits, year) < 0.0
  }

  predicate IsRedEntry(r: Request, deposits: seq<Deposit>, e: UnderfundingYear, last: int) {
    InRed(r, deposits, e.year, last) && e.shortfall == Quantise(-BalanceAt(r, deposits, e.year))
  }

  predicate Ascending(list: seq<UnderfundingYear>) {
    forall i, j :: 0 <= i < j < |list| ==> list[i].year < list[j].year
  }

  ghost predicate CoversTheRed(r: Request, deposits: seq<Deposit>, list: seq<UnderfundingYear>, last: int) {
    forall y :: InRed(r, deposits, y, last) ==> Listed(list, y)
  }

  /** Ascending, and exactly the years with a negative balance, each with its shortfall. */
  ghost predicate ListsTheRed(r: Request, deposits: seq<Deposit>, list: seq<UnderfundingYear>, last: int) {
    && Ascending(list)
    && (forall i :: 0 <= i < |list| ==> IsRedEntry(r, deposits, list[i], last))
    && CoversTheRed(r, deposits, list, last)
  }

  lemma CoverStep(
    r: Request, deposits: seq<Deposit>, before: seq<UnderfundingYear>, more: seq<UnderfundingYear>, last: int)
    requires last >= r.currentYear && CoversTheRed(r, deposits, before, last - 1)
    requires InRed(r, deposits, last, last) ==> |more| == 1 && more[0].year == last
    ensures CoversTheRed(r, deposits, before + more, last)
  {
    hide BalanceAt;
    forall y | InRed(r, deposits, y, last)
      ensures Listed(before + more, y)
    {
      if y == last {
        assert (before + more)[|before|].year == y;
      } else {
        assert InRed(r, deposits, y, last - 1);
        var i :| 0 <= i < |before| && before[i].year == y;
        assert (before + more)[i].year == y;
      }
    }
  }

  lemma ListStep(r: Request, deposits: seq<Deposit>, before: seq<UnderfundingYear>, more: seq<UnderfundingYear>, last: int)
    requires last >= r.currentYear && ListsTheRed(r, deposits, before, last - 1)
    requires more == if BalanceAt(r, deposits, last) < 0.0
      then [UnderfundingYear(last, Quantise(-BalanceAt(r, deposits, last)))] else []
    ensures ListsTheRed(r, deposits, before + more, last)
  {
    hide BalanceAt, Quantise, CoversTheRed;
    CoverStep(r, deposits, before, more, last);
    forall i | 0 <= i < |before|
      ensures IsRedEntry(r, deposits, before[i], last) && before[i].year < last
    {
      assert IsRedEntry(r, deposits, before[i], last - 1);
    }
  }

  lemma {:induction false} UnderfundingListExact(r: Request, deposits: seq<Deposit>, last: int)
    ensures ListsTheRed(r, deposits, UnderfundedTo(r, deposits, last), last)
    decreases last - r.currentYear
  {
    hide BalanceAt, Quantise;
    if last >= r.currentYear {
      hide ListsTheRed;
      UnderfundingListExact(r, deposits, last - 1);
      var before := UnderfundedTo(r, deposits, last - 1);
      var more := if BalanceAt(r, deposits, last) < 0.0
        then [UnderfundingYear(last, Quantise(-BalanceAt(r, deposits, last)))] else [];
      ListStep(r, deposits, before, more, last);
      assert before + [] == before;
    }
  }

  predicate Listed(list: seq<UnderfundingYear>, year: int) {
    exists i :: 0 <= i < |list| && list[i].year == year
  }

  // ---- One more deposit ----

  lemma {:induction false} DepositsInsert(front: seq<Deposit>, d: Deposit, back: seq<Deposit>, year: int)
    ensures DepositsIn(front + [d] + back, year) == DepositsIn(front + back, year) + if d.year == year then d.amount else 0
    decreases |back|
  {
    if back == [] {
      assert (front + [d] + back)[..|front|] == front && front + back == front;
    } else {
      var b := back[..|back| - 1];
      DepositsInsert(front, d, b, year);
      assert (front + [d] + back)[..|front + [d] + back| - 1] == front + [d] + b;
      assert (front + back)[..|front + back| - 1] == front + b;
    }
  }

  /** A further deposit, recorded anywhere in the list, leaves the balances before its year alone and
      raises every later one by exactly its pro-rated amount. */
  lemma {:induction false} DepositShiftsBalances(r: Request, front: seq<Deposit>, d: Deposit, back: seq<Deposit>, year: int)
    requires d.year >= r.currentYear
    ensures BalanceAt(r, front + [d] + back, year)
         == BalanceAt(r, front + back, year) + if d.year <= year then Scaled(d.amount, Factor(r)) else 0.0
    decreases year - r.currentYear
  {
    hide PlannedCents, PlanOf, DepositsIn, Factor, Scaled;
    if year >= r.currentYear {
      DepositShiftsBalances(r, front, d, back, year - 1);
      DepositsInsert(front, d, back, year);
      if d.year == year {
        ScaledSum(DepositsIn(front + back, year), d.amount, Factor(r));
      }
    }
  }

  lemma FactorIsNonNegative(r: Request)
    requires forall i :: 0 <= i < |r.obj.units| ==> r.obj.units[i].wertquote >= 0
    ensures Factor(r) >= 0.0
  {
    if r.allowed.Some? {
      ScopeShareBounds(WertquotenSplit(r.obj.units), r.allowed.value);
    }
  }

  /** Hence a deposit can only shrink the underfunding list, entry by entry. */
  lemma DepositShrinksUnderfunding(r: Request, front: seq<Deposit>, d: Deposit, back: seq<Deposit>, last: int, i: nat)
    requires d.year >= r.currentYear && d.amount >= 0
    requires forall j :: 0 <= j < |r.obj.units| ==> r.obj.units[j].wertquote >= 0
    requires i < |UnderfundedTo(r, front + [d] + back, last)|
    ensures var now, was := UnderfundedTo(r, front + [d] + back, last), UnderfundedTo(r, front + back, last);
      exists k :: 0 <= k < |was| && was[k].year == now[i].year && now[i].shortfall <= was[k].shortfall
  {
    hide BalanceAt, Quantise;
    var now, was := UnderfundedTo(r, front + [d] + back, last), UnderfundedTo(r, front + back, last);
    var y := now[i].year;
    UnderfundingListExact(r, front + [d] + back, last);
    UnderfundingListExact(r, front + back, last);
    DepositShiftsBalances(r, front, d, back, y);
    FactorIsNonNegative(r);
    assert Scaled(d.amount, Factor(r)) >= 0.0;
    assert IsRedEntry(r, front + [d] + back, now[i], last);
    assert InRed(r, front + back, y, last) && Listed(was, y);
    var k :| 0 <= k < |was| && was[k].year == y;
    assert IsRedEntry(r, front + back, was[k], last);
    QuantiseMonotone(-BalanceAt(r, front + [d] + back, y), -BalanceAt(r, front + back, y));
  }
}
