/** The yearly timeline: a loop over cost items that posts unrounded amounts to one
    accumulator per year, rounded once when the rows are materialised. */
module Budgets {
  import opened Domain
  import opened Ledger
  import opened Money
  import opened Sums

  datatype ObjectRow = ObjectRow(inflationRate: real, horizon: nat, initialReserve: int, units: seq<Unit>)

  /** What a timeline depends on besides the items. `allowed` is None for unscoped callers. */
  datatype View = View(allowed: Option<set<UnitId>>, rate: real, currentYear: int, horizonEnd: int)

  const UNCATEGORISED := "_uncat"

  function Upper(c: char): char {
    if 'a' <= c <= 'z' then c - 32 as char else c
  }

  function TopGroup(code: Option<string>): string {
    if code.None? then UNCATEGORISED
    else if code.value == "" then ""
    else [Upper(code.value[0])]
  }

  function ScopeFactor(item: CostItem, allowed: Option<set<UnitId>>): real {
    if allowed.None? then 1.0 else ScopeShare(item.allocations, allowed.value) as real / 1000.0
  }

  method ComputeScopeFactor(item: CostItem, allowed: Option<set<UnitId>>) returns (factor: real)
    ensures factor == ScopeFactor(item, allowed)
  {
    if allowed.None? {
      return 1.0;
    }
    var share := 0;
    for i := 0 to |item.allocations|
      invariant share == ScopeShare(item.allocations[..i], allowed.value)
    {
      var a := item.allocations[i];
      ScopeShareLast(item.allocations[..i + 1], allowed.value);
      assert item.allocations[..i + 1][..i] == item.allocations[..i];
      if a.unit in allowed.value {
        share := share + a.share;
      }
    }
    assert item.allocations[..|item.allocations|] == item.allocations;
    factor := share as real / 1000.0;
  }

  function Pow(base: real, n: nat): real {
    if n == 0 then 1.0 else base * Pow(base, n - 1)
  }

  function InflationFactor(ratePercent: real, years: int): real {
    if years <= 0 || ratePercent == 0.0 then 1.0 else Pow(1.0 + ratePercent / 100.0, years)
  }

  predicate CountsAsPlanned(item: CostItem) {
    && item.plannedAmount.Some?
    && item.plannedYear.Some?
    && item.status in {Idea, Planned, InProgress}
  }

  predicate CountsAsActual(item: CostItem) {
    item.actualAmount.Some? && item.actualYear.Some?
  }

  /** One amount posted to one year. For the actual column `inflated` is unused. */
  datatype Entry = Entry(item: CostItem, year: int, column: Column, amount: real, inflated: real)

  function PlannedEntry(item: CostItem, v: View): Entry
    requires CountsAsPlanned(item)
  {
    var planned := Chf(item.plannedAmount.value) * ScopeFactor(item, v.allowed);
    Entry(item, item.plannedYear.value, PlannedCol, planned,
          planned * InflationFactor(v.rate, item.plannedYear.value - v.currentYear))
  }

  function ActualEntry(item: CostItem, v: View): Entry
    requires CountsAsActual(item)
  {
    Entry(item, item.actualYear.value, ActualCol, Chf(item.actualAmount.value) * ScopeFactor(item, v.allowed), 0.0)
  }

  /** The item is planned after the horizon: the loop then leaves it altogether, its actual amount included. */
  predicate PlannedBeyond(item: CostItem, v: View) {
    CountsAsPlanned(item) && item.plannedYear.value > v.horizonEnd
  }

  predicate ShowsPlanned(item: CostItem, v: View) {
    CountsAsPlanned(item) && item.plannedYear.value <= v.horizonEnd
  }

  predicate ShowsActual(item: CostItem, v: View) {
    CountsAsActual(item) && item.actualYear.value <= v.horizonEnd && !PlannedBeyond(item, v)
  }

  /** What one item posts. */
  function ItemEntries(item: CostItem, v: View): seq<Entry> {
    if ScopeFactor(item, v.allowed) == 0.0 then []
    else
      (if ShowsPlanned(item, v) then [PlannedEntry(item, v)] else [])
      + (if ShowsActual(item, v) then [ActualEntry(item, v)] else [])
  }

  function Entries(items: seq<CostItem>, v: View): seq<Entry> {
    if items == [] then []
    else Entries(items[..|items| - 1], v) + ItemEntries(items[|items| - 1], v)
  }

  /** The three totals of a row. */
  datatype Figure = PlannedSum | InflatedSum | ActualSum

  function FigureOf(e: Entry, year: int, f: Figure): real {
    if e.year != year then 0.0
    else match f
      case PlannedSum => if e.column.PlannedCol? then e.amount else 0.0
      case InflatedSum => if e.column.PlannedCol? then e.inflated else 0.0
      case ActualSum => if e.column.ActualCol? then e.amount else 0.0
  }

  function RowSum(es: seq<Entry>, year: int, f: Figure): real {
    if es == [] then 0.0 else RowSum(es[..|es| - 1], year, f) + FigureOf(es[|es| - 1], year, f)
  }

  /** One posting per effective BKP share. */
  function BkpPostings(item: CostItem, amount: real, c: Column): seq<Posting<string>> {
    var shares := IterBkpShares(item);
    seq(|shares|, i requires 0 <= i < |shares| =>
      Posting(TopGroup(shares[i].0), c, Part(amount, shares[i].1, 1000.0)))
  }

  function UnitSplit(rows: seq<Allocation>, denominator: real, amount: real, c: Column): seq<Posting<UnitId>>
    requires denominator != 0.0
  {
    seq(|rows|, i requires 0 <= i < |rows| => Posting(rows[i].unit, c, Part(amount, rows[i].share, denominator)))
  }

  /** Unscoped callers split over all allocations by thousandths; scoped callers redistribute the
      amount, which already carries the factor, over the in-scope allocations. */
  function UnitPostings(item: CostItem, amount: real, allowed: Option<set<UnitId>>, c: Column): seq<Posting<UnitId>> {
    if allowed.None? then UnitSplit(item.allocations, 1000.0, amount, c)
    else if ScopeShare(item.allocations, allowed.value) == 0 then []
    else UnitSplit(InScope(item.allocations, allowed.value), ScopeShare(item.allocations, allowed.value) as real, amount, c)
  }

  function BkpPoster(): Entry -> seq<Posting<string>> {
    (e: Entry) => BkpPostings(e.item, e.amount, e.column)
  }

  function UnitPoster(allowed: Option<set<UnitId>>): Entry -> seq<Posting<UnitId>> {
    (e: Entry) => UnitPostings(e.item, e.amount, allowed, e.column)
  }

  function StatusPoster(): Entry -> seq<Posting<Status>> {
    (e: Entry) => [Posting(e.item.status, e.column, e.amount)]
  }

  function PriorityPoster(): Entry -> seq<Posting<Priority>> {
    (e: Entry) => [Posting(e.item.priority, e.column, e.amount)]
  }

  /** The postings of one year in one breakdown. */
  function YearLedger<K>(es: seq<Entry>, year: int, post: Entry -> seq<Posting<K>>): seq<Posting<K>> {
    if es == [] then []
    else
      var e := es[|es| - 1];
      YearLedger(es[..|es| - 1], year, post) + if e.year == year then post(e) else []
  }

  lemma EntryAppend<K>(es: seq<Entry>, e: Entry, year: int, post: Entry -> seq<Posting<K>>)
    ensures e.year == year ==>
      Buckets(YearLedger(es + [e], year, post)) == CreditAll(Buckets(YearLedger(es, year, post)), post(e))
    ensures e.year != year ==> YearLedger(es + [e], year, post) == YearLedger(es, year, post)
  {
    assert (es + [e])[..|es|] == es;
    if e.year == year {
      CreditAllConcat(map[], YearLedger(es, year, post), post(e));
    }
  }

  lemma RowSumAppend(es: seq<Entry>, e: Entry, year: int, f: Figure)
    ensures RowSum(es + [e], year, f) == RowSum(es, year, f) + FigureOf(e, year, f)
  {
    assert (es + [e])[..|es|] == es;
  }

  /** The unrounded contents of an accumulator, as a value. */
  datatype RowState = RowState(
    planned: real,
    plannedInflated: real,
    actual: real,
    byBkpGroup: map<string, Pair>,
    byUnit: map<UnitId, Pair>,
    byStatus: map<Status, Pair>,
    byPriority: map<Priority, Pair>)

  /** What the accumulator of `year` must contain after the entries `es`. */
  function StateOf(es: seq<Entry>, year: int, allowed: Option<set<UnitId>>): RowState {
    RowState(
      RowSum(es, year, PlannedSum),
      RowSum(es, year, InflatedSum),
      RowSum(es, year, ActualSum),
      Buckets(YearLedger(es, year, BkpPoster())),
      Buckets(YearLedger(es, year, UnitPoster(allowed))),
      Buckets(YearLedger(es, year, StatusPoster())),
      Buckets(YearLedger(es, year, PriorityPoster())))
  }

  /** What the statements for one entry do to the accumulator of its year. */
  function PostEntry(s: RowState, e: Entry, allowed: Option<set<UnitId>>): RowState {
    RowState(
      s.planned + FigureOf(e, e.year, PlannedSum),
      s.plannedInflated + FigureOf(e, e.year, InflatedSum),
      s.actual + FigureOf(e, e.year, ActualSum),
      CreditAll(s.byBkpGroup, BkpPostings(e.item, e.amount, e.column)),
      CreditAll(s.byUnit, UnitPostings(e.item, e.amount, allowed, e.column)),
      Credit(s.byStatus, Posting(e.item.status, e.column, e.amount)),
      Credit(s.byPriority, Posting(e.item.priority, e.column, e.amount)))
  }

  lemma CreditOne<K>(b: map<K, Pair>, p: Posting<K>)
    ensures CreditAll(b, [p]) == Credit(b, p)
  {
    CreditAllAppend(b, [], p);
    assert [] + [p] == [p];
  }

  /** Posting an entry moves the accumulator of its year, and no other, to the next specified state. */
  lemma PostEntryCorrect(es: seq<Entry>, e: Entry, year: int, allowed: Option<set<UnitId>>)
    ensures StateOf(es + [e], year, allowed)
         == if e.year == year then PostEntry(StateOf(es, year, allowed), e, allowed) else StateOf(es, year, allowed)
  {
    RowSumAppend(es, e, year, PlannedSum);
    RowSumAppend(es, e, year, InflatedSum);
    RowSumAppend(es, e, year, ActualSum);
    EntryAppend(es, e, year, BkpPoster());
    EntryAppend(es, e, year, UnitPoster(allowed));
    EntryAppend(es, e, year, StatusPoster());
    EntryAppend(es, e, year, PriorityPoster());
    if e.year == year {
      var s := StateOf(es, year, allowed);
      CreditOne(s.byStatus, Posting(e.item.status, e.column, e.amount));
      CreditOne(s.byPriority, Posting(e.item.priority, e.column, e.amount));
    }
  }

  datatype TimelineRow = TimelineRow(
    year: int,
    planned: int,
    plannedInflated: int,
    actual: int,
    byBkpGroup: map<string, CentPair>,
    byUnit: map<UnitId, CentPair>,
    byStatus: map<Status, CentPair>,
    byPriority: map<Priority, CentPair>)

  /** _materialise_row */
  function MaterialiseRow(year: int, s: RowState): TimelineRow {
    TimelineRow(year, Quantise(s.planned), Quantise(s.plannedInflated), Quantise(s.actual),
                QuantPairs(s.byBkpGroup), QuantPairs(s.byUnit), QuantPairs(s.byStatus), QuantPairs(s.byPriority))
  }

  /** The row of `year` as a function of the entries alone. */
  function RowOf(es: seq<Entry>, year: int, allowed: Option<set<UnitId>>): TimelineRow {
    MaterialiseRow(year, StateOf(es, year, allowed))
  }

  /** The mutable accumulator of one timeline year. */
  class RowAcc {
    var planned: real
    var plannedInflated: real
    var actual: real
    var byBkpGroup: map<string, Pair>
    var byUnit: map<UnitId, Pair>
    var byStatus: map<Status, Pair>
    var byPriority: map<Priority, Pair>

    ghost function State(): RowState
      reads this
    {
      RowState(planned, plannedInflated, actual, byBkpGroup, byUnit, byStatus, byPriority)
    }

    constructor ()
      ensures State() == RowState(0.0, 0.0, 0.0, map[], map[], map[], map[])
    {
      planned, plannedInflated, actual := 0.0, 0.0, 0.0;
      byBkpGroup, byUnit, byStatus, byPriority := map[], map[], map[], map[];
    }

    method SpreadByBkp(item: CostItem, amount: real, c: Column)
      modifies this`byBkpGroup
      ensures byBkpGroup == CreditAll(old(byBkpGroup), BkpPostings(item, amount, c))
    {
      var shares := IterBkpShares(item);
      ghost var before, ps := byBkpGroup, BkpPostings(item, amount, c);
      for i := 0 to |shares|
        invariant byBkpGroup == CreditAll(before, ps[..i])
      {
        var group := TopGroup(shares[i].0);
        var share := shares[i].1 as real / 1000.0;
        assert ps[i] == Posting(group, c, amount * share);
        assert ps[..i + 1] == ps[..i] + [ps[i]];
        CreditAllAppend(before, ps[..i], ps[i]);
        byBkpGroup := Credit(byBkpGroup, Posting(group, c, amount * share));
      }
      assert ps[..|shares|] == ps;
    }

    method CreditUnits(rows: seq<Allocation>, denominator: real, amount: real, c: Column)
      requires denominator != 0.0
      modifies this`byUnit
      ensures byUnit == CreditAll(old(byUnit), UnitSplit(rows, denominator, amount, c))
    {
      ghost var before, ps := byUnit, UnitSplit(rows, denominator, amount, c);
      for i := 0 to |rows|
        invariant byUnit == CreditAll(before, ps[..i])
      {
        var share := rows[i].share as real / denominator;
        assert ps[i] == Posting(rows[i].unit, c, amount * share);
        assert ps[..i + 1] == ps[..i] + [ps[i]];
        CreditAllAppend(before, ps[..i], ps[i]);
        byUnit := Credit(byUnit, Posting(rows[i].unit, c, amount * share));
      }
      assert ps[..|rows|] == ps;
    }

    method SpreadByUnit(item: CostItem, factor: real, amount: real, allowed: Option<set<UnitId>>, c: Column)
      requires factor == ScopeFactor(item, allowed)
      modifies this`byUnit
      ensures byUnit == CreditAll(old(byUnit), UnitPostings(item, amount, allowed, c))
    {
      if factor == 0.0 {
        return;
      }
      if allowed.None? {
        CreditUnits(item.allocations, 1000.0, amount, c);
        return;
      }
      var inScope := InScope(item.allocations, allowed.value);
      var totalPermille := 0;
      for i := 0 to |inScope|
        invariant byUnit == old(byUnit)
        invariant totalPermille == Sum(Shares(inScope[..i]))
      {
        totalPermille := totalPermille + inScope[i].share;
        assert inScope[..i + 1] == inScope[..i] + [inScope[i]];
        SharesAppend(inScope[..i], inScope[i]);
      }
      assert inScope[..|inScope|] == inScope;
      assert totalPermille == ScopeShare(item.allocations, allowed.value);
      if totalPermille == 0 {
        return;
      }
      CreditUnits(inScope, totalPermille as real, amount, c);
    }

    method AddBreakdownPlanned(item: CostItem, factor: real, planned: real, allowed: Option<set<UnitId>>)
      requires factor == ScopeFactor(item, allowed)
      modifies this`byBkpGroup, this`byUnit, this`byStatus, this`byPriority
      ensures byBkpGroup == CreditAll(old(byBkpGroup), BkpPostings(item, planned, PlannedCol))
      ensures byUnit == CreditAll(old(byUnit), UnitPostings(item, planned, allowed, PlannedCol))
      ensures byStatus == Credit(old(byStatus), Posting(item.status, PlannedCol, planned))
      ensures byPriority == Credit(old(byPriority), Posting(item.priority, PlannedCol, planned))
    {
      SpreadByBkp(item, planned, PlannedCol);
      byStatus := Credit(byStatus, Posting(item.status, PlannedCol, planned));
      byPriority := Credit(byPriority, Posting(item.priority, PlannedCol, planned));
      SpreadByUnit(item, factor, planned, allowed, PlannedCol);
    }

    method AddBreakdownActual(item: CostItem, factor: real, actual: real, allowed: Option<set<UnitId>>)
      requires factor == ScopeFactor(item, allowed)
      modifies this`byBkpGroup, this`byUnit, this`byStatus, this`byPriority
      ensures byBkpGroup == CreditAll(old(byBkpGroup), BkpPostings(item, actual, ActualCol))
      ensures byUnit == CreditAll(old(byUnit), UnitPostings(item, actual, allowed, ActualCol))
      ensures byStatus == Credit(old(byStatus), Posting(item.status, ActualCol, actual))
      ensures byPriority == Credit(old(byPriority), Posting(item.priority, ActualCol, actual))
    {
      SpreadByBkp(item, actual, ActualCol);
      byStatus := Credit(byStatus, Posting(item.status, ActualCol, actual));
      byPriority := Credit(byPriority, Posting(item.priority, ActualCol, actual));
      SpreadByUnit(item, factor, actual, allowed, ActualCol);
    }

    /** One half of a loop turn: the totals of the column, then its four breakdowns. */
    method Book(e: Entry, factor: real, allowed: Option<set<UnitId>>)
      requires factor == ScopeFactor(e.item, allowed)
      modifies this
      ensures State() == PostEntry(old(State()), e, allowed)
    {
      if e.column.PlannedCol? {
        planned := planned + e.amount;
        plannedInflated := plannedInflated + e.inflated;
        AddBreakdownPlanned(e.item, factor, e.amount, allowed);
      } else {
        actual := actual + e.amount;
        AddBreakdownActual(e.item, factor, e.amount, allowed);
      }
    }
  }

  function Min(a: int, b: int): int {
    if b < a then b else a
  }

  /** min([current_year, *planned_years, *actual_years]) */
  function Earliest(items: seq<CostItem>, currentYear: int): (year: int)
    ensures year <= currentYear
    ensures forall i :: 0 <= i < |items| ==>
      && (items[i].plannedYear.Some? ==> year <= items[i].plannedYear.value)
      && (items[i].actualYear.Some? ==> year <= items[i].actualYear.value)
  {
    if items == [] then currentYear
    else
      var front, item := items[..|items| - 1], items[|items| - 1];
      var y0 := Earliest(front, currentYear);
      assert forall i :: 0 <= i < |front| ==> front[i] == items[i];
      var y1 := if item.plannedYear.Some? then Min(y0, item.plannedYear.value) else y0;
      if item.actualYear.Some? then Min(y1, item.actualYear.value) else y1
  }

  datatype Timeline = Timeline(currentYear: int, horizonEnd: int, scopeProRated: bool, rows: seq<TimelineRow>)

  function ViewOf(obj: ObjectRow, allowed: Option<set<UnitId>>, inflated: bool, currentYear: int): View {
    View(allowed, if inflated then obj.inflationRate else 0.0, currentYear, currentYear + obj.horizon)
  }

  /** The rows of the window, first year first. */
  function TimelineRows(items: seq<CostItem>, v: View): (rows: seq<TimelineRow>)
    requires v.currentYear <= v.horizonEnd
    ensures |rows| == v.horizonEnd - Earliest(items, v.currentYear) + 1
    ensures forall i :: 0 <= i < |rows| ==>
      rows[i] == RowOf(Entries(items, v), Earliest(items, v.currentYear) + i, v.allowed)
  {
    var earliest := Earliest(items, v.currentYear);
    seq(v.horizonEnd - earliest + 1, i requires 0 <= i => RowOf(Entries(items, v), earliest + i, v.allowed))
  }

  ghost predicate AllHold(accs: map<int, RowAcc>, es: seq<Entry>, allowed: Option<set<UnitId>>)
    reads accs.Values
  {
    forall y :: y in accs ==> accs[y].State() == StateOf(es, y, allowed)
  }

  ghost predicate Distinct(accs: map<int, RowAcc>) {
    forall y, z :: y in accs && z in accs && y != z ==> accs[y] != accs[z]
  }

  method NewAccumulators(first: int, last: int, ghost allowed: Option<set<UnitId>>) returns (accs: map<int, RowAcc>)
    requires first <= last
    ensures forall y :: y in accs <==> first <= y <= last
    ensures forall y :: y in accs ==> fresh(accs[y])
    ensures Distinct(accs) && AllHold(accs, [], allowed)
  {
    accs := map[];
    for y := first to last + 1
      invariant forall z :: z in accs <==> first <= z < y
      invariant forall z :: z in accs ==> fresh(accs[z])
      invariant Distinct(accs) && AllHold(accs, [], allowed)
    {
      var acc := new RowAcc();
      accs := accs[y := acc];
    }
  }

  /** Posts one entry to the accumulator of its year; all the others stay as they are. */
  method Book(accs: map<int, RowAcc>, e: Entry, factor: real, allowed: Option<set<UnitId>>, ghost es: seq<Entry>)
    requires e.year in accs && Distinct(accs) && AllHold(accs, es, allowed)
    requires factor == ScopeFactor(e.item, allowed)
    modifies accs[e.year]
    ensures AllHold(accs, es + [e], allowed)
  {
    accs[e.year].Book(e, factor, allowed);
    forall y | y in accs
      ensures accs[y].State() == StateOf(es + [e], y, allowed)
    {
      PostEntryCorrect(es, e, y, allowed);
    }
  }

  /** One turn of the item loop. */
  method PostItem(accs: map<int, RowAcc>, item: CostItem, v: View, ghost es: seq<Entry>, ghost first: int)
    requires forall y :: y in accs <==> first <= y <= v.horizonEnd
    requires item.plannedYear.Some? ==> first <= item.plannedYear.value
    requires item.actualYear.Some? ==> first <= item.actualYear.value
    requires Distinct(accs) && AllHold(accs, es, v.allowed)
    modifies accs.Values
    ensures AllHold(accs, es + ItemEntries(item, v), v.allowed)
  {
    hide StateOf;
    var factor := ComputeScopeFactor(item, v.allowed);
    ghost var all := ItemEntries(item, v);
    if factor == 0.0 {
      assert es + all == es;
      return;
    }
    ghost var posted := es;
    if CountsAsPlanned(item) {
      var year := item.plannedYear.value;
      if year !in accs {
        assert es + all == es;
        return;
      }
      var planned := Chf(item.plannedAmount.value) * factor;
      var plannedInfl := planned * InflationFactor(v.rate, year - v.currentYear);
      var e := Entry(item, year, PlannedCol, planned, plannedInfl);
      Book(accs, e, factor, v.allowed, es);
      assert e == PlannedEntry(item, v);
      posted := es + [e];
    }
    if CountsAsActual(item) {
      var year := item.actualYear.value;
      if year !in accs {
        assert es + all == posted;
        return;
      }
      var actual := Chf(item.actualAmount.value) * factor;
      var e := Entry(item, year, ActualCol, actual, 0.0);
      Book(accs, e, factor, v.allowed, posted);
      assert e == ActualEntry(item, v);
      posted := posted + [e];
    }
    assert es + all == posted;
  }

  lemma EntriesAppend(items: seq<CostItem>, i: nat, v: View)
    requires i < |items|
    ensures Entries(items[..i + 1], v) == Entries(items[..i], v) + ItemEntries(items[i], v)
  {
    assert items[..i + 1][..i] == items[..i];
  }

  /** compute_timeline: the loop computes exactly the rows of the entries. */
  method ComputeTimeline(obj: ObjectRow, items: seq<CostItem>, allowed: Option<set<UnitId>>, inflated: bool, currentYear: int)
    returns (t: Timeline)
    ensures t.currentYear == currentYear && t.horizonEnd == currentYear + obj.horizon
    ensures t.scopeProRated <==> allowed.Some?
    ensures t.rows == TimelineRows(items, ViewOf(obj, allowed, inflated, currentYear))
  {
    hide StateOf, ItemEntries;
    var rate := if inflated then obj.inflationRate else 0.0;
    var horizonEnd := currentYear + obj.horizon;
    var earliest := Earliest(items, currentYear);
    ghost var v := ViewOf(obj, allowed, inflated, currentYear);
    var accs := NewAccumulators(earliest, horizonEnd, allowed);
    for i := 0 to |items|
      invariant forall y :: y in accs ==> fresh(accs[y])
      invariant AllHold(accs, Entries(items[..i], v), allowed)
    {
      EntriesAppend(items, i, v);
      var view := View(allowed, rate, currentYear, horizonEnd);
      assert view == v;
      PostItem(accs, items[i], view, Entries(items[..i], v), earliest);
      assert AllHold(accs, Entries(items[..i + 1], v), allowed);
    }
    assert items[..|items|] == items;
    var rows := [];
    for y := earliest to horizonEnd + 1
      invariant rows == TimelineRows(items, v)[..y - earliest]
      invariant AllHold(accs, Entries(items, v), allowed)
    {
      var acc := accs[y];
      var raw := RowState(acc.planned, acc.plannedInflated, acc.actual,
                          acc.byBkpGroup, acc.byUnit, acc.byStatus, acc.byPriority);
      rows := rows + [MaterialiseRow(y, raw)];
    }
    t := Timeline(currentYear, horizonEnd, allowed.Some?, rows);
  }
}
