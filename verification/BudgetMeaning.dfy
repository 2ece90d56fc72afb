/** What a returned timeline shows, in terms of the stored items alone. */
module BudgetMeaning {
  import opened BucketLaws
  import opened BudgetLaws
  import opened Budgets
  import opened Domain
  import opened Ledger
  import opened Money

  // ---- One item ----

  /** The part of an amount that the caller is shown. */
  function CallersPart(item: CostItem, cents: int, allowed: Option<set<UnitId>>): real {
    match allowed
    case None => Chf(cents)
    case Some(scope) => Part(Chf(cents), ScopeShare(item.allocations, scope), 1000.0)
  }

  /** An amount is still expected to be spent until the item is completed or cancelled. */
  predicate StillExpected(status: Status) {
    match status
    case Idea => true
    case Planned => true
    case InProgress => true
    case Completed => false
    case Cancelled => false
  }

  /** What the item is planned to cost in `year`, in the caller's part. */
  function DuePlanned(item: CostItem, allowed: Option<set<UnitId>>, year: int): real {
    match (item.plannedAmount, item.plannedYear)
    case (Some(cents), Some(y)) => if y == year && StillExpected(item.status) then CallersPart(item, cents, allowed) else 0.0
    case _ => 0.0
  }

  predicate DueBeyond(item: CostItem, horizonEnd: int) {
    match (item.plannedAmount, item.plannedYear)
    case (Some(_), Some(y)) => y > horizonEnd && StillExpected(item.status)
    case _ => false
  }

  /** What the item has cost in `year`, whatever its status, unless it is still due after the horizon. */
  function DueActual(item: CostItem, allowed: Option<set<UnitId>>, horizonEnd: int, year: int): real {
    match (item.actualAmount, item.actualYear)
    case (Some(cents), Some(y)) => if y == year && !DueBeyond(item, horizonEnd) then CallersPart(item, cents, allowed) else 0.0
    case _ => 0.0
  }

  lemma CallersPartByFactor(item: CostItem, cents: int, allowed: Option<set<UnitId>>)
    ensures CallersPart(item, cents, allowed) == Chf(cents) * ScopeFactor(item, allowed)
  {
  }

  /** Exactly ideas, planned and running items show a planned amount, in the planned year only. */
  lemma ItemPlanned(item: CostItem, v: View, year: int)
    requires year <= v.horizonEnd
    ensures RowSum(ItemEntries(item, v), year, PlannedSum) == DuePlanned(item, v.allowed, year)
  {
    hide CallersPart, ScopeFactor;
    ItemFigure(item, v, year, PlannedSum);
    if item.plannedAmount.Some? { CallersPartByFactor(item, item.plannedAmount.value, v.allowed); }
  }

  lemma ItemActual(item: CostItem, v: View, year: int)
    requires year <= v.horizonEnd
    ensures RowSum(ItemEntries(item, v), year, ActualSum) == DueActual(item, v.allowed, v.horizonEnd, year)
  {
    hide CallersPart, ScopeFactor;
    ItemFigure(item, v, year, ActualSum);
    if item.actualAmount.Some? { CallersPartByFactor(item, item.actualAmount.value, v.allowed); }
  }

  // ---- All items ----

  function PlannedDue(items: seq<CostItem>, allowed: Option<set<UnitId>>, year: int): real {
    if items == [] then 0.0
    else PlannedDue(items[..|items| - 1], allowed, year) + DuePlanned(items[|items| - 1], allowed, year)
  }

  function ActualDue(items: seq<CostItem>, allowed: Option<set<UnitId>>, horizonEnd: int, year: int): real {
    if items == [] then 0.0
    else ActualDue(items[..|items| - 1], allowed, horizonEnd, year) + DueActual(items[|items| - 1], allowed, horizonEnd, year)
  }

  /** The unrounded totals of a year are the items' amounts. */
  lemma {:induction false} RowMeaning(items: seq<CostItem>, v: View, year: int)
    requires year <= v.horizonEnd
    ensures RowSum(Entries(items, v), year, PlannedSum) == PlannedDue(items, v.allowed, year)
    ensures RowSum(Entries(items, v), year, ActualSum) == ActualDue(items, v.allowed, v.horizonEnd, year)
  {
    hide ItemEntries, DuePlanned, DueActual;
    if items != [] {
      var front, item := items[..|items| - 1], items[|items| - 1];
      RowMeaning(front, v, year);
      ItemPlanned(item, v, year);
      ItemActual(item, v, year);
      RowSumConcat(Entries(front, v), ItemEntries(item, v), year, PlannedSum);
      RowSumConcat(Entries(front, v), ItemEntries(item, v), year, ActualSum);
    }
  }

  /** Compounding adds up over the years and is a plain factor for one. */
  lemma {:induction false} Compounding(base: real, m: nat, n: nat)
    ensures Pow(base, m + n) == Pow(base, m) * Pow(base, n)
    ensures Pow(base, 1) == base
  {
    assert Pow(base, 1) == base * Pow(base, 0);
    if m > 0 {
      Compounding(base, m - 1, n);
      assert base * (Pow(base, m - 1) * Pow(base, n)) == base * Pow(base, m - 1) * Pow(base, n);
    }
  }

  /** The window that `ComputeTimeline` returns: it starts at the current year or at a year of some item, ends at the
      horizon, and has a row for every year between. */
  lemma WindowMeaning(obj: ObjectRow, items: seq<CostItem>, allowed: Option<set<UnitId>>, inflated: bool, currentYear: int)
    ensures var rows := TimelineRows(items, ViewOf(obj, allowed, inflated, currentYear));
      && rows != [] && rows[0].year <= currentYear
      && (rows[0].year == currentYear
          || exists k :: 0 <= k < |items| && (items[k].plannedYear == Some(rows[0].year) || items[k].actualYear == Some(rows[0].year)))
      && (forall i :: 0 <= i < |rows| ==> rows[i].year == rows[0].year + i)
      && rows[|rows| - 1].year == currentYear + obj.horizon
  {
    hide StateOf, Entries;
    EarliestAttained(items, currentYear);
  }

  /** What the row of a year shows: the rounded amounts of that year, planned ones also compounded from the current year
      on, which changes nothing without inflation. */
  lemma RowShows(items: seq<CostItem>, v: View, year: int)
    requires v.rate >= 0.0 && year <= v.horizonEnd
    requires forall k :: 0 <= k < |items| ==> SharesNonNegative(items[k]) && NonNegativeAmounts(items[k])
    ensures var row := RowOf(Entries(items, v), year, v.allowed);
      && row.planned == Quantise(PlannedDue(items, v.allowed, year))
      && row.plannedInflated
         == Quantise(Grown(PlannedDue(items, v.allowed, year), Pow(1.0 + v.rate / 100.0, MaxZero(year - v.currentYear))))
      && (v.rate == 0.0 ==> row.plannedInflated == row.planned)
      && row.actual == Quantise(ActualDue(items, v.allowed, v.horizonEnd, year))
  {
    hide RowSum, PlannedDue, ActualDue, StateOf, Quantise, Pow, Grown, Entries;
    StateFigures(Entries(items, v), year, v.allowed);
    RowMeaning(items, v, year);
    RowInflation(items, v, year);
    NoGrowth(PlannedDue(items, v.allowed, year), MaxZero(year - v.currentYear));
  }

  /** The same for the rows that `ComputeTimeline` returns. */
  lemma TimelineMeaning(obj: ObjectRow, items: seq<CostItem>, allowed: Option<set<UnitId>>, inflated: bool, currentYear: int, i: nat)
    requires obj.inflationRate >= 0.0
    requires forall k :: 0 <= k < |items| ==> SharesNonNegative(items[k]) && NonNegativeAmounts(items[k])
    requires i < |TimelineRows(items, ViewOf(obj, allowed, inflated, currentYear))|
    ensures var row, rate := TimelineRows(items, ViewOf(obj, allowed, inflated, currentYear))[i], if inflated then obj.inflationRate else 0.0;
      && row.planned == Quantise(PlannedDue(items, allowed, row.year))
      && row.plannedInflated
         == Quantise(Grown(PlannedDue(items, allowed, row.year), Pow(1.0 + rate / 100.0, MaxZero(row.year - currentYear))))
      && (!inflated ==> row.plannedInflated == row.planned)
      && row.actual == Quantise(ActualDue(items, allowed, currentYear + obj.horizon, row.year))
  {
    hide SharesNonNegative, NonNegativeAmounts, PlannedDue, ActualDue, Grown, Pow, MaxZero, Quantise, RowOf, Entries, Earliest;
    var v := ViewOf(obj, allowed, inflated, currentYear);
    var year := Earliest(items, currentYear) + i;
    RowShows(items, v, year);
    YearOfRow(Entries(items, v), year, allowed);
  }

  lemma YearOfRow(es: seq<Entry>, year: int, allowed: Option<set<UnitId>>)
    ensures RowOf(es, year, allowed).year == year
  {
  }

  lemma NoGrowth(x: real, years: nat)
    ensures Grown(x, Pow(1.0 + 0.0 / 100.0, years)) == x
  {
    PowOne(years);
  }

  lemma StateFigures(es: seq<Entry>, year: int, allowed: Option<set<UnitId>>)
    ensures var row := RowOf(es, year, allowed);
      && row.year == year
      && row.planned == Quantise(RowSum(es, year, PlannedSum))
      && row.plannedInflated == Quantise(RowSum(es, year, InflatedSum))
      && row.actual == Quantise(RowSum(es, year, ActualSum))
  {
  }

  lemma {:induction false} EarliestAttained(items: seq<CostItem>, currentYear: int)
    ensures var first := Earliest(items, currentYear);
      first == currentYear
      || exists k :: 0 <= k < |items| && (items[k].plannedYear == Some(first) || items[k].actualYear == Some(first))
  {
    if items != [] {
      var n, first := |items| - 1, Earliest(items, currentYear);
      EarliestAttained(items[..n], currentYear);
      if first != currentYear && items[n].plannedYear != Some(first) && items[n].actualYear != Some(first) {
        var k :| 0 <= k < n && (items[..n][k].plannedYear == Some(first) || items[..n][k].actualYear == Some(first));
        assert items[k] == items[..n][k];
      }
    }
  }

  // ---- Groups ----

  /** The group of a code is its first character, letters in upper case; the rest of the code plays no part, and no
      code falls into the group of uncategorised items. */
  lemma TopGroupMeaning(c: char, rest: string)
    ensures TopGroup(None) == "_uncat" && TopGroup(Some("")) == ""
    ensures TopGroup(Some([c] + rest)) == TopGroup(Some([c])) != TopGroup(None)
    ensures !('a' <= c <= 'z') ==> TopGroup(Some([c] + rest)) == [c]
    ensures 'A' <= c <= 'Z' ==> TopGroup(Some([c + 32 as char] + rest)) == [c]
  {
    assert |TopGroup(Some([c]))| == 1 && |TopGroup(None)| == 6;
  }

  function RowGroupShare(rows: seq<BkpAllocation>, g: string): int {
    if rows == [] then 0
    else
      var a := rows[|rows| - 1];
      RowGroupShare(rows[..|rows| - 1], g) + if TopGroup(Some(a.code)) == g then a.share else 0
  }

  /** An item's share of a group: what its rows say, else everything for its single code's group, else everything
      for the uncategorised group. */
  function ItemGroupShare(item: CostItem, g: string): int {
    if item.bkpAllocations != [] then RowGroupShare(item.bkpAllocations, g)
    else if item.bkpCode.GetOr("") != "" then (if g == TopGroup(item.bkpCode) then 1000 else 0)
    else if g == "_uncat" then 1000 else 0
  }

  lemma GroupShareMeaning(item: CostItem, g: string)
    ensures GroupShare(item, g, |IterBkpShares(item)|) == ItemGroupShare(item, g)
  {
    if item.bkpAllocations != [] {
      SplitGroupShare(item, g, |item.bkpAllocations|);
      assert item.bkpAllocations[..|item.bkpAllocations|] == item.bkpAllocations;
    } else {
      assert GroupShare(item, g, 0) == 0;
    }
  }

  lemma {:induction false} SplitGroupShare(item: CostItem, g: string, n: nat)
    requires item.bkpAllocations != [] && n <= |item.bkpAllocations|
    ensures |IterBkpShares(item)| == |item.bkpAllocations|
    ensures GroupShare(item, g, n) == RowGroupShare(item.bkpAllocations[..n], g)
  {
    hide TopGroup;
    if n > 0 {
      SplitGroupShare(item, g, n - 1);
      assert item.bkpAllocations[..n][..n - 1] == item.bkpAllocations[..n - 1];
    }
  }

  // ---- Returned buckets ----

  /** The total of the items that `keep` selects, as a caller sees it, rounded. */
  function SelectedCents(items: seq<CostItem>, v: View, year: int, keep: CostItem -> bool): CentPair {
    CentPair(Quantise(PlannedDue(Select(items, keep), v.allowed, year)),
             Quantise(ActualDue(Select(items, keep), v.allowed, v.horizonEnd, year)))
  }

  /** Each returned status or priority bucket is the rounded total of the items with that key, and each unit bucket
      of an unscoped caller is the rounded total that a caller of that unit alone is shown. */
  lemma ReturnedBuckets(items: seq<CostItem>, v: View, year: int)
    requires year <= v.horizonEnd
    ensures var row := RowOf(Entries(items, v), year, v.allowed);
      && (forall s :: s in row.byStatus ==> row.byStatus[s] == SelectedCents(items, v, year, (i: CostItem) => i.status == s))
      && (forall p :: p in row.byPriority ==> row.byPriority[p] == SelectedCents(items, v, year, (i: CostItem) => i.priority == p))
      && (v.allowed.None? ==> forall u :: u in row.byUnit ==>
           row.byUnit[u] == CentPair(Quantise(PlannedDue(items, Some({u}), year)),
                                     Quantise(ActualDue(items, Some({u}), v.horizonEnd, year))))
  {
    hide RowSum, PlannedDue, ActualDue, Quantise, Select, Entries;
    var state, row := StateOf(Entries(items, v), year, v.allowed), RowOf(Entries(items, v), year, v.allowed);
    forall s | s in row.byStatus
      ensures row.byStatus[s] == SelectedCents(items, v, year, (i: CostItem) => i.status == s)
    {
      StatusBucketMeaning(items, v, year, s, PlannedCol);
      StatusBucketMeaning(items, v, year, s, ActualCol);
      RowMeaning(Select(items, (i: CostItem) => i.status == s), v, year);
      BucketCents(state.byStatus, s);
    }
    forall p | p in row.byPriority
      ensures row.byPriority[p] == SelectedCents(items, v, year, (i: CostItem) => i.priority == p)
    {
      PriorityBucketMeaning(items, v, year, p, PlannedCol);
      PriorityBucketMeaning(items, v, year, p, ActualCol);
      RowMeaning(Select(items, (i: CostItem) => i.priority == p), v, year);
      BucketCents(state.byPriority, p);
    }
    if v.allowed.None? {
      forall u | u in row.byUnit
        ensures row.byUnit[u] == CentPair(Quantise(PlannedDue(items, Some({u}), year)),
                                          Quantise(ActualDue(items, Some({u}), v.horizonEnd, year)))
      {
        UnitBucketMeaning(items, v, year, u, PlannedCol);
        UnitBucketMeaning(items, v, year, u, ActualCol);
        RowMeaning(items, ScopedTo(v, {u}), year);
        BucketCents(state.byUnit, u);
      }
    }
  }

  lemma BucketCents<K>(b: map<K, Pair>, k: K)
    requires k in b
    ensures QuantPairs(b)[k] == CentPair(Quantise(Lookup(b, k).planned), Quantise(Lookup(b, k).actual))
  {
    QuantiseUnique(b[k].planned, QuantPairs(b)[k].planned);
    QuantiseUnique(b[k].actual, QuantPairs(b)[k].actual);
  }

  /** What the items put into a group in `year`. */
  function GroupDue(items: seq<CostItem>, v: View, year: int, g: string, c: Column): real {
    if items == [] then 0.0
    else
      var item := items[|items| - 1];
      var due := if c.PlannedCol? then DuePlanned(item, v.allowed, year) else DueActual(item, v.allowed, v.horizonEnd, year);
      GroupDue(items[..|items| - 1], v, year, g, c) + Part(due, ItemGroupShare(item, g), 1000.0)
  }

  lemma {:induction false} GroupTotalMeaning(items: seq<CostItem>, v: View, year: int, g: string, c: Column)
    requires year <= v.horizonEnd
    ensures GroupTotal(items, v, year, g, c) == GroupDue(items, v, year, g, c)
  {
    hide Part, DuePlanned, DueActual, ItemGroupShare, GroupShare, ItemEntries, RowSum, IterBkpShares;
    if items != [] {
      var item := items[|items| - 1];
      GroupTotalMeaning(items[..|items| - 1], v, year, g, c);
      ItemPlanned(item, v, year);
      ItemActual(item, v, year);
      GroupShareMeaning(item, g);
    }
  }

  /** Each returned group bucket is the rounded sum of the items' shares of that group. */
  lemma ReturnedGroups(items: seq<CostItem>, v: View, year: int, g: string)
    requires year <= v.horizonEnd && g in RowOf(Entries(items, v), year, v.allowed).byBkpGroup
    ensures RowOf(Entries(items, v), year, v.allowed).byBkpGroup[g]
         == CentPair(Quantise(GroupDue(items, v, year, g, PlannedCol)), Quantise(GroupDue(items, v, year, g, ActualCol)))
  {
    hide RowSum, GroupDue, GroupTotal, Quantise, Entries;
    var state := StateOf(Entries(items, v), year, v.allowed);
    GroupBucketMeaning(items, v, year, g, PlannedCol);
    GroupBucketMeaning(items, v, year, g, ActualCol);
    GroupTotalMeaning(items, v, year, g, PlannedCol);
    GroupTotalMeaning(items, v, year, g, ActualCol);
    BucketCents(state.byBkpGroup, g);
  }

  // ---- Which buckets there are ----

  /** The item puts something on the row of `year` that the caller is shown. */
  predicate ShownIn(item: CostItem, v: View, year: int) {
    && (v.allowed.Some? ==> ScopeShare(item.allocations, v.allowed.value) != 0)
    && (|| (item.plannedAmount.Some? && item.plannedYear == Some(year) && StillExpected(item.status))
        || (item.actualAmount.Some? && item.actualYear == Some(year) && !DueBeyond(item, v.horizonEnd)))
  }

  predicate HasYear(es: seq<Entry>, year: int) {
    exists k :: 0 <= k < |es| && es[k].year == year
  }

  lemma EntryYears(item: CostItem, v: View, year: int)
    requires year <= v.horizonEnd
    ensures HasYear(ItemEntries(item, v), year) <==> ShownIn(item, v, year)
  {
    hide ScopeShare;
    var ps := if ShowsPlanned(item, v) then [PlannedEntry(item, v)] else [];
    var acts := if ShowsActual(item, v) then [ActualEntry(item, v)] else [];
    var all := ps + acts;
    assert ShowsPlanned(item, v) ==> all[0].year == item.plannedYear.value;
    assert ShowsActual(item, v) ==> all[|ps|].year == item.actualYear.value;
  }

  lemma PostedConcat<K>(ps: seq<Posting<K>>, qs: seq<Posting<K>>, k: K)
    ensures Posted(ps + qs, k) <==> Posted(ps, k) || Posted(qs, k)
  {
    if Posted(ps + qs, k) {
      var i :| 0 <= i < |ps + qs| && (ps + qs)[i].key == k;
      assert if i < |ps| then ps[i].key == k else qs[i - |ps|].key == k;
    }
    if Posted(ps, k) {
      var i :| 0 <= i < |ps| && ps[i].key == k;
      assert (ps + qs)[i].key == k;
    }
    if Posted(qs, k) {
      var i :| 0 <= i < |qs| && qs[i].key == k;
      assert (ps + qs)[|ps| + i].key == k;
    }
  }

  /** `post` posts to `k` for exactly the items that have it. */
  ghost predicate PostsFor<K(!new)>(post: Entry -> seq<Posting<K>>, k: K, has: CostItem -> bool) {
    forall e: Entry :: Posted(post(e), k) <==> has(e.item)
  }

  lemma {:induction false} ItemPosts<K(!new)>(
    es: seq<Entry>, item: CostItem, year: int, post: Entry -> seq<Posting<K>>, k: K, has: CostItem -> bool)
    requires PostsFor(post, k, has) && forall i :: 0 <= i < |es| ==> es[i].item == item
    ensures Posted(YearLedger(es, year, post), k) <==> HasYear(es, year) && has(item)
  {
    if es != [] {
      var n := |es| - 1;
      ItemPosts(es[..n], item, year, post, k, has);
      PostedConcat(YearLedger(es[..n], year, post), if es[n].year == year then post(es[n]) else [], k);
      assert es[n].item == item;
      assert HasYear(es, year) <==> HasYear(es[..n], year) || es[n].year == year by {
        if HasYear(es, year) {
          var j :| 0 <= j < |es| && es[j].year == year;
          assert j < n ==> es[..n][j].year == year;
        }
        if HasYear(es[..n], year) {
          var j :| 0 <= j < n && es[..n][j].year == year;
          assert es[j].year == year;
        }
      }
    }
  }

  /** Some shown item has it. */
  ghost predicate SomeShown(items: seq<CostItem>, v: View, year: int, has: CostItem -> bool) {
    exists i :: 0 <= i < |items| && ShownIn(items[i], v, year) && has(items[i])
  }

  lemma SomeShownStep(items: seq<CostItem>, v: View, year: int, has: CostItem -> bool)
    requires items != []
    ensures SomeShown(items, v, year, has)
       <==> || SomeShown(items[..|items| - 1], v, year, has)
            || (ShownIn(items[|items| - 1], v, year) && has(items[|items| - 1]))
  {
    hide ShownIn;
    var front := items[..|items| - 1];
    if SomeShown(items, v, year, has) {
      var i :| 0 <= i < |items| && ShownIn(items[i], v, year) && has(items[i]);
      assert i < |front| ==> front[i] == items[i];
    }
    if SomeShown(front, v, year, has) {
      var i :| 0 <= i < |front| && ShownIn(front[i], v, year) && has(front[i]);
      assert items[i] == front[i];
    }
  }

  lemma {:induction false} KeysShown<K(!new)>(
    items: seq<CostItem>, v: View, year: int, post: Entry -> seq<Posting<K>>, k: K, has: CostItem -> bool)
    requires year <= v.horizonEnd && PostsFor(post, k, has)
    ensures Posted(YearLedger(Entries(items, v), year, post), k) <==> SomeShown(items, v, year, has)
  {
    hide PostsFor, ShownIn, ItemEntries;
    if items != [] {
      var front, item := items[..|items| - 1], items[|items| - 1];
      KeysShown(front, v, year, post, k, has);
      EntriesOfItem(item, v);
      ItemPosts(ItemEntries(item, v), item, year, post, k, has);
      EntryYears(item, v, year);
      YearLedgerConcat(Entries(front, v), ItemEntries(item, v), year, post);
      PostedConcat(YearLedger(Entries(front, v), year, post), YearLedger(ItemEntries(item, v), year, post), k);
      SomeShownStep(items, v, year, has);
      hide *;
    }
  }

  lemma OneKey<K(!new)>(post: Entry -> seq<Posting<K>>, k: K, has: CostItem -> bool)
    requires forall e: Entry :: |post(e)| == 1 && (post(e)[0].key == k <==> has(e.item))
    ensures PostsFor(post, k, has)
  {
  }

  predicate AllocatesIn(rows: seq<Allocation>, u: UnitId) {
    exists k :: 0 <= k < |rows| && rows[k].unit == u
  }

  /** The item is allocated to the unit, and the caller may see that. */
  predicate ShowsUnit(item: CostItem, allowed: Option<set<UnitId>>, u: UnitId) {
    (allowed.None? || u in allowed.value) && AllocatesIn(item.allocations, u)
  }

  lemma AllocatesAppend(rows: seq<Allocation>, a: Allocation, u: UnitId)
    ensures AllocatesIn(rows + [a], u) <==> AllocatesIn(rows, u) || a.unit == u
  {
    assert (rows + [a])[|rows|] == a;
    if AllocatesIn(rows, u) {
      var k :| 0 <= k < |rows| && rows[k].unit == u;
      assert (rows + [a])[k] == rows[k];
    }
  }

  lemma {:induction false} InScopeUnits(rows: seq<Allocation>, scope: set<UnitId>, u: UnitId)
    ensures AllocatesIn(InScope(rows, scope), u) <==> u in scope && AllocatesIn(rows, u)
  {
    hide AllocatesIn;
    if rows != [] {
      var n := |rows| - 1;
      InScopeUnits(rows[..n], scope, u);
      AllocatesAppend(rows[..n], rows[n], u);
      AllocatesAppend(InScope(rows[..n], scope), rows[n], u);
      assert rows == rows[..n] + [rows[n]];
    } else {
      NothingAllocated(u);
    }
  }

  lemma NothingAllocated(u: UnitId)
    ensures !AllocatesIn([], u)
  {
  }

  predicate InSight(item: CostItem, allowed: Option<set<UnitId>>) {
    allowed.Some? ==> ScopeShare(item.allocations, allowed.value) != 0
  }

  lemma SplitKeys(rows: seq<Allocation>, d: real, amount: real, c: Column, u: UnitId)
    requires d != 0.0
    ensures Posted(UnitSplit(rows, d, amount, c), u) <==> AllocatesIn(rows, u)
  {
    hide Part;
    var ps := UnitSplit(rows, d, amount, c);
    assert |ps| == |rows| && forall k :: 0 <= k < |rows| ==> ps[k].key == rows[k].unit;
  }

  lemma UnitKeys(allowed: Option<set<UnitId>>, u: UnitId)
    ensures PostsFor(UnitPoster(allowed), u, (i: CostItem) => InSight(i, allowed) && ShowsUnit(i, allowed, u))
  {
    forall e: Entry
      ensures Posted(UnitPoster(allowed)(e), u) <==> InSight(e.item, allowed) && ShowsUnit(e.item, allowed, u)
    {
      hide ScopeShare, InScope, UnitSplit, AllocatesIn, Posted;
      if allowed.None? {
        SplitKeys(e.item.allocations, 1000.0, e.amount, e.column, u);
      } else if InSight(e.item, allowed) {
        SplitKeys(InScope(e.item.allocations, allowed.value), ScopeShare(e.item.allocations, allowed.value) as real, e.amount, e.column, u);
        InScopeUnits(e.item.allocations, allowed.value, u);
      } else {
        NoPostings<UnitId>(u);
      }
    }
  }

  lemma NoPostings<K>(k: K)
    ensures !Posted<K>([], k)
  {
  }

  /** The item has a share, or all, of itself in the group. */
  predicate InGroup(item: CostItem, g: string) {
    if item.bkpAllocations != [] then
      exists k :: 0 <= k < |item.bkpAllocations| && TopGroup(Some(item.bkpAllocations[k].code)) == g
    else if item.bkpCode.GetOr("") != "" then g == TopGroup(item.bkpCode)
    else g == "_uncat"
  }

  lemma GroupKeys(g: string)
    ensures PostsFor(BkpPoster(), g, (i: CostItem) => InGroup(i, g))
  {
    forall e: Entry
      ensures Posted(BkpPoster()(e), g) <==> InGroup(e.item, g)
    {
      hide Part, TopGroup;
      var ps, shares := BkpPostings(e.item, e.amount, e.column), IterBkpShares(e.item);
      assert |ps| == |shares| && forall k :: 0 <= k < |shares| ==> ps[k].key == TopGroup(shares[k].0);
      if e.item.bkpAllocations != [] {
        assert forall k :: 0 <= k < |shares| ==> shares[k].0 == Some(e.item.bkpAllocations[k].code);
      } else {
        assert |ps| == 1 && ps[0].key == TopGroup(shares[0].0);
        TopGroupOfNone();
      }
    }
  }

  lemma TopGroupOfNone()
    ensures TopGroup(None) == "_uncat"
  {
  }

  /** A row has unit buckets for exactly the units that the items shown on it are allocated to, and to a scoped caller
      for none outside the scope; group buckets for exactly the groups these items have a share in. */
  lemma ReturnedUnitAndGroupKeys(items: seq<CostItem>, v: View, year: int, u: UnitId, g: string)
    requires year <= v.horizonEnd
    ensures var row := RowOf(Entries(items, v), year, v.allowed);
      && (u in row.byUnit <==> SomeShown(items, v, year, (i: CostItem) => ShowsUnit(i, v.allowed, u)))
      && (g in row.byBkpGroup <==> SomeShown(items, v, year, (i: CostItem) => InGroup(i, g)))
  {
    hide Entries, ShowsUnit, InGroup, UnitPoster, BkpPoster;
    var es, inSight := Entries(items, v), (i: CostItem) => InSight(i, v.allowed) && ShowsUnit(i, v.allowed, u);
    UnitKeys(v.allowed, u);
    GroupKeys(g);
    KeysShown(items, v, year, UnitPoster(v.allowed), u, inSight);
    KeysShown(items, v, year, BkpPoster(), g, (i: CostItem) => InGroup(i, g));
    BucketMeaning(YearLedger(es, year, UnitPoster(v.allowed)), u);
    BucketMeaning(YearLedger(es, year, BkpPoster()), g);
    assert SomeShown(items, v, year, inSight) <==> SomeShown(items, v, year, (i: CostItem) => ShowsUnit(i, v.allowed, u));
  }

  /** And it has buckets for exactly the statuses and priorities of the items shown on it. */
  lemma ReturnedKeys(items: seq<CostItem>, v: View, year: int, status: Status, priority: Priority)
    requires year <= v.horizonEnd
    ensures var row := RowOf(Entries(items, v), year, v.allowed);
      && (status in row.byStatus <==> SomeShown(items, v, year, (i: CostItem) => i.status == status))
      && (priority in row.byPriority <==> SomeShown(items, v, year, (i: CostItem) => i.priority == priority))
  {
    hide ShownIn, Entries;
    var es := Entries(items, v);
    OneKey(StatusPoster(), status, (i: CostItem) => i.status == status);
    OneKey(PriorityPoster(), priority, (i: CostItem) => i.priority == priority);
    KeysShown(items, v, year, StatusPoster(), status, (i: CostItem) => i.status == status);
    KeysShown(items, v, year, PriorityPoster(), priority, (i: CostItem) => i.priority == priority);
    BucketMeaning(YearLedger(es, year, StatusPoster()), status);
    BucketMeaning(YearLedger(es, year, PriorityPoster()), priority);
  }
}
