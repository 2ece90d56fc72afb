/** What the timeline guarantees across callers, across breakdowns and across years. */
module BudgetLaws {
  import opened Budgets
  import opened Domain
  import opened Ledger
  import opened Money
  import opened Sums

  function ColumnFigure(c: Column): Figure {
    if c.PlannedCol? then PlannedSum else ActualSum
  }

  function Unscoped(v: View): View {
    v.(allowed := None)
  }

  function ScopedTo(v: View, scope: set<UnitId>): View {
    v.(allowed := Some(scope))
  }

  // ---- Splitting a walk into items ----

  lemma {:induction false} RowSumConcat(es: seq<Entry>, fs: seq<Entry>, year: int, f: Figure)
    ensures RowSum(es + fs, year, f) == RowSum(es, year, f) + RowSum(fs, year, f)
    decreases |fs|
  {
    if fs == [] {
      assert es + fs == es;
    } else {
      var front := fs[..|fs| - 1];
      RowSumConcat(es, front, year, f);
      assert (es + fs)[..|es + fs| - 1] == es + front;
    }
  }

  lemma {:induction false} YearLedgerConcat<K>(es: seq<Entry>, fs: seq<Entry>, year: int, post: Entry -> seq<Posting<K>>)
    ensures YearLedger(es + fs, year, post) == YearLedger(es, year, post) + YearLedger(fs, year, post)
    decreases |fs|
  {
    if fs == [] {
      assert es + fs == es;
    } else {
      var front := fs[..|fs| - 1];
      YearLedgerConcat(es, front, year, post);
      assert (es + fs)[..|es + fs| - 1] == es + front;
    }
  }

  /** At most one entry a column, so an item's figure is read off directly. */
  lemma ItemFigure(item: CostItem, v: View, year: int, f: Figure)
    ensures RowSum(ItemEntries(item, v), year, f)
         == if ScopeFactor(item, v.allowed) == 0.0 then 0.0
            else if f.ActualSum? then (if ShowsActual(item, v) then FigureOf(ActualEntry(item, v), year, f) else 0.0)
            else (if ShowsPlanned(item, v) then FigureOf(PlannedEntry(item, v), year, f) else 0.0)
  {
    var ps := if ShowsPlanned(item, v) then [PlannedEntry(item, v)] else [];
    var acts := if ShowsActual(item, v) then [ActualEntry(item, v)] else [];
    RowSumConcat(ps, acts, year, f);
  }

  // ---- Scoped against unscoped totals ----

  lemma ScopedPlannedEntry(item: CostItem, v: View, scope: set<UnitId>)
    requires CountsAsPlanned(item)
    ensures var scoped, whole, share := PlannedEntry(item, ScopedTo(v, scope)), PlannedEntry(item, Unscoped(v)),
                                       ScopeShare(item.allocations, scope);
      scoped == whole.(amount := Part(whole.amount, share, 1000.0), inflated := Part(whole.inflated, share, 1000.0))
  {
    PartScales(Chf(item.plannedAmount.value), ScopeShare(item.allocations, scope),
      InflationFactor(v.rate, item.plannedYear.value - v.currentYear));
  }

  lemma ScopedActualEntry(item: CostItem, v: View, scope: set<UnitId>)
    requires CountsAsActual(item)
    ensures var scoped, whole, share := ActualEntry(item, ScopedTo(v, scope)), ActualEntry(item, Unscoped(v)),
                                       ScopeShare(item.allocations, scope);
      scoped == whole.(amount := Part(whole.amount, share, 1000.0))
  {
  }

  /** A scoped caller sees of every item exactly the scope's share of what an unscoped caller sees. */
  lemma ScopedItemFigure(item: CostItem, v: View, scope: set<UnitId>, year: int, f: Figure)
    ensures RowSum(ItemEntries(item, ScopedTo(v, scope)), year, f)
         == Part(RowSum(ItemEntries(item, Unscoped(v)), year, f), ScopeShare(item.allocations, scope), 1000.0)
  {
    hide Part, PlannedEntry, ActualEntry, ItemEntries, RowSum, ScopeShare;
    ItemFigure(item, ScopedTo(v, scope), year, f);
    ItemFigure(item, Unscoped(v), year, f);
    var share := ScopeShare(item.allocations, scope);
    PartOfNothing(RowSum(ItemEntries(item, Unscoped(v)), year, f), share, 1000.0);
    if ShowsPlanned(item, v) { ScopedPlannedEntry(item, v, scope); }
    if ShowsActual(item, v) { ScopedActualEntry(item, v, scope); }
  }

  function ScopeSums(items: seq<CostItem>, v: View, scopes: seq<set<UnitId>>, year: int, f: Figure): (xs: seq<real>)
    ensures |xs| == |scopes|
  {
    seq(|scopes|, i requires 0 <= i < |scopes| => RowSum(Entries(items, ScopedTo(v, scopes[i])), year, f))
  }

  function Portions(x: real, shares: seq<int>): (xs: seq<real>)
    ensures |xs| == |shares|
  {
    seq(|shares|, i requires 0 <= i < |shares| => Part(x, shares[i], 1000.0))
  }

  lemma {:induction false} PortionsSum(x: real, shares: seq<int>)
    ensures SumReal(Portions(x, shares)) == Part(x, Sum(shares), 1000.0)
  {
    hide Part;
    PartOfNothing(x, 0, 1000.0);
    if shares != [] {
      var n := |shares| - 1;
      PortionsSum(x, shares[..n]);
      assert Portions(x, shares)[..n] == Portions(x, shares[..n]);
      PartAdds(x, Sum(shares[..n]), shares[n], 1000.0);
    }
  }

  lemma {:induction false} SumRealAdds(xs: seq<real>, ys: seq<real>, zs: seq<real>)
    requires |xs| == |ys| == |zs|
    requires forall i :: 0 <= i < |xs| ==> zs[i] == xs[i] + ys[i]
    ensures SumReal(zs) == SumReal(xs) + SumReal(ys)
  {
    if xs != [] {
      var n := |xs| - 1;
      SumRealAdds(xs[..n], ys[..n], zs[..n]);
    }
  }

  /** The scopes partition the units of every item, and every item is allocated completely. */
  predicate PartitionsAll(items: seq<CostItem>, scopes: seq<set<UnitId>>) {
    forall i :: 0 <= i < |items| ==>
      Partition(items[i].allocations, scopes) && PermilleSplit(Shares(items[i].allocations))
  }

  lemma ScopeSumsStep(items: seq<CostItem>, v: View, scopes: seq<set<UnitId>>, year: int, f: Figure)
    requires items != []
    ensures var item, front := items[|items| - 1], items[..|items| - 1];
      SumReal(ScopeSums(items, v, scopes, year, f))
      == SumReal(ScopeSums(front, v, scopes, year, f))
         + Part(RowSum(ItemEntries(item, Unscoped(v)), year, f), Sum(ScopeShares(item.allocations, scopes)), 1000.0)
  {
    hide Part, ItemEntries, RowSum;
    var item, front := items[|items| - 1], items[..|items| - 1];
    var whole := RowSum(ItemEntries(item, Unscoped(v)), year, f);
    var shares := ScopeShares(item.allocations, scopes);
    var before, after := ScopeSums(front, v, scopes, year, f), ScopeSums(items, v, scopes, year, f);
    forall i | 0 <= i < |scopes|
      ensures after[i] == before[i] + Portions(whole, shares)[i]
    {
      var w := ScopedTo(v, scopes[i]);
      RowSumConcat(Entries(front, w), ItemEntries(item, w), year, f);
      ScopedItemFigure(item, v, scopes[i], year, f);
    }
    SumRealAdds(before, Portions(whole, shares), after);
    PortionsSum(whole, shares);
  }

  /** Scope additivity: what the scopes of a partition see adds up, without any error,
      to what an unscoped caller sees, in every year and for all three totals. */
  lemma {:induction false} ScopeAdditivity(items: seq<CostItem>, v: View, scopes: seq<set<UnitId>>, year: int, f: Figure)
    requires PartitionsAll(items, scopes)
    ensures SumReal(ScopeSums(items, v, scopes, year, f)) == RowSum(Entries(items, Unscoped(v)), year, f)
  {
    hide Part, ItemEntries;
    if items == [] {
      AllZero(ScopeSums(items, v, scopes, year, f));
    } else {
      var n := |items| - 1;
      ScopeAdditivity(items[..n], v, scopes, year, f);
      ScopeSumsStep(items, v, scopes, year, f);
      RowSumConcat(Entries(items[..n], Unscoped(v)), ItemEntries(items[n], Unscoped(v)), year, f);
      PartitionShares(items[n].allocations, scopes);
      PartIsWhole(RowSum(ItemEntries(items[n], Unscoped(v)), year, f), TOTAL_PERMILLE);
    }
  }

  lemma {:induction false} AllZero(xs: seq<real>)
    requires forall i :: 0 <= i < |xs| ==> xs[i] == 0.0
    ensures SumReal(xs) == 0.0
  {
    if xs != [] { AllZero(xs[..|xs| - 1]); }
  }

  /** After rounding, the scopes' cells re-add to the unscoped cell up to half a cent a cell. */
  lemma RoundedScopeAdditivity(items: seq<CostItem>, v: View, scopes: seq<set<UnitId>>, year: int, f: Figure)
    requires PartitionsAll(items, scopes)
    ensures Abs(Chf(Sum(QuantiseAll(ScopeSums(items, v, scopes, year, f))))
                - Chf(Quantise(RowSum(Entries(items, Unscoped(v)), year, f))))
         <= HALF_CENT * (|scopes| + 1) as real
  {
    hide Entries, RowSum, ScopeSums;
    ScopeAdditivity(items, v, scopes, year, f);
    RoundedSumBound(ScopeSums(items, v, scopes, year, f));
    assert HALF_CENT * (|scopes| + 1) as real == HALF_CENT * |scopes| as real + HALF_CENT;
  }

  // ---- Scoped against unscoped unit buckets ----

  predicate SharesNonNegative(item: CostItem) {
    forall i :: 0 <= i < |item.allocations| ==> item.allocations[i].share >= 0
  }

  /** The permille that `rows` give to `u`. */
  function UnitShare(rows: seq<Allocation>, u: UnitId): int {
    ScopeShare(rows, {u})
  }

  lemma {:induction false} UnitShareInScope(rows: seq<Allocation>, scope: set<UnitId>, u: UnitId)
    ensures UnitShare(InScope(rows, scope), u) == if u in scope then UnitShare(rows, u) else 0
  {
    if rows != [] {
      var n := |rows| - 1;
      UnitShareInScope(rows[..n], scope, u);
      ScopeShareLast(rows, {u});
      if rows[n].unit in scope {
        assert InScope(rows, scope)[..|InScope(rows, scope)| - 1] == InScope(rows[..n], scope);
        ScopeShareLast(InScope(rows, scope), {u});
      }
    }
  }

  lemma {:induction false} UnitSplitBalance(rows: seq<Allocation>, d: real, amount: real, c: Column, u: UnitId)
    requires d != 0.0
    ensures Balance(UnitSplit(rows, d, amount, c), u, c) == Part(amount, UnitShare(rows, u), d)
    ensures forall c' :: c' != c ==> Balance(UnitSplit(rows, d, amount, c), u, c') == 0.0
  {
    hide Part;
    PartOfNothing(amount, 0, d);
    if rows != [] {
      var n := |rows| - 1;
      UnitSplitBalance(rows[..n], d, amount, c, u);
      assert UnitSplit(rows, d, amount, c)[..n] == UnitSplit(rows[..n], d, amount, c);
      ScopeShareLast(rows, {u});
      PartAdds(amount, UnitShare(rows[..n], u), PartInScope(rows[n], {u}), d);
    }
  }

  /** A single unit's share cannot be positive when its scope's share is zero. */
  lemma {:induction false} UnitShareBounds(rows: seq<Allocation>, scope: set<UnitId>, u: UnitId)
    requires forall i :: 0 <= i < |rows| ==> rows[i].share >= 0
    requires u in scope
    ensures 0 <= UnitShare(rows, u) <= ScopeShare(rows, scope)
  {
    if rows != [] {
      var n := |rows| - 1;
      UnitShareBounds(rows[..n], scope, u);
      ScopeShareLast(rows, {u});
      ScopeShareLast(rows, scope);
    }
  }

  /** What a posted amount gives to a unit, for both kinds of caller. */
  lemma PostingRefinement(item: CostItem, raw: real, scope: set<UnitId>, c: Column, u: UnitId)
    requires SharesNonNegative(item)
    ensures var t := ScopeShare(item.allocations, scope);
      t != 0 ==>
        Balance(UnitPostings(item, Part(raw, t, 1000.0), Some(scope), c), u, c)
        == if u in scope then Balance(UnitPostings(item, raw, None, c), u, c) else 0.0
    ensures ScopeShare(item.allocations, scope) == 0 && u in scope ==>
      Balance(UnitPostings(item, raw, None, c), u, c) == 0.0
  {
    hide Part;
    var t := ScopeShare(item.allocations, scope);
    UnitSplitBalance(item.allocations, 1000.0, raw, c, u);
    PartOfNothing(raw, 0, 1000.0);
    if u in scope {
      UnitShareBounds(item.allocations, scope, u);
    }
    if t != 0 {
      UnitSplitBalance(InScope(item.allocations, scope), t as real, Part(raw, t, 1000.0), c, u);
      UnitShareInScope(item.allocations, scope, u);
      Redistribute(raw, t, UnitShare(item.allocations, u));
      PartOfNothing(Part(raw, t, 1000.0), 0, t as real);
    }
  }

  function UnitBalance(items: seq<CostItem>, v: View, year: int, u: UnitId, c: Column): real {
    Balance(YearLedger(Entries(items, v), year, UnitPoster(v.allowed)), u, c)
  }

  function ItemUnitBalance(item: CostItem, v: View, year: int, u: UnitId, c: Column): real {
    Balance(YearLedger(ItemEntries(item, v), year, UnitPoster(v.allowed)), u, c)
  }

  lemma UnitBalanceStep(items: seq<CostItem>, v: View, year: int, u: UnitId, c: Column)
    requires items != []
    ensures UnitBalance(items, v, year, u, c)
         == UnitBalance(items[..|items| - 1], v, year, u, c) + ItemUnitBalance(items[|items| - 1], v, year, u, c)
  {
    var es, fs := Entries(items[..|items| - 1], v), ItemEntries(items[|items| - 1], v);
    YearLedgerConcat(es, fs, year, UnitPoster(v.allowed));
    BalanceConcat(YearLedger(es, year, UnitPoster(v.allowed)), YearLedger(fs, year, UnitPoster(v.allowed)), u, c);
  }

  /** The entry an item shows in a column, if any. */
  function ColumnEntry(item: CostItem, v: View, c: Column): seq<Entry> {
    if c.PlannedCol? then (if ShowsPlanned(item, v) then [PlannedEntry(item, v)] else [])
    else (if ShowsActual(item, v) then [ActualEntry(item, v)] else [])
  }

  lemma ItemUnitBalanceValue(item: CostItem, v: View, year: int, u: UnitId, c: Column)
    ensures ItemUnitBalance(item, v, year, u, c)
         == if ScopeFactor(item, v.allowed) == 0.0 || ColumnEntry(item, v, c) == []
               || ColumnEntry(item, v, c)[0].year != year then 0.0
            else Balance(UnitPostings(item, ColumnEntry(item, v, c)[0].amount, v.allowed, c), u, c)
  {
    var post := UnitPoster(v.allowed);
    var ps, acts := ColumnEntry(item, v, PlannedCol), ColumnEntry(item, v, ActualCol);
    if ScopeFactor(item, v.allowed) != 0.0 {
      YearLedgerConcat(ps, acts, year, post);
      BalanceConcat(YearLedger(ps, year, post), YearLedger(acts, year, post), u, c);
      OneEntryBalance(ps, year, v.allowed, u, c);
      OneEntryBalance(acts, year, v.allowed, u, c);
    }
  }

  lemma OneEntryBalance(es: seq<Entry>, year: int, allowed: Option<set<UnitId>>, u: UnitId, c: Column)
    requires |es| <= 1
    ensures Balance(YearLedger(es, year, UnitPoster(allowed)), u, c)
         == if es == [] || es[0].year != year || es[0].column != c then 0.0
            else Balance(UnitPostings(es[0].item, es[0].amount, allowed, c), u, c)
  {
    if es != [] {
      assert es[..0] == [];
      var e := es[0];
      var ps := UnitPostings(e.item, e.amount, allowed, e.column);
      assert YearLedger(es, year, UnitPoster(allowed)) == [] + if e.year == year then ps else [];
      assert [] + ps == ps;
      hide UnitPostings;
      if e.column != c { UnitPostingsOtherColumn(e.item, e.amount, allowed, e.column, u, c); }
    }
  }

  lemma UnitPostingsOtherColumn(
    item: CostItem, amount: real, allowed: Option<set<UnitId>>, from: Column, u: UnitId, c: Column)
    requires from != c
    ensures Balance(UnitPostings(item, amount, allowed, from), u, c) == 0.0
  {
    forall p | p in UnitPostings(item, amount, allowed, from) ensures p.column == from { }
    SilentColumn(UnitPostings(item, amount, allowed, from), u, c);
  }

  lemma {:induction false} SilentColumn<K>(ps: seq<Posting<K>>, key: K, c: Column)
    requires forall p :: p in ps ==> p.column != c
    ensures Balance(ps, key, c) == 0.0
  {
    if ps != [] { SilentColumn(ps[..|ps| - 1], key, c); }
  }

  lemma ItemUnitRefinement(item: CostItem, v: View, scope: set<UnitId>, year: int, u: UnitId, c: Column)
    requires SharesNonNegative(item)
    ensures ItemUnitBalance(item, ScopedTo(v, scope), year, u, c)
         == if u in scope then ItemUnitBalance(item, Unscoped(v), year, u, c) else 0.0
  {
    hide Part, UnitPostings, ItemUnitBalance, Balance;
    ItemUnitBalanceValue(item, ScopedTo(v, scope), year, u, c);
    ItemUnitBalanceValue(item, Unscoped(v), year, u, c);
    if ColumnEntry(item, v, c) != [] {
      if c.PlannedCol? { ScopedPlannedEntry(item, v, scope); } else { ScopedActualEntry(item, v, scope); }
      PostingRefinement(item, ColumnEntry(item, Unscoped(v), c)[0].amount, scope, c, u);
    }
  }

  /** Refinement: a scoped caller's unit buckets are the unscoped caller's buckets restricted
      to the allowed units, although they are computed with another denominator. */
  lemma {:induction false} UnitBucketsRefine(items: seq<CostItem>, v: View, scope: set<UnitId>, year: int, u: UnitId, c: Column)
    requires forall i :: 0 <= i < |items| ==> SharesNonNegative(items[i])
    ensures UnitBalance(items, ScopedTo(v, scope), year, u, c)
         == if u in scope then UnitBalance(items, Unscoped(v), year, u, c) else 0.0
  {
    if items != [] {
      var front := items[..|items| - 1];
      UnitBucketsRefine(front, v, scope, year, u, c);
      ItemUnitRefinement(items[|items| - 1], v, scope, year, u, c);
      UnitBalanceStep(items, ScopedTo(v, scope), year, u, c);
      UnitBalanceStep(items, Unscoped(v), year, u, c);
    }
  }

  /** The same for the accumulators themselves, as `ComputeTimeline` leaves them. */
  lemma ScopedRowRefines(items: seq<CostItem>, v: View, scope: set<UnitId>, year: int, u: UnitId)
    requires forall i :: 0 <= i < |items| ==> SharesNonNegative(items[i])
    ensures Lookup(StateOf(Entries(items, ScopedTo(v, scope)), year, Some(scope)).byUnit, u)
         == if u in scope then Lookup(StateOf(Entries(items, Unscoped(v)), year, None).byUnit, u) else ZERO_PAIR
  {
    UnitBucketsRefine(items, v, scope, year, u, PlannedCol);
    UnitBucketsRefine(items, v, scope, year, u, ActualCol);
    BucketMeaning(YearLedger(Entries(items, ScopedTo(v, scope)), year, UnitPoster(Some(scope))), u);
    BucketMeaning(YearLedger(Entries(items, Unscoped(v)), year, UnitPoster(None)), u);
  }

  // ---- Conservation over the four breakdowns ----

  lemma {:induction false} UnitSplitVolume(rows: seq<Allocation>, d: real, amount: real, c: Column, c': Column)
    requires d != 0.0
    ensures Volume(UnitSplit(rows, d, amount, c), c') == if c == c' then Part(amount, Sum(Shares(rows)), d) else 0.0
  {
    hide Part;
    PartOfNothing(amount, 0, d);
    if rows != [] {
      var n := |rows| - 1;
      UnitSplitVolume(rows[..n], d, amount, c, c');
      assert UnitSplit(rows, d, amount, c)[..n] == UnitSplit(rows[..n], d, amount, c);
      assert rows == rows[..n] + [rows[n]];
      SharesAppend(rows[..n], rows[n]);
      PartAdds(amount, Sum(Shares(rows[..n])), rows[n].share, d);
    }
  }

  /** The unit split of an unscoped caller re-adds exactly when the amount is nil or the shares sum
      to 1000; that of a scoped caller re-adds whatever the shares sum to. */
  lemma UnitPostingsVolume(item: CostItem, amount: real, allowed: Option<set<UnitId>>, c: Column)
    ensures allowed.None? ==>
      (Volume(UnitPostings(item, amount, allowed, c), c) == amount
       <==> amount == 0.0 || Sum(Shares(item.allocations)) == TOTAL_PERMILLE)
    ensures allowed.Some? && ScopeFactor(item, allowed) != 0.0 ==>
      Volume(UnitPostings(item, amount, allowed, c), c) == amount
    ensures forall c' :: c' != c ==> Volume(UnitPostings(item, amount, allowed, c), c') == 0.0
  {
    hide Part;
    var other := if c.PlannedCol? then ActualCol else PlannedCol;
    if allowed.None? {
      UnitSplitVolume(item.allocations, 1000.0, amount, c, c);
      UnitSplitVolume(item.allocations, 1000.0, amount, c, other);
      PartIsWhole(amount, Sum(Shares(item.allocations)));
    } else if ScopeShare(item.allocations, allowed.value) != 0 {
      var rows, t := InScope(item.allocations, allowed.value), ScopeShare(item.allocations, allowed.value);
      UnitSplitVolume(rows, t as real, amount, c, c);
      UnitSplitVolume(rows, t as real, amount, c, other);
      PartOfItself(amount, t);
    }
  }

  lemma {:induction false} BkpPostingsPrefix(item: CostItem, amount: real, c: Column, c': Column, n: nat)
    requires n <= |IterBkpShares(item)|
    ensures Volume(BkpPostings(item, amount, c)[..n], c')
         == if c == c' then Part(amount, Sum(EffectiveBkpPermilles(item)[..n]), 1000.0) else 0.0
  {
    hide Part;
    PartOfNothing(amount, 0, 1000.0);
    if n > 0 {
      BkpPostingsPrefix(item, amount, c, c', n - 1);
      var ps, ks := BkpPostings(item, amount, c), EffectiveBkpPermilles(item);
      assert ps[..n][..n - 1] == ps[..n - 1] && ks[..n][..n - 1] == ks[..n - 1];
      PartAdds(amount, Sum(ks[..n - 1]), ks[n - 1], 1000.0);
    }
  }

  lemma BkpPostingsVolume(item: CostItem, amount: real, c: Column, c': Column)
    requires PermilleSplit(EffectiveBkpPermilles(item))
    ensures Volume(BkpPostings(item, amount, c), c') == if c == c' then amount else 0.0
  {
    var n := |IterBkpShares(item)|;
    BkpPostingsPrefix(item, amount, c, c', n);
    PartIsWhole(amount, TOTAL_PERMILLE);
    assert BkpPostings(item, amount, c)[..n] == BkpPostings(item, amount, c);
    assert EffectiveBkpPermilles(item)[..n] == EffectiveBkpPermilles(item);
  }

  /** `post` hands on exactly the entry's amount, in the entry's column. */
  ghost predicate Faithful<K>(post: Entry -> seq<Posting<K>>, e: Entry) {
    forall c :: Volume(post(e), c) == if e.column == c then e.amount else 0.0
  }

  lemma {:induction false} LedgerVolume<K>(es: seq<Entry>, year: int, post: Entry -> seq<Posting<K>>, c: Column)
    requires forall i :: 0 <= i < |es| ==> Faithful(post, es[i])
    ensures Volume(YearLedger(es, year, post), c) == RowSum(es, year, ColumnFigure(c))
  {
    if es != [] {
      var n := |es| - 1;
      LedgerVolume(es[..n], year, post, c);
      assert Faithful(post, es[n]);
      VolumeConcat(YearLedger(es[..n], year, post), if es[n].year == year then post(es[n]) else [], c);
    }
  }

  /** Every entry of a walk belongs to an item with a non-zero factor. */
  lemma {:induction false} EntryOrigin(items: seq<CostItem>, v: View, k: nat)
    requires k < |Entries(items, v)|
    ensures Entries(items, v)[k].item in items && ScopeFactor(Entries(items, v)[k].item, v.allowed) != 0.0
  {
    var n := |items| - 1;
    if k < |Entries(items[..n], v)| {
      EntryOrigin(items[..n], v, k);
    } else {
      assert items[n] in items;
    }
  }

  lemma FaithfulPosters(e: Entry, allowed: Option<set<UnitId>>)
    requires WellSplit(e.item) && ScopeFactor(e.item, allowed) != 0.0
    ensures Faithful(BkpPoster(), e) && Faithful(UnitPoster(allowed), e)
    ensures Faithful(StatusPoster(), e) && Faithful(PriorityPoster(), e)
  {
    UnitPostingsVolume(e.item, e.amount, allowed, e.column);
    forall c ensures Volume(BkpPoster()(e), c) == if e.column == c then e.amount else 0.0 {
      BkpPostingsVolume(e.item, e.amount, e.column, c);
    }
    assert StatusPoster()(e)[..0] == [] && PriorityPoster()(e)[..0] == [];
  }

  /** The four breakdowns of a row re-add, column by column, to the row's totals. */
  ghost predicate ReAdds(s: RowState) {
    forall c: Column ::
      var total := if c.PlannedCol? then s.planned else s.actual;
      && Total(s.byBkpGroup, c) == total
      && Total(s.byUnit, c) == total
      && Total(s.byStatus, c) == total
      && Total(s.byPriority, c) == total
  }

  /** Breakdown conservation, for either kind of caller and after any number of loop turns
      (take any prefix of the items). */
  lemma BreakdownConservation(items: seq<CostItem>, v: View, year: int)
    requires forall i :: 0 <= i < |items| ==> WellSplit(items[i])
    ensures ReAdds(StateOf(Entries(items, v), year, v.allowed))
  {
    var es := Entries(items, v);
    forall k | 0 <= k < |es|
      ensures Faithful(BkpPoster(), es[k]) && Faithful(UnitPoster(v.allowed), es[k])
      ensures Faithful(StatusPoster(), es[k]) && Faithful(PriorityPoster(), es[k])
    {
      EntryOrigin(items, v, k);
      FaithfulPosters(es[k], v.allowed);
    }
    var s := StateOf(es, year, v.allowed);
    forall c: Column
      ensures var total := if c.PlannedCol? then s.planned else s.actual;
        Total(s.byBkpGroup, c) == Total(s.byUnit, c) == Total(s.byStatus, c) == Total(s.byPriority, c) == total
    {
      LedgerVolume(es, year, BkpPoster(), c);
      Conservation(YearLedger(es, year, BkpPoster()), c);
      LedgerVolume(es, year, UnitPoster(v.allowed), c);
      Conservation(YearLedger(es, year, UnitPoster(v.allowed)), c);
      LedgerVolume(es, year, StatusPoster(), c);
      Conservation(YearLedger(es, year, StatusPoster()), c);
      LedgerVolume(es, year, PriorityPoster(), c);
      Conservation(YearLedger(es, year, PriorityPoster()), c);
    }
  }

  /** The rounded buckets of a returned row re-add to its rounded total within half a cent
      a bucket and half a cent for the total itself. */
  ghost predicate RoundedReAdds<K>(buckets: map<K, CentPair>, planned: int, actual: int) {
    && Abs(Total(AsPairs(buckets), PlannedCol) - Chf(planned)) <= HALF_CENT * (|buckets| + 1) as real
    && Abs(Total(AsPairs(buckets), ActualCol) - Chf(actual)) <= HALF_CENT * (|buckets| + 1) as real
  }

  lemma RoundedBreakdown<K>(b: map<K, Pair>, planned: real, actual: real)
    requires Total(b, PlannedCol) == planned && Total(b, ActualCol) == actual
    ensures RoundedReAdds(QuantPairs(b), Quantise(planned), Quantise(actual))
  {
    hide Quantise, Total;
    RoundedBucketsBound(b, PlannedCol);
    RoundedBucketsBound(b, ActualCol);
    assert |QuantPairs(b)| == |QuantPairs(b).Keys| == |b.Keys| == |b|;
    assert HALF_CENT * (|b| + 1) as real == HALF_CENT * |b| as real + HALF_CENT;
  }

  lemma RoundedRowConservation(items: seq<CostItem>, v: View, year: int)
    requires forall i :: 0 <= i < |items| ==> WellSplit(items[i])
    ensures var row := RowOf(Entries(items, v), year, v.allowed);
      && RoundedReAdds(row.byBkpGroup, row.planned, row.actual)
      && RoundedReAdds(row.byUnit, row.planned, row.actual)
      && RoundedReAdds(row.byStatus, row.planned, row.actual)
      && RoundedReAdds(row.byPriority, row.planned, row.actual)
  {
    BreakdownConservation(items, v, year);
    var s := StateOf(Entries(items, v), year, v.allowed);
    RoundedBreakdown(s.byBkpGroup, s.planned, s.actual);
    RoundedBreakdown(s.byUnit, s.planned, s.actual);
    RoundedBreakdown(s.byStatus, s.planned, s.actual);
    RoundedBreakdown(s.byPriority, s.planned, s.actual);
  }

  // ---- Years ----

  lemma PowAtLeastOne(base: real, n: nat)
    requires base >= 1.0
    ensures Pow(base, n) >= 1.0
  {
    if n > 0 {
      PowAtLeastOne(base, n - 1);
      assert base * Pow(base, n - 1) >= 1.0 * Pow(base, n - 1);
    }
  }

  function MaxZero(n: int): nat {
    if n < 0 then 0 else n
  }

  /** Compound inflation in closed form, past and current years included. */
  lemma InflationClosedForm(rate: real, years: int)
    requires rate >= 0.0
    ensures InflationFactor(rate, years) == Pow(1.0 + rate / 100.0, MaxZero(years)) >= 1.0
  {
    PowAtLeastOne(1.0 + rate / 100.0, MaxZero(years));
    if rate == 0.0 {
      PowOne(MaxZero(years));
    }
  }

  lemma PowOne(n: nat)
    ensures Pow(1.0, n) == 1.0
  {
    if n > 0 { PowOne(n - 1); }
  }

  lemma FactorNonNegative(item: CostItem, allowed: Option<set<UnitId>>)
    requires SharesNonNegative(item)
    ensures ScopeFactor(item, allowed) >= 0.0
  {
    if allowed.Some? {
      ScopeShareBounds(item.allocations, allowed.value);
    }
  }

  function Grown(x: real, growth: real): real {
    x * growth
  }

  lemma GrownLaws(a: real, b: real, growth: real)
    ensures Grown(a + b, growth) == Grown(a, growth) + Grown(b, growth) && Grown(0.0, growth) == 0.0
    ensures a >= 0.0 && growth >= 1.0 ==> Grown(a, growth) >= a
  {
  }

  lemma ItemInflation(item: CostItem, v: View, year: int)
    requires SharesNonNegative(item) && NonNegativeAmounts(item)
    ensures RowSum(ItemEntries(item, v), year, InflatedSum)
         == Grown(RowSum(ItemEntries(item, v), year, PlannedSum), InflationFactor(v.rate, year - v.currentYear))
    ensures RowSum(ItemEntries(item, v), year, PlannedSum) >= 0.0
  {
    hide ItemEntries, InflationFactor, ScopeFactor;
    ItemFigure(item, v, year, PlannedSum);
    ItemFigure(item, v, year, InflatedSum);
    FactorNonNegative(item, v.allowed);
  }

  /** The inflated total of a year is its planned total compounded over the years ahead, hence never below it. */
  lemma {:induction false} RowInflation(items: seq<CostItem>, v: View, year: int)
    requires v.rate >= 0.0
    requires forall i :: 0 <= i < |items| ==> SharesNonNegative(items[i]) && NonNegativeAmounts(items[i])
    ensures RowSum(Entries(items, v), year, InflatedSum)
         == Grown(RowSum(Entries(items, v), year, PlannedSum), Pow(1.0 + v.rate / 100.0, MaxZero(year - v.currentYear)))
    ensures RowSum(Entries(items, v), year, InflatedSum) >= RowSum(Entries(items, v), year, PlannedSum) >= 0.0
  {
    hide ItemEntries, Pow, InflationFactor, Grown;
    InflationClosedForm(v.rate, year - v.currentYear);
    var growth := InflationFactor(v.rate, year - v.currentYear);
    if items != [] {
      var front, item := items[..|items| - 1], items[|items| - 1];
      RowInflation(front, v, year);
      RowSumConcat(Entries(front, v), ItemEntries(item, v), year, PlannedSum);
      RowSumConcat(Entries(front, v), ItemEntries(item, v), year, InflatedSum);
      ItemInflation(item, v, year);
      GrownLaws(RowSum(Entries(front, v), year, PlannedSum), RowSum(ItemEntries(item, v), year, PlannedSum), growth);
    }
    GrownLaws(RowSum(Entries(items, v), year, PlannedSum), 0.0, growth);
  }

  // ---- No amount falls between the rows ----

  /** A figure over all the rows of the years first..last. */
  function RowsTotal(es: seq<Entry>, first: int, last: int, f: Figure): real
    decreases last - first
  {
    if last < first then 0.0 else RowsTotal(es, first, last - 1, f) + RowSum(es, last, f)
  }

  /** What an item contributes to a figure, whatever the year. */
  function ItemTotal(item: CostItem, v: View, f: Figure): real {
    if ScopeFactor(item, v.allowed) == 0.0 then 0.0
    else if f.ActualSum? then (if ShowsActual(item, v) then Chf(item.actualAmount.value) * ScopeFactor(item, v.allowed) else 0.0)
    else if !ShowsPlanned(item, v) then 0.0
    else if f.PlannedSum? then PlannedEntry(item, v).amount
    else PlannedEntry(item, v).inflated
  }

  function ItemTotals(items: seq<CostItem>, v: View, f: Figure): real {
    if items == [] then 0.0
    else ItemTotals(items[..|items| - 1], v, f) + ItemTotal(items[|items| - 1], v, f)
  }

  lemma {:induction false} RowsTotalConcat(es: seq<Entry>, fs: seq<Entry>, first: int, last: int, f: Figure)
    ensures RowsTotal(es + fs, first, last, f) == RowsTotal(es, first, last, f) + RowsTotal(fs, first, last, f)
    decreases last - first
  {
    if last >= first {
      RowsTotalConcat(es, fs, first, last - 1, f);
      RowSumConcat(es, fs, last, f);
    }
  }

  /** Over a window that holds their years, the rows see each of an item's entries exactly once. */
  lemma {:induction false} ItemOverWindow(item: CostItem, v: View, first: int, last: int, f: Figure)
    ensures RowsTotal(ItemEntries(item, v), first, last, f)
         == if f.ActualSum? then (if ShowsActual(item, v) && first <= item.actualYear.value <= last then ItemTotal(item, v, f) else 0.0)
            else (if ShowsPlanned(item, v) && first <= item.plannedYear.value <= last then ItemTotal(item, v, f) else 0.0)
    decreases last - first
  {
    hide ItemEntries, PlannedEntry;
    if last >= first {
      ItemOverWindow(item, v, first, last - 1, f);
      ItemFigure(item, v, last, f);
      if ShowsPlanned(item, v) { PlannedFigures(item, v, last, f); }
    }
  }

  lemma PlannedFigures(item: CostItem, v: View, year: int, f: Figure)
    requires ShowsPlanned(item, v)
    ensures FigureOf(PlannedEntry(item, v), year, f)
         == if item.plannedYear.value != year || f.ActualSum? then 0.0
            else if f.PlannedSum? then PlannedEntry(item, v).amount else PlannedEntry(item, v).inflated
  {
  }

  /** The totals balance: the rows from the earliest year to the horizon add up, for each of the three figures, to
      what the items contribute; stale years in the past are on some row, and no row counts anything twice. */
  lemma {:induction false} RowsHoldEverything(items: seq<CostItem>, v: View, first: int, f: Figure)
    requires first <= Earliest(items, v.currentYear)
    ensures RowsTotal(Entries(items, v), first, v.horizonEnd, f) == ItemTotals(items, v, f)
  {
    hide ItemEntries, ItemTotal;
    if items == [] {
      EmptyRowsTotal(first, v.horizonEnd, f);
    } else {
      var front, item := items[..|items| - 1], items[|items| - 1];
      RowsHoldEverything(front, v, first, f);
      RowsTotalConcat(Entries(front, v), ItemEntries(item, v), first, v.horizonEnd, f);
      ItemOverWindow(item, v, first, v.horizonEnd, f);
      ItemTotalOfHidden(item, v, f);
    }
  }

  lemma ItemTotalOfHidden(item: CostItem, v: View, f: Figure)
    ensures f.ActualSum? && !ShowsActual(item, v) ==> ItemTotal(item, v, f) == 0.0
    ensures !f.ActualSum? && !ShowsPlanned(item, v) ==> ItemTotal(item, v, f) == 0.0
  {
  }

  lemma {:induction false} EmptyRowsTotal(first: int, last: int, f: Figure)
    ensures RowsTotal([], first, last, f) == 0.0
    decreases last - first
  {
    if last >= first { EmptyRowsTotal(first, last - 1, f); }
  }

  // ---- Actual amounts of items planned after the horizon ----

  /** The actual amount that falls in `year`, as recorded. */
  function RecordedActual(item: CostItem, v: View, year: int): real {
    if CountsAsActual(item) && item.actualYear.value == year then
      Chf(item.actualAmount.value) * ScopeFactor(item, v.allowed)
    else 0.0
  }

  /** A recorded actual in a visible year reaches the row exactly unless the item is also planned
      beyond the horizon and its recorded (scope) amount is not nil. */
  lemma ActualReachesRow(item: CostItem, v: View, year: int)
    requires year <= v.horizonEnd
    ensures RowSum(ItemEntries(item, v), year, ActualSum) == RecordedActual(item, v, year)
       <==> !PlannedBeyond(item, v) || RecordedActual(item, v, year) == 0.0
  {
    ItemFigure(item, v, year, ActualSum);
  }

  /** A half-finished item planned for 2040 whose 500.00 already spent this year never show up. */
  lemma ActualLostWitness() returns (item: CostItem, v: View)
    ensures v.currentYear == 2026 && v.horizonEnd == 2036 && v.allowed.None?
    ensures RecordedActual(item, v, 2026) == 500.0
    ensures RowSum(ItemEntries(item, v), 2026, ActualSum) == 0.0
  {
    item := CostItem(0, None, None, [], [Allocation(0, 1000)], Shared, InProgress, Med, Some(2040), Some(100000), Some(50000), Some(2026));
    v := View(None, 0.0, 2026, 2036);
    ItemFigure(item, v, 2026, ActualSum);
  }
}
