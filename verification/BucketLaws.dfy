/** What a single bucket of a timeline row means, told without postings. */
module BucketLaws {
  import opened BudgetLaws
  import opened Budgets
  import opened Domain
  import opened Ledger
  import opened Money

  // ---- Units ----

  lemma ItemFigureOfEntry(item: CostItem, v: View, year: int, c: Column)
    ensures RowSum(ItemEntries(item, v), year, ColumnFigure(c))
         == if ScopeFactor(item, v.allowed) == 0.0 || ColumnEntry(item, v, c) == []
               || ColumnEntry(item, v, c)[0].year != year then 0.0
            else ColumnEntry(item, v, c)[0].amount
  {
    ItemFigure(item, v, year, ColumnFigure(c));
  }

  lemma ItemUnitBucket(item: CostItem, v: View, year: int, u: UnitId, c: Column)
    ensures ItemUnitBalance(item, Unscoped(v), year, u, c)
         == RowSum(ItemEntries(item, ScopedTo(v, {u})), year, ColumnFigure(c))
  {
    hide Part, ItemUnitBalance, ItemEntries, RowSum, UnitSplit, ScopeShare;
    ItemUnitBalanceValue(item, Unscoped(v), year, u, c);
    ItemFigureOfEntry(item, Unscoped(v), year, c);
    ScopedItemFigure(item, v, {u}, year, ColumnFigure(c));
    var whole := RowSum(ItemEntries(item, Unscoped(v)), year, ColumnFigure(c));
    UnitSplitBalance(item.allocations, 1000.0, whole, c, u);
    PartOfNothing(whole, UnitShare(item.allocations, u), 1000.0);
  }

  lemma {:induction false} UnitBalanceIsOwnScope(items: seq<CostItem>, v: View, year: int, u: UnitId, c: Column)
    ensures UnitBalance(items, Unscoped(v), year, u, c)
         == RowSum(Entries(items, ScopedTo(v, {u})), year, ColumnFigure(c))
  {
    hide ItemEntries;
    if items != [] {
      var front, item := items[..|items| - 1], items[|items| - 1];
      UnitBalanceIsOwnScope(front, v, year, u, c);
      UnitBalanceStep(items, Unscoped(v), year, u, c);
      ItemUnitBucket(item, v, year, u, c);
      RowSumConcat(Entries(front, ScopedTo(v, {u})), ItemEntries(item, ScopedTo(v, {u})), year, ColumnFigure(c));
    }
  }

  /** A unit's bucket in the unscoped row is the total that a caller scoped to that unit alone sees. */
  lemma UnitBucketMeaning(items: seq<CostItem>, v: View, year: int, u: UnitId, c: Column)
    ensures Lookup(StateOf(Entries(items, Unscoped(v)), year, None).byUnit, u).At(c)
         == RowSum(Entries(items, ScopedTo(v, {u})), year, ColumnFigure(c))
  {
    UnitBalanceIsOwnScope(items, v, year, u, c);
    BucketMeaning(YearLedger(Entries(items, Unscoped(v)), year, UnitPoster(None)), u);
  }

  // ---- Status and priority ----

  function Select(items: seq<CostItem>, keep: CostItem -> bool): seq<CostItem> {
    if items == [] then []
    else
      var front, item := Select(items[..|items| - 1], keep), items[|items| - 1];
      if keep(item) then front + [item] else front
  }

  /** `post` puts an entry into bucket `k` in full if its item is selected, and not at all otherwise. */
  ghost predicate Sorts<K(!new)>(post: Entry -> seq<Posting<K>>, k: K, keep: CostItem -> bool) {
    forall e: Entry, c: Column :: Balance(post(e), k, c) == if keep(e.item) && e.column == c then e.amount else 0.0
  }

  lemma {:induction false} SortedLedger<K(!new)>(
    es: seq<Entry>, item: CostItem, year: int, post: Entry -> seq<Posting<K>>, k: K, keep: CostItem -> bool, c: Column)
    requires Sorts(post, k, keep) && forall i :: 0 <= i < |es| ==> es[i].item == item
    ensures Balance(YearLedger(es, year, post), k, c)
         == if keep(item) then RowSum(es, year, ColumnFigure(c)) else 0.0
  {
    if es != [] {
      var n := |es| - 1;
      SortedLedger(es[..n], item, year, post, k, keep, c);
      BalanceConcat(YearLedger(es[..n], year, post), if es[n].year == year then post(es[n]) else [], k, c);
      assert es[n].item == item;
    }
  }

  lemma EntriesOfItem(item: CostItem, v: View)
    ensures forall i :: 0 <= i < |ItemEntries(item, v)| ==> ItemEntries(item, v)[i].item == item
  {
  }

  lemma LedgerStep<K>(items: seq<CostItem>, v: View, year: int, post: Entry -> seq<Posting<K>>, k: K, c: Column)
    requires items != []
    ensures var front, item := items[..|items| - 1], items[|items| - 1];
      Balance(YearLedger(Entries(items, v), year, post), k, c)
      == Balance(YearLedger(Entries(front, v), year, post), k, c)
         + Balance(YearLedger(ItemEntries(item, v), year, post), k, c)
  {
    var es, fs := Entries(items[..|items| - 1], v), ItemEntries(items[|items| - 1], v);
    YearLedgerConcat(es, fs, year, post);
    BalanceConcat(YearLedger(es, year, post), YearLedger(fs, year, post), k, c);
  }

  lemma SelectStep(items: seq<CostItem>, v: View, year: int, keep: CostItem -> bool, f: Figure)
    requires items != []
    ensures var front, item := items[..|items| - 1], items[|items| - 1];
      RowSum(Entries(Select(items, keep), v), year, f)
      == RowSum(Entries(Select(front, keep), v), year, f)
         + if keep(item) then RowSum(ItemEntries(item, v), year, f) else 0.0
  {
    hide ItemEntries, RowSum;
    var front, item := items[..|items| - 1], items[|items| - 1];
    if keep(item) {
      var kept := Select(front, keep);
      assert (kept + [item])[..|kept|] == kept;
      RowSumConcat(Entries(kept, v), ItemEntries(item, v), year, f);
    }
  }

  lemma {:induction false} SelectedTotal<K(!new)>(
    items: seq<CostItem>, v: View, year: int, post: Entry -> seq<Posting<K>>, k: K, keep: CostItem -> bool, c: Column)
    requires Sorts(post, k, keep)
    ensures Balance(YearLedger(Entries(items, v), year, post), k, c)
         == RowSum(Entries(Select(items, keep), v), year, ColumnFigure(c))
  {
    hide Sorts, ItemEntries, ColumnFigure;
    if items != [] {
      var front, item := items[..|items| - 1], items[|items| - 1];
      SelectedTotal(front, v, year, post, k, keep, c);
      EntriesOfItem(item, v);
      SortedLedger(ItemEntries(item, v), item, year, post, k, keep, c);
      SelectStep(items, v, year, keep, ColumnFigure(c));
      LedgerStep(items, v, year, post, k, c);
      hide *;
    }
  }

  /** A status bucket is the total of a timeline over the items of that status alone, scoped or not. */
  lemma StatusBucketMeaning(items: seq<CostItem>, v: View, year: int, status: Status, c: Column)
    ensures Lookup(StateOf(Entries(items, v), year, v.allowed).byStatus, status).At(c)
         == RowSum(Entries(Select(items, (i: CostItem) => i.status == status), v), year, ColumnFigure(c))
  {
    var keep := (i: CostItem) => i.status == status;
    OnePosting(StatusPoster(), status, keep);
    SelectedTotal(items, v, year, StatusPoster(), status, keep, c);
    BucketMeaning(YearLedger(Entries(items, v), year, StatusPoster()), status);
  }

  /** Likewise a priority bucket. */
  lemma PriorityBucketMeaning(items: seq<CostItem>, v: View, year: int, priority: Priority, c: Column)
    ensures Lookup(StateOf(Entries(items, v), year, v.allowed).byPriority, priority).At(c)
         == RowSum(Entries(Select(items, (i: CostItem) => i.priority == priority), v), year, ColumnFigure(c))
  {
    var keep := (i: CostItem) => i.priority == priority;
    OnePosting(PriorityPoster(), priority, keep);
    SelectedTotal(items, v, year, PriorityPoster(), priority, keep, c);
    BucketMeaning(YearLedger(Entries(items, v), year, PriorityPoster()), priority);
  }

  lemma OnePosting<K(!new)>(post: Entry -> seq<Posting<K>>, k: K, keep: CostItem -> bool)
    requires forall e: Entry :: |post(e)| == 1 && post(e)[0].amount == e.amount && post(e)[0].column == e.column
    requires forall e: Entry :: post(e)[0].key == k <==> keep(e.item)
    ensures Sorts(post, k, keep)
  {
    forall e: Entry, c: Column
      ensures Balance(post(e), k, c) == if keep(e.item) && e.column == c then e.amount else 0.0
    {
      assert post(e)[..0] == [];
    }
  }

  // ---- BKP groups ----

  /** The permille of an item that the first `n` effective shares put into group `g`. */
  function GroupShare(item: CostItem, g: string, n: nat): int
    requires n <= |IterBkpShares(item)|
  {
    if n == 0 then 0
    else
      var (code, share) := IterBkpShares(item)[n - 1];
      GroupShare(item, g, n - 1) + if TopGroup(code) == g then share else 0
  }

  lemma {:induction false} GroupBalance(item: CostItem, amount: real, from: Column, g: string, c: Column, n: nat)
    requires n <= |IterBkpShares(item)|
    ensures Balance(BkpPostings(item, amount, from)[..n], g, c)
         == if from == c then Part(amount, GroupShare(item, g, n), 1000.0) else 0.0
  {
    hide Part, TopGroup;
    PartOfNothing(amount, 0, 1000.0);
    if n > 0 {
      GroupBalance(item, amount, from, g, c, n - 1);
      var ps := BkpPostings(item, amount, from);
      assert ps[..n][..n - 1] == ps[..n - 1];
      PartAdds(amount, GroupShare(item, g, n - 1), IterBkpShares(item)[n - 1].1, 1000.0);
    }
  }

  /** The total of a year, each item counted with its share of group `g`. */
  function GroupTotal(items: seq<CostItem>, v: View, year: int, g: string, c: Column): real {
    if items == [] then 0.0
    else
      var item := items[|items| - 1];
      GroupTotal(items[..|items| - 1], v, year, g, c)
      + Part(RowSum(ItemEntries(item, v), year, ColumnFigure(c)), GroupShare(item, g, |IterBkpShares(item)|), 1000.0)
  }

  lemma EntryGroupBalance(e: Entry, year: int, g: string, c: Column)
    ensures Balance(if e.year == year then BkpPostings(e.item, e.amount, e.column) else [], g, c)
         == Part(FigureOf(e, year, ColumnFigure(c)), GroupShare(e.item, g, |IterBkpShares(e.item)|), 1000.0)
  {
    hide Part, BkpPostings, IterBkpShares, GroupShare;
    var n := |IterBkpShares(e.item)|;
    BkpPostingsCount(e.item, e.amount, e.column);
    assert BkpPostings(e.item, e.amount, e.column)[..n] == BkpPostings(e.item, e.amount, e.column);
    GroupBalance(e.item, e.amount, e.column, g, c, n);
    PartOfNothing(0.0, GroupShare(e.item, g, n), 1000.0);
  }

  lemma {:induction false} ItemGroupBalance(es: seq<Entry>, item: CostItem, year: int, g: string, c: Column)
    requires forall i :: 0 <= i < |es| ==> es[i].item == item
    ensures Balance(YearLedger(es, year, BkpPoster()), g, c)
         == Part(RowSum(es, year, ColumnFigure(c)), GroupShare(item, g, |IterBkpShares(item)|), 1000.0)
  {
    hide Part, BkpPostings, IterBkpShares;
    var share := GroupShare(item, g, |IterBkpShares(item)|);
    if es == [] {
      PartOfNothing(0.0, share, 1000.0);
    } else {
      var front, e := es[..|es| - 1], es[|es| - 1];
      assert e.item == item;
      ItemGroupBalance(front, item, year, g, c);
      EntryGroupBalance(e, year, g, c);
      PartOfSum(RowSum(front, year, ColumnFigure(c)), FigureOf(e, year, ColumnFigure(c)), share);
      LastEntry(es, year, g, c);
      hide *;
    }
  }

  lemma LastEntry(es: seq<Entry>, year: int, g: string, c: Column)
    requires es != []
    ensures var front, e := es[..|es| - 1], es[|es| - 1];
      && Balance(YearLedger(es, year, BkpPoster()), g, c)
         == Balance(YearLedger(front, year, BkpPoster()), g, c)
            + Balance(if e.year == year then BkpPostings(e.item, e.amount, e.column) else [], g, c)
      && RowSum(es, year, ColumnFigure(c)) == RowSum(front, year, ColumnFigure(c)) + FigureOf(e, year, ColumnFigure(c))
  {
    hide BkpPostings, FigureOf, Balance;
    var front, e := es[..|es| - 1], es[|es| - 1];
    BalanceConcat(YearLedger(front, year, BkpPoster()),
      if e.year == year then BkpPostings(e.item, e.amount, e.column) else [], g, c);
  }

  lemma BkpPostingsCount(item: CostItem, amount: real, c: Column)
    ensures |BkpPostings(item, amount, c)| == |IterBkpShares(item)|
  {
  }

  lemma PartOfSum(a: real, b: real, share: int)
    ensures Part(a + b, share, 1000.0) == Part(a, share, 1000.0) + Part(b, share, 1000.0)
  {
  }

  lemma {:induction false} GroupBalanceIsTotal(items: seq<CostItem>, v: View, year: int, g: string, c: Column)
    ensures Balance(YearLedger(Entries(items, v), year, BkpPoster()), g, c) == GroupTotal(items, v, year, g, c)
  {
    hide ItemEntries, Part, BkpPoster, RowSum, GroupShare, IterBkpShares;
    if items != [] {
      var front, item := items[..|items| - 1], items[|items| - 1];
      GroupBalanceIsTotal(front, v, year, g, c);
      EntriesOfItem(item, v);
      ItemGroupBalance(ItemEntries(item, v), item, year, g, c);
      LedgerStep(items, v, year, BkpPoster(), g, c);
      assert GroupTotal(items, v, year, g, c) == GroupTotal(front, v, year, g, c)
        + Part(RowSum(ItemEntries(item, v), year, ColumnFigure(c)), GroupShare(item, g, |IterBkpShares(item)|), 1000.0);
      hide *;
    }
  }

  /** A BKP-group bucket holds, of every item, that item's share of the group. */
  lemma GroupBucketMeaning(items: seq<CostItem>, v: View, year: int, g: string, c: Column)
    ensures Lookup(StateOf(Entries(items, v), year, v.allowed).byBkpGroup, g).At(c) == GroupTotal(items, v, year, g, c)
  {
    GroupBalanceIsTotal(items, v, year, g, c);
    BucketMeaning(YearLedger(Entries(items, v), year, BkpPoster()), g);
  }
}
