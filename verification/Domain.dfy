/** The rows shared by the budget, projection and cost-item models. */
module Domain {
  import opened Sums

  datatype Option<+T> = None | Some(value: T) {
    function GetOr(default: T): T {
      if Some? then value else default
    }
  }

  type UnitId = nat
  type ObjectId = nat
  type ProjectId = nat

  datatype Status = Idea | Planned | InProgress | Completed | Cancelled
  datatype Priority = Low | Med | High | Urgent
  datatype Scope = Shared | UnitScope

  datatype Allocation = Allocation(unit: UnitId, share: int)
  datatype BkpAllocation = BkpAllocation(code: string, share: int)
  datatype Unit = Unit(id: UnitId, wertquote: int)

  /** A cost item with its allocation rows. Amounts are whole cents, as the Numeric(12, 2) columns
      store them; of the actual date only the year matters. */
  datatype CostItem = CostItem(
    objectId: ObjectId,
    projectId: Option<ProjectId>,
    bkpCode: Option<string>,
    bkpAllocations: seq<BkpAllocation>,
    allocations: seq<Allocation>,
    scope: Scope,
    status: Status,
    priority: Priority,
    plannedYear: Option<int>,
    plannedAmount: Option<int>,
    actualAmount: Option<int>,
    actualYear: Option<int>)

  const TOTAL_PERMILLE := 1000

  function Shares(allocations: seq<Allocation>): (shares: seq<int>)
    ensures |shares| == |allocations|
  {
    seq(|allocations|, i requires 0 <= i < |allocations| => allocations[i].share)
  }

  function BkpPermilles(allocations: seq<BkpAllocation>): (shares: seq<int>)
    ensures |shares| == |allocations|
  {
    seq(|allocations|, i requires 0 <= i < |allocations| => allocations[i].share)
  }

  /** A complete split of the whole into permille values. */
  predicate PermilleSplit(values: seq<int>) {
    && (forall i :: 0 <= i < |values| ==> 0 <= values[i] <= TOTAL_PERMILLE)
    && Sum(values) == TOTAL_PERMILLE
  }

  datatype Verdict = Accepted | EmptyList | OutOfRange | WrongSum(total: int)

  /** validate_wertquoten_sum and validate_allocation_sum: one check, two error classes. */
  function ValidateSplit(values: seq<int>): (r: Verdict)
    ensures r.Accepted? <==> PermilleSplit(values)
  {
    if values == [] then EmptyList
    else if exists i :: 0 <= i < |values| && !(0 <= values[i] <= TOTAL_PERMILLE) then OutOfRange
    else if Sum(values) != TOTAL_PERMILLE then WrongSum(Sum(values))
    else Accepted
  }

  /** validate_bkp_allocation_sum: an empty list means "no split" and passes. */
  function ValidateBkpSplit(values: seq<int>): (r: Verdict)
    ensures r.Accepted? <==> values == [] || PermilleSplit(values)
  {
    if values == [] then Accepted else ValidateSplit(values)
  }

  /** iter_bkp_shares: allocation rows first, else the single code, else the uncategorised sentinel. */
  function IterBkpShares(item: CostItem): seq<(Option<string>, int)> {
    if item.bkpAllocations != [] then
      seq(|item.bkpAllocations|, i requires 0 <= i < |item.bkpAllocations| =>
        (Some(item.bkpAllocations[i].code), item.bkpAllocations[i].share))
    else if item.bkpCode.Some? && item.bkpCode.value != "" then [(item.bkpCode, TOTAL_PERMILLE)]
    else [(None, TOTAL_PERMILLE)]
  }

  function EffectiveBkpPermilles(item: CostItem): (shares: seq<int>)
    ensures |shares| == |IterBkpShares(item)|
  {
    var rows := IterBkpShares(item);
    seq(|rows|, i requires 0 <= i < |rows| => rows[i].1)
  }

  /** Whatever shape the attribution has, the effective shares are a complete split
      exactly when the stored rows are absent or a complete split themselves. */
  lemma EffectiveSharesSplit(item: CostItem)
    ensures PermilleSplit(EffectiveBkpPermilles(item))
       <==> item.bkpAllocations == [] || PermilleSplit(BkpPermilles(item.bkpAllocations))
  {
    if item.bkpAllocations != [] {
      assert EffectiveBkpPermilles(item) == BkpPermilles(item.bkpAllocations);
    } else {
      WholeIsSplit();
      assert EffectiveBkpPermilles(item) == [TOTAL_PERMILLE];
    }
    hide *;
  }

  lemma WholeIsSplit()
    ensures PermilleSplit([TOTAL_PERMILLE])
  {
    SumAppend([], TOTAL_PERMILLE);
    assert [] + [TOTAL_PERMILLE] == [TOTAL_PERMILLE];
  }

  /** What the cost-item store maintains for every item (see module CostItems). */
  predicate WellSplit(item: CostItem) {
    && PermilleSplit(Shares(item.allocations))
    && PermilleSplit(EffectiveBkpPermilles(item))
  }

  predicate NonNegativeAmounts(item: CostItem) {
    && (item.plannedAmount.Some? ==> item.plannedAmount.value >= 0)
    && (item.actualAmount.Some? ==> item.actualAmount.value >= 0)
  }

  /** The part of `allocations` that falls on units in `scope`. */
  function InScope(allocations: seq<Allocation>, scope: set<UnitId>): seq<Allocation> {
    if allocations == [] then []
    else
      var a := allocations[|allocations| - 1];
      var front := InScope(allocations[..|allocations| - 1], scope);
      if a.unit in scope then front + [a] else front
  }

  function ScopeShare(allocations: seq<Allocation>, scope: set<UnitId>): int {
    Sum(Shares(InScope(allocations, scope)))
  }

  function PartInScope(a: Allocation, scope: set<UnitId>): int {
    if a.unit in scope then a.share else 0
  }

  lemma SharesAppend(allocations: seq<Allocation>, a: Allocation)
    ensures Shares(allocations + [a]) == Shares(allocations) + [a.share]
    ensures Sum(Shares(allocations + [a])) == Sum(Shares(allocations)) + a.share
  {
    assert Shares(allocations + [a]) == Shares(allocations) + [a.share];
    SumAppend(Shares(allocations), a.share);
  }

  lemma ScopeShareLast(allocations: seq<Allocation>, scope: set<UnitId>)
    requires allocations != []
    ensures ScopeShare(allocations, scope)
         == ScopeShare(allocations[..|allocations| - 1], scope) + PartInScope(allocations[|allocations| - 1], scope)
  {
    var n := |allocations| - 1;
    SharesAppend(InScope(allocations[..n], scope), allocations[n]);
  }

  predicate Covered(unit: UnitId, scopes: seq<set<UnitId>>) {
    exists i :: 0 <= i < |scopes| && unit in scopes[i]
  }

  /** Disjoint scopes that together cover a list of allocations. */
  predicate Partition(allocations: seq<Allocation>, scopes: seq<set<UnitId>>) {
    && (forall i, j :: 0 <= i < j < |scopes| ==> scopes[i] !! scopes[j])
    && (forall k :: 0 <= k < |allocations| ==> Covered(allocations[k].unit, scopes))
  }

  function ScopeShares(allocations: seq<Allocation>, scopes: seq<set<UnitId>>): seq<int> {
    seq(|scopes|, i requires 0 <= i < |scopes| => ScopeShare(allocations, scopes[i]))
  }

  lemma {:induction false} SumBump(xs: seq<int>, ys: seq<int>, i: nat, d: int)
    requires i < |xs| == |ys|
    requires forall j :: 0 <= j < |xs| ==> ys[j] == xs[j] + if j == i then d else 0
    ensures Sum(ys) == Sum(xs) + d
    decreases |xs|
  {
    var n := |xs| - 1;
    if i == n {
      assert ys[..n] == xs[..n];
    } else {
      SumBump(xs[..n], ys[..n], i, d);
    }
  }

  lemma {:induction false} SumZeros(xs: seq<int>)
    requires forall i :: 0 <= i < |xs| ==> xs[i] == 0
    ensures Sum(xs) == 0
  {
    if xs != [] { SumZeros(xs[..|xs| - 1]); }
  }

  lemma OnlyScope(scopes: seq<set<UnitId>>, i: nat, j: nat, unit: UnitId)
    requires forall i, j :: 0 <= i < j < |scopes| ==> scopes[i] !! scopes[j]
    requires i < |scopes| && j < |scopes| && unit in scopes[i]
    ensures unit in scopes[j] <==> i == j
  {
    assert i < j ==> scopes[i] !! scopes[j];
    assert j < i ==> scopes[j] !! scopes[i];
  }

  /** A unit of a partition lies in exactly one scope, so only that scope's share grows. */
  lemma PartitionStep(front: seq<Allocation>, a: Allocation, scopes: seq<set<UnitId>>)
    requires Partition(front + [a], scopes)
    ensures Sum(ScopeShares(front + [a], scopes)) == Sum(ScopeShares(front, scopes)) + a.share
  {
    assert (front + [a])[|front|] == a && (front + [a])[..|front|] == front;
    assert Covered(a.unit, scopes);
    var i :| 0 <= i < |scopes| && a.unit in scopes[i];
    var before := ScopeShares(front, scopes);
    forall j | 0 <= j < |scopes|
      ensures ScopeShare(front + [a], scopes[j]) == before[j] + if j == i then a.share else 0
    {
      hide ScopeShare;
      ScopeShareLast(front + [a], scopes[j]);
      OnlyScope(scopes, i, j, a.unit);
    }
    SumBump(before, ScopeShares(front + [a], scopes), i, a.share);
  }

  /** The scopes' shares of one list add up to the whole list. */
  lemma {:induction false} PartitionShares(allocations: seq<Allocation>, scopes: seq<set<UnitId>>)
    requires Partition(allocations, scopes)
    ensures Sum(ScopeShares(allocations, scopes)) == Sum(Shares(allocations))
  {
    if allocations == [] {
      SumZeros(ScopeShares(allocations, scopes));
    } else {
      var front, a := allocations[..|allocations| - 1], allocations[|allocations| - 1];
      assert allocations == front + [a];
      assert forall k :: 0 <= k < |front| ==> front[k] == allocations[k];
      PartitionShares(front, scopes);
      PartitionStep(front, a, scopes);
      SharesAppend(front, a);
    }
  }

  /** A scope's share of a non-negative list lies between nothing and the whole. */
  lemma {:induction false} ScopeShareBounds(allocations: seq<Allocation>, scope: set<UnitId>)
    requires forall i :: 0 <= i < |allocations| ==> allocations[i].share >= 0
    ensures 0 <= ScopeShare(allocations, scope) <= Sum(Shares(allocations))
  {
    if allocations != [] {
      var n := |allocations| - 1;
      ScopeShareBounds(allocations[..n], scope);
      ScopeShareLast(allocations, scope);
      assert allocations == allocations[..n] + [allocations[n]];
      SharesAppend(allocations[..n], allocations[n]);
    }
  }

  /** The units of an object with their Wertquoten, read as a split. */
  function WertquotenSplit(units: seq<Unit>): (split: seq<Allocation>)
    ensures |split| == |units|
  {
    seq(|units|, i requires 0 <= i < |units| => Allocation(units[i].id, units[i].wertquote))
  }
}
