/** What the calls of the cost-item store do to the stored columns, and when they are accepted. */
module CostItemMeaning {
  import opened CostItemLaws
  import opened CostItems
  import opened Domain
  import opened Sums

  /** The rest of the store after a call that concerns item `id`. */
  ghost predicate OthersSame(s: Store, t: Store, id: ItemId) {
    && (forall k :: k != id ==> (k in t.items <==> k in s.items) && (k in s.items ==> t.items[k] == s.items[k]))
    && t.units == s.units && t.projects == s.projects && t.catalogue == s.catalogue
  }

  /** The stored row is the payload, column by column; left-out allocations are the object's Wertquoten. */
  predicate StoredAs(s: Store, o: ObjectId, p: Create, item: CostItem) {
    && item.objectId == o
    && item.projectId == p.projectId
    && item.bkpCode == p.bkpCode
    && item.scope == p.scope
    && item.status == p.status
    && item.priority == p.priority
    && item.plannedYear == p.plannedYear
    && item.plannedAmount == p.plannedAmount
    && item.actualAmount == p.actualAmount
    && item.actualYear == p.actualYear
    && item.bkpAllocations == p.bkpAllocations.GetOr([])
    && (p.allocations.Some? ==> item.allocations == p.allocations.value)
    && (p.allocations.None? ==>
         && o in s.units && |item.allocations| == |s.units[o]|
         && forall i :: 0 <= i < |s.units[o]| ==> item.allocations[i] == Allocation(s.units[o][i].id, s.units[o][i].wertquote))
  }

  /** Create then get: the creator reads back the payload, and no other row has changed. */
  lemma CreateRoundTrip(s: Store, id: ItemId, o: ObjectId, access: Access, p: Create)
    requires Inv(s) && Step(s, CreateItem(id, o, access, p)).Ok?
    ensures var t := Step(s, CreateItem(id, o, access, p)).value;
      && id !in s.items
      && GetItem(t, o, id, access).Ok? && StoredAs(s, o, p, GetItem(t, o, id, access).value)
      && OthersSame(s, t, id)
  {
    WrittenItemStaysVisible(s, CreateItem(id, o, access, p));
    ResolvedIsProvided(s.catalogue, p.bkpAllocations);
  }

  /** A column after a patch: a sent value wins, null clears, an absent field keeps the old value. */
  predicate Taken<T(==)>(f: Field<T>, old_: Option<T>, new_: Option<T>) {
    match f
    case Absent => new_ == old_
    case Null => new_ == None
    case Value(v) => new_ == Some(v)
  }

  /** A column that cannot be null. */
  predicate TakenAlways<T(==)>(f: Field<T>, old_: T, new_: T) {
    match f
    case Absent => new_ == old_
    case Null => false
    case Value(v) => new_ == v
  }

  /** The patched row, column by column. A split sent without a word on the code clears the code. */
  predicate PatchedAs(p: Patch, was: CostItem, now: CostItem) {
    && now.objectId == was.objectId
    && Taken(p.projectId, was.projectId, now.projectId)
    && TakenAlways(p.scope, was.scope, now.scope)
    && TakenAlways(p.status, was.status, now.status)
    && TakenAlways(p.priority, was.priority, now.priority)
    && Taken(p.plannedYear, was.plannedYear, now.plannedYear)
    && Taken(p.plannedAmount, was.plannedAmount, now.plannedAmount)
    && Taken(p.actualAmount, was.actualAmount, now.actualAmount)
    && Taken(p.actualYear, was.actualYear, now.actualYear)
    && now.allocations == p.allocations.GetOr(was.allocations)
    && now.bkpAllocations == p.bkpAllocations.GetOr(was.bkpAllocations)
    && (if p.bkpCode.Absent? && p.bkpAllocations.GetOr([]) != [] then now.bkpCode == None
        else Taken(p.bkpCode, was.bkpCode, now.bkpCode))
  }

  lemma UpdatedColumns(s: Store, o: ObjectId, id: ItemId, access: Access, p: Patch)
    requires UpdatedItem(s, o, id, access, p).Ok?
    ensures id in s.items && PatchedAs(p, s.items[id], UpdatedItem(s, o, id, access, p).value)
  {
    hide PermilleSplit, DatabaseAccepts, Touches;
    ResolvedIsProvided(s.catalogue, p.bkpAllocations);
  }

  /** Patch then get: the patcher reads back each column as sent, and no other row has changed. */
  lemma UpdateRoundTrip(s: Store, id: ItemId, o: ObjectId, access: Access, p: Patch)
    requires Inv(s) && Step(s, UpdateItem(id, o, access, p)).Ok?
    ensures var t := Step(s, UpdateItem(id, o, access, p)).value;
      && id in s.items && GetItem(t, o, id, access).Ok? && OthersSame(s, t, id)
      && PatchedAs(p, s.items[id], GetItem(t, o, id, access).value)
  {
    hide Inv, PatchedAs, UpdatedItem, Touches;
    WrittenItemStaysVisible(s, UpdateItem(id, o, access, p));
    UpdatedColumns(s, o, id, access, p);
  }

  /** A deleted item is gone, and nothing else. */
  lemma DeleteRemovesOne(s: Store, id: ItemId, o: ObjectId, access: Access)
    requires Step(s, DeleteItem(id, o, access)).Ok?
    ensures var t := Step(s, DeleteItem(id, o, access)).value; id in s.items && id !in t.items && OthersSame(s, t, id)
  {
  }

  // ---- Who may ----

  predicate Visible(item: CostItem, allowed: Option<set<UnitId>>) {
    match allowed
    case None => true
    case Some(scope) => exists i :: 0 <= i < |item.allocations| && item.allocations[i].unit in scope
  }

  /** Viewers change nothing. Editors and owners get at exactly the items of the object that have an allocation in
      their scope; to anyone else the others are missing. */
  lemma AccessDecides(s: Store, id: ItemId, o: ObjectId, access: Access, p: Create, q: Patch)
    ensures access.role == Viewer ==>
      && Step(s, CreateItem(id, o, access, p)) == Err(PermissionDenied)
      && Step(s, UpdateItem(id, o, access, q)) == Err(PermissionDenied)
      && Step(s, DeleteItem(id, o, access)) == Err(PermissionDenied)
    ensures GetItem(s, o, id, access).Ok?
       <==> id in s.items && s.items[id].objectId == o && Visible(s.items[id], access.allowed)
    ensures GetItem(s, o, id, access).Ok? ==> GetItem(s, o, id, access).value == s.items[id]
    ensures GetItem(s, o, id, access).Err? ==> GetItem(s, o, id, access).error == NotFound
    ensures access.role != Viewer ==>
      && (Step(s, DeleteItem(id, o, access)).Ok? <==> GetItem(s, o, id, access).Ok?)
      && (GetItem(s, o, id, access).Err? ==> Step(s, UpdateItem(id, o, access, q)) == Err(NotFound))
  {
  }

  predicate KnownCodes(catalogue: set<string>, rows: seq<BkpAllocation>) {
    forall i :: 0 <= i < |rows| ==> rows[i].code in catalogue
  }

  /** The demands on a sent unit split, or on leaving it out. */
  predicate GoodSplit(units: seq<Unit>, scope: Scope, sent: Option<seq<Allocation>>) {
    match sent
    case None => scope == Shared && units != []
    case Some(rows) =>
      PermilleSplit(Shares(rows)) && forall i :: 0 <= i < |rows| ==> BelongsTo(rows[i].unit, units)
  }

  predicate GoodBkpSplit(catalogue: set<string>, sent: Option<seq<BkpAllocation>>) {
    sent.GetOr([]) == [] || (PermilleSplit(BkpPermilles(sent.value)) && KnownCodes(catalogue, sent.value))
  }

  predicate GoodProject(projects: map<ProjectId, ObjectId>, o: ObjectId, project: Option<ProjectId>) {
    project.None? || (project.value in projects && projects[project.value] == o)
  }

  /** The first demand that a creation fails, if any. */
  function CreateFault(s: Store, o: ObjectId, access: Access, p: Create, item: CostItem): Option<Error>
    requires o in s.units
  {
    if access.role == Viewer then Some(PermissionDenied)
    else if p.bkpCode.Some? && p.bkpCode.value !in s.catalogue then Some(UnknownBkpCode)
    else if !GoodBkpSplit(s.catalogue, p.bkpAllocations) then Some(BkpFault(p.bkpAllocations.GetOr([])))
    else if !GoodSplit(s.units[o], p.scope, p.allocations) then Some(InvalidAllocation)
    else if !Visible(item, access.allowed) then Some(ScopeViolation)
    else if !GoodProject(s.projects, o, p.projectId) then Some(UnknownProject)
    else if p.plannedAmount.None? && p.actualAmount.None? then Some(IntegrityError)
    else if p.plannedAmount.GetOr(0) < 0 || p.actualAmount.GetOr(0) < 0 then Some(IntegrityError)
    else None
  }

  function BkpFault(rows: seq<BkpAllocation>): Error {
    if PermilleSplit(BkpPermilles(rows)) then UnknownBkpCode else InvalidAllocation
  }

  /** An item is created exactly when the caller may edit, every code, split, unit and project is in order, some unit
      is in the caller's scope, there is an amount, and no amount is negative; else the first fault is raised. */
  lemma CreateDecides(s: Store, id: ItemId, o: ObjectId, access: Access, p: Create, item: CostItem)
    requires o in s.units && id !in s.items && StoredAs(s, o, p, item)
    requires DistinctUnits(item.allocations) && DistinctCodes(item.bkpAllocations)
    ensures var r := Step(s, CreateItem(id, o, access, p));
      if CreateFault(s, o, access, p, item).None? then r.Ok? else r == Err(CreateFault(s, o, access, p, item).value)
  {
    hide PermilleSplit;
    ResolvedIsProvided(s.catalogue, p.bkpAllocations);
    BkpResolution(s.catalogue, p.bkpAllocations);
    UnitResolution(s.units[o], p.scope, p.allocations);
    if GoodSplit(s.units[o], p.scope, p.allocations) {
      assert item.allocations == ResolveAllocations(s.units[o], p.scope, p.allocations).value;
    }
    hide ResolveAllocations, ResolveBkpAllocations, GoodSplit, GoodBkpSplit, BkpFault;
  }

  /** The first demand that a patch of a visible item fails, if any. `now` is the patched row. */
  function UpdateFault(s: Store, o: ObjectId, access: Access, p: Patch, now: CostItem): Option<Error>
    requires o in s.units
  {
    if p.bkpCode.Value? && p.bkpCode.v !in s.catalogue then Some(UnknownBkpCode)
    else if p.projectId.Value? && !GoodProject(s.projects, o, Some(p.projectId.v)) then Some(UnknownProject)
    else if !GoodBkpSplit(s.catalogue, p.bkpAllocations) then Some(BkpFault(p.bkpAllocations.GetOr([])))
    else if p.bkpAllocations.GetOr([]) != [] && p.bkpCode.Value? then Some(InvalidAllocation)
    else if now.plannedAmount.None? && now.actualAmount.None? then Some(InvalidAllocation)
    else if p.allocations.Some? && !GoodSplit(s.units[o], now.scope, p.allocations) then Some(InvalidAllocation)
    else if p.allocations.Some? && !Visible(now, access.allowed) then Some(ScopeViolation)
    else if p.scope.Null? || p.status.Null? || p.priority.Null? then Some(IntegrityError)
    else if now.plannedAmount.GetOr(0) < 0 || now.actualAmount.GetOr(0) < 0 then Some(IntegrityError)
    else None
  }

  /** The columns of the patched row that the demands look at: `UpdateRoundTrip` fixes each column of it when it is accepted. */
  predicate PatchedRow(was: CostItem, p: Patch, now: CostItem) {
    && Taken(p.plannedAmount, was.plannedAmount, now.plannedAmount)
    && Taken(p.actualAmount, was.actualAmount, now.actualAmount)
    && (p.scope.Null? || TakenAlways(p.scope, was.scope, now.scope))
    && now.allocations == p.allocations.GetOr(was.allocations)
    && now.bkpAllocations == p.bkpAllocations.GetOr(was.bkpAllocations)
  }

  /** A patch of a visible item is accepted exactly without such a fault; else the first one is raised. */
  lemma UpdateDecides(s: Store, id: ItemId, o: ObjectId, access: Access, p: Patch, now: CostItem)
    requires o in s.units && access.role != Viewer && GetItem(s, o, id, access).Ok?
    requires PatchedRow(s.items[id], p, now)
    requires DistinctUnits(now.allocations) && DistinctCodes(now.bkpAllocations)
    ensures var r := Step(s, UpdateItem(id, o, access, p));
      if UpdateFault(s, o, access, p, now).None? then r.Ok? else r == Err(UpdateFault(s, o, access, p, now).value)
  {
    hide PermilleSplit;
    ResolvedIsProvided(s.catalogue, p.bkpAllocations);
    BkpResolution(s.catalogue, p.bkpAllocations);
    var scope := Merged(s.items[id], p).scope;
    UnitResolution(s.units[o], scope, p.allocations);
    assert p.allocations.Some? ==> (GoodSplit(s.units[o], scope, p.allocations) <==> GoodSplit(s.units[o], now.scope, p.allocations));
    SentSplitIsStored(s.units[o], scope, p.allocations);
    hide ResolveAllocations, ResolveBkpAllocations, GoodSplit, GoodBkpSplit, BkpFault;
  }

  lemma SentSplitIsStored(units: seq<Unit>, scope: Scope, sent: Option<seq<Allocation>>)
    ensures sent.Some? && ResolveAllocations(units, scope, sent).Ok? ==> ResolveAllocations(units, scope, sent).value == sent.value
    ensures ResolveAllocations(units, scope, sent).Err? ==> ResolveAllocations(units, scope, sent).error == InvalidAllocation
  {
    hide PermilleSplit;
  }

  lemma BkpResolution(catalogue: set<string>, sent: Option<seq<BkpAllocation>>)
    ensures ResolveBkpAllocations(catalogue, sent).Ok? <==> GoodBkpSplit(catalogue, sent)
    ensures !GoodBkpSplit(catalogue, sent) ==> ResolveBkpAllocations(catalogue, sent) == Err(BkpFault(sent.GetOr([])))
  {
    hide PermilleSplit;
  }

  lemma UnitResolution(units: seq<Unit>, scope: Scope, sent: Option<seq<Allocation>>)
    ensures ResolveAllocations(units, scope, sent).Ok? <==> GoodSplit(units, scope, sent)
    ensures !GoodSplit(units, scope, sent) ==> ResolveAllocations(units, scope, sent) == Err(InvalidAllocation)
    ensures sent.None? && GoodSplit(units, scope, sent) ==>
      ResolveAllocations(units, scope, sent).value == WertquotenSplit(units)
  {
    hide PermilleSplit;
  }

  // ---- What is stored ----

  /** What the invariant means for a stored item, in plain terms: no unit and no code twice, every permille between 0
      and 1000, both splits summing to 1000, units and project of the item's own object, known codes, an amount, and
      none below zero. */
  lemma StoredItemsAreSound(s: Store, id: ItemId)
    requires Inv(s) && id in s.items
    ensures var item := s.items[id]; var rows, codes := item.allocations, item.bkpAllocations;
      && item.objectId in s.units
      && (forall i, j :: 0 <= i < j < |rows| ==> rows[i].unit != rows[j].unit)
      && (forall i :: 0 <= i < |rows| ==> 0 <= rows[i].share <= 1000)
      && Sum(seq(|rows|, i requires 0 <= i < |rows| => rows[i].share)) == 1000
      && (forall i :: 0 <= i < |rows| ==>
           exists k :: 0 <= k < |s.units[item.objectId]| && s.units[item.objectId][k].id == rows[i].unit)
      && (forall i, j :: 0 <= i < j < |codes| ==> codes[i].code != codes[j].code)
      && (forall i :: 0 <= i < |codes| ==> 0 <= codes[i].share <= 1000 && codes[i].code in s.catalogue)
      && (codes != [] ==> Sum(seq(|codes|, i requires 0 <= i < |codes| => codes[i].share)) == 1000)
      && (item.bkpCode.Some? ==> item.bkpCode.value in s.catalogue)
      && (item.projectId.Some? ==> item.projectId.value in s.projects && s.projects[item.projectId.value] == item.objectId)
      && (item.plannedAmount.Some? || item.actualAmount.Some?)
      && item.plannedAmount.GetOr(0) >= 0 && item.actualAmount.GetOr(0) >= 0
  {
    var item := s.items[id];
    assert ItemInv(s, item);
    EffectiveSharesSplit(item);
    assert Shares(item.allocations) == seq(|item.allocations|, i requires 0 <= i < |item.allocations| => item.allocations[i].share);
    assert BkpPermilles(item.bkpAllocations)
        == seq(|item.bkpAllocations|, i requires 0 <= i < |item.bkpAllocations| => item.bkpAllocations[i].share);
    forall i | 0 <= i < |item.allocations|
      ensures 0 <= item.allocations[i].share <= 1000
      ensures exists k :: 0 <= k < |s.units[item.objectId]| && s.units[item.objectId][k].id == item.allocations[i].unit
    {
      assert Shares(item.allocations)[i] == item.allocations[i].share;
      assert BelongsTo(item.allocations[i].unit, s.units[item.objectId]);
    }
    forall i | 0 <= i < |item.bkpAllocations| ensures 0 <= item.bkpAllocations[i].share <= 1000 {
      assert BkpPermilles(item.bkpAllocations)[i] == item.bkpAllocations[i].share;
    }
  }

  // ---- Objects, units and projects ----

  /** Creating or replacing units stores exactly the units sent, and touches no other object; of the items only the
      allocations on deleted units go, and of a deleted project only the links. */
  lemma OtherStepsKeepColumns(s: Store, op: Op, id: ItemId)
    requires (op.CreateObject? || op.ReplaceUnits? || op.CreateProject? || op.DeleteProject?) && Step(s, op).Ok?
    ensures var t := Step(s, op).value;
      && (id in t.items <==> id in s.items)
      && (id in s.items ==>
           && t.items[id] == s.items[id].(allocations := t.items[id].allocations, projectId := t.items[id].projectId)
           && (!op.ReplaceUnits? ==> t.items[id].allocations == s.items[id].allocations)
           && t.items[id].projectId
              == (if op.DeleteProject? && s.items[id].projectId == Some(op.project) then None else s.items[id].projectId))
      && (op.CreateObject? || op.ReplaceUnits? ==> t.units == s.units[op.objectId := op.units] && t.projects == s.projects)
      && (op.CreateProject? ==> t.units == s.units && t.projects == s.projects[op.project := op.objectId])
      && (op.DeleteProject? ==> t.units == s.units && t.projects == s.projects - {op.project})
  {
  }

  /** Units are accepted exactly as a complete split, for a single-family house as one unit of 1000 permille. */
  lemma UnitsDecide(s: Store, o: ObjectId, isSfh: bool, units: seq<Unit>)
    requires o in s.units && FreshUnits(s, units)
    ensures Step(s, ReplaceUnits(o, isSfh, units)).Ok?
       <==> PermilleSplit(Shares(WertquotenSplit(units))) && (isSfh ==> |units| == 1 && units[0].wertquote == 1000)
  {
  }
}
