/** The invariant of the cost-item store, and where it ends. */
module CostItemLaws {
  import opened Budgets
  import opened BudgetLaws
  import opened CostItems
  import opened Domain

  /** Allocations are distinct units of the item's object and a complete split, the effective BKP shares are
      a complete split over known codes, the project is one of the object, and there is an amount. */
  predicate ItemInv(s: Store, item: CostItem) {
    && item.objectId in s.units
    && (forall i :: 0 <= i < |item.allocations| ==> BelongsTo(item.allocations[i].unit, s.units[item.objectId]))
    && WellSplit(item)
    && DatabaseAccepts(item)
    && (item.projectId.Some? ==> InObject(s.projects, item.objectId, item.projectId.value))
    && (item.bkpCode.Some? ==> item.bkpCode.value in s.catalogue)
    && (forall i :: 0 <= i < |item.bkpAllocations| ==> item.bkpAllocations[i].code in s.catalogue)
  }

  /** Wertquoten are a complete split over distinct units, and no unit belongs to two objects. */
  predicate ObjectInv(s: Store, o: ObjectId)
    requires o in s.units
  {
    && PermilleSplit(Shares(WertquotenSplit(s.units[o])))
    && (forall i, j :: 0 <= i < j < |s.units[o]| ==> s.units[o][i].id != s.units[o][j].id)
  }

  ghost predicate Inv(s: Store) {
    && (forall o :: o in s.units ==> ObjectInv(s, o))
    && (forall o, p, u :: o in s.units && p in s.units && BelongsTo(u, s.units[o]) && BelongsTo(u, s.units[p]) ==> o == p)
    && (forall id :: id in s.items ==> ItemInv(s, s.items[id]))
  }

  // ---- Single calls ----

  /** The auto-filled split is valid because the Wertquoten are: nothing else checks it. */
  lemma AutoFillIsValid(s: Store, o: ObjectId)
    requires o in s.units && ObjectInv(s, o)
    ensures var split := WertquotenSplit(s.units[o]);
      && PermilleSplit(Shares(split)) && DistinctUnits(split) && split != []
      && (forall i :: 0 <= i < |split| ==> BelongsTo(split[i].unit, s.units[o]))
      && ResolveAllocations(s.units[o], Shared, None) == Ok(split)
  {
    assert |Shares(WertquotenSplit(s.units[o]))| == |s.units[o]|;
    forall i | 0 <= i < |s.units[o]|
      ensures BelongsTo(WertquotenSplit(s.units[o])[i].unit, s.units[o])
    {
      assert s.units[o][i].id == WertquotenSplit(s.units[o])[i].unit;
    }
  }

  lemma ResolvedRows(s: Store, o: ObjectId, scope: Scope, provided: Option<seq<Allocation>>)
    requires o in s.units && ObjectInv(s, o)
    requires ResolveAllocations(s.units[o], scope, provided).Ok?
    ensures var rows := ResolveAllocations(s.units[o], scope, provided).value;
      && PermilleSplit(Shares(rows))
      && forall i :: 0 <= i < |rows| ==> BelongsTo(rows[i].unit, s.units[o])
  {
    if provided.None? { AutoFillIsValid(s, o); }
  }

  lemma ResolvedBkpRows(catalogue: set<string>, provided: Option<seq<BkpAllocation>>)
    requires ResolveBkpAllocations(catalogue, provided).Ok?
    ensures var rows := ResolveBkpAllocations(catalogue, provided).value;
      && (rows == [] || PermilleSplit(BkpPermilles(rows)))
      && forall i :: 0 <= i < |rows| ==> rows[i].code in catalogue
  {
  }

  lemma CreatedItemIsValid(s: Store, o: ObjectId, access: Access, p: Create)
    requires Inv(s) && CreatedItem(s, o, access, p).Ok?
    ensures ItemInv(s, CreatedItem(s, o, access, p).value)
    ensures Touches(CreatedItem(s, o, access, p).value.allocations, access.allowed)
  {
    hide PermilleSplit;
    assert ObjectInv(s, o);
    ResolvedBkpRows(s.catalogue, p.bkpAllocations);
    ResolvedRows(s, o, p.scope, p.allocations);
    EffectiveSharesSplit(CreatedItem(s, o, access, p).value);
  }

  lemma UpdatedItemIsValid(s: Store, o: ObjectId, id: ItemId, access: Access, p: Patch)
    requires Inv(s) && UpdatedItem(s, o, id, access, p).Ok?
    ensures ItemInv(s, UpdatedItem(s, o, id, access, p).value)
    ensures Touches(UpdatedItem(s, o, id, access, p).value.allocations, access.allowed)
    ensures UpdatedItem(s, o, id, access, p).value.objectId == o
  {
    hide PermilleSplit;
    var before, after := s.items[id], UpdatedItem(s, o, id, access, p).value;
    assert ItemInv(s, before) && ObjectInv(s, o);
    ResolvedBkpRows(s.catalogue, p.bkpAllocations);
    if p.allocations.Some? { ResolvedRows(s, o, after.scope, p.allocations); }
    EffectiveSharesSplit(before);
    EffectiveSharesSplit(after);
  }

  /** What a scoped editor has just written, the same editor can fetch. */
  lemma WrittenItemStaysVisible(s: Store, op: Op)
    requires Inv(s) && (op.CreateItem? || op.UpdateItem?) && Step(s, op).Ok?
    ensures GetItem(Step(s, op).value, op.objectId, op.id, op.access).Ok?
  {
    if op.CreateItem? {
      CreatedItemIsValid(s, op.objectId, op.access, op.payload);
    } else {
      UpdatedItemIsValid(s, op.objectId, op.id, op.access, op.patch);
    }
  }

  // ---- The invariant over runs ----

  /** No cost item hangs on the object whose units are replaced. */
  predicate NoItemsOn(s: Store, o: ObjectId) {
    forall id :: id in s.items ==> s.items[id].objectId != o
  }

  lemma {:induction false} NothingLeft(rows: seq<Allocation>, gone: seq<Unit>)
    ensures (forall i :: 0 <= i < |rows| ==> BelongsTo(rows[i].unit, gone)) ==> WithoutUnits(rows, gone) == []
    ensures (forall i :: 0 <= i < |rows| ==> !BelongsTo(rows[i].unit, gone)) ==> WithoutUnits(rows, gone) == rows
  {
    if rows != [] { NothingLeft(rows[1..], gone); }
  }

  lemma UnitsStepKeepsObjects(s: Store, o: ObjectId, units: seq<Unit>)
    requires Inv(s) && FreshUnits(s, units) && PermilleSplit(Shares(WertquotenSplit(units)))
    ensures var t := s.(units := s.units[o := units]);
      && (forall p :: p in t.units ==> ObjectInv(t, p))
      && (forall p, q, u :: p in t.units && q in t.units && BelongsTo(u, t.units[p]) && BelongsTo(u, t.units[q]) ==> p == q)
  {
    hide PermilleSplit;
    var t := s.(units := s.units[o := units]);
    forall p | p in t.units ensures ObjectInv(t, p) {
      if p != o { assert ObjectInv(s, p); }
    }
    assert forall p, i :: p in s.units && 0 <= i < |units| ==> !BelongsTo(units[i].id, s.units[p]);
    assert forall p, u :: p in s.units && BelongsTo(u, s.units[p]) ==> !BelongsTo(u, units);
  }

  /** Replacing the units of an object deletes every allocation of its items, so the split survives
      exactly when there are none: the one step of the store that is not safe by itself. */
  lemma ReplaceUnitsExactly(s: Store, o: ObjectId, isSfh: bool, units: seq<Unit>)
    requires Inv(s) && Step(s, ReplaceUnits(o, isSfh, units)).Ok?
    ensures Inv(Step(s, ReplaceUnits(o, isSfh, units)).value) <==> NoItemsOn(s, o)
  {
    hide PermilleSplit;
    var t := Step(s, ReplaceUnits(o, isSfh, units)).value;
    UnitsStepKeepsObjects(s, o, units);
    forall p | p in t.units ensures ObjectInv(t, p) {
      assert ObjectInv(s.(units := s.units[o := units]), p);
    }
    forall id | id in s.items
      ensures ItemInv(t, t.items[id]) <==> s.items[id].objectId != o
    {
      ReplaceUnitsOnItem(s, o, units, id);
    }
    if !NoItemsOn(s, o) {
      var id :| id in s.items && s.items[id].objectId == o;
      assert !ItemInv(t, t.items[id]);
    }
  }

  lemma ReplaceUnitsOnItem(s: Store, o: ObjectId, units: seq<Unit>, id: ItemId)
    requires Inv(s) && id in s.items && o in s.units
    ensures var item := s.items[id];
      var left := item.(allocations := WithoutUnits(item.allocations, s.units[o]));
      forall t: Store :: t.units == s.units[o := units] && t.catalogue == s.catalogue && t.projects == s.projects ==>
        (ItemInv(t, left) <==> item.objectId != o)
  {
    hide DatabaseAccepts, EffectiveBkpPermilles;
    var item := s.items[id];
    assert ItemInv(s, item);
    NothingLeft(item.allocations, s.units[o]);
    if item.objectId == o {
      assert WithoutUnits(item.allocations, s.units[o]) == [];
      assert Shares([]) == [];
    } else {
      forall i | 0 <= i < |item.allocations| ensures !BelongsTo(item.allocations[i].unit, s.units[o]) {
        assert BelongsTo(item.allocations[i].unit, s.units[item.objectId]);
      }
      assert item.(allocations := WithoutUnits(item.allocations, s.units[o])) == item;
    }
  }

  /** Unit replacement only before the first cost item. */
  predicate SafeOp(s: Store, op: Op) {
    op.ReplaceUnits? ==> NoItemsOn(s, op.objectId)
  }

  lemma StepKeepsInv(s: Store, op: Op)
    requires Inv(s) && SafeOp(s, op) && Step(s, op).Ok?
    ensures Inv(Step(s, op).value)
  {
    hide Inv, PermilleSplit;
    var t := Step(s, op).value;
    match op
    case CreateItem(id, o, access, payload) =>
      CreatedItemIsValid(s, o, access, payload);
      ItemsKeep(s, t, id);
    case UpdateItem(id, o, access, patch) =>
      UpdatedItemIsValid(s, o, id, access, patch);
      ItemsKeep(s, t, id);
    case DeleteItem(id, o, access) =>
      ItemsKeep(s, t, id);
    case CreateObject(o, isSfh, units) =>
      NewObjectKeepsInv(s, o, isSfh, units);
    case ReplaceUnits(o, isSfh, units) =>
      ReplaceUnitsExactly(s, o, isSfh, units);
    case CreateProject(p, o) =>
      NewProjectKeepsInv(s, p, o);
    case DeleteProject(p, o) =>
      DeletedProjectKeepsInv(s, p, o);
  }

  lemma NewObjectKeepsInv(s: Store, o: ObjectId, isSfh: bool, units: seq<Unit>)
    requires Inv(s) && Step(s, CreateObject(o, isSfh, units)).Ok?
    ensures Inv(Step(s, CreateObject(o, isSfh, units)).value)
  {
    hide PermilleSplit;
    var t := Step(s, CreateObject(o, isSfh, units)).value;
    UnitsStepKeepsObjects(s, o, units);
    forall id | id in t.items ensures ItemInv(t, t.items[id]) {
      assert ItemInv(s, s.items[id]);
      assert s.items[id].objectId != o;
    }
  }

  lemma NewProjectKeepsInv(s: Store, p: ProjectId, o: ObjectId)
    requires Inv(s) && Step(s, CreateProject(p, o)).Ok?
    ensures Inv(Step(s, CreateProject(p, o)).value)
  {
    hide PermilleSplit, WellSplit;
    var t := Step(s, CreateProject(p, o)).value;
    forall q | q in t.units ensures ObjectInv(t, q) { assert ObjectInv(s, q); }
    forall k | k in t.items ensures ItemInv(t, t.items[k]) { assert ItemInv(s, s.items[k]); }
  }

  lemma DeletedProjectKeepsInv(s: Store, p: ProjectId, o: ObjectId)
    requires Inv(s) && Step(s, DeleteProject(p, o)).Ok?
    ensures Inv(Step(s, DeleteProject(p, o)).value)
  {
    hide PermilleSplit, WellSplit;
    var t := Step(s, DeleteProject(p, o)).value;
    forall q | q in t.units ensures ObjectInv(t, q) { assert ObjectInv(s, q); }
    forall k | k in t.items ensures ItemInv(t, t.items[k]) { ItemWithoutProject(s, t, p, k); }
  }

  lemma ItemWithoutProject(s: Store, t: Store, p: ProjectId, k: ItemId)
    requires Inv(s) && k in s.items && t.units == s.units && t.catalogue == s.catalogue && t.projects == s.projects - {p}
    ensures ItemInv(t, WithoutProject(s.items[k], p))
  {
    hide PermilleSplit;
    assert ItemInv(s, s.items[k]);
    assert WithoutProject(s.items[k], p).allocations == s.items[k].allocations;
    EffectiveSharesSplit(s.items[k]);
    EffectiveSharesSplit(WithoutProject(s.items[k], p));
  }

  lemma ItemsKeep(s: Store, t: Store, id: ItemId)
    requires Inv(s) && t.units == s.units && t.catalogue == s.catalogue && t.projects == s.projects
    requires forall k :: k in t.items && k != id ==> k in s.items && t.items[k] == s.items[k]
    requires id in t.items ==> ItemInv(s, t.items[id])
    ensures Inv(t)
  {
    hide WellSplit, PermilleSplit;
    forall o | o in t.units ensures ObjectInv(t, o) { assert ObjectInv(s, o); }
    forall k | k in t.items ensures ItemInv(t, t.items[k]) {
      assert k != id ==> ItemInv(s, s.items[k]);
    }
  }

  /** A failing call changes nothing. */
  function After(s: Store, ops: seq<Op>): Store {
    if ops == [] then s
    else
      var before := After(s, ops[..|ops| - 1]);
      var r := Step(before, ops[|ops| - 1]);
      if r.Ok? then r.value else before
  }

  predicate SafeRun(s: Store, ops: seq<Op>) {
    forall i :: 0 <= i < |ops| ==> SafeOp(After(s, ops[..i]), ops[i])
  }

  lemma {:induction false} RunKeepsInv(s: Store, ops: seq<Op>)
    requires Inv(s) && SafeRun(s, ops)
    ensures Inv(After(s, ops))
  {
    if ops != [] {
      var front := ops[..|ops| - 1];
      assert forall i :: 0 <= i < |front| ==> front[i] == ops[i] && front[..i] == ops[..i];
      RunKeepsInv(s, front);
      assert SafeOp(After(s, front), ops[|ops| - 1]);
      if Step(After(s, front), ops[|ops| - 1]).Ok? {
        StepKeepsInv(After(s, front), ops[|ops| - 1]);
      }
    }
  }

  lemma KeyOf(items: map<ItemId, CostItem>, item: CostItem) returns (id: ItemId)
    requires item in items.Values
    ensures id in items && items[id] == item
  {
    id :| id in items && items[id] == item;
  }

  /** What the store keeps is what the timeline needs: for every run, every object's timeline
      re-adds in all four breakdowns, for every caller and year. */
  lemma EveryTimelineReAdds(s: Store, ops: seq<Op>, items: seq<CostItem>, v: View, year: int)
    requires Inv(s) && SafeRun(s, ops)
    requires forall i :: 0 <= i < |items| ==> items[i] in After(s, ops).items.Values
    ensures ReAdds(StateOf(Entries(items, v), year, v.allowed))
  {
    hide StateOf, Entries;
    RunKeepsInv(s, ops);
    forall i | 0 <= i < |items| ensures WellSplit(items[i]) {
      var end := After(s, ops);
      var id := KeyOf(end.items, items[i]);
      assert ItemInv(end, end.items[id]);
    }
    BreakdownConservation(items, v, year);
  }

  // ---- Single code against split ----

  predicate BothShapes(item: CostItem) {
    item.bkpCode.Some? && item.bkpAllocations != []
  }

  /** "Either a single code or a split" is lost exactly by a patch that sends a code and no split for an item
      that has one; the split keeps deciding, so the code sent has no effect on any roll-up. */
  lemma BothShapesExactly(s: Store, o: ObjectId, id: ItemId, access: Access, p: Patch)
    requires UpdatedItem(s, o, id, access, p).Ok? && !BothShapes(s.items[id])
    ensures var before, after := s.items[id], UpdatedItem(s, o, id, access, p).value;
      && (BothShapes(after) <==> p.bkpCode.Value? && p.bkpAllocations.None? && before.bkpAllocations != [])
      && (BothShapes(after) ==> IterBkpShares(after) == IterBkpShares(before))
  {
  }

  const SPLIT_ITEM := CostItem(0, None, None, [BkpAllocation("C", 1000)], [Allocation(0, 1000)], Shared, Planned, Med,
    Some(2030), Some(100), None, None)

  const SPLIT_STORE := Store(map[0 := [Unit(0, 1000)]], map[0 := SPLIT_ITEM], map[], {"C"})

  const CODE_ONLY := Patch(Absent, Value("C"), Absent, Absent, Absent, Absent, Absent, Absent, Absent, None, None)

  lemma SplitItemIsValid()
    ensures ObjectInv(SPLIT_STORE, 0) && ItemInv(SPLIT_STORE, SPLIT_ITEM)
  {
    hide PermilleSplit;
    WholeIsSplit();
    assert Shares(WertquotenSplit(SPLIT_STORE.units[0])) == [1000];
    assert Shares(SPLIT_ITEM.allocations) == [1000] && BkpPermilles(SPLIT_ITEM.bkpAllocations) == [1000];
    EffectiveSharesSplit(SPLIT_ITEM);
    assert SPLIT_STORE.units[0][0].id == SPLIT_ITEM.allocations[0].unit;
  }

  lemma SplitStoreIsValid()
    ensures Inv(SPLIT_STORE)
  {
    SplitItemIsValid();
    hide ObjectInv, ItemInv, BelongsTo;
  }

  /** An item split over one code, in a store in order, accepts a patch that sends just a code. */
  lemma BothShapesWitness()
    ensures var after := UpdatedItem(SPLIT_STORE, 0, 0, Access(Owner, None), CODE_ONLY);
      Inv(SPLIT_STORE) && !BothShapes(SPLIT_STORE.items[0]) && after.Ok? && BothShapes(after.value)
  {
    SplitStoreIsValid();
    hide Inv;
    var after := UpdatedItem(SPLIT_STORE, 0, 0, Access(Owner, None), CODE_ONLY);
    assert ResolveBkpAllocations({"C"}, None) == Ok([]);
  }
}
