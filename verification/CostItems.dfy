/** The cost-item store: create, patch and delete under roles, unit scopes and the split invariants,
    together with the object and unit steps those invariants rest on. */
module CostItems {
  import opened Domain

  type ItemId = nat

  datatype Role = Viewer | Editor | Owner

  /** `allowed` is None for unscoped members. */
  datatype Access = Access(role: Role, allowed: Option<set<UnitId>>)

  datatype Error =
    | NotFound
    | PermissionDenied
    | InvalidAllocation
    | UnknownBkpCode
    | UnknownProject
    | ScopeViolation
    | ObjectError
    | IntegrityError

  datatype Result<T> = Ok(value: T) | Err(error: Error) {
    predicate IsFailure() { Err? }
    function PropagateFailure<U>(): Result<U> requires Err? { Err(error) }
    function Extract(): T requires Ok? { value }
  }

  /** A patch field: left out, sent as null, or sent with a value. */
  datatype Field<T> = Absent | Null | Value(v: T)

  function Patched<T>(f: Field<T>, current: Option<T>): Option<T> {
    match f
    case Absent => current
    case Null => None
    case Value(v) => Some(v)
  }

  datatype Create = Create(
    projectId: Option<ProjectId>,
    bkpCode: Option<string>,
    scope: Scope,
    status: Status,
    priority: Priority,
    plannedYear: Option<int>,
    plannedAmount: Option<int>,
    actualAmount: Option<int>,
    actualYear: Option<int>,
    allocations: Option<seq<Allocation>>,
    bkpAllocations: Option<seq<BkpAllocation>>)

  datatype Patch = Patch(
    projectId: Field<ProjectId>,
    bkpCode: Field<string>,
    scope: Field<Scope>,
    status: Field<Status>,
    priority: Field<Priority>,
    plannedYear: Field<int>,
    plannedAmount: Field<int>,
    actualAmount: Field<int>,
    actualYear: Field<int>,
    allocations: Option<seq<Allocation>>,
    bkpAllocations: Option<seq<BkpAllocation>>)

  datatype Store = Store(
    units: map<ObjectId, seq<Unit>>,
    items: map<ItemId, CostItem>,
    projects: map<ProjectId, ObjectId>,
    catalogue: set<string>)

  // ---- Check-and-return helpers ----

  predicate HasEditorRole(access: Access) {
    access.role != Viewer
  }

  /** Some allocation falls on a unit the caller may see. */
  predicate Touches(allocations: seq<Allocation>, allowed: Option<set<UnitId>>) {
    allowed.None? || exists i :: 0 <= i < |allocations| && allocations[i].unit in allowed.value
  }

  predicate BelongsTo(unit: UnitId, units: seq<Unit>) {
    exists i :: 0 <= i < |units| && units[i].id == unit
  }

  /** _resolve_allocations */
  function ResolveAllocations(units: seq<Unit>, scope: Scope, provided: Option<seq<Allocation>>): Result<seq<Allocation>> {
    if provided.None? then
      if scope.UnitScope? || units == [] then Err(InvalidAllocation) else Ok(WertquotenSplit(units))
    else if exists i :: 0 <= i < |provided.value| && !BelongsTo(provided.value[i].unit, units) then Err(InvalidAllocation)
    else if !ValidateSplit(Shares(provided.value)).Accepted? then Err(InvalidAllocation)
    else Ok(provided.value)
  }

  /** _resolve_bkp_allocations */
  function ResolveBkpAllocations(catalogue: set<string>, provided: Option<seq<BkpAllocation>>): Result<seq<BkpAllocation>> {
    if provided.None? || provided.value == [] then Ok([])
    else if !ValidateBkpSplit(BkpPermilles(provided.value)).Accepted? then Err(InvalidAllocation)
    else if exists i :: 0 <= i < |provided.value| && provided.value[i].code !in catalogue then Err(UnknownBkpCode)
    else Ok(provided.value)
  }

  lemma ResolvedIsProvided(catalogue: set<string>, provided: Option<seq<BkpAllocation>>)
    ensures var r := ResolveBkpAllocations(catalogue, provided);
      r.Ok? ==> r.value == if provided.Some? then provided.value else []
  {
  }

  /** _ensure_project_in_object */
  predicate InObject(projects: map<ProjectId, ObjectId>, objectId: ObjectId, project: ProjectId) {
    project in projects && projects[project] == objectId
  }

  predicate HasAmount(item: CostItem) {
    item.plannedAmount.Some? || item.actualAmount.Some?
  }

  predicate DistinctUnits(allocations: seq<Allocation>) {
    forall i, j :: 0 <= i < j < |allocations| ==> allocations[i].unit != allocations[j].unit
  }

  predicate DistinctCodes(allocations: seq<BkpAllocation>) {
    forall i, j :: 0 <= i < j < |allocations| ==> allocations[i].code != allocations[j].code
  }

  /** The CHECK constraints and composite primary keys that a flush enforces. */
  predicate DatabaseAccepts(item: CostItem) {
    && HasAmount(item)
    && NonNegativeAmounts(item)
    && DistinctUnits(item.allocations)
    && DistinctCodes(item.bkpAllocations)
  }

  // ---- The calls, as functions ----

  /** get_cost_item: out of scope reads as missing. */
  function GetItem(s: Store, objectId: ObjectId, id: ItemId, access: Access): Result<CostItem> {
    if id !in s.items || s.items[id].objectId != objectId then Err(NotFound)
    else if !Touches(s.items[id].allocations, access.allowed) then Err(NotFound)
    else Ok(s.items[id])
  }

  function CreatedItem(s: Store, objectId: ObjectId, access: Access, p: Create): Result<CostItem> {
    if !HasEditorRole(access) then Err(PermissionDenied)
    else if p.bkpCode.Some? && p.bkpCode.value !in s.catalogue then Err(UnknownBkpCode)
    else
      var bkpRows :- ResolveBkpAllocations(s.catalogue, p.bkpAllocations);
      var units := if objectId in s.units then s.units[objectId] else [];
      var rows :- ResolveAllocations(units, p.scope, p.allocations);
      if !Touches(rows, access.allowed) then Err(ScopeViolation)
      else if p.projectId.Some? && !InObject(s.projects, objectId, p.projectId.value) then Err(UnknownProject)
      else
        var item := CostItem(objectId, p.projectId, p.bkpCode, bkpRows, rows, p.scope, p.status, p.priority,
                             p.plannedYear, p.plannedAmount, p.actualAmount, p.actualYear);
        if objectId in s.units && DatabaseAccepts(item) then Ok(item) else Err(IntegrityError)
  }

  function PatchedBkpCode(item: CostItem, p: Patch): Option<string> {
    if p.bkpAllocations.Some? && p.bkpAllocations.value != [] && p.bkpCode.Absent? then None
    else Patched(p.bkpCode, item.bkpCode)
  }

  /** The scalar columns after the patch. */
  function Merged(item: CostItem, p: Patch): CostItem {
    item.(projectId := Patched(p.projectId, item.projectId),
          bkpCode := PatchedBkpCode(item, p),
          scope := if p.scope.Value? then p.scope.v else item.scope,
          status := if p.status.Value? then p.status.v else item.status,
          priority := if p.priority.Value? then p.priority.v else item.priority,
          plannedYear := Patched(p.plannedYear, item.plannedYear),
          plannedAmount := Patched(p.plannedAmount, item.plannedAmount),
          actualAmount := Patched(p.actualAmount, item.actualAmount),
          actualYear := Patched(p.actualYear, item.actualYear))
  }

  function UpdatedItem(s: Store, objectId: ObjectId, id: ItemId, access: Access, p: Patch): Result<CostItem> {
    if !HasEditorRole(access) then Err(PermissionDenied)
    else
      var item :- GetItem(s, objectId, id, access);
      if p.bkpCode.Value? && p.bkpCode.v !in s.catalogue then Err(UnknownBkpCode)
      else if p.projectId.Value? && !InObject(s.projects, objectId, p.projectId.v) then Err(UnknownProject)
      else
        var bkpRows :- ResolveBkpAllocations(s.catalogue, p.bkpAllocations);
        if bkpRows != [] && p.bkpCode.Value? then Err(InvalidAllocation)
        else
          var merged := Merged(item, p);
          if !HasAmount(merged) then Err(InvalidAllocation)
          else
            var units := if objectId in s.units then s.units[objectId] else [];
            var rows :- if p.allocations.Some? then ResolveAllocations(units, merged.scope, p.allocations)
                        else Ok(item.allocations);
            if p.allocations.Some? && !Touches(rows, access.allowed) then Err(ScopeViolation)
            else
              var done := merged.(allocations := rows,
                                  bkpAllocations := if p.bkpAllocations.Some? then bkpRows else item.bkpAllocations);
              if p.scope.Null? || p.status.Null? || p.priority.Null? || !DatabaseAccepts(done) then Err(IntegrityError)
              else Ok(done)
  }

  predicate FreshUnits(s: Store, units: seq<Unit>) {
    && (forall i, j :: 0 <= i < j < |units| ==> units[i].id != units[j].id)
    && (forall o, i :: o in s.units && 0 <= i < |units| ==> !BelongsTo(units[i].id, s.units[o]))
  }

  /** The checks shared by object creation and unit replacement; a single-family house has one 1000 permille unit. */
  predicate UnitsAccepted(isSfh: bool, units: seq<Unit>) {
    && (isSfh ==> |units| == 1 && units[0].wertquote == TOTAL_PERMILLE)
    && ValidateSplit(Shares(WertquotenSplit(units))).Accepted?
  }

  /** ON DELETE CASCADE of the allocation rows of deleted units. */
  function WithoutUnits(rows: seq<Allocation>, gone: seq<Unit>): seq<Allocation> {
    if rows == [] then []
    else if BelongsTo(rows[0].unit, gone) then WithoutUnits(rows[1..], gone)
    else [rows[0]] + WithoutUnits(rows[1..], gone)
  }

  /** ON DELETE SET NULL of cost_items.project_id. */
  function WithoutProject(item: CostItem, project: ProjectId): CostItem {
    if item.projectId == Some(project) then item.(projectId := None) else item
  }

  datatype Op =
    | CreateItem(id: ItemId, objectId: ObjectId, access: Access, payload: Create)
    | UpdateItem(id: ItemId, objectId: ObjectId, access: Access, patch: Patch)
    | DeleteItem(id: ItemId, objectId: ObjectId, access: Access)
    | CreateObject(objectId: ObjectId, isSfh: bool, units: seq<Unit>)
    | ReplaceUnits(objectId: ObjectId, isSfh: bool, units: seq<Unit>)
    | CreateProject(project: ProjectId, objectId: ObjectId)
    | DeleteProject(project: ProjectId, objectId: ObjectId)

  /** One service call. `CreateItem` and the unit steps receive the fresh ids they insert. */
  function Step(s: Store, op: Op): Result<Store> {
    match op
    case CreateItem(id, o, access, payload) =>
      var item :- CreatedItem(s, o, access, payload);
      if id in s.items then Err(IntegrityError) else Ok(s.(items := s.items[id := item]))
    case UpdateItem(id, o, access, patch) =>
      var item :- UpdatedItem(s, o, id, access, patch);
      Ok(s.(items := s.items[id := item]))
    case DeleteItem(id, o, access) =>
      if !HasEditorRole(access) then Err(PermissionDenied)
      else
        var item :- GetItem(s, o, id, access);
        Ok(s.(items := s.items - {id}))
    case CreateObject(o, isSfh, units) =>
      if !UnitsAccepted(isSfh, units) then Err(ObjectError)
      else if o in s.units || !FreshUnits(s, units) then Err(IntegrityError)
      else Ok(s.(units := s.units[o := units]))
    case ReplaceUnits(o, isSfh, units) =>
      if o !in s.units then Err(NotFound)
      else if !UnitsAccepted(isSfh, units) then Err(ObjectError)
      else if !FreshUnits(s, units) then Err(IntegrityError)
      else
        Ok(s.(units := s.units[o := units],
              items := map id | id in s.items ::
                s.items[id].(allocations := WithoutUnits(s.items[id].allocations, s.units[o]))))
    case CreateProject(p, o) =>
      if p in s.projects || o !in s.units then Err(IntegrityError) else Ok(s.(projects := s.projects[p := o]))
    case DeleteProject(p, o) =>
      if !InObject(s.projects, o, p) then Err(NotFound)
      else Ok(s.(projects := s.projects - {p}, items := map id | id in s.items :: WithoutProject(s.items[id], p)))
  }

  // ---- The service ----

  class CostItemService {
    var units: map<ObjectId, seq<Unit>>
    var items: map<ItemId, CostItem>
    var projects: map<ProjectId, ObjectId>
    var catalogue: set<string>

    constructor (catalogue: set<string>)
      ensures State() == Store(map[], map[], map[], catalogue)
    {
      units, items, projects := map[], map[], map[];
      this.catalogue := catalogue;
    }

    ghost function State(): Store
      reads this
    {
      Store(units, items, projects, catalogue)
    }

    function UnitsOf(objectId: ObjectId): seq<Unit>
      reads this
    {
      if objectId in units then units[objectId] else []
    }

    method CreateCostItem(id: ItemId, objectId: ObjectId, access: Access, payload: Create) returns (r: Result<CostItem>)
      modifies this`items
      ensures r.Ok? ==> Step(old(State()), Op.CreateItem(id, objectId, access, payload)) == Ok(State()) && id in items && r.value == items[id]
      ensures r.Err? ==> Step(old(State()), Op.CreateItem(id, objectId, access, payload)) == Err(r.error) && State() == old(State())
    {
      if !HasEditorRole(access) {
        return Err(PermissionDenied);
      }
      if payload.bkpCode.Some? && payload.bkpCode.value !in catalogue {
        return Err(UnknownBkpCode);
      }
      var bkpRows := ResolveBkpAllocations(catalogue, payload.bkpAllocations);
      if bkpRows.Err? {
        return Err(bkpRows.error);
      }
      var rows := ResolveAllocations(UnitsOf(objectId), payload.scope, payload.allocations);
      if rows.Err? {
        return Err(rows.error);
      }
      if !Touches(rows.value, access.allowed) {
        return Err(ScopeViolation);
      }
      if payload.projectId.Some? && !InObject(projects, objectId, payload.projectId.value) {
        return Err(UnknownProject);
      }
      var item := CostItem(objectId, payload.projectId, payload.bkpCode, bkpRows.value, rows.value, payload.scope, payload.status,
        payload.priority, payload.plannedYear, payload.plannedAmount, payload.actualAmount, payload.actualYear);
      if objectId !in units || !DatabaseAccepts(item) || id in items {
        return Err(IntegrityError);
      }
      items := items[id := item];
      r := Ok(item);
    }

    method UpdateCostItem(id: ItemId, objectId: ObjectId, access: Access, patch: Patch) returns (r: Result<CostItem>)
      modifies this`items
      ensures r.Ok? ==> Step(old(State()), Op.UpdateItem(id, objectId, access, patch)) == Ok(State()) && id in items && r.value == items[id]
      ensures r.Err? ==> Step(old(State()), Op.UpdateItem(id, objectId, access, patch)) == Err(r.error) && State() == old(State())
    {
      hide ResolveAllocations, ResolveBkpAllocations, DatabaseAccepts, Touches, InObject;
      if !HasEditorRole(access) {
        return Err(PermissionDenied);
      }
      if id !in items || items[id].objectId != objectId || !Touches(items[id].allocations, access.allowed) {
        return Err(NotFound);
      }
      var item := items[id];
      ResolvedIsProvided(catalogue, patch.bkpAllocations);
      if patch.bkpCode.Value? && patch.bkpCode.v !in catalogue {
        return Err(UnknownBkpCode);
      }
      if patch.projectId.Value? && !InObject(projects, objectId, patch.projectId.v) {
        return Err(UnknownProject);
      }
      var bkpRows := ResolveBkpAllocations(catalogue, patch.bkpAllocations);
      if bkpRows.Err? {
        return Err(bkpRows.error);
      }
      if bkpRows.value != [] {
        if patch.bkpCode.Absent? {
          item := item.(bkpCode := None);
        } else if patch.bkpCode.Value? {
          return Err(InvalidAllocation);
        }
      }
      item := SetAttributes(item, patch);
      assert item == Merged(items[id], patch);
      if !HasAmount(item) {
        return Err(InvalidAllocation);
      }
      if patch.allocations.Some? {
        var rows := ResolveAllocations(UnitsOf(objectId), item.scope, patch.allocations);
        if rows.Err? {
          return Err(rows.error);
        }
        if !Touches(rows.value, access.allowed) {
          return Err(ScopeViolation);
        }
        item := item.(allocations := rows.value);
      }
      if patch.bkpAllocations.Some? {
        item := item.(bkpAllocations := bkpRows.value);
      }
      if patch.scope.Null? || patch.status.Null? || patch.priority.Null? || !DatabaseAccepts(item) {
        return Err(IntegrityError);
      }
      items := items[id := item];
      r := Ok(item);
    }

    method DeleteCostItem(id: ItemId, objectId: ObjectId, access: Access) returns (r: Result<CostItem>)
      modifies this`items
      ensures r.Ok? ==> Step(old(State()), Op.DeleteItem(id, objectId, access)) == Ok(State()) && id !in items
      ensures r.Err? ==> Step(old(State()), Op.DeleteItem(id, objectId, access)) == Err(r.error) && State() == old(State())
    {
      if !HasEditorRole(access) {
        return Err(PermissionDenied);
      }
      if id !in items || items[id].objectId != objectId || !Touches(items[id].allocations, access.allowed) {
        return Err(NotFound);
      }
      r := Ok(items[id]);
      items := items - {id};
    }

    method CreateObjectWithUnits(objectId: ObjectId, isSfh: bool, newUnits: seq<Unit>) returns (r: Result<seq<Unit>>)
      requires objectId !in units && FreshUnits(State(), newUnits)
      modifies this`units
      ensures r.Ok? ==> Step(old(State()), Op.CreateObject(objectId, isSfh, newUnits)) == Ok(State())
      ensures r.Err? ==> Step(old(State()), Op.CreateObject(objectId, isSfh, newUnits)) == Err(r.error) && State() == old(State())
    {
      if isSfh && (|newUnits| != 1 || newUnits[0].wertquote != TOTAL_PERMILLE) {
        return Err(ObjectError);
      }
      if !ValidateSplit(Shares(WertquotenSplit(newUnits))).Accepted? {
        return Err(ObjectError);
      }
      units := units[objectId := newUnits];
      r := Ok(newUnits);
    }

    method ReplaceUnits(objectId: ObjectId, isSfh: bool, newUnits: seq<Unit>) returns (r: Result<seq<Unit>>)
      requires FreshUnits(State(), newUnits)
      modifies this`units, this`items
      ensures r.Ok? ==> Step(old(State()), Op.ReplaceUnits(objectId, isSfh, newUnits)) == Ok(State())
      ensures r.Err? ==> Step(old(State()), Op.ReplaceUnits(objectId, isSfh, newUnits)) == Err(r.error) && State() == old(State())
    {
      if objectId !in units {
        return Err(NotFound);
      }
      if isSfh && (|newUnits| != 1 || newUnits[0].wertquote != TOTAL_PERMILLE) {
        return Err(ObjectError);
      }
      if !ValidateSplit(Shares(WertquotenSplit(newUnits))).Accepted? {
        return Err(ObjectError);
      }
      var gone := units[objectId];
      items := map id | id in items :: items[id].(allocations := WithoutUnits(items[id].allocations, gone));
      units := units[objectId := newUnits];
      r := Ok(newUnits);
    }
  }

  /** The setattr loop over the submitted columns. */
  function SetAttributes(item: CostItem, p: Patch): CostItem {
    item.(projectId := Patched(p.projectId, item.projectId),
          bkpCode := Patched(p.bkpCode, item.bkpCode),
          scope := if p.scope.Value? then p.scope.v else item.scope,
          status := if p.status.Value? then p.status.v else item.status,
          priority := if p.priority.Value? then p.priority.v else item.priority,
          plannedYear := Patched(p.plannedYear, item.plannedYear),
          plannedAmount := Patched(p.plannedAmount, item.plannedAmount),
          actualAmount := Patched(p.actualAmount, item.actualAmount),
          actualYear := Patched(p.actualYear, item.actualYear))
  }
}
