/**
 * The rules of `InventoryServiceImpl` as functions over the service's state:
 * what each call returns and what the tables look like afterwards. The class
 * in module InventoryService is proved against these functions.
 */
module InventoryRules {
  import opened Wrappers
  import opened Entities
  import opened Repositories

  /** The inventory table, the type table, and the id the repository assigns on the next insert. */
  datatype Service = Service(store: Store, types: TypeTable, nextId: int)

  /** Every record is stored under its own id, and every stored id is below the next one to be assigned. */
  ghost predicate Valid(s: Service)
  {
    forall k :: k in s.store ==> s.store[k].id == k && k < s.nextId
  }

  /** True when `id` names a stored record that is enabled: what every read path looks for. */
  ghost predicate IsLive(store: Store, id: Option<int>)
  {
    FindByIdAndEnabled(store, id, ENABLED).Some?
  }

  // ---------------------------------------------------------------- create

  /** The record `createInventory` saves under `id`: request fields copied, type resolved by name, enabled. */
  function NewRecord(types: TypeTable, id: int, dto: InventoryDto): (r: Inventory)
    ensures r.id == id && r.enabled == ENABLED
    ensures r.name == dto.name && r.quantity == dto.quantity
    ensures r.inventoryType.Some? <==> dto.inventoryType.Some? && dto.inventoryType.value in types
    ensures r.inventoryType.Some? ==> r.inventoryType.value == types[dto.inventoryType.value]
  {
    Inventory(id, dto.name, dto.quantity, FindByType(types, dto.inventoryType), ENABLED)
  }

  /** The state after `createInventory`: one new record under a fresh id, nothing else touched. */
  function AfterCreate(s: Service, dto: InventoryDto): (t: Service)
    requires Valid(s)
    ensures Valid(t) && t.types == s.types && t.nextId > s.nextId
    ensures s.nextId !in s.store && t.store.Keys == s.store.Keys + {s.nextId}
    ensures t.store[s.nextId] == NewRecord(s.types, s.nextId, dto)
    ensures forall k :: k in s.store ==> t.store[k] == s.store[k]
  {
    s.(store := s.store[s.nextId := NewRecord(s.types, s.nextId, dto)], nextId := s.nextId + 1)
  }

  // ------------------------------------------------------------------- get

  /** `getInventoryById`: the enabled record with that id; a null id or a miss fails. */
  function GetInventoryById(store: Store, inventoryId: Option<int>): (r: Result<Inventory>)
    ensures r.Ok? <==> IsLive(store, inventoryId)
    ensures r.Ok? ==> r.value == store[inventoryId.value]
  {
    // Optional.ofNullable(id).map(findByIdAndEnabled): a null id or a null row leaves the Optional empty
    var found := if inventoryId.Some? then FindByIdAndEnabled(store, inventoryId, ENABLED) else None;
    // .get() on an empty Optional throws
    if found.Some? then Ok(found.value) else Fail
  }

  // ---------------------------------------------------------------- update

  /** `setInventoryQuantity`: any non-null quantity, zero included, overwrites. */
  function PatchQuantity(e: Inventory, quantity: Option<int>): (r: Inventory)
    ensures r.quantity == if quantity.Some? then quantity else e.quantity
    ensures r == e.(quantity := r.quantity)
  {
    if IsObjectNotNull(quantity) then e.(quantity := quantity) else e
  }

  /** `setInventoryName`: only a non-empty name overwrites. */
  function PatchName(e: Inventory, name: Option<string>): (r: Inventory)
    ensures r.name == if name.Some? && name.value != "" then name else e.name
    ensures r == e.(name := r.name)
  {
    if IsStringNotEmpty(name) then e.(name := name) else e
  }

  /** `setInventoryType`: any non-null name, the empty one included, is looked up again. */
  function PatchType(types: TypeTable, e: Inventory, typeName: Option<string>): (r: Inventory)
    ensures typeName.None? ==> r.inventoryType == e.inventoryType
    ensures typeName.Some? ==>
      (r.inventoryType.Some? <==> typeName.value in types) &&
      (r.inventoryType.Some? ==> r.inventoryType.value == types[typeName.value])
    ensures r == e.(inventoryType := r.inventoryType)
  {
    if IsObjectNotNull(typeName) then e.(inventoryType := FindByType(types, typeName)) else e
  }

  /** The private `updateInventory`: the sparse patch, quantity first, then name, then type. */
  function Patched(types: TypeTable, e: Inventory, dto: InventoryDto): (r: Inventory)
    ensures r.id == e.id && r.enabled == e.enabled
    ensures r.quantity == if dto.quantity.Some? then dto.quantity else e.quantity
    ensures r.name == if dto.name.Some? && dto.name.value != "" then dto.name else e.name
    ensures dto.inventoryType.None? ==> r.inventoryType == e.inventoryType
    ensures dto.inventoryType.Some? ==>
      (r.inventoryType.Some? <==> dto.inventoryType.value in types) &&
      (r.inventoryType.Some? ==> r.inventoryType.value == types[dto.inventoryType.value])
  {
    PatchType(types, PatchName(PatchQuantity(e, dto.quantity), dto.name), dto.inventoryType)
  }

  /** `updateInventory`: fails unless the request's id names an enabled record; otherwise the patched record. */
  function UpdateResult(s: Service, dto: InventoryDto): (r: Result<Inventory>)
    ensures r.Ok? <==> IsLive(s.store, dto.inventoryId)
    ensures r.Ok? ==> r.value == Patched(s.types, s.store[dto.inventoryId.value], dto)
  {
    match FindByIdAndEnabled(s.store, dto.inventoryId, ENABLED)
    // a null entity: a setter throws, or Optional.get() on an empty Optional does
    case None => Fail
    case Some(e) => Ok(Patched(s.types, e, dto))
  }

  /** The state after `updateInventory`: only the patched record changes, and only on success. */
  function AfterUpdate(s: Service, dto: InventoryDto): (t: Service)
    requires Valid(s)
    ensures Valid(t) && t.types == s.types && t.nextId == s.nextId && t.store.Keys == s.store.Keys
    ensures !IsLive(s.store, dto.inventoryId) ==> t == s
    ensures IsLive(s.store, dto.inventoryId) ==> t.store[dto.inventoryId.value] == UpdateResult(s, dto).value
    ensures forall k :: k in s.store && Some(k) != dto.inventoryId ==> t.store[k] == s.store[k]
  {
    match FindByIdAndEnabled(s.store, dto.inventoryId, ENABLED)
    case None => s
    // save writes the patched entity back under its own id
    case Some(e) =>
      var r := Patched(s.types, e, dto);
      assert r.id == dto.inventoryId.value;
      s.(store := s.store[r.id := r])
  }

  // ---------------------------------------------------------------- delete

  /** `deleteInventory`: fails unless the id names an enabled record; otherwise that record, disabled. */
  function DeleteResult(s: Service, inventoryId: Option<int>): (r: Result<Inventory>)
    ensures r.Ok? <==> IsLive(s.store, inventoryId)
    ensures r.Ok? ==> r.value == s.store[inventoryId.value].(enabled := DISABLED)
  {
    match FindByIdAndEnabled(s.store, inventoryId, ENABLED)
    // setEnabled on a null entity throws
    case None => Fail
    case Some(e) => Ok(e.(enabled := DISABLED))
  }

  /** The state after `deleteInventory`: a soft delete that only flips that record's flag. */
  function AfterDelete(s: Service, inventoryId: Option<int>): (t: Service)
    requires Valid(s)
    ensures Valid(t) && t.types == s.types && t.nextId == s.nextId && t.store.Keys == s.store.Keys
    ensures !IsLive(s.store, inventoryId) ==> t == s
    ensures IsLive(s.store, inventoryId) ==>
      t.store[inventoryId.value] == s.store[inventoryId.value].(enabled := DISABLED)
    ensures forall k :: k in s.store && Some(k) != inventoryId ==> t.store[k] == s.store[k]
  {
    match FindByIdAndEnabled(s.store, inventoryId, ENABLED)
    case None => s
    case Some(e) =>
      var r := e.(enabled := DISABLED);
      assert r.id == inventoryId.value;
      s.(store := s.store[r.id := r])
  }

  // ---------------------------------------------------------------- lemmas

  /** A patch whose three fields are all absent (a null or empty name counts as absent) changes nothing. */
  lemma EmptyPatchKeepsRecord(types: TypeTable, e: Inventory, dto: InventoryDto)
    requires dto.quantity.None? && !IsStringNotEmpty(dto.name) && dto.inventoryType.None?
    ensures Patched(types, e, dto) == e
  {
  }

  /** The asymmetry of the three field rules: an empty name is ignored, a zero quantity and an empty type name are not. */
  lemma PatchAsymmetry(types: TypeTable, e: Inventory, id: Option<int>)
    ensures var r := Patched(types, e, InventoryDto(id, Some(""), Some(0), Some("")));
      && r.name == e.name
      && r.quantity == Some(0)
      && r.inventoryType == (if "" in types then Some(types[""]) else None)
  {
  }

  /** Applying the same patch twice gives the same record as applying it once. */
  lemma PatchIdempotent(types: TypeTable, e: Inventory, dto: InventoryDto)
    ensures Patched(types, Patched(types, e, dto), dto) == Patched(types, e, dto)
  {
  }

  /** The three setters touch disjoint fields, so the order the source applies them in does not matter. */
  lemma PatchOrderIrrelevant(types: TypeTable, e: Inventory, dto: InventoryDto)
    ensures PatchQuantity(PatchName(PatchType(types, e, dto.inventoryType), dto.name), dto.quantity)
         == Patched(types, e, dto)
  {
  }

  /** Create then get: the new id reads back exactly the record create stored. */
  lemma CreateThenGet(s: Service, dto: InventoryDto)
    requires Valid(s)
    ensures GetInventoryById(AfterCreate(s, dto).store, Some(s.nextId)) == Ok(NewRecord(s.types, s.nextId, dto))
  {
  }

  /** Update then get: a successful update leaves the record readable, and get returns what update returned. */
  lemma UpdateThenGet(s: Service, dto: InventoryDto)
    requires Valid(s) && UpdateResult(s, dto).Ok?
    ensures GetInventoryById(AfterUpdate(s, dto).store, dto.inventoryId) == UpdateResult(s, dto)
  {
  }

  /** Delete then get, update or delete on the same id: all three fail. */
  lemma DeleteThenAllFail(s: Service, inventoryId: Option<int>, dto: InventoryDto)
    requires Valid(s) && dto.inventoryId == inventoryId
    ensures var t := AfterDelete(s, inventoryId);
      && GetInventoryById(t.store, inventoryId).Fail?
      && UpdateResult(t, dto).Fail?
      && DeleteResult(t, inventoryId).Fail?
  {
  }
}
