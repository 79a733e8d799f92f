/**
 * `InventoryServiceImpl` as a class over its two repositories. Each public
 * method is proved against the function in InventoryRules that gives its
 * result and the state it leaves behind.
 */
module InventoryService {
  import opened Wrappers
  import opened Entities
  import opened Repositories
  import opened InventoryRules

  class InventoryServiceImpl {
    var store: Store      // InventoryRepository
    var types: TypeTable  // InventoryTypeRepository
    var nextId: int       // the id InventoryRepository assigns on the next insert

    /** The state of both repositories as one value. */
    ghost function State(): Service
      reads this
    {
      Service(store, types, nextId)
    }

    ghost predicate Valid()
      reads this
    {
      InventoryRules.Valid(State())
    }

    /** A service over an empty inventory table and the given type table. */
    constructor (types: TypeTable)
      ensures Valid()
      ensures store == map[] && this.types == types
    {
      store := map[];
      this.types := types;
      nextId := 1;
    }

    /** `createInventory`: saves an enabled record with the resolved type under a fresh id. */
    method CreateInventory(dto: InventoryDto) returns (r: Inventory)
      requires Valid()
      modifies this
      ensures Valid()
      ensures r == NewRecord(old(types), old(nextId), dto) && old(nextId) !in old(store)
      ensures State() == AfterCreate(old(State()), dto)
    {
      var inventoryType := FindByType(types, dto.inventoryType);
      // save: the repository assigns the next id of its sequence
      var id := nextId;
      nextId := nextId + 1;
      r := Inventory(id, dto.name, dto.quantity, inventoryType, ENABLED);
      store := store[id := r];
    }

    /** `setInventoryQuantity` on the managed entity stored under `id`. */
    method SetInventoryQuantity(id: int, quantity: Option<int>)
      requires id in store
      modifies this`store
      ensures store == old(store)[id := PatchQuantity(old(store)[id], quantity)]
    {
      if IsObjectNotNull(quantity) {
        store := store[id := store[id].(quantity := quantity)];
      }
    }

    /** `setInventoryName` on the managed entity stored under `id`. */
    method SetInventoryName(id: int, name: Option<string>)
      requires id in store
      modifies this`store
      ensures store == old(store)[id := PatchName(old(store)[id], name)]
    {
      if IsStringNotEmpty(name) {
        store := store[id := store[id].(name := name)];
      }
    }

    /** `setInventoryType` on the managed entity stored under `id`. */
    method SetInventoryType(id: int, typeName: Option<string>)
      requires id in store
      modifies this`store
      ensures store == old(store)[id := PatchType(types, old(store)[id], typeName)]
    {
      if IsObjectNotNull(typeName) {
        store := store[id := store[id].(inventoryType := FindByType(types, typeName))];
      }
    }

    /** The private `updateInventory`: the three setters in the source's order. */
    method UpdateEntity(id: int, dto: InventoryDto)
      requires id in store
      modifies this`store
      ensures store == old(store)[id := Patched(types, old(store)[id], dto)]
    {
      SetInventoryQuantity(id, dto.quantity);
      SetInventoryName(id, dto.name);
      SetInventoryType(id, dto.inventoryType);
    }

    /** `updateInventory`: patches the enabled record named by the request, or fails and changes nothing. */
    method UpdateInventory(dto: InventoryDto) returns (r: Result<Inventory>)
      requires Valid()
      modifies this`store
      ensures Valid()
      ensures r.Ok? <==> IsLive(old(store), dto.inventoryId)
      ensures r == UpdateResult(old(State()), dto)
      ensures State() == AfterUpdate(old(State()), dto)
    {
      var savedEntity := FindByIdAndEnabled(store, dto.inventoryId, ENABLED);
      if savedEntity.None? {
        // a setter on the null entity, or Optional.get() on an empty Optional, throws
        r := Fail;
        return;
      }
      var id := dto.inventoryId.value;
      UpdateEntity(id, dto);
      // save writes the entity back under its own id
      r := Ok(store[id]);
    }

    /** `deleteInventory`: disables the enabled record with that id, or fails and changes nothing. */
    method DeleteInventory(inventoryId: Option<int>) returns (r: Result<Inventory>)
      requires Valid()
      modifies this`store
      ensures Valid()
      ensures r.Ok? <==> IsLive(old(store), inventoryId)
      ensures r.Ok? ==> r.value.enabled == DISABLED && GetInventoryById(store, inventoryId).Fail?
      ensures r == DeleteResult(old(State()), inventoryId)
      ensures State() == AfterDelete(old(State()), inventoryId)
    {
      var savedEntity := FindByIdAndEnabled(store, inventoryId, ENABLED);
      if savedEntity.None? {
        // setEnabled on the null entity throws
        r := Fail;
        return;
      }
      var entity := savedEntity.value.(enabled := DISABLED);
      // save writes the entity back under its own id
      store := store[inventoryId.value := entity];
      r := Ok(entity);
    }
  }
}
