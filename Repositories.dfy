/**
 * The two repositories the service reads and writes, as values: the inventory
 * table keyed by id and the inventory-type table keyed by type name.
 */
module Repositories {
  import opened Wrappers
  import opened Entities

  type Store = map<int, Inventory>
  type TypeTable = map<string, InventoryType>

  /** `InventoryRepository.findByIdAndEnabled`: a null id matches no row. */
  function FindByIdAndEnabled(store: Store, id: Option<int>, enabled: bool): (r: Option<Inventory>)
  {
    if id.Some? && id.value in store && store[id.value].enabled == enabled then Some(store[id.value]) else None
  }

  /** `InventoryTypeRepository.findByType`: a miss, or a null name, gives null. */
  function FindByType(types: TypeTable, typeName: Option<string>): (r: Option<InventoryType>)
  {
    if typeName.Some? && typeName.value in types then Some(types[typeName.value]) else None
  }
}
