/** The persistent entities, the transfer object and the utility assumptions. */
module Entities {
  import opened Wrappers

  /** `Constants.ENABLED` and `Constants.DISABLED`: two distinct flag values. */
  const ENABLED: bool := true
  const DISABLED: bool := false

  /** `ValidationUtils.isObjectNotNull`: the value is present. */
  predicate IsObjectNotNull<T>(o: Option<T>)
  {
    o.Some?
  }

  /** `ValidationUtils.isStringNotEmpty`: the string is present and has at least one character. */
  predicate IsStringNotEmpty(s: Option<string>)
  {
    s.Some? && |s.value| > 0
  }

  /** A row of the inventory-type table; its lifecycle is outside the service. */
  datatype InventoryType = InventoryType(typeId: int, typeName: string)

  /**
   * The `Inventory` entity. Name and quantity are modelled as possibly null,
   * on the assumption that the converter copies them from the request field
   * for field and that `save` accepts a null value; the type reference is
   * null when the type name did not resolve; `enabled` is the soft-delete flag.
   */
  datatype Inventory = Inventory(
    id: int,
    name: Option<string>,
    quantity: Option<int>,
    inventoryType: Option<InventoryType>,
    enabled: bool)

  /** The request object: every field may be null. */
  datatype InventoryDto = InventoryDto(
    inventoryId: Option<int>,
    name: Option<string>,
    quantity: Option<int>,
    inventoryType: Option<string>)
}
