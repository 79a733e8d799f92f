# Inventory service record lifecycle, in Dafny

A model of the inventory service of the Inventory Management System
(`InventoryServiceImpl`): how it creates, reads, patches and soft-deletes
inventory records held in a repository table keyed by id, with each record's
inventory type resolved by name from a second table.

- `Wrappers.dfy`: `Option` (a Java reference that may be null) and `Result`
  (`Ok` or the single `Fail` outcome that stands for every exception the
  service raises).
- `Entities.dfy`: the `Inventory` and `InventoryType` entities, the request
  object `InventoryDto`, the flags `ENABLED`/`DISABLED` and the two
  `ValidationUtils` checks. These source files are not part of this model, so
  their meaning is assumed: `isObjectNotNull` means "not null",
  `isStringNotEmpty` means "not null and at least one character", and
  `ENABLED`/`DISABLED` are `true`/`false`.
- `Repositories.dfy`: the two repositories as maps, with
  `findByIdAndEnabled` and `findByType` (a miss gives null).
- `InventoryRules.dfy`: the rules of each operation as functions over the
  service state (`Service`: both tables and the next id the repository
  assigns), with the per-field patch rules and the lemmas that relate
  operations to each other.
- `InventoryService.dfy`: the class `InventoryServiceImpl`, whose methods
  change the store in place, as the source's setters do on the managed entity
  returned by `findByIdAndEnabled`. Each method is proved against the
  function in `InventoryRules` that gives its result and the new state.
- `Lifecycle.dfy`: histories of calls (`Step`, `Run`) and what holds after
  any of them: no record is removed, a disabled record never changes again,
  and a soft delete is final.

Points of the code the model keeps as they are:
- A patch re-resolves the type for any non-null type name, `""` included
  (InventoryServiceImpl.java:84-85).
- Delete returns the record after `setEnabled(DISABLED)`, so the returned
  record is disabled (lines 67-71).
- Nothing in the service checks the quantity. Assuming the converter copies
  name and quantity field for field and `save` accepts null values, create
  stores a null name or quantity from the request as it is.

## Model

| member | source | states |
|---|---|---|
| InventoryRules.NewRecord | Server/src/main/java/com/okta/developer/ims/service/impl/InventoryServiceImpl.java:37-40 | the created record is enabled, copies name and quantity from the request, and has a type exactly when the request's type name is in the type table, namely that table entry |
| InventoryRules.AfterCreate | Server/src/main/java/com/okta/developer/ims/service/impl/InventoryServiceImpl.java:35-42 | create adds one record under an id not already stored, leaves every other record and the type table unchanged, and keeps the store invariant |
| InventoryService.InventoryServiceImpl.CreateInventory | Server/src/main/java/com/okta/developer/ims/service/impl/InventoryServiceImpl.java:35-42 | the method returns the new record and leaves the state `AfterCreate` describes |
| InventoryRules.GetInventoryById | Server/src/main/java/com/okta/developer/ims/service/impl/InventoryServiceImpl.java:45-50 | get succeeds exactly when the id is non-null and names an enabled stored record, and then returns that record unchanged |
| InventoryService.InventoryServiceImpl.SetInventoryQuantity | Server/src/main/java/com/okta/developer/ims/service/impl/InventoryServiceImpl.java:95-99 | any non-null quantity, zero included, overwrites the stored quantity; nothing else in the store changes |
| InventoryService.InventoryServiceImpl.SetInventoryName | Server/src/main/java/com/okta/developer/ims/service/impl/InventoryServiceImpl.java:89-93 | only a non-empty name overwrites the stored name; nothing else in the store changes |
| InventoryService.InventoryServiceImpl.SetInventoryType | Server/src/main/java/com/okta/developer/ims/service/impl/InventoryServiceImpl.java:83-87 | any non-null type name, `""` included, re-resolves the type reference, to absent on a miss; nothing else in the store changes |
| InventoryService.InventoryServiceImpl.UpdateEntity | Server/src/main/java/com/okta/developer/ims/service/impl/InventoryServiceImpl.java:101-105 | the three setters in sequence replace the stored record by its patched form |
| InventoryRules.PatchQuantity | Server/src/main/java/com/okta/developer/ims/service/impl/InventoryServiceImpl.java:95-99 | the quantity becomes the given one when it is non-null, zero included, and stays otherwise; no other field changes |
| InventoryRules.PatchName | Server/src/main/java/com/okta/developer/ims/service/impl/InventoryServiceImpl.java:89-93 | the name becomes the given one only when it is non-null and non-empty; no other field changes |
| InventoryRules.PatchType | Server/src/main/java/com/okta/developer/ims/service/impl/InventoryServiceImpl.java:83-87 | a null type name keeps the type; any other name, `""` included, gives the type-table entry, or absent on a miss; no other field changes |
| InventoryRules.Patched | Server/src/main/java/com/okta/developer/ims/service/impl/InventoryServiceImpl.java:83-105 | field by field: id and enabled flag kept; quantity overwritten iff the patch quantity is non-null; name overwritten iff the patch name is non-empty; type kept when the patch type name is null, otherwise present iff the name is in the type table |
| InventoryRules.EmptyPatchKeepsRecord | Server/src/main/java/com/okta/developer/ims/service/impl/InventoryServiceImpl.java:101-105 | a patch with null quantity, null or empty name and null type name leaves the record equal to before |
| InventoryRules.PatchAsymmetry | Server/src/main/java/com/okta/developer/ims/service/impl/InventoryServiceImpl.java:83-99 | an empty name is ignored, a zero quantity is applied, and an empty type name is looked up, clearing the type when `""` is not a type |
| InventoryRules.PatchIdempotent | Server/src/main/java/com/okta/developer/ims/service/impl/InventoryServiceImpl.java:101-105 | applying the same patch twice equals applying it once |
| InventoryRules.PatchOrderIrrelevant | Server/src/main/java/com/okta/developer/ims/service/impl/InventoryServiceImpl.java:101-105 | applying the three setters in reverse order gives the same record as the source's order |
| InventoryRules.UpdateResult | Server/src/main/java/com/okta/developer/ims/service/impl/InventoryServiceImpl.java:53-61 | update succeeds exactly when the request id names an enabled record, and then returns that record patched by the request |
| InventoryRules.AfterUpdate | Server/src/main/java/com/okta/developer/ims/service/impl/InventoryServiceImpl.java:53-61 | a failed update changes nothing; a successful one stores the patched record under the same id; no other record, no key, the type table and the next id are unchanged |
| InventoryService.InventoryServiceImpl.UpdateInventory | Server/src/main/java/com/okta/developer/ims/service/impl/InventoryServiceImpl.java:53-61 | the method fails exactly when no enabled record has the request's id, and its result and new state are those of `UpdateResult` and `AfterUpdate` |
| InventoryRules.DeleteResult | Server/src/main/java/com/okta/developer/ims/service/impl/InventoryServiceImpl.java:64-72 | delete succeeds exactly when the id names an enabled record, and then returns that record with its flag set to DISABLED and every other field unchanged |
| InventoryRules.AfterDelete | Server/src/main/java/com/okta/developer/ims/service/impl/InventoryServiceImpl.java:64-72 | a failed delete changes nothing; a successful one only flips that record's flag to DISABLED; all other records are unchanged |
| InventoryService.InventoryServiceImpl.DeleteInventory | Server/src/main/java/com/okta/developer/ims/service/impl/InventoryServiceImpl.java:64-72 | the method fails exactly when no enabled record has the id; on success the returned record is disabled and get on that id now fails |
| InventoryRules.CreateThenGet | Server/src/main/java/com/okta/developer/ims/service/impl/InventoryServiceImpl.java:35-50 | get on the id create assigned returns exactly the record create stored |
| InventoryRules.UpdateThenGet | Server/src/main/java/com/okta/developer/ims/service/impl/InventoryServiceImpl.java:45-61 | after a successful update, get on that id returns what update returned |
| InventoryRules.DeleteThenAllFail | Server/src/main/java/com/okta/developer/ims/service/impl/InventoryServiceImpl.java:45-72 | after delete on an id, get, update and delete on that id all fail |
| Lifecycle.Step | Server/src/main/java/com/okta/developer/ims/service/impl/InventoryServiceImpl.java:35-72 | every call keeps the store invariant and the type table, never lowers the next id and never removes a record |
| Lifecycle.Run | Server/src/main/java/com/okta/developer/ims/service/impl/InventoryServiceImpl.java:35-72 | the same holds after any history of calls |
| Lifecycle.StepKeepsDisabled | Server/src/main/java/com/okta/developer/ims/service/impl/InventoryServiceImpl.java:53-72 | no single call changes a disabled record |
| Lifecycle.DisabledIsFrozen | Server/src/main/java/com/okta/developer/ims/service/impl/InventoryServiceImpl.java:53-72 | a disabled record stays stored and unchanged through any later history |
| Lifecycle.DeleteIsFinal | Server/src/main/java/com/okta/developer/ims/service/impl/InventoryServiceImpl.java:45-72 | after a successful delete and any later history, get, update and delete on that id all fail |
| Lifecycle.CreatedRecordPersists | Server/src/main/java/com/okta/developer/ims/service/impl/InventoryServiceImpl.java:35-72 | a created record stays stored under its id, with that id, through any later history (there is no hard delete) |
| Lifecycle.WidgetScenario | Server/src/main/java/com/okta/developer/ims/service/impl/InventoryServiceImpl.java:35-72 | create "Widget" (5, "Hardware"), patch quantity to 10, delete: get returns the created record, then the record with quantity 10 and name and type kept, then fails |

## Left out

- `searchInventory` (lines 75-81): the predicate comes from `InventorySpecificationFactory`, which is not part of this model, and what remains is the entity-to-DTO conversion, which is also left out.
- `Adapter.getInstance().convert`: a reflective mapper outside the service. Create takes name and quantity from the request as a field-for-field copy; every operation returns the saved entity that the source hands to the converter, not the converted DTO.
- Create does not carry the request's `inventoryId` into the new record: it always inserts under a fresh id, so it never overwrites a stored row. If the converter copied that id, `save` would overwrite the stored record and enable it again; `Lifecycle.DisabledIsFrozen`, `Lifecycle.DeleteIsFinal` and `Lifecycle.CreatedRecordPersists` depend on create always using a fresh id.
- JPA internals: `save` assigning ids is modelled as a counter above every stored id; transactions, flushing and query execution are not modelled. A managed entity's setters are modelled as writes to the stored record.
- Each call is modelled as one atomic step, and histories of calls are sequential. Concurrent requests, which can interleave the lookup and the `save` (lines 55/58, 66/69), are not modelled. `Lifecycle.DisabledIsFrozen`, `Lifecycle.DeleteIsFinal` and `Lifecycle.StepKeepsDisabled` hold for sequential calls only.
- A null id passed to `findByIdAndEnabled`, and a null name passed to `findByType`, are modelled as misses.
- The distinct exception types (`NoSuchElementException`, `NullPointerException`) are collapsed into `Fail`; no failing call changes any state. When the lookup misses, the source still calls the private `updateInventory` on the null entity and throws only if a patch field is present (otherwise `Optional.get()` throws); the model fails in `UpdateInventory` before any setter runs, which gives the same outcome, so the setters and `UpdateEntity` require a stored id.
- Spring wiring (`@Autowired`) and Log4j logging: no effect on behaviour.
- The 64-bit width of Java `Long` ids and quantities: the model uses unbounded integers, and id-sequence overflow is not modelled.
