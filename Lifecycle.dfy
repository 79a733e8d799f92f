/**
 * Sequences of service calls: what holds of the tables after any history of
 * creates, gets, updates and deletes.
 */
module Lifecycle {
  import opened Wrappers
  import opened Entities
  import opened Repositories
  import opened InventoryRules

  /** One call on the service's public interface. */
  datatype Call =
    | Create(dto: InventoryDto)
    | Get(getId: Option<int>)
    | Update(dto: InventoryDto)
    | Delete(deleteId: Option<int>)

  /** The state after one call; `getInventoryById` reads only. */
  function Step(s: Service, c: Call): (t: Service)
    requires Valid(s)
    ensures Valid(t) && t.types == s.types && s.nextId <= t.nextId
    ensures s.store.Keys <= t.store.Keys
  {
    match c
    case Create(dto) => AfterCreate(s, dto)
    case Get(_) => s
    case Update(dto) => AfterUpdate(s, dto)
    case Delete(id) => AfterDelete(s, id)
  }

  /** The state after a history of calls: the invariant holds and no record is ever removed. */
  function Run(s: Service, calls: seq<Call>): (t: Service)
    requires Valid(s)
    ensures Valid(t) && t.types == s.types && s.nextId <= t.nextId
    ensures s.store.Keys <= t.store.Keys
    decreases |calls|
  {
    if calls == [] then s else Run(Step(s, calls[0]), calls[1..])
  }

  /** No call changes a disabled record. */
  lemma StepKeepsDisabled(s: Service, c: Call, id: int)
    requires Valid(s) && id in s.store && s.store[id].enabled == DISABLED
    ensures id in Step(s, c).store && Step(s, c).store[id] == s.store[id]
  {
  }

  /** Once disabled, a record stays exactly as it is through any later history. */
  lemma {:induction false} DisabledIsFrozen(s: Service, calls: seq<Call>, id: int)
    requires Valid(s) && id in s.store && s.store[id].enabled == DISABLED
    ensures id in Run(s, calls).store && Run(s, calls).store[id] == s.store[id]
    decreases |calls|
  {
    if calls != [] {
      StepKeepsDisabled(s, calls[0], id);
      DisabledIsFrozen(Step(s, calls[0]), calls[1..], id);
    }
  }

  /** A soft delete is final: after any later history, get, update and delete on that id all fail. */
  lemma DeleteIsFinal(s: Service, inventoryId: Option<int>, calls: seq<Call>, dto: InventoryDto)
    requires Valid(s) && DeleteResult(s, inventoryId).Ok? && dto.inventoryId == inventoryId
    ensures var t := Run(AfterDelete(s, inventoryId), calls);
      && GetInventoryById(t.store, inventoryId).Fail?
      && UpdateResult(t, dto).Fail?
      && DeleteResult(t, inventoryId).Fail?
  {
    DisabledIsFrozen(AfterDelete(s, inventoryId), calls, inventoryId.value);
  }

  /** A record created in any state keeps its id and stays stored through any later history. */
  lemma CreatedRecordPersists(s: Service, dto: InventoryDto, calls: seq<Call>)
    requires Valid(s)
    ensures var t := Run(AfterCreate(s, dto), calls);
      s.nextId in t.store && t.store[s.nextId].id == s.nextId
  {
  }

  /** Create, update the quantity, delete: each step as the service promises it, on a concrete table. */
  lemma WidgetScenario()
    ensures
      var hardware := InventoryType(7, "Hardware");
      var s0 := Service(map[], map["Hardware" := hardware], 1);
      var s1 := AfterCreate(s0, InventoryDto(None, Some("Widget"), Some(5), Some("Hardware")));
      var patch := InventoryDto(Some(1), None, Some(10), None);
      var s2 := AfterUpdate(s1, patch);
      var s3 := AfterDelete(s2, Some(1));
      && GetInventoryById(s1.store, Some(1)) == Ok(Inventory(1, Some("Widget"), Some(5), Some(hardware), ENABLED))
      && GetInventoryById(s2.store, Some(1)) == Ok(Inventory(1, Some("Widget"), Some(10), Some(hardware), ENABLED))
      && GetInventoryById(s3.store, Some(1)).Fail?
  {
  }
}
