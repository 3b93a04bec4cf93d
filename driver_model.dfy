/** The driver repository: shapes the store's answers into driver records.
    Each operation takes the settled result of its one query as input.
    Unlike the aggregation view, nothing here converts `is_titular`: the
    value submitted is the value returned. */
module DriverModel {
  import opened JsValues
  import opened Store

  /** `create(newDriver)`: `{ id: insertId, ...newDriver }`. Every submitted
      field, `is_titular` included, is returned as submitted; only `id` is
      added, and a submitted `id` overrides the store's insertId. */
  function Create(newDriver: Record, answer: Result<InsertResult>): (r: Result<Record>)
    ensures answer.Err? ==> r == Err(answer.error)
    ensures answer.Ok? ==> r.Ok? && r.value.Keys == newDriver.Keys + {"id"}
    ensures answer.Ok? ==> forall k :: k in newDriver ==> r.value[k] == newDriver[k]
    ensures answer.Ok? && "id" !in newDriver ==> r.value["id"] == Num(answer.value.insertId)
  {
    match answer
    case Err(e) => Err(e)
    case Ok(ins) => Ok(map["id" := Num(ins.insertId)] + newDriver)
  }

  /** `getAll()`: every driver row, in the store's order. */
  function GetAll(answer: Result<seq<Record>>): (r: Result<seq<Record>>)
    ensures answer.Ok? ==> r.Ok? && r.value == answer.value
    ensures answer.Err? ==> r == Err(answer.error)
  {
    answer
  }

  /** `findById(id)`: the first row of the answer, or nothing when no row
      matched. */
  function FindById(id: Value, answer: Result<seq<Record>>): (r: Result<Option<Record>>)
    ensures answer.Err? ==> r == Err(answer.error)
    ensures answer.Ok? ==> r.Ok? && (r.value.None? <==> answer.value == [])
    ensures answer.Ok? && r.value.Some? ==> r.value.value == answer.value[0]
  {
    match answer
    case Err(e) => Err(e)
    case Ok(rows) => if rows == [] then Ok(None) else Ok(Some(rows[0]))
  }

  /** `update(id, updatedDriver)`: `{ id, ...updatedDriver }` when a row was
      affected, `null` otherwise. */
  function Update(id: Value, updatedDriver: Record, answer: Result<MutationResult>): (r: Result<Option<Record>>)
    ensures answer.Err? ==> r == Err(answer.error)
    ensures answer.Ok? ==> r.Ok? && (r.value.Some? <==> answer.value.affectedRows > 0)
    ensures answer.Ok? && r.value.Some? ==>
      && r.value.value.Keys == updatedDriver.Keys + {"id"}
      && (forall k :: k in updatedDriver ==> r.value.value[k] == updatedDriver[k])
      && ("id" !in updatedDriver ==> r.value.value["id"] == id)
  {
    match answer
    case Err(e) => Err(e)
    case Ok(m) => if m.affectedRows > 0 then Ok(Some(map["id" := id] + updatedDriver)) else Ok(None)
  }

  /** `delete(id)`: whether a row was removed; a missing id yields `false`. */
  function Delete(id: Value, answer: Result<MutationResult>): (r: Result<bool>)
    ensures answer.Err? ==> r == Err(answer.error)
    ensures answer.Ok? ==> r.Ok? && (r.value <==> answer.value.affectedRows > 0)
  {
    match answer
    case Err(e) => Err(e)
    case Ok(m) => Ok(m.affectedRows > 0)
  }

  /** `getByTeamId(teamId)`: the store's rows unchanged; no matching driver
      is an empty success, not an error. */
  function GetByTeamId(teamId: Value, answer: Result<seq<Record>>): (r: Result<seq<Record>>)
    ensures answer.Ok? ==> r.Ok? && r.value == answer.value
    ensures answer == Ok([]) ==> r == Ok([])
    ensures answer.Err? ==> r == Err(answer.error)
  {
    answer
  }

  /** `is_titular` is stored and echoed as submitted by create and update:
      `true`, 1, 2 or null come back unchanged. */
  lemma TitularAsSubmitted(fields: Record, v: Value, insertId: int, id: Value, affected: nat)
    requires affected > 0
    ensures Create(fields["is_titular" := v], Ok(InsertResult(insertId))).value["is_titular"] == v
    ensures Update(id, fields["is_titular" := v], Ok(MutationResult(affected))).value.value["is_titular"] == v
  {
  }
}
