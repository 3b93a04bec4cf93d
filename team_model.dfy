/** The team repository: shapes the store's answers into team records.
    Each operation takes the settled result of its one query as input. */
module TeamModel {
  import opened JsValues
  import opened Store

  /** `create(newTeam)`: `{ id: insertId, ...newTeam }`. The submitted fields
      are kept verbatim and only `id` is added; because the spread comes last,
      an `id` in the submitted fields overrides the store's insertId. */
  function Create(newTeam: Record, answer: Result<InsertResult>): (r: Result<Record>)
    ensures answer.Err? ==> r == Err(answer.error)
    ensures answer.Ok? ==> r.Ok? && r.value.Keys == newTeam.Keys + {"id"}
    ensures answer.Ok? ==> forall k :: k in newTeam ==> r.value[k] == newTeam[k]
    ensures answer.Ok? && "id" !in newTeam ==> r.value["id"] == Num(answer.value.insertId)
  {
    match answer
    case Err(e) => Err(e)
    case Ok(ins) => Ok(map["id" := Num(ins.insertId)] + newTeam)
  }

  /** `getAll()`: every team row, in the store's order; no rows is a success. */
  function GetAll(answer: Result<seq<Record>>): (r: Result<seq<Record>>)
    ensures answer.Ok? ==> r.Ok? && r.value == answer.value
    ensures answer.Err? ==> r == Err(answer.error)
  {
    answer
  }

  /** `findById(id)`: the first row of the answer, or nothing (`undefined`)
      when no row matched. The id only feeds the query. */
  function FindById(id: Value, answer: Result<seq<Record>>): (r: Result<Option<Record>>)
    ensures answer.Err? ==> r == Err(answer.error)
    ensures answer.Ok? ==> r.Ok? && (r.value.None? <==> answer.value == [])
    ensures answer.Ok? && r.value.Some? ==> r.value.value == answer.value[0]
  {
    match answer
    case Err(e) => Err(e)
    case Ok(rows) => if rows == [] then Ok(None) else Ok(Some(rows[0]))
  }

  /** `update(id, updatedTeam)`: `{ id, ...updatedTeam }` when a row was
      affected, `null` otherwise. The id is the argument as passed (a path
      string, say), not re-read from the store, and an `id` among the
      submitted fields overrides it. */
  function Update(id: Value, updatedTeam: Record, answer: Result<MutationResult>): (r: Result<Option<Record>>)
    ensures answer.Err? ==> r == Err(answer.error)
    ensures answer.Ok? ==> r.Ok? && (r.value.Some? <==> answer.value.affectedRows > 0)
    ensures answer.Ok? && r.value.Some? ==>
      && r.value.value.Keys == updatedTeam.Keys + {"id"}
      && (forall k :: k in updatedTeam ==> r.value.value[k] == updatedTeam[k])
      && ("id" !in updatedTeam ==> r.value.value["id"] == id)
  {
    match answer
    case Err(e) => Err(e)
    case Ok(m) => if m.affectedRows > 0 then Ok(Some(map["id" := id] + updatedTeam)) else Ok(None)
  }

  /** `delete(id)`: whether a row was removed. A missing id yields `false`,
      not an error. */
  function Delete(id: Value, answer: Result<MutationResult>): (r: Result<bool>)
    ensures answer.Err? ==> r == Err(answer.error)
    ensures answer.Ok? ==> r.Ok? && (r.value <==> answer.value.affectedRows > 0)
  {
    match answer
    case Err(e) => Err(e)
    case Ok(m) => Ok(m.affectedRows > 0)
  }

  /** A successful update of a numeric id shapes its record exactly as a
      create whose insertId is that id would. */
  lemma UpdateShapesLikeCreate(id: int, fields: Record, affected: nat)
    requires affected > 0
    ensures Update(Num(id), fields, Ok(MutationResult(affected)))
         == Ok(Some(Create(fields, Ok(InsertResult(id))).value))
  {
  }

  /** Update and delete read the same answer the same way: "not found" is
      exactly "no row affected", for both. */
  lemma NotFoundAgrees(id: Value, fields: Record, m: MutationResult)
    ensures Update(id, fields, Ok(m)) == Ok(None) <==> Delete(id, Ok(m)) == Ok(false)
    ensures Update(id, fields, Ok(m)) == Ok(None) <==> m.affectedRows == 0
  {
  }
}
