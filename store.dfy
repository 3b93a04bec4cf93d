/** What the relational store answers to one query. The repositories never
    see SQL; each of their operations receives the store's answer as input.
    A rejected query is an `Err`, which every layer passes on unchanged. */
module Store {

  /** Any failure of the store: connectivity, a constraint, a malformed query. */
  datatype StoreError = StoreError(message: string)

  /** The settled value of an awaited query: fulfilled with a value, or rejected. */
  datatype Result<T> = Ok(value: T) | Err(error: StoreError)

  /** A value that may be absent (`undefined` or `null` in JavaScript). */
  datatype Option<T> = None | Some(value: T)

  /** Answer to an INSERT: the identifier the store assigned. */
  datatype InsertResult = InsertResult(insertId: int)

  /** Answer to an UPDATE or DELETE: how many rows it touched. */
  datatype MutationResult = MutationResult(affectedRows: nat)
}
