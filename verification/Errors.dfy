/** Results and errors shared by every layer of the engine. */
module Errors {
  import opened Bytes

  /** Names are carried as bytes; the wording of messages is not modelled. */
  datatype StoreError =
    | Io
    | Corrupt(what: string)
    | OutOfSpace
    | Parse(message: string)
    | NullViolation(column: seq<u8>)
    | UniqueViolation(column: seq<u8>)
    | ForeignKeyViolation(fk: seq<u8>)
    | SchemaRejected(reason: string)
    | NotFound(what: string)
    | Duplicate(what: string)

  datatype Result<+T> = Success(value: T) | Failure(error: StoreError) {
    predicate IsFailure() { Failure? }
    function PropagateFailure<U>(): Result<U>
      requires Failure?
    {
      Failure(error)
    }
    function Extract(): T
      requires Success?
    {
      value
    }
  }

  datatype Option<+T> = None | Some(value: T)

  datatype Unit = Unit
}
