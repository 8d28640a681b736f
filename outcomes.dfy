/** The two error policies of the store: hard failures (positional accessors and
    fetching a table handle) and reported-and-continue outcomes (the operation is
    skipped and a diagnostic is written). */
module Outcomes {

  datatype Option<+T> = None | Some(value: T)

  /** What a hard failure (a thrown exception in the store) carries. */
  datatype Fault =
    | RowIndexOutOfRange
    | ColumnIndexOutOfRange
    | TableNotFound(name: string)

  datatype Result<+T> = Ok(value: T) | Failure(fault: Fault)

  /** A schema problem a validation pass can report. */
  datatype SchemaIssue = NoColumns | EmptyColumnName | DuplicateColumns

  /** Which diagnostic a mutating operation writes; `Done` means none was written
      and the operation took effect. */
  datatype Report =
    | Done
    | RowSizeMismatch
    | MissingColumn(column: string)
    | MissingTable(table: string)
}
