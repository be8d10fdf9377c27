/** The error conditions of the report: pandas' ValueError for an empty pivot
    input, KeyError for a column that is not in the table, and the ValueError
    of a reindex over repeated row labels. */
module Outcomes {
  datatype Option<T> = None | Some(value: T)

  datatype Error = EmptyPivot | MissingColumn(name: string) | DuplicateLabels

  datatype Result<T> = Ok(value: T) | Err(error: Error)
}
