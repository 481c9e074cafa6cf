/** Small datatypes for absent values and failed calls. */
module Wrappers {

  datatype Option<+T> = None | Some(value: T)

  /** The outcome of a pipeline call that names a column: either it went
      through, or the named column does not exist in the table. */
  datatype Result<+T> = Ok(value: T) | MissingColumn(column: string)
}
