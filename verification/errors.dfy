/**
 * The exceptions the worker can raise before copying starts, and the
 * Option/Result wrappers used to model them as values.
 */
module Errors {

  datatype Option<+T> = None | Some(value: T)

  /** Everything that aborts a run. Each is fatal: the worker logs it and
      reports a failed run. */
  datatype Error =
    | TableNotFound                   // FileNotFoundError for the table path
    | TableUnreadable                 // pandas could not parse or decode the table
    | InvalidColumnLetter             // ValueError from excel_col_to_index
    | ColumnOutOfRange(index: int)    // IndexError from positional column access
    | ColumnNotFound(name: string)    // KeyError for an unknown header
    | EmptyNameList                   // ValueError: no usable identifier in the column
    | ImagesFolderNotFound            // FileNotFoundError for the images folder
    | OutputNotCreatable              // os.makedirs on the output folder raised

  datatype Result<+T> = Ok(value: T) | Err(error: Error)
}
