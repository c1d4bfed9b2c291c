/** Missing cells. A cell of a table either holds a value or is missing (NaN). */
module Wrappers {

  datatype Option<+T> = None | Some(value: T)
}
