/** Optional values: a spreadsheet cell that is empty (NaN), a column that is absent. */
module Wrappers {

  datatype Option<+T> = None | Some(value: T)
}
