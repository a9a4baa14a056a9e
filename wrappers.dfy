/** The optional value: pandas' missing cell (None / NaN / NaT) is `None`. */
module Wrappers {

  datatype Option<+T> = None | Some(value: T)
}
