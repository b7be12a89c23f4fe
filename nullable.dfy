/** A value that may be absent: Python's None on the collector side and
    SQL NULL on the database side. */
module Nullable {

  datatype Option<+T> = None | Some(value: T)
}
