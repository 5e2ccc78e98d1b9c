/** Python's `None`-or-value, as used for `MAX_ROWS` and `backup_path`. */
module Wrappers {

  datatype Option<+T> = None | Some(value: T)
}
