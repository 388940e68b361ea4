/** An absent-or-present result, standing for MLIR's nullable pointers
    and null function references. */
module Options {
  datatype Option<+T> = None | Some(value: T)
}
