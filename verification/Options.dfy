// A value that may be absent: null pointers, failed allocations, faults.
module Options {
  datatype Option<+T> = None | Some(value: T)
}
