/** The absent-or-present value used for lookups that may fail and for the
    null entries of a C# string array. */
module Options {

  datatype Option<T> = None | Some(value: T)
}
