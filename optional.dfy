/** The absent-or-present value that the source writes as `T | null`,
    `T | undefined` or an optional object key. */
module Optional {
  datatype Option<T> = None | Some(value: T)
}
