/** An optional value: the `T | null` and `T | undefined` of the builder's TypeScript. */
module Options {

  datatype Option<+T> = None | Some(value: T)
}
