/** An optional value: the TypeScript `T | undefined` of a lookup. */
module Wrappers {

  datatype Option<+T> = None | Some(value: T)
}
