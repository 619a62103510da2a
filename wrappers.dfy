/** Optional values: the model's stand-in for a TypeScript `T | null` or
    `T | undefined`. */
module Wrappers {
  datatype Option<+T> = None | Some(value: T)
}
