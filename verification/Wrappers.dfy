/** Values shared by several modules: an optional value, and the class an operation is catalogued under. */
module Wrappers {
  datatype Option<+T> = None | Some(value: T)

  datatype Safety = ReadOnly | Mutation | Destructive | Internal
}
