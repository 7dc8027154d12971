/** The optional value that models a C# nullable result (`DateTime?`) and the
    `bool TryX(..., out T)` pattern. */
module Wrappers {

  datatype Option<+T> = None | Some(value: T)

}
