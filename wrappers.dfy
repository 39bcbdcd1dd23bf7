/** Option stands for a pointer result that may be null (a selected parent,
    a similar-fit substitute). */
module Wrappers {

  datatype Option<+T> = None | Some(value: T)
}
