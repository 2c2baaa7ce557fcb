/** The optional value returned by the grid's safe index lookup and by the
    builder phases that consume a finite stream of random draws. */
module Wrappers {

  datatype Option<+T> = None | Some(value: T)

}
