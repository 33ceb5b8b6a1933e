/** The optional value used for lookups that may find nothing (a missing block,
    an unparsable number, a pool with no live layer). */
module Wrappers {

  datatype Option<+T> = None | Some(value: T)

}
