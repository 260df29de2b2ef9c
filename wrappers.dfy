/** Optional values, used for the outcome of parsing a form field and for
    the first validation message of a form. */
module Wrappers {

  datatype Option<+T> = None | Some(value: T)

}
