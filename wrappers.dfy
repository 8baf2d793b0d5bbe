/** The optional value used where the store returns a product or None. */
module Wrappers {

  datatype Option<+T> = None | Some(value: T)
}
