/** The conventional optional value; `None` stands for a NULL pointer. */
module Wrappers {

  datatype Option<+T> = None | Some(value: T)

}
