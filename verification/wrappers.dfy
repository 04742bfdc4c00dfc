/** The optional value: an absent `links.next`, or a `workerId` that is `null`. */
module Wrappers {

  datatype Option<+T> = None | Some(value: T)
}
