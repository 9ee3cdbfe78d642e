/** An optional value: a value that may be absent. */
module Wrappers {

  /** `None` stands for an absent value: a null pointer, or a radio poll that found nothing. */
  datatype Option<+T> = None | Some(value: T)
}
