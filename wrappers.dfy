/** The optional value the bot's helpers return instead of raising (Python's `None`). */
module Wrappers {
  datatype Option<+T> = None | Some(value: T)
}
