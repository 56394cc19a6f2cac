/** The optional value used for end markers and trie lookups. */
module Wrappers {
  datatype Option<+T> = None | Some(value: T)
}
