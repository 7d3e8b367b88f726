/** An optional value: a session-state key that may be absent, a page name
    that may not match any handler. */
module Wrappers {

  datatype Option<+T> = None | Some(value: T)
}
