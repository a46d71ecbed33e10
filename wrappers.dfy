/** The failure-compatible Option used for outcomes that may be absent:
    a history file that is missing or undecodable, an index page that does
    not exist, a price cell that does not parse. */
module Wrappers {

  datatype Option<+T> = None | Some(value: T)

}
