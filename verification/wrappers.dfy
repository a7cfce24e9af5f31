/** Rust's Option, as used by the tile table and the door search. */
module Wrappers {
  datatype Option<T> = None | Some(value: T) {
    /** The wrapped value, or `default` when there is none. */
    function GetOr(default: T): T {
      if Some? then value else default
    }
  }
}
