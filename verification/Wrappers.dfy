/** An optional value: `undefined` or `null` on the JavaScript side is None. */
module Wrappers {
  datatype Option<+T> = None | Some(value: T) {
    function UnwrapOr(default: T): T {
      if Some? then value else default
    }
  }
}
