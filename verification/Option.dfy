/** The value-or-nothing result used where the Go code returns a pair `(value, ok)`. */
module Options {
  datatype Option<+T> = None | Some(value: T) {
    function GetOr(default: T): T {
      if Some? then value else default
    }
  }
}
