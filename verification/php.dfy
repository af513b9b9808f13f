/** The few PHP value conventions the locale switcher depends on. */
module Php {

  /** A `T|false` value: `None` is PHP's `false`. */
  datatype Option<+T> = None | Some(value: T) {

    /** The wrapped value, or `default` for `false`. */
    function GetOr(default: T): T {
      match this
      case Some(v) => v
      case None => default
    }
  }

  /** PHP's truthiness of a string: "" and "0" are the only falsy strings. */
  predicate Truthy(s: string) {
    s != "" && s != "0"
  }

  /** PHP stores the array key `false` as the integer key 0, which is also the key of the string "0". */
  const FalseKey: string := "0"
}
