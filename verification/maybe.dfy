/**
 * PHP's "a value or `null`": the device brand and model, an extracted model, and the
 * index of the table entry a first-match scan stops at.
 */
module Maybe {

  datatype Option<T> = None | Some(value: T) {

    /** The value, or `fallback` for `null`, as in the brand fallbacks `?: 'iPhone'`. */
    function OrElse(fallback: T): T {
      if Some? then value else fallback
    }
  }
}
