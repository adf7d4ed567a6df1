/** Small value wrappers shared by the whole model. */
module Wrappers {

  /** A value that may be absent (a nullable column, a lookup that finds nothing). */
  datatype Option<+T> = None | Some(value: T)

  /** One field of a partial-update payload: either not supplied by the client, or supplied with a value.
      Only supplied fields survive `model_dump(exclude_unset=True)`. */
  datatype Patch<+T> = Unset | Set(value: T) {

    /** The value the field has after the update, given its value before. */
    function Or(current: T): (v: T) {
      if Set? then value else current
    }
  }
}
