/** Optional values and validation outcomes, shared by every module of the model. */
module Wrappers {

  /** A value that may be missing: JavaScript's `undefined` / `null`. */
  datatype Option<+T> = None | Some(value: T)

  /** The outcome of a validated form or request: either what is sent or the message shown. */
  datatype Result<+T, +E> = Ok(value: T) | Err(error: E)

  /** An edit dialog's selected id as the pages test it, `!currentEditing...Id`: no id, or the
      falsy id 0, counts as nothing selected. */
  predicate Selected(id: Option<int>)
  {
    id.Some? && id.value != 0
  }
}
