/** Absent-or-present values: a form field that was never filled in, or a lookup that found nothing. */
module Wrappers {

  datatype Option<+T> = None | Some(value: T)

}
