/** Small shared vocabulary for the page-script model. */
module Common {

  /** A value that may be absent: a DOM query that found nothing, a
      storage key that was never set, an attribute that is missing. */
  datatype Option<+T> = None | Some(value: T)
}
