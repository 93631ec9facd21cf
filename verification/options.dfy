/** A value that may be missing: an absent form element, an unparseable
    number, a photo input with no file chosen, a request without an upload. */
module Options {

  datatype Option<+T> = None | Some(value: T)
}
