/** The optional value used wherever the widget reads something that may be
    missing: a storage key that was never written (`getItem` gives `null`),
    a note attribute that is not set, a `parseInt` that gives NaN. */
module Options {

  datatype Option<+T> = None | Some(value: T)

}
