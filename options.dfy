/** The usual optional-value wrapper, used for "no asteroid was hit", "not an
    arrow key" and "no result announced yet". */
module Options {
  datatype Option<T> = None | Some(value: T)
}
