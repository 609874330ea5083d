/** The optional value used for "no task selected" (the source's index -1). */
module Options {

  datatype Option<T> = None | Some(value: T)
}
