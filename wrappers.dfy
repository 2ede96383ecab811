/** The JavaScript `null`-or-value results of the gallery, as an option type. */
module Wrappers {

  datatype Option<+T> = None | Some(value: T)
}
