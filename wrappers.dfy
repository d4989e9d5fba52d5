/** The usual optional-value datatype, used wherever the script produces
    "nothing" (a rejected name, an unknown format key, a missing match). */
module Wrappers {

  datatype Option<+T> = None | Some(value: T)
}
