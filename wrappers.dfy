/** The Option type used for the source's (value, ok) and (key, value, ok) results:
    None stands for ok == false, Some(x) for ok == true with payload x. */
module Wrappers {
  datatype Option<+T> = None | Some(value: T)
}
