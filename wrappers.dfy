/** Optional values and outcomes that may fail, used for the attributes an element
    may lack and for the exceptions the plugin's promises reject with. */
module Wrappers {

  datatype Option<+T> = None | Some(value: T)

  datatype Result<+T, +E> = Ok(value: T) | Err(error: E)
}
