/** Option and Result: the absent value (`null`, `undefined`) and the thrown
    error of the modelled code. Errors carry the message string the code
    throws, since every catch in the system reads only `error.message`. */
module Wrappers {

  datatype Option<+T> = None | Some(value: T)

  datatype Result<+T> = Ok(value: T) | Err(message: string)
}
