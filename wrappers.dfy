/** The two failure-carrying shapes the container's operations return:
    `Option` for "maybe a value" and `Result` for "done, or here is what was refused". */
module Wrappers {

  datatype Option<+T> = None | Some(value: T)

  datatype Result<+R, +E> = Ok(value: R) | Err(error: E)
}
