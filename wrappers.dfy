/** Failure-carrying values shared by the model of the search engine. */
module Wrappers {

  datatype Option<T> = None | Some(value: T)

  /** The ways one step of the search can end without a result.
      IndexOutOfBounds and IllegalArgument are the Java exceptions that escape
      the engine; DrawsExhausted means the caller-supplied random draws ran out
      before a loop of the engine could stop. */
  datatype Error = IndexOutOfBounds | IllegalArgument | DrawsExhausted

  datatype Result<T> = Ok(value: T) | Err(error: Error)
}
