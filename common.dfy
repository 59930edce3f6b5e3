/** Small value wrappers shared by the explorer model. */
module Common {

  /** A JavaScript value that may be `null`/`undefined` (None) or present (Some). */
  datatype Option<+T> = None | Some(value: T)

  /** The outcome of one awaited network request: the resolved response body,
      or a rejection (the reason is only logged by the component, so it is not kept). */
  datatype Reply<+T> = Success(value: T) | Failure
}
