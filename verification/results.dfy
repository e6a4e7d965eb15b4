/** Failure-carrying wrappers shared by every module of the model.

    JavaScript signals errors by throwing; the model turns every throw it
    cares about into the `Throws` arm of `Outcome`, so that "this call throws"
    is a value a contract can talk about. */
module Results {

  /** An optional value: `undefined` / a missing match in the source. */
  datatype Option<+T> = None | Some(value: T)

  /** The result of a call that may throw. */
  datatype Outcome<+T> = Returns(value: T) | Throws
}
