/** Absence, failure and listener outcomes for the DOM tutorial script model. */
module Results {

  /** A nullable value: `None` plays the role of JavaScript `null`. */
  datatype Option<+T> = None | Some(value: T)

  /** What a failed property read was attempted on. */
  datatype Missing = Null | Undefined

  /** The exceptions the modelled handlers can raise. */
  datatype Fault =
    /** Reading `property` of `null` or `undefined` (a JavaScript TypeError). */
    | TypeError(receiver: Missing, property: string)
    /** `removeChild` given a node that is not a child (a DOMException). */
    | NotFoundError

  /** Result of a step that changes nothing when it fails. */
  datatype Result<+T> = Success(value: T) | Failure(fault: Fault)

  /** Outcome of running an event listener. An exception thrown part-way
      through a listener does not undo the writes made before it, so the
      state is present in both alternatives. */
  datatype Outcome<+S> = Done(state: S) | Threw(state: S, fault: Fault)
}
