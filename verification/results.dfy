/** The exceptions the engine throws, and a failure-compatible result type
    that stands in for "returns a value or throws". */
module Results {

  /** One constructor per error class of the engine. The messages the
      source attaches are not modelled. */
  datatype Error =
    | InvalidAlphabet
    | InvalidLetter
    | InvalidRingPosition
    | ReflectorMapIndexToSameIndex
    | ReflectorRequiresValidAlphabet
    | EnigmaMachineRequires3Rotors
    /** A property read on `undefined`, which JavaScript reports as a
        `TypeError`. */
    | TypeError

  datatype Result<+T> = Ok(value: T) | Err(error: Error) {

    predicate IsFailure() {
      Err?
    }

    function PropagateFailure<U>(): Result<U>
      requires Err?
    {
      Err(error)
    }

    function Extract(): T
      requires Ok?
    {
      value
    }
  }

  datatype Option<+T> = None | Some(value: T)
}
