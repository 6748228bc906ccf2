/**
 * What both map engines share: the Java `null` of a stored value and the
 * unchecked exceptions their operations throw.
 */
module MapCommon {

  /** A stored value or key lookup result; `None` stands for Java's `null`. */
  datatype Option<+T> = None | Some(value: T)

  /** The unchecked exceptions the two engines raise. */
  datatype Fault =
    | IllegalArgument         // bad constructor argument, or a rotation without the child it promotes
    | NoSuchElement           // an iterator advanced past its last element
    | ConcurrentModification  // an iterator advanced after a structural change of its map

  /** The outcome of an operation that may throw one of the faults above. */
  datatype Result<+T> = Ok(value: T) | Err(fault: Fault)
}
