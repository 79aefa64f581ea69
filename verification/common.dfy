/** Values shared by every layer: the stand-in for a Java reference that may be null. */
module Common {

  /** A Java reference that may be `null` (`None`) or hold a value (`Some`). */
  datatype Option<+T> = None | Some(value: T)
}
