/** Types shared by every part of the model. */
module SharedTypes {

  /** An optional value: a lookup that may find nothing (a Java `null`). */
  datatype Option<+T> = None | Some(value: T)

  /** A UUID, the identity of a stored credential, credential version or encryption key. */
  type Uuid = nat
}
