/** Option and Result, the two failure-carrying wrappers the model uses for Java's
    null references and thrown exceptions. */
module Wrappers {

  /** A Java reference that may be null. */
  datatype Option<+T> = None | Some(value: T) {
    function GetOr(default: T): T {
      match this
      case Some(v) => v
      case None => default
    }
  }

  /** The outcome of a Java call that either returns or throws an exception
      carrying a message. */
  datatype Result<+T> = Success(value: T) | Failure(message: string)

  /** `Properties.getProperty(key)`: the mapped value, or null. */
  function Get<K, V>(m: map<K, V>, key: K): Option<V> {
    if key in m then Some(m[key]) else None
  }
}
