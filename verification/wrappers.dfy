/** Failure-carrying result types shared by every module of the model.
    `Option` stands for a nullable reference (`T?` in Kotlin, a null pointer in C++);
    `Result` stands for an operation that may throw. */
module Wrappers {

  datatype Option<+T> = None | Some(value: T) {

    /** The wrapped value, or `default` for a null. */
    function GetOr(default: T): T {
      match this
      case Some(v) => v
      case None => default
    }
  }

  /** `Failure` carries the message the source would put into its exception. */
  datatype Result<+T> = Ok(value: T) | Failure(message: string)
}
