/** Option and Result, and the failures the post pipeline can raise. */
module Wrappers {

  datatype Option<+T> = None | Some(value: T) {
    function GetOr(default: T): T {
      match this
      case Some(v) => v
      case None => default
    }
  }

  datatype Result<+R, +E> = Success(value: R) | Failure(error: E) {
    predicate IsFailure() {
      Failure?
    }

    function PropagateFailure<U>(): Result<U, E>
      requires Failure?
    {
      Failure(error)
    }

    function Extract(): R
      requires Success?
    {
      value
    }
  }

  /** The exceptions that escape `readPost`. */
  datatype Error =
    | InvalidUrl(url: string)   // `new URL(url, base)` throws a TypeError
    | YamlException             // `yaml.load` throws on a malformed front-matter block
    | MetadataNotObject         // `yaml.load` gave null or undefined, so `meta.icon` throws
}
