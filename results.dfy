/** Failure-carrying values shared by the scanner and the embedding processor.
    A JavaScript `throw new Error(message)` that a caller sees becomes `Err(message)`. */
module Results {

  datatype Option<+T> = None | Some(value: T)

  datatype Result<+T> = Ok(value: T) | Err(message: string) {
    function ToOption(): Option<T> {
      match this
      case Ok(v) => Some(v)
      case Err(_) => None
    }
  }
}
