/** Option and Result, for the error paths of the modelled JavaScript code
    (a destructured field that is `undefined`, a thrown TypeError). */
module Results {

  datatype Option<+T> = None | Some(value: T)

  datatype Result<+T, +E> = Success(value: T) | Failure(error: E)
}
