/** Outcome types shared by the model: JavaScript's `null`/`undefined` results
    become `Option`, and thrown errors become the `Failure` side of `Result`. */
module Results {

  datatype Option<+T> = None | Some(value: T)

  datatype Result<+T, +E> = Success(value: T) | Failure(error: E)
}
