/** Error-carrying values shared by the model: Go's `(value, error)` pairs
    become `Result`, and a possibly absent error becomes `Option`. */
module Results {

  datatype Option<+T> = None | Some(value: T)

  datatype Result<+T, +E> = Ok(value: T) | Err(error: E)
}
