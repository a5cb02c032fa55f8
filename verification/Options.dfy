/** The optional values and outcomes shared by the models: a nullable column, an error return. */
module Options {
  datatype Option<+T> = None | Some(value: T)

  datatype Result<+T> = Ok(value: T) | Err(message: string)
}
