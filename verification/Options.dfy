// The small value types shared by the models: optional values, value-or-error, and inputs that may be
// NaN or infinite.
module Options {
  datatype Option<+T> = None | Some(value: T)

  datatype Result<+T, +E> = Ok(value: T) | Err(error: E)

  /** A floating-point input; `NonFinite` stands for NaN and the infinities. */
  datatype Float = Finite(value: real) | NonFinite
}
