/** Optional values and outcomes that carry an alert message. */
module Results {

  datatype Option<T> = None | Some(value: T)

  /** The outcome of a form submission: the accepted data, or the alert shown to the user. */
  datatype Result<T> = Ok(value: T) | Err(alert: string)
}
