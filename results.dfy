/** Optional values (JavaScript `null`) and outcomes that may fail (a rejected promise or a throw). */
module Results {

  datatype Option<T> = None | Some(value: T)

  /** `Err` carries the text the failure turns into when interpolated (`${e}`). */
  datatype Result<T> = Ok(value: T) | Err(error: string)
}
