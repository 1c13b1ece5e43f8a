/** Optional values and results that carry the reason a run was aborted. */
module Results {

  datatype Option<T> = None | Some(value: T)

  /** `Err` stands for an exception the script does not catch: the run stops
      there and nothing is written to the device. */
  datatype Result<T> = Ok(value: T) | Err(reason: string)
}
