/** Optional values and the failures the analyser can raise. */
module Results {

  datatype Option<+T> = None | Some(value: T)

  /** The two ways the visitor stops with an AttributeError: reading `.id` on
      the root of a call chain that is not a plain name, and reading `.id` on
      an assignment target that is not a plain name. */
  datatype Fault = RootNotName | TargetNotName

  datatype Result<+T> = Ok(value: T) | Err(fault: Fault)
}
