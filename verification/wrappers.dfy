/** Optional values and the outcome of a parameter loader. */
module Wrappers {

  datatype Option<+T> = None | Some(value: T)

  /** What a `load_param` variant leaves behind: the parameters it read and the
      position just past the last token or byte it consumed, or the non-zero
      status code it returned. */
  datatype Loaded<+P> = Ok(params: P, next: int) | Err(code: int)

  /** Status codes shared by all layers. */
  const ParseFailed: int := -1
  const AllocFailed: int := -100
}
