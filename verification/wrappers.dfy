/** Optional results shared by the whole model. */
module Wrappers {

  /** `None` stands for an operation of the source that throws, rejects or
      finds nothing; `Some` carries its result. */
  datatype Option<+T> = None | Some(value: T)
}
