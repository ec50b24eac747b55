/** Option and Result, the two shapes in which Python's `None` returns and
    raised exceptions appear in this model. */
module Wrappers {

  datatype Option<+T> = None | Some(value: T)

  datatype Result<+R, +E> = Success(value: R) | Failure(error: E)
}

/** The exceptions the modelled code raises or lets propagate. Every one
    carries the text `str(e)` would give. */
module Exceptions {

  datatype Error =
    | ValueError(msg: string)
    | TypeError(msg: string)
    | IndexError(msg: string)
    | RequestException(msg: string)
    | XmlSyntaxError(msg: string)
    | HttpError(msg: string)
    | UrlError(msg: string)

  /** `str(e)` */
  function Describe(e: Error): string
  {
    e.msg
  }
}
