/**
 * Python runtime values shared by the pipeline's scripts: optional values, the
 * field values a JSON plan or metadata file may hold, and the exceptions that
 * the modelled code raises or catches.
 */
module Python {

  datatype Option<T> = None | Some(value: T)

  /** A value, or the exception raised instead of it. */
  datatype Result<T> = Ok(value: T) | Raised(error: Exception)

  /** A field value read from a JSON document. `Str` is a string; `StrList` a list
      whose items are all strings; `Object` a JSON object, whose keys are strings
      and which iterates over them in document order; `NonStr` anything else (a
      number, a boolean, null, a list holding a non-string). `text` is what `str()`
      prints for the value. */
  datatype Value =
    | Str(s: string)
    | StrList(items: seq<string>, text: string)
    | Object(keys: seq<string>, text: string)
    | NonStr(text: string)

  /** `str(v)`, as used by f-strings. */
  function ToStr(v: Value): string
  {
    match v
    case Str(s) => s
    case StrList(_, t) => t
    case Object(_, t) => t
    case NonStr(t) => t
  }

  /** The exceptions of the modelled code. Messages that come from libraries outside
      the model are carried as opaque strings. */
  datatype Exception =
    | KeyError(key: string)
    | TypeError
    | AttributeError
    | ValueError(message: string)
    | IOError(path: string)
    | RateLimitError
    | APITimeoutError
    | APIConnectionError
    | InternalServerError
    | APIError(message: string)
    | OpenAIError
    | RetryError(last: Exception)
}
