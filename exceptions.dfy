/** The exceptions that can end an extraction routine, each with the text
    `str(error)` gives for it. */
module Exceptions {
  import opened Wrappers
  import opened Html

  datatype Error =
    /** `ParserFindTagException` raised by the tag locator. */
    | TagNotFound(tag: string, attrs: Option<Filter>)
    /** `ParserFindTagException('Ничего не нашлось')` raised when no sidebar
        list holds the version links. */
    | NothingFound
    /** `KeyError`: a missing attribute or an unknown status code. */
    | KeyError(key: string)
    /** `AttributeError`: an attribute read on `None`. */
    | AttributeError(attribute: string)
    /** `TypeError`: subscripting something that is not a tag. */
    | TypeError(message: string)
    /** `requests.RequestException` raised by `session.get`. */
    | RequestError(reason: string)
    /** Any other exception raised by `session.get`. */
    | SessionError(message: string)

  function Quoted(s: string): string {
    "'" + s + "'"
  }

  function TestRepr(t: AttrTest): string {
    match t
    case Is(s) => Quoted(s)
    case PdfA4Zip => "re.compile('.+pdf-a4\\\\.zip$')"
  }

  function EntriesRepr(f: Filter): string {
    if f == [] then ""
    else Quoted(f[0].0) + ": " + TestRepr(f[0].1) + (if |f| == 1 then "" else ", ") + EntriesRepr(f[1..])
  }

  /** How an f-string shows the `attrs` argument of the tag locator. */
  function AttrsRepr(attrs: Option<Filter>): string {
    match attrs
    case None => "None"
    case Some(f) => "{" + EntriesRepr(f) + "}"
  }

  /** `str(error)`. */
  function Message(e: Error): string {
    match e
    case TagNotFound(tag, attrs) => "Не найден тег " + tag + " " + AttrsRepr(attrs)
    case NothingFound => "Ничего не нашлось"
    case KeyError(key) => Quoted(key)
    case AttributeError(attribute) => "'NoneType' object has no attribute " + Quoted(attribute)
    case TypeError(message) => message
    case RequestError(reason) => reason
    case SessionError(message) => message
  }
}
