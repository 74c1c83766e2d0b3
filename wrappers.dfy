/** Option and Result, the two failure-compatible wrappers the model uses. */
module Wrappers {

  /** A value that may be absent; for a JavaScript property read, None is `undefined`. */
  datatype Option<+T> = None | Some(value: T)

  /** The outcome of an operation that may throw: Failure carries what was thrown. */
  datatype Result<+T, +E> = Success(value: T) | Failure(error: E)
}

/** What an import can end with instead of a character record. */
module ImportErrors {
  import opened Wrappers

  datatype Error =
      /** `new Uint8Array(buf, 0, 8)` on a buffer shorter than eight bytes */
    | RangeError
      /** the first eight bytes are not the PNG signature */
    | NotPng
      /** the deflate primitive rejected; the importer never catches this */
    | InflateFailed(reason: string)
      /** `mapToBooth` read a property of `data: null` */
    | NullCardData
      /** a JSON file whose text parses to nothing truthy */
    | InvalidJson
      /** a JSON file whose value is neither a V1 nor a V2 card */
    | NotACard
      /** no PNG text candidate held a card */
    | NoCardInPng

  const NotPngMessage: string := "Not a PNG file"
  const InvalidJsonMessage: string := "Invalid JSON format in character file."
  const NotACardMessage: string := "File does not contain a valid Tavern character card (V1 or V2 format)."
  const NoCardInPngMessage: string := "No valid Tavern character JSON found in PNG metadata."

  /** The message the importer puts on the error it throws; None where the JavaScript engine
      chooses the words (the RangeError and the TypeError). */
  function Message(e: Error): (m: Option<string>)
    ensures m.None? <==> e.RangeError? || e.NullCardData?
    ensures e.InflateFailed? ==> m == Some(e.reason)
  {
    match e
    case RangeError => None
    case NotPng => Some(NotPngMessage)
    case InflateFailed(reason) => Some(reason)
    case NullCardData => None
    case InvalidJson => Some(InvalidJsonMessage)
    case NotACard => Some(NotACardMessage)
    case NoCardInPng => Some(NoCardInPngMessage)
  }

  /** The three failures the importer itself reports carry three different messages. */
  lemma ImportMessagesDistinct()
    ensures Message(InvalidJson) != Message(NotACard)
    ensures Message(NotACard) != Message(NoCardInPng)
    ensures Message(InvalidJson) != Message(NoCardInPng)
  {
  }
}
