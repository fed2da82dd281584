/** The error types of the envelope (src/error.rs). */
module Errors {
  import Codecs

  /** Why a report could not be encoded: the CBOR serializer refused it. */
  datatype EncodeError = Serialize(cause: Codecs.CborError)

  /** Why a buffer could not be decoded. `BadLzma` exists only in builds with the
      `compress` feature, and no code path of the decoder as written produces it. */
  datatype DecodeError =
    | Unsupported
    | BadFormat
    | Deserialize(cause: Codecs.CborError)
    | BadLzma
}
