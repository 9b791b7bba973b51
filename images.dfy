/** Turning a row's base64 `image_data` into the bytes that are displayed. */
module Images {
  import opened Wrappers
  import opened Text

  newtype Byte = x: int | 0 <= x < 256

  /** Whatever `base64.b64decode` raises (binascii.Error, TypeError, ...). */
  datatype DecodeFailure = DecodeFailure

  /** `base64.b64decode` in its default, non-validating mode: the library call
      stands outside the model, so the page is parameterised by it. */
  type Base64Decoder = String -> Result<seq<Byte>, DecodeFailure>

  /** `decode_image`: nothing for a NULL or empty payload, nothing when decoding
      raises, otherwise the decoded bytes (which may be empty). It never raises. */
  function DecodeImage(payload: Option<String>, b64decode: Base64Decoder): (r: Option<seq<Byte>>)
    ensures payload.None? || payload == Some("") ==> r.None?
    ensures payload.Some? && payload.value != "" && b64decode(payload.value).Failure? ==> r.None?
    ensures r.Some? ==> payload.Some? && payload.value != "" && b64decode(payload.value) == Success(r.value)
    ensures payload.Some? && payload.value != "" && b64decode(payload.value).Success? ==>
              r == Some(b64decode(payload.value).value)
  {
    if payload.None? || payload.value == "" then None
    else match b64decode(payload.value)
      case Success(bytes) => Some(bytes)
      case Failure(_) => None
  }

  /** The image guard of the card: the payload must be truthy and the decoded
      bytes non-empty, otherwise the image slot is left out. */
  function ImageToShow(payload: Option<String>, b64decode: Base64Decoder): (r: Option<seq<Byte>>)
    ensures r.Some? <==> payload.Some? && payload.value != "" &&
                         b64decode(payload.value).Success? && b64decode(payload.value).value != []
    ensures r.Some? ==> b64decode(payload.value) == Success(r.value)
  {
    if payload.Some? && payload.value != "" then
      var decoded := DecodeImage(payload, b64decode);
      if decoded.Some? && decoded.value != [] then decoded else None
    else None
  }
}
