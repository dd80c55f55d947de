/**
 * The conversions between Rust strings and NUL-terminated UTF-16 buffers
 * that the wrapper performs with the `widestring` crate, each failure turned
 * into a custom error record carrying the conversion error's text.
 */
module WideString {
  import opened Units
  import opened Text
  import opened Error

  datatype ConversionError =
    | NulFound(position: nat)   // an interior NUL where none is allowed
    | MissingNul                // no terminating NUL within the given length
    | InvalidUtf16              // an unpaired surrogate

  /** The text of each conversion error, as its `to_string` renders it. */
  function ConversionMessage(e: ConversionError): (m: string)
    ensures '\0' !in m
  {
    match e
    case NulFound(p) =>
      var digits := DecimalText(p);
      assert '\0' !in digits by {
        forall i | 0 <= i < |digits| ensures digits[i] != '\0' { }
      }
      "nul value found at position " + digits
    case MissingNul => "missing terminating nul value"
    case InvalidUtf16 => "invalid utf-16: lone surrogate found"
  }

  /** `RfcErrorInfo::custom(&e.to_string())` for a conversion error. */
  function ConversionFailure(e: ConversionError): ErrorInfo
  {
    Custom(ConversionMessage(e))
  }

  /** `U16CString::from_str(s)` then `into_vec_with_nul()`. */
  function FromStrWithNul(s: string): (r: Result<seq<u16>>)
    ensures '\0' !in s ==> r == Ok(Encode(s) + [0])
    ensures '\0' in s ==> r.Err? && r.error.Custom?
  {
    var units := Encode(s);
    EncodeZero(s);
    match FirstNul(units)
    case Some(p) => Err(ConversionFailure(NulFound(p)))
    case None => Ok(units + [0])
  }

  /** `U16CString::from_ptr_with_nul(p, len)` then `to_string()`: the text
      before the first NUL of the `len`-unit buffer. */
  function FromBufWithNul(buf: seq<u16>): (r: Result<string>)
    ensures r.Ok? <==> 0 in buf && Decode(NulPrefix(buf).value).Some?
    ensures r.Ok? ==> Encode(r.value) == NulPrefix(buf).value
    ensures 0 !in buf ==> r == Err(ConversionFailure(MissingNul))
  {
    match NulPrefix(buf)
    case None => Err(ConversionFailure(MissingNul))
    case Some(units) =>
      match Decode(units)
      case None => Err(ConversionFailure(InvalidUtf16))
      case Some(s) =>
        EncodeDecode(units);
        Ok(s)
  }

  /** `U16CString::from_ptr(p, len)` then `to_string()`: all `len` units,
      none of which may be NUL. */
  function FromBuf(buf: seq<u16>): (r: Result<string>)
    ensures r.Ok? <==> 0 !in buf && Decode(buf).Some?
    ensures r.Ok? ==> Encode(r.value) == buf
    ensures 0 in buf ==> r == Err(ConversionFailure(NulFound(FirstNul(buf).value)))
  {
    match FirstNul(buf)
    case Some(p) => Err(ConversionFailure(NulFound(p)))
    case None =>
      match Decode(buf)
      case None => Err(ConversionFailure(InvalidUtf16))
      case Some(s) =>
        EncodeDecode(buf);
        Ok(s)
  }

  /** Converting the encoding of a NUL-free text gives the text back. */
  lemma FromBufEncode(s: string)
    requires '\0' !in s
    ensures FromBuf(Encode(s)) == Ok(s)
  {
    EncodeZero(s);
    DecodeEncode(s);
  }
}
