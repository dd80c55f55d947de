/**
 * Result codes, error groups and the fixed-width error record of the native
 * library, the locally built "custom" error, and the text that `Display` and
 * `Debug` render from the message buffer.
 */
module Error {
  import opened Units
  import opened Text

  /** `RfcRc`: the native result codes, then the wrapper's own code. */
  datatype RfcRc =
    | RfcOk
    | RfcCommunicationFailure
    | RfcLogonFailure
    | RfcAbapRuntimeFailure
    | RfcAbapMessage
    | RfcAbapException
    | RfcClosed
    | RfcCanceled
    | RfcTimeout
    | RfcMemoryInsufficient
    | RfcVersionMismatcH
    | RfcInvalidProtocol
    | RfcSerializationFailure
    | RfcInvalidHandle
    | RfcRetry
    | RfcExternalFailure
    | RfcExecuted
    | RfcNotFound
    | RfcNotSupported
    | RfcIllegalState
    | RfcInvalidParameter
    | RfcCodepageConversionFailure
    | RfcConversionFailure
    | RfcBufferTooSmall
    | RfcTableMoveBof
    | RfcTableMoveEof
    | RfcStartSapguiFailure
    | RfcAbapClassException
    | RfcUnknownError
    | RfcAuthorizationFailure
    | RfcCaiberp

  /** The native codes in discriminant order: code `i` is at position `i`. */
  const NATIVE_CODES: seq<RfcRc> := [
    RfcOk, RfcCommunicationFailure, RfcLogonFailure, RfcAbapRuntimeFailure,
    RfcAbapMessage, RfcAbapException, RfcClosed, RfcCanceled, RfcTimeout,
    RfcMemoryInsufficient, RfcVersionMismatcH, RfcInvalidProtocol,
    RfcSerializationFailure, RfcInvalidHandle, RfcRetry, RfcExternalFailure,
    RfcExecuted, RfcNotFound, RfcNotSupported, RfcIllegalState,
    RfcInvalidParameter, RfcCodepageConversionFailure, RfcConversionFailure,
    RfcBufferTooSmall, RfcTableMoveBof, RfcTableMoveEof, RfcStartSapguiFailure,
    RfcAbapClassException, RfcUnknownError, RfcAuthorizationFailure]

  const CUSTOM_CODE: nat := 65536

  /** The `#[repr(u32)]` value of a result code. */
  function RcValue(rc: RfcRc): (v: nat)
    ensures v == 0 <==> rc == RfcOk
    ensures v == CUSTOM_CODE <==> rc == RfcCaiberp
    ensures rc != RfcCaiberp ==> v < |NATIVE_CODES| && NATIVE_CODES[v] == rc
  {
    match rc
    case RfcOk => 0
    case RfcCommunicationFailure => 1
    case RfcLogonFailure => 2
    case RfcAbapRuntimeFailure => 3
    case RfcAbapMessage => 4
    case RfcAbapException => 5
    case RfcClosed => 6
    case RfcCanceled => 7
    case RfcTimeout => 8
    case RfcMemoryInsufficient => 9
    case RfcVersionMismatcH => 10
    case RfcInvalidProtocol => 11
    case RfcSerializationFailure => 12
    case RfcInvalidHandle => 13
    case RfcRetry => 14
    case RfcExternalFailure => 15
    case RfcExecuted => 16
    case RfcNotFound => 17
    case RfcNotSupported => 18
    case RfcIllegalState => 19
    case RfcInvalidParameter => 20
    case RfcCodepageConversionFailure => 21
    case RfcConversionFailure => 22
    case RfcBufferTooSmall => 23
    case RfcTableMoveBof => 24
    case RfcTableMoveEof => 25
    case RfcStartSapguiFailure => 26
    case RfcAbapClassException => 27
    case RfcUnknownError => 28
    case RfcAuthorizationFailure => 29
    case RfcCaiberp => CUSTOM_CODE
  }

  /** Distinct codes have distinct values: the custom code collides with no
      native one, and reading a value back gives the code. */
  lemma RcValueInjective(a: RfcRc, b: RfcRc)
    requires RcValue(a) == RcValue(b)
    ensures a == b
  {
    if a != RfcCaiberp && b != RfcCaiberp {
      assert NATIVE_CODES[RcValue(a)] == a;
    }
  }

  /** `RfcRc::is_ok`: the call succeeded, which is the code whose value is
      zero. */
  function IsOk(rc: RfcRc): (ok: bool)
    ensures ok <==> RcValue(rc) == 0
  {
    rc == RfcOk
  }

  /** `RfcErrorGroup`; the source's `Ok` variant is `GroupOk` here. */
  datatype RfcErrorGroup =
    | GroupOk
    | AbapApplicationFailure
    | AbapRuntimeFailure
    | LogonFailure
    | CommunicationFailure
    | ExternalRuntimeFailure
    | ExternalApplicationFailure
    | ExternalAuthorizationFailure
    | CaiberP

  /** The `#[repr(u32)]` value of an error group. */
  function GroupValue(g: RfcErrorGroup): (v: nat)
    ensures v == 0 <==> g == GroupOk
    ensures v == CUSTOM_CODE <==> g == CaiberP
    ensures g != CaiberP ==> v < 8
  {
    match g
    case GroupOk => 0
    case AbapApplicationFailure => 1
    case AbapRuntimeFailure => 2
    case LogonFailure => 3
    case CommunicationFailure => 4
    case ExternalRuntimeFailure => 5
    case ExternalApplicationFailure => 6
    case ExternalAuthorizationFailure => 7
    case CaiberP => CUSTOM_CODE
  }

  const KEY_LEN: nat := 128
  const MESSAGE_LEN: nat := 512
  const ABAP_CLASS_LEN: nat := 21
  const ABAP_TYPE_LEN: nat := 2
  const ABAP_NUMBER_LEN: nat := 4
  const ABAP_VAR_LEN: nat := 51

  type KeyBuf = b: seq<u16> | |b| == KEY_LEN witness Zeros(KEY_LEN)
  type MessageBuf = b: seq<u16> | |b| == MESSAGE_LEN witness Zeros(MESSAGE_LEN)
  type ClassBuf = b: seq<u16> | |b| == ABAP_CLASS_LEN witness Zeros(ABAP_CLASS_LEN)
  type TypeBuf = b: seq<u16> | |b| == ABAP_TYPE_LEN witness Zeros(ABAP_TYPE_LEN)
  type NumberBuf = b: seq<u16> | |b| == ABAP_NUMBER_LEN witness Zeros(ABAP_NUMBER_LEN)
  type VarBuf = b: seq<u16> | |b| == ABAP_VAR_LEN witness Zeros(ABAP_VAR_LEN)

  /** `RfcErrorInfo`: the fixed-width error record. */
  datatype ErrorRecord = ErrorRecord(
    code: RfcRc,
    group: RfcErrorGroup,
    key: KeyBuf,
    message: MessageBuf,
    abapMsgClass: ClassBuf,
    abapMsgType: TypeBuf,
    abapMsgNumber: NumberBuf,
    abapMsgV1: VarBuf,
    abapMsgV2: VarBuf,
    abapMsgV3: VarBuf,
    abapMsgV4: VarBuf)

  /** Every buffer other than the message is all zeros. */
  predicate OtherBuffersZero(e: ErrorRecord)
  {
    && e.key == Zeros(KEY_LEN)
    && e.abapMsgClass == Zeros(ABAP_CLASS_LEN)
    && e.abapMsgType == Zeros(ABAP_TYPE_LEN)
    && e.abapMsgNumber == Zeros(ABAP_NUMBER_LEN)
    && e.abapMsgV1 == Zeros(ABAP_VAR_LEN)
    && e.abapMsgV2 == Zeros(ABAP_VAR_LEN)
    && e.abapMsgV3 == Zeros(ABAP_VAR_LEN)
    && e.abapMsgV4 == Zeros(ABAP_VAR_LEN)
  }

  /** `RfcErrorInfo::new`: success code and group, every buffer zero. */
  function NewErrorInfo(): (e: ErrorRecord)
    ensures e.code == RfcOk && e.group == GroupOk
    ensures e.message == Zeros(MESSAGE_LEN) && OtherBuffersZero(e)
  {
    ErrorRecord(RfcOk, GroupOk, Zeros(KEY_LEN), Zeros(MESSAGE_LEN), Zeros(ABAP_CLASS_LEN),
                Zeros(ABAP_TYPE_LEN), Zeros(ABAP_NUMBER_LEN), Zeros(ABAP_VAR_LEN),
                Zeros(ABAP_VAR_LEN), Zeros(ABAP_VAR_LEN), Zeros(ABAP_VAR_LEN))
  }

  /** A text `custom` accepts: encoding one with an interior NUL panics in
      the source (`unwrap`). */
  type CustomText = s: string | '\0' !in s

  /**
   * An error as the wrapper hands it out: a record the native library filled
   * in, or one the wrapper built with `RfcErrorInfo::custom` from a text,
   * kept as that text; `Record` gives the record `custom` builds from it.
   */
  datatype ErrorInfo = Reported(record: ErrorRecord) | Custom(text: CustomText)

  /** Number of units `custom` copies: the terminated encoding, at most 512. */
  function CopiedLen(msg: string): nat
  {
    var n := |Encode(msg)| + 1;
    if n < MESSAGE_LEN then n else MESSAGE_LEN
  }

  /**
   * `RfcErrorInfo::custom`: the wrapper's own code and group, the message
   * buffer holding the NUL-terminated encoding of `msg` cut to 512 units
   * and padded with zeros.
   */
  function CustomRecord(msg: CustomText): (e: ErrorRecord)
    ensures e.code == RfcCaiberp && e.group == CaiberP
    ensures e.message[..CopiedLen(msg)] == (Encode(msg) + [0])[..CopiedLen(msg)]
    ensures forall i :: CopiedLen(msg) <= i < MESSAGE_LEN ==> e.message[i] == 0
    ensures OtherBuffersZero(e)
  {
    var enc := Encode(msg) + [0];
    var n := CopiedLen(msg);
    var message: MessageBuf := enc[..n] + Zeros(MESSAGE_LEN - n);
    assert message[..n] == enc[..n];
    NewErrorInfo().(code := RfcCaiberp, group := CaiberP, message := message)
  }

  /** The record behind an error. */
  function Record(e: ErrorInfo): (r: ErrorRecord)
    ensures e.Reported? ==> r == e.record
    ensures e.Custom? ==> r == CustomRecord(e.text)
  {
    match e
    case Reported(record) => record
    case Custom(text) => CustomRecord(text)
  }

  /** The code of an error: the wrapper's own code for a custom one. */
  function Code(e: ErrorInfo): (rc: RfcRc)
    ensures rc == Record(e).code
    ensures e.Custom? ==> rc == RfcCaiberp
  {
    match e
    case Reported(record) => record.code
    case Custom(_) => RfcCaiberp
  }

  /** Outcome of a fallible operation, as Rust's `Result<T, RfcErrorInfo>`. */
  datatype Result<+T> = Ok(value: T) | Err(error: ErrorInfo) {
    predicate IsFailure() { Err? }

    function PropagateFailure<U>(): Result<U>
      requires Err?
    {
      Err(error)
    }

    function Extract(): T
      requires Ok?
    {
      value
    }
  }

  /** The `len` that `Debug` and `Display` compute: the index of the first
      zero unit, or 0 when the buffer holds none. */
  function MessageLen(message: seq<u16>): (len: nat)
    ensures 0 in message ==> len < |message| && message[len] == 0
    ensures 0 in message ==> forall j :: 0 <= j < len ==> message[j] != 0
    ensures 0 !in message ==> len == 0
  {
    match FirstNul(message)
    case Some(k) => k
    case None => 0
  }

  /** The scanning loop of `Debug::fmt` and `Display::fmt`. */
  method ScanMessageLen(message: MessageBuf) returns (len: nat)
    ensures 0 in message ==> len < |message| && message[len] == 0
    ensures 0 in message ==> forall j :: 0 <= j < len ==> message[j] != 0
    ensures 0 !in message ==> len == 0
  {
    len := 0;
    var i := 0;
    while i < |message|
      invariant 0 <= i <= |message|
      invariant forall j :: 0 <= j < i ==> message[j] != 0
      invariant len == 0
    {
      if message[i] == 0 {
        len := i;
        return;
      }
      i := i + 1;
    }
  }

  /**
   * The text `Display` (and the identical `Debug`) writes: the whole buffer
   * decoded lossily, then `String::truncate(len)` with `len` counted in
   * units but applied in UTF-8 bytes. `None` is the panic `truncate` raises
   * when the byte offset falls inside a character.
   */
  function Display(e: ErrorInfo): (r: Option<string>)
    ensures 0 in Record(e).message ==>
              (r == Some(DecodeLossy(MessageText(e))) <==> IsAsciiUnits(MessageText(e)))
    ensures 0 !in Record(e).message ==> r == Some([])
    ensures r.Some? ==> Utf8Length(r.value) == MessageLen(Record(e).message)
  {
    TruncatedAtNul(Record(e).message);
    LossyUtf8Length(Record(e).message);
    TruncateUtf8(DecodeLossy(Record(e).message), MessageLen(Record(e).message))
  }

  /** The units of the message before its first zero unit. */
  function MessageText(e: ErrorInfo): seq<u16>
  {
    Record(e).message[..MessageLen(Record(e).message)]
  }

  /**
   * Truncating the lossy decoding of a buffer at the unit index of its
   * first NUL, as `Display` does, gives the text before the NUL exactly
   * when that text is ASCII.
   */
  lemma TruncatedAtNul(m: seq<u16>)
    ensures 0 in m ==>
              (IsAsciiUnits(m[..MessageLen(m)]) <==>
                 TruncateUtf8(DecodeLossy(m), MessageLen(m)) == Some(DecodeLossy(m[..MessageLen(m)])))
  {
    if 0 in m {
      var k := MessageLen(m);
      var pre := m[..k];
      var post := m[k..];
      assert m == pre + post;
      DecodeLossySplit(pre, post);
      LossyUtf8Length(pre);
      var whole := DecodeLossy(pre) + DecodeLossy(post);
      Utf8LengthAppend(DecodeLossy(pre), DecodeLossy(post));
      if IsAsciiUnits(pre) {
        TruncateAfterPrefix(DecodeLossy(pre), DecodeLossy(post));
      } else {
        assert Utf8Length(DecodeLossy(pre)) > k;
        var r := TruncateUtf8(whole, k);
        if r.Some? {
          assert Utf8Length(r.value) == k;
        }
      }
    }
  }

  /** An ASCII message is displayed unit for character up to its NUL. */
  lemma DisplayAsciiMessage(e: ErrorInfo)
    requires 0 in Record(e).message && IsAsciiUnits(MessageText(e))
    ensures Display(e).Some?
    ensures |Display(e).value| == MessageLen(Record(e).message)
    ensures forall i :: 0 <= i < MessageLen(Record(e).message) ==> Display(e).value[i] as int == Record(e).message[i] as int
  {
    DecodeLossyAscii(MessageText(e));
  }

  /** A message that fits leaves its encoding, then a NUL, in the buffer. */
  lemma CustomShortMessage(msg: CustomText)
    requires |Encode(msg)| < MESSAGE_LEN
    ensures MessageLen(CustomRecord(msg).message) == |Encode(msg)|
    ensures MessageText(Custom(msg)) == Encode(msg)
    ensures NulPrefix(CustomRecord(msg).message) == Some(Encode(msg))
  {
    var e := CustomRecord(msg);
    var enc := Encode(msg);
    EncodeZero(msg);
    assert e.message[..|enc| + 1] == enc + [0];
    assert e.message[|enc|] == 0;
    assert forall j :: 0 <= j < |enc| ==> e.message[j] == enc[j];
    assert e.message[..|enc|] == enc;
  }

  /** A message that does not fit fills the buffer with no NUL left. */
  lemma CustomLongMessage(msg: CustomText)
    requires |Encode(msg)| >= MESSAGE_LEN
    ensures CustomRecord(msg).message == Encode(msg)[..MESSAGE_LEN]
    ensures 0 !in CustomRecord(msg).message
  {
    var e := CustomRecord(msg);
    EncodeZero(msg);
    assert e.message == Encode(msg)[..MESSAGE_LEN];
    forall i | 0 <= i < MESSAGE_LEN ensures e.message[i] != 0 {
      assert e.message[i] == Encode(msg)[i];
    }
  }

  /** Display reverses `custom` for an ASCII message shorter than the buffer. */
  lemma CustomDisplayRoundTrip(msg: CustomText)
    requires IsAscii(msg) && |msg| < MESSAGE_LEN
    ensures Display(Custom(msg)) == Some(msg)
  {
    EncodeAscii(msg);
    CustomShortMessage(msg);
    assert IsAsciiUnits(Encode(msg));
    DecodeEncode(msg);
    DecodeLossyAgrees(Encode(msg));
  }

  /** A message whose encoding fills the whole buffer loses its terminator
      and is displayed as the empty text. */
  lemma CustomLongDisplayEmpty(msg: CustomText)
    requires |Encode(msg)| >= MESSAGE_LEN
    ensures Display(Custom(msg)) == Some([])
  {
    CustomLongMessage(msg);
  }

  /**
   * What `Display` evidently intends: the lossy decoding of the units before
   * the first NUL, or of the whole buffer when there is no NUL.
   */
  function DisplayIntended(e: ErrorInfo): (r: string)
    ensures 0 in Record(e).message ==> r == DecodeLossy(MessageText(e))
    ensures 0 !in Record(e).message ==> r == DecodeLossy(Record(e).message)
    ensures 0 in Record(e).message && Decode(MessageText(e)).Some? ==> Encode(r) == MessageText(e)
  {
    match NulPrefix(Record(e).message)
    case Some(text) =>
      if Decode(text).Some? then
        DecodeLossyAgrees(text);
        EncodeDecode(text);
        DecodeLossy(text)
      else DecodeLossy(text)
    case None => DecodeLossy(Record(e).message)
  }

  /** The intended text reverses `custom` for any message that fits. */
  lemma CustomDisplayIntendedRoundTrip(msg: CustomText)
    ensures |Encode(msg)| < MESSAGE_LEN ==> DisplayIntended(Custom(msg)) == msg
    ensures |Encode(msg)| >= MESSAGE_LEN ==> DisplayIntended(Custom(msg)) == DecodeLossy(Encode(msg)[..MESSAGE_LEN])
  {
    if |Encode(msg)| < MESSAGE_LEN {
      CustomShortMessage(msg);
      DecodeEncode(msg);
      DecodeLossyAgrees(Encode(msg));
    } else {
      CustomLongMessage(msg);
    }
  }

  /** Where the source's text is right (an ASCII message with a NUL), the
      intended text is the same. */
  lemma DisplayIntendedAgrees(e: ErrorInfo)
    requires 0 in Record(e).message && IsAsciiUnits(MessageText(e))
    ensures Display(e) == Some(DisplayIntended(e))
  {
  }

  /** A reported error whose message is "é" (U+00E9) followed by NULs. */
  function AcuteMessageError(): (e: ErrorInfo)
    ensures Record(e).message[0] == 0xE9 && Record(e).message[1] == 0
  {
    Reported(NewErrorInfo().(message := [0xE9] + Zeros(MESSAGE_LEN - 1)))
  }

  /** `Display` panics on the message "é": `len` is 1 unit but "é" is two
      UTF-8 bytes, so byte offset 1 is not a character boundary. The
      intended text is "é". */
  lemma DisplayPanicsOnAcute()
    ensures Display(AcuteMessageError()) == None
    ensures DisplayIntended(AcuteMessageError()) == "é"
  {
    var e := AcuteMessageError();
    assert Record(e).message[0] == 0xE9 && Record(e).message[1] == 0;
    assert MessageLen(Record(e).message) == 1;
    assert Record(e).message[..1] == [0xE9];
    assert NulPrefix(Record(e).message) == Some([0xE9]);
    var text := DecodeLossy(Record(e).message);
    assert text[0] == 'é';
    assert Record(e).message == [Record(e).message[0]] + Record(e).message[1..];
  }
}
