/**
 * What the native library does with the values written into its data
 * containers, as far as the accessors depend on it: a store of field
 * values and table row counts, the effect of each writing call on the
 * store, and the answers the reading calls give from it. The library's
 * own code is not part of this model; the store follows its documented
 * interface, and the write-then-read properties of the accessors are
 * stated against it.
 */
module Library {
  import opened Units
  import opened Text
  import opened Error
  import opened WideString
  import opened RfcTypes
  import opened Native
  import opened Decoder
  import opened Accessors

  /** A stored field value. */
  datatype Value = Chars(units: seq<u16>) | Integer(n: i64) | Bytes(data: seq<u8>)

  /** Field values by container and field index; row counts by table. */
  datatype Store = Store(fields: map<(Handle, nat), Value>, rows: map<Handle, nat>)

  function RowsOf(s: Store, table: Handle): nat
  {
    if table in s.rows then s.rows[table] else 0
  }

  /** The store with `v` at field `index` of `container`; every other field
      and every row count as before. */
  function Put(s: Store, container: Handle, index: nat, v: Value): (t: Store)
    ensures (container, index) in t.fields && t.fields[(container, index)] == v
    ensures forall k :: k in s.fields && k != (container, index) ==> k in t.fields && t.fields[k] == s.fields[k]
    ensures t.rows == s.rows
  {
    s.(fields := s.fields[(container, index) := v])
  }

  /**
   * The store after one call. A write keeps the first `length` elements of
   * the buffer it is passed; a length beyond the buffer makes the library
   * read past it, which the model leaves undefined (`None`). Appending rows
   * adds to the table's count; every other call leaves the store alone.
   */
  function Perform(s: Store, call: NativeCall): Option<Store>
  {
    match call
    case RfcSetCharsByIndex(c, i, value, length) =>
      if length as int <= |value| then Some(Put(s, c, i, Chars(value[..length]))) else None
    case RfcSetIntByIndex(c, i, n) => Some(Put(s, c, i, Integer(n)))
    case RfcSetXStringByIndex(c, i, bytes, length) =>
      if length as int <= |bytes| then Some(Put(s, c, i, Bytes(bytes[..length]))) else None
    case RfcAppendNewRows(table, count) => Some(s.(rows := s.rows[table := RowsOf(s, table) + count as int]))
    case _ => Some(s)
  }

  /** The calls an accessor issued, performed in order. */
  function PerformAll(s: Store, calls: seq<NativeCall>): Option<Store>
    decreases |calls|
  {
    if |calls| == 0 then Some(s)
    else
      match Perform(s, calls[0])
      case None => None
      case Some(t) => PerformAll(t, calls[1..])
  }

  /** `RfcGetStringLength`: the number of units of stored text, or of stored
      bytes. Other values are outside the model and answer a conversion
      failure. */
  function LengthAnswer(s: Store, container: Handle, index: nat): Reply<u32>
  {
    if (container, index) !in s.fields then Reply(FailedStatus(RfcInvalidParameter), 0 as u32)
    else
      match s.fields[(container, index)]
      case Chars(u) => Reply(OkStatus(), ToU32(|u|))
      case Bytes(b) => Reply(OkStatus(), ToU32(|b|))
      case Integer(_) => Reply(FailedStatus(RfcConversionFailure), 0 as u32)
  }

  /** `RfcGetString`: the stored text and a terminating NUL, reporting the
      units before the NUL, when the buffer has room for both. */
  function StringAnswer(s: Store, container: Handle, index: nat, bufferLength: u32, fill: u16): BufferReply<u16>
  {
    if (container, index) !in s.fields || !s.fields[(container, index)].Chars? then
      BufferReply(FailedStatus(RfcConversionFailure), 0, Holding([], fill))
    else
      var u := s.fields[(container, index)].units;
      if |u| < bufferLength as int then BufferReply(OkStatus(), |u| as u32, Holding(u + [0], fill))
      else BufferReply(FailedStatus(RfcBufferTooSmall), 0, Holding([], fill))
  }

  /** `n` blank units. */
  function BlankUnits(n: nat): (b: seq<u16>)
    ensures |b| == n
  {
    seq(n, _ => 0x20)
  }

  /** `n` spaces. */
  function Blanks(n: nat): (b: string)
    ensures |b| == n
  {
    seq(n, _ => ' ')
  }

  lemma {:induction false} EncodeBlanks(n: nat)
    ensures Encode(Blanks(n)) == BlankUnits(n)
  {
    if n > 0 {
      assert Blanks(n)[0] == ' ' && Blanks(n)[1..] == Blanks(n - 1);
      EncodeBlanks(n - 1);
      assert BlankUnits(n) == [0x20] + BlankUnits(n - 1);
    }
  }

  /** `RfcGetChars`: the stored text padded with blanks to the buffer's
      length, without a terminator, when it fits. */
  function CharsAnswer(s: Store, container: Handle, index: nat, bufferLength: u32, fill: u16): BufferReply<u16>
  {
    if (container, index) !in s.fields || !s.fields[(container, index)].Chars? then
      BufferReply(FailedStatus(RfcConversionFailure), 0, Holding([], fill))
    else
      var u := s.fields[(container, index)].units;
      if |u| <= bufferLength as int then
        BufferReply(OkStatus(), bufferLength, Holding(u + BlankUnits(bufferLength as int - |u|), fill))
      else BufferReply(FailedStatus(RfcBufferTooSmall), 0, Holding([], fill))
  }

  /** `RfcGetXString`: the stored bytes, when the buffer has room for them. */
  function XStringAnswer(s: Store, container: Handle, index: nat, bufferLength: u32, fill: u8): BufferReply<u8>
  {
    if (container, index) !in s.fields || !s.fields[(container, index)].Bytes? then
      BufferReply(FailedStatus(RfcConversionFailure), 0, Holding([], fill))
    else
      var b := s.fields[(container, index)].data;
      if |b| <= bufferLength as int then BufferReply(OkStatus(), |b| as u32, Holding(b, fill))
      else BufferReply(FailedStatus(RfcBufferTooSmall), 0, Holding([], fill))
  }

  /** `RfcGetRowCount`: the table's row count, as `u32`. */
  function RowCountAnswer(s: Store, table: Handle): Reply<u32>
  {
    Reply(OkStatus(), ToU32(RowsOf(s, table)))
  }

  /** `get_string` answered by the store. */
  function ReadString(s: Store, p: Parameter, fill: u16): Result<string>
  {
    var length := LengthAnswer(s, p.fun, p.index);
    GetString(p, length, StringAnswer(s, p.fun, p.index, IncU32(length.value), fill)).result
  }

  /** `get_chars` answered by the store. */
  function ReadChars(s: Store, p: Parameter, fill: u16): Result<string>
  {
    GetChars(p, CharsAnswer(s, p.fun, p.index, IncU32(p.len), fill)).result
  }

  /** `get_xstring` answered by the store. */
  function ReadXString(s: Store, p: Parameter, fill: u8): Result<seq<u8>>
  {
    var length := LengthAnswer(s, p.fun, p.index);
    GetXString(p, length, XStringAnswer(s, p.fun, p.index, length.value, fill)).result
  }

  /** What `set_string` stores when it passes `length` with the encoded
      text and its terminator. */
  lemma StoredChars(s: Store, p: Parameter, value: string, measure: LengthMeasure)
    requires CanWrite(p.direction) && (p.fieldType == String || p.fieldType == Char) && '\0' !in value
    requires MeasuredLength(measure, value) < U32_MODULUS
    ensures var w := SetString(p, value, OkStatus(), measure);
            var n := MeasuredLength(measure, value);
            && w.result == Ok(())
            && (PerformAll(s, w.calls).Some? <==> n <= |Encode(value)| + 1)
            && (PerformAll(s, w.calls).Some? ==>
                  PerformAll(s, w.calls).value == Put(s, p.fun, p.index, Chars((Encode(value) + [0])[..n])))
  {
    var w := SetString(p, value, OkStatus(), measure);
    assert w.calls[1..] == [];
  }

  /** The first `n` positions of a buffer holding `s`. */
  lemma ReadPrefix<T>(m: nat -> T, s: seq<T>, n: nat)
    requires Read(m, |s|) == s && n <= |s|
    ensures Read(m, n) == s[..n]
  {
    forall i | 0 <= i < n
      ensures Read(m, n)[i] == s[i]
    {
      assert Read(m, |s|)[i] == m(i);
    }
  }

  /** `get_string` on stored text converts exactly the stored units. */
  lemma ReadStoredString(s: Store, p: Parameter, u: seq<u16>, fill: u16)
    requires CanRead(p.direction) && |u| + 1 < U32_MODULUS
    ensures ReadString(Put(s, p.fun, p.index, Chars(u)), p, fill) == FromBuf(u)
  {
    var t := Put(s, p.fun, p.index, Chars(u));
    var length := LengthAnswer(t, p.fun, p.index);
    assert length == Reply(OkStatus(), |u| as u32);
    var answer := StringAnswer(t, p.fun, p.index, IncU32(length.value), fill);
    assert answer == BufferReply(OkStatus(), |u| as u32, Holding(u + [0], fill));
    ReadPrefix(answer.memory, u + [0], |u|);
    assert (u + [0])[..|u|] == u;
  }

  /** `get_chars` on stored text converts the stored units and the blanks
      that pad them to the `len + 1` units reserved. */
  lemma ReadStoredChars(s: Store, p: Parameter, u: seq<u16>, fill: u16)
    requires CanRead(p.direction) && |u| <= IncU32(p.len) as int
    ensures ReadChars(Put(s, p.fun, p.index, Chars(u)), p, fill)
              == FromBuf(u + BlankUnits(IncU32(p.len) as int - |u|))
  {
    var t := Put(s, p.fun, p.index, Chars(u));
    var padded := u + BlankUnits(IncU32(p.len) as int - |u|);
    var answer := CharsAnswer(t, p.fun, p.index, IncU32(p.len), fill);
    assert answer == BufferReply(OkStatus(), IncU32(p.len), Holding(padded, fill));
    assert Read(answer.memory, IncU32(p.len) as nat) == padded;
  }

  /**
   * What `set_string` writes, `get_string` reads back, when the length
   * passed is the number of UTF-16 units: the text stored is the text
   * written, and the text read is the text stored.
   */
  lemma StringRoundTrip(s: Store, p: Parameter, value: string, fill: u16)
    requires CanWrite(p.direction) && CanRead(p.direction) && p.fieldType == String && '\0' !in value
    requires |Encode(value)| + 1 < U32_MODULUS
    ensures var w := SetString(p, value, OkStatus(), Utf16Units);
            && w.result == Ok(())
            && PerformAll(s, w.calls).Some?
            && ReadString(PerformAll(s, w.calls).value, p, fill) == Ok(value)
  {
    var units := Encode(value);
    StoredChars(s, p, value, Utf16Units);
    assert (units + [0])[..|units|] == units;
    ReadStoredString(s, p, units, fill);
    FromBufEncode(value);
  }

  /** Converting NUL-free units followed by a NUL stops at that NUL. */
  lemma FromBufTerminated(u: seq<u16>)
    requires 0 !in u
    ensures FromBuf(u + [0]) == Err(ConversionFailure(NulFound(|u|)))
  {
    assert (u + [0])[|u|] == 0;
  }

  /** The units `set_string` passes, cut at their own length, put a NUL
      where `get_string` then stops. */
  lemma TerminatorRead(s: Store, p: Parameter, value: string, fill: u16)
    requires CanRead(p.direction) && '\0' !in value && |Encode(value)| + 2 < U32_MODULUS
    ensures ReadString(Put(s, p.fun, p.index, Chars(Encode(value) + [0])), p, fill)
              == Err(ConversionFailure(NulFound(|Encode(value)|)))
  {
    ReadStoredString(s, p, Encode(value) + [0], fill);
    EncodeZero(value);
    FromBufTerminated(Encode(value));
  }

  /**
   * As written, `set_string` passes the UTF-8 byte count: the round trip
   * holds exactly for ASCII text. Otherwise the count covers the
   * terminator, which `get_string` then meets, or runs past the buffer.
   */
  lemma Utf8RoundTripOnlyAscii(s: Store, p: Parameter, value: string, fill: u16)
    requires CanWrite(p.direction) && CanRead(p.direction) && p.fieldType == String && '\0' !in value
    requires Utf8Length(value) + 1 < U32_MODULUS
    ensures var w := SetString(p, value, OkStatus(), Utf8Bytes);
            (PerformAll(s, w.calls).Some? && ReadString(PerformAll(s, w.calls).value, p, fill) == Ok(value))
              <==> IsAscii(value)
    ensures var w := SetString(p, value, OkStatus(), Utf8Bytes);
            Utf8Length(value) > |Encode(value)| + 1 ==> PerformAll(s, w.calls).None?
    ensures var w := SetString(p, value, OkStatus(), Utf8Bytes);
            Utf8Length(value) == |Encode(value)| + 1 ==>
              && PerformAll(s, w.calls).Some?
              && ReadString(PerformAll(s, w.calls).value, p, fill) == Err(ConversionFailure(NulFound(|Encode(value)|)))
  {
    var units := Encode(value);
    Utf8AtLeastUtf16(value);
    StoredChars(s, p, value, Utf8Bytes);
    if IsAscii(value) {
      SetStringAsciiAgrees(p, value, OkStatus());
      StringRoundTrip(s, p, value, fill);
    } else if Utf8Length(value) == |units| + 1 {
      assert (units + [0])[..|units| + 1] == units + [0];
      TerminatorRead(s, p, value, fill);
    }
  }

  /**
   * What `set_string` writes into a CHAR field, `get_chars` reads back
   * padded with blanks to the `len + 1` units it reserves.
   */
  lemma CharsRoundTrip(s: Store, p: Parameter, value: string, fill: u16)
    requires CanWrite(p.direction) && CanRead(p.direction) && p.fieldType == Char && '\0' !in value
    requires |Encode(value)| <= IncU32(p.len) as int
    ensures var w := SetString(p, value, OkStatus(), Utf16Units);
            && w.result == Ok(())
            && PerformAll(s, w.calls).Some?
            && ReadChars(PerformAll(s, w.calls).value, p, fill)
                 == Ok(value + Blanks(IncU32(p.len) as int - |Encode(value)|))
  {
    var units := Encode(value);
    var n := IncU32(p.len) as int - |units|;
    StoredChars(s, p, value, Utf16Units);
    assert (units + [0])[..|units|] == units;
    ReadStoredChars(s, p, units, fill);
    EncodeBlanks(n);
    EncodeAppend(value, Blanks(n));
    assert '\0' !in value + Blanks(n);
    FromBufEncode(value + Blanks(n));
  }

  /** `set_int` stores the integer at the parameter's field and changes
      nothing else. */
  lemma SetIntStores(s: Store, p: Parameter, n: i64)
    requires CanWrite(p.direction)
    ensures var w := SetInt(p, n, OkStatus());
            && w.result == Ok(())
            && PerformAll(s, w.calls).Some?
            && var t := PerformAll(s, w.calls).value;
               && (p.fun, p.index) in t.fields && t.fields[(p.fun, p.index)] == Integer(n)
               && (forall k :: k in s.fields && k != (p.fun, p.index) ==> k in t.fields && t.fields[k] == s.fields[k])
               && t.rows == s.rows
  {
    var w := SetInt(p, n, OkStatus());
    assert w.calls[1..] == [];
  }

  /** What `set_xstring` writes, `get_xstring` reads back. */
  lemma XStringRoundTrip(s: Store, p: Parameter, bytes: seq<u8>, fill: u8)
    requires CanWrite(p.direction) && CanRead(p.direction) && p.fieldType == XString
    requires |bytes| < U32_MODULUS
    ensures var w := SetXString(p, bytes, OkStatus());
            && w.result == Ok(())
            && PerformAll(s, w.calls).Some?
            && ReadXString(PerformAll(s, w.calls).value, p, fill) == Ok(bytes)
  {
    var w := SetXString(p, bytes, OkStatus());
    assert w.calls[1..] == [];
    assert bytes[..|bytes|] == bytes;
    var t := Put(s, p.fun, p.index, Bytes(bytes));
    assert PerformAll(s, w.calls) == Some(t);
    assert LengthAnswer(t, p.fun, p.index) == Reply(OkStatus(), |bytes| as u32);
  }

  /** `append_rows(n)` followed by `get_row_count` gives the former count
      plus `n`. */
  lemma AppendRowsCounted(s: Store, p: Parameter, n: u32)
    requires IsTable(p.fieldType)
    requires RowsOf(s, p.structureOrTable) + n as int < U32_MODULUS
    ensures var w := RunRowOp(p, AppendRows(n), OkStatus());
            && w.result == Ok(())
            && PerformAll(s, w.calls).Some?
            && GetRowCount(p, RowCountAnswer(PerformAll(s, w.calls).value, p.structureOrTable)).result
                 == Ok((RowsOf(s, p.structureOrTable) + n as int) as u32)
  {
    var w := RunRowOp(p, AppendRows(n), OkStatus());
    assert w.calls[1..] == [];
  }

  /** Moving the cursor leaves every value and row count as it was. */
  lemma MovesKeepStore(s: Store, p: Parameter, op: RowOp)
    requires !op.AppendRows?
    ensures PerformAll(s, RunRowOp(p, op, OkStatus()).calls) == Some(s)
  {
    var w := RunRowOp(p, op, OkStatus());
    if w.calls != [] {
      assert w.calls[1..] == [];
    }
  }
}
