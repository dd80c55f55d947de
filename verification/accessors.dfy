/**
 * The accessors of `RfcParameter`: row navigation of tables, lookup of the
 * fields of structures and tables, and reading and writing values through
 * the native library. Every accessor returns its result together with the
 * native calls it issued.
 */
module Accessors {
  import opened Units
  import opened Text
  import opened Error
  import opened WideString
  import opened RfcTypes
  import opened Native
  import opened Decoder

  const READ_ONLY: CustomText := "Read-only parameter"
  const NOT_A_STRING: CustomText := "Not a string datatype, " + "cannot use set_string"
  const NOT_AN_XSTRING: CustomText := "Not of type XSTRING; " + "cannot use get_xstring"
  const NO_TABLE_DEF: CustomText := "logic error at 01BC"
  const NO_STRUCT_DEF: CustomText := "Logic error at 01D4"
  const UNKNOWN_FIELD: CustomText := "Unknown field"
  const ILLEGAL_INDEX: CustomText := "illegal index"

  /** The row operations of a table parameter. */
  datatype RowOp = AppendRows(count: u32) | FirstRow | NextRow | PreviousRow | LastRow | SetRow(row: u32)

  /** The native call behind each row operation. */
  function RowCall(op: RowOp, table: Handle): NativeCall
  {
    match op
    case AppendRows(count) => RfcAppendNewRows(table, count)
    case FirstRow => RfcMoveToFirstRow(table)
    case NextRow => RfcMoveToNextRow(table)
    case PreviousRow => RfcMoveToPreviousRow(table)
    case LastRow => RfcMoveToLastRow(table)
    case SetRow(row) => RfcMoveTo(table, row)
  }

  /**
   * `append_rows`, `first_row`, `next_row`, `previous_row`, `last_row` and
   * `set_row`: refused without a native call unless the parameter is a
   * table; otherwise exactly one call on the table handle, whose code
   * decides the result.
   */
  function RunRowOp(p: Parameter, op: RowOp, answer: Status): (e: Effect<()>)
    ensures !IsTable(p.fieldType) ==> e == Effect(Err(Custom(EXPECTED_TABLE)), [])
    ensures IsTable(p.fieldType) ==> e.calls == [RowCall(op, p.structureOrTable)]
    ensures IsTable(p.fieldType) ==> (e.result.Ok? <==> IsOk(answer.rc))
    ensures IsTable(p.fieldType) && e.result.Err? ==> e.result.error == Reported(answer.err)
  {
    match EnsureTable(p.fieldType)
    case Err(err) => Effect(Err(err), [])
    case Ok(_) => Effect(Check(answer, ()), [RowCall(op, p.structureOrTable)])
  }

  /** `get_row_count`: the count the library reports for a table. */
  function GetRowCount(p: Parameter, answer: Reply<u32>): (e: Effect<u32>)
    ensures !IsTable(p.fieldType) ==> e == Effect(Err(Custom(EXPECTED_TABLE)), [])
    ensures IsTable(p.fieldType) ==> e.calls == [RfcGetRowCount(p.structureOrTable)]
    ensures IsTable(p.fieldType) ==> (e.result.Ok? <==> IsOk(answer.status.rc))
    ensures e.result.Ok? ==> e.result.value == answer.value
  {
    match EnsureTable(p.fieldType)
    case Err(err) => Effect(Err(err), [])
    case Ok(_) => Effect(Check(answer.status, answer.value), [RfcGetRowCount(p.structureOrTable)])
  }

  /** `get_field_count`: the number of decoded fields of a table, as `u32`. */
  function GetFieldCount(p: Parameter): (r: Result<u32>)
    ensures !IsTable(p.fieldType) ==> r == Err(Custom(EXPECTED_TABLE))
    ensures IsTable(p.fieldType) && p.structDef.None? ==> r == Err(Custom(NO_TABLE_DEF))
    ensures r.Ok? <==> IsTable(p.fieldType) && p.structDef.Some?
    ensures r.Ok? && |p.structDef.value.parameters| < U32_MODULUS ==>
              r.value as int == |p.structDef.value.parameters|
  {
    var _ :- EnsureTable(p.fieldType);
    match p.structDef
    case None => Err(Custom(NO_TABLE_DEF))
    case Some(d) => Ok(ToU32(|d.parameters|))
  }

  /** Position of the first field named exactly `key`, searching from `from`. */
  function FindField(fields: seq<DecodedField>, key: string, from: nat): (r: Option<nat>)
    requires from <= |fields|
    decreases |fields| - from
    ensures r.Some? ==> from <= r.value < |fields| && fields[r.value].name == key
    ensures r.Some? ==> forall j :: from <= j < r.value ==> fields[j].name != key
    ensures r.None? <==> forall j :: from <= j < |fields| ==> fields[j].name != key
  {
    if from == |fields| then None
    else if fields[from].name == key then Some(from)
    else FindField(fields, key, from + 1)
  }

  /**
   * `get_field_index_by_name`: the index of the first field of a structure
   * or table whose name equals `key` exactly; the counter is a `u32`.
   */
  function GetFieldIndexByName(p: Parameter, key: string): (r: Result<u32>)
    ensures !IsStructOrTable(p.fieldType) ==> r == Err(Custom(EXPECTED_STRUCT_TABLE))
    ensures IsStructOrTable(p.fieldType) && p.structDef.None? ==> r == Err(Custom(NO_STRUCT_DEF))
    ensures IsStructOrTable(p.fieldType) && p.structDef.Some? ==>
              (r.Ok? <==> exists k :: 0 <= k < |p.structDef.value.fields| && p.structDef.value.fields[k].name == key)
    ensures IsStructOrTable(p.fieldType) && p.structDef.Some? && r.Err? ==> r.error == Custom(UNKNOWN_FIELD)
    ensures r.Ok? ==> p.structDef.Some?
    ensures r.Ok? ==> (exists k :: 0 <= k < |p.structDef.value.fields| && ToU32(k) == r.value &&
                                   p.structDef.value.fields[k].name == key &&
                                   forall j :: 0 <= j < k ==> p.structDef.value.fields[j].name != key)
  {
    var _ :- EnsureStructOrTable(p.fieldType);
    match p.structDef
    case None => Err(Custom(NO_STRUCT_DEF))
    case Some(d) =>
      match FindField(d.fields, key, 0)
      case None => Err(Custom(UNKNOWN_FIELD))
      case Some(k) => Ok(ToU32(k))
  }

  /** `get_field_by_index` and `get_field_by_index_mut`: the decoded
      parameter at `index`, if the structure or table has that many. */
  function GetFieldByIndex(p: Parameter, index: u32): (r: Result<Parameter>)
    ensures !IsStructOrTable(p.fieldType) ==> r == Err(Custom(EXPECTED_STRUCT_TABLE))
    ensures IsStructOrTable(p.fieldType) && p.structDef.None? ==> r == Err(Custom(NO_STRUCT_DEF))
    ensures IsStructOrTable(p.fieldType) && p.structDef.Some? ==>
              (r.Ok? <==> (index as int) < |p.structDef.value.parameters|)
    ensures IsStructOrTable(p.fieldType) && p.structDef.Some? && r.Err? ==> r.error == Custom(ILLEGAL_INDEX)
    ensures r.Ok? ==> p.structDef.Some? && r.value in p.structDef.value.parameters
    ensures r.Ok? ==> r.value == p.structDef.value.parameters[index]
  {
    var _ :- EnsureStructOrTable(p.fieldType);
    match p.structDef
    case None => Err(Custom(NO_STRUCT_DEF))
    case Some(d) =>
      if (index as int) < |d.parameters| then Ok(d.parameters[index]) else Err(Custom(ILLEGAL_INDEX))
  }

  /**
   * Looking a field up by name and then fetching it by the index found
   * gives a parameter of that name at that index, when the description is
   * coherent (as `from_handle` builds it).
   */
  lemma FieldByNameRoundTrip(p: Parameter, key: string)
    requires p.structDef.Some? && Coherent(p.structDef.value)
    requires |p.structDef.value.fields| < U32_MODULUS
    requires GetFieldIndexByName(p, key).Ok?
    ensures GetFieldByIndex(p, GetFieldIndexByName(p, key).value).Ok?
    ensures GetFieldByIndex(p, GetFieldIndexByName(p, key).value).value.name == key
    ensures GetFieldByIndex(p, GetFieldIndexByName(p, key).value).value.index as int
              == GetFieldIndexByName(p, key).value as int
  {
    var d := p.structDef.value;
    var k := FindField(d.fields, key, 0).value;
    assert GetFieldIndexByName(p, key).value as int == k;
  }

  /** The field count of a table bounds exactly the indexes
      `get_field_by_index` accepts. */
  lemma FieldCountBoundsIndex(p: Parameter, index: u32)
    ensures IsTable(p.fieldType) && p.structDef.Some? && |p.structDef.value.parameters| < U32_MODULUS ==>
              GetFieldCount(p).Ok? && (GetFieldByIndex(p, index).Ok? <==> index < GetFieldCount(p).value)
  {
    TableIsStructOrTable(p.fieldType);
  }

  /** The field count of a table parameter decoded by `to_parameter` is the
      number of fields its row type describes; without a nested handle there
      is no count. */
  lemma TableFieldCount(desc: FieldDesc, index: nat, fun: Handle, member: MemberReply, check: FetchCheck)
    ensures var r := FieldToParameter(desc, index, fun, member, check);
            r.Ok? && desc.fieldType == Table && member.handle.Some? ==>
              && member.handle.value.describe.target.Some?
              && GetFieldCount(r.value) == Ok(ToU32(|member.handle.value.describe.target.value.slots|))
    ensures var r := FieldToParameter(desc, index, fun, member, check);
            r.Ok? && desc.fieldType == Table && member.handle.None? ==> GetFieldCount(r.value) == Err(Custom(NO_TABLE_DEF))
  {
  }

  /** How `set_string` measures the length it passes to the library. */
  datatype LengthMeasure =
    | Utf8Bytes   // `value.len()`, as the source does
    | Utf16Units  // the number of UTF-16 units written, as the library expects

  function MeasuredLength(m: LengthMeasure, value: string): nat
  {
    match m
    case Utf8Bytes => Utf8Length(value)
    case Utf16Units => |Encode(value)|
  }

  /**
   * `set_string`: only for writable parameters of type STRING or CHAR; the
   * value is encoded with a terminating NUL and written at the parameter's
   * index in its container, with the length `measure` gives.
   */
  function SetString(p: Parameter, value: string, answer: Status, measure: LengthMeasure): (e: Effect<()>)
    ensures !CanWrite(p.direction) ==> e == Effect(Err(Custom(READ_ONLY)), [])
    ensures CanWrite(p.direction) && p.fieldType != String && p.fieldType != Char ==>
              e == Effect(Err(Custom(NOT_A_STRING)), [])
    ensures '\0' in value ==> e.result.Err? && e.calls == []
    ensures e.calls != [] ==>
              && CanWrite(p.direction) && (p.fieldType == String || p.fieldType == Char) && '\0' !in value
              && e.calls == [RfcSetCharsByIndex(p.fun, p.index, Encode(value) + [0],
                                                ToU32(MeasuredLength(measure, value)))]
              && (e.result.Ok? <==> IsOk(answer.rc))
    ensures CanWrite(p.direction) && (p.fieldType == String || p.fieldType == Char) && '\0' !in value ==>
              e.calls != []
  {
    if !CanWrite(p.direction) then Effect(Err(Custom(READ_ONLY)), [])
    else if p.fieldType == String || p.fieldType == Char then
      match FromStrWithNul(value)
      case Err(err) => Effect(Err(err), [])
      case Ok(units) =>
        Effect(Check(answer, ()),
               [RfcSetCharsByIndex(p.fun, p.index, units, ToU32(MeasuredLength(measure, value)))])
    else Effect(Err(Custom(NOT_A_STRING)), [])
  }

  /** With the unit count, the length passed never exceeds the buffer: it
      names exactly the units before the terminator. */
  lemma SetStringUnitsInBounds(p: Parameter, value: string, answer: Status)
    requires |Encode(value)| < U32_MODULUS
    ensures var e := SetString(p, value, answer, Utf16Units);
            e.calls != [] ==>
              e.calls[0].length as int == |e.calls[0].value| - 1 &&
              e.calls[0].value[..e.calls[0].length] == Encode(value)
  {
    var e := SetString(p, value, answer, Utf16Units);
    if e.calls != [] {
      assert (Encode(value) + [0])[..|Encode(value)|] == Encode(value);
    }
  }

  /** For ASCII text the byte count and the unit count agree. */
  lemma SetStringAsciiAgrees(p: Parameter, value: string, answer: Status)
    requires IsAscii(value)
    ensures SetString(p, value, answer, Utf8Bytes) == SetString(p, value, answer, Utf16Units)
  {
    Utf8LengthAscii(value);
    EncodeAscii(value);
  }

  /** A writable CHAR parameter. */
  function CharParameter(): (p: Parameter)
    ensures CanWrite(p.direction) && p.fieldType == Char
  {
    Parameter(0, "EUR", Char, RfcImport, 1, None, None, false, Handle(1), NullHandle)
  }

  /** Writing "€" (one UTF-16 unit, three UTF-8 bytes) announces three
      units for a buffer of two, terminator included. */
  lemma SetStringOverReadsEuro()
    ensures var e := SetString(CharParameter(), "€", Status(RfcOk, NewErrorInfo()), Utf8Bytes);
            |e.calls| == 1 && e.calls[0].length == 3 && |e.calls[0].value| == 2
  {
    var v := "€";
    assert Encode(v) == [0x20AC];
    assert Utf8Length(v) == 3;
  }

  /** `set_int`: only for writable parameters; no type check. */
  function SetInt(p: Parameter, value: i64, answer: Status): (e: Effect<()>)
    ensures !CanWrite(p.direction) ==> e == Effect(Err(Custom(READ_ONLY)), [])
    ensures CanWrite(p.direction) ==> e.calls == [RfcSetIntByIndex(p.fun, p.index, value)]
    ensures CanWrite(p.direction) ==> (e.result.Ok? <==> IsOk(answer.rc))
    ensures CanWrite(p.direction) && e.result.Err? ==> e.result.error == Reported(answer.err)
  {
    if !CanWrite(p.direction) then Effect(Err(Custom(READ_ONLY)), [])
    else Effect(Check(answer, ()), [RfcSetIntByIndex(p.fun, p.index, value)])
  }

  /**
   * `get_chars`: only for readable parameters. A buffer of `len + 1` units
   * (wrapping in `u32`) is filled and all of it converted: it must hold no
   * NUL and valid UTF-16.
   */
  function GetChars(p: Parameter, answer: BufferReply<u16>): (e: Effect<string>)
    ensures !CanRead(p.direction) ==> e == Effect(Err(Custom(READ_ONLY)), [])
    ensures CanRead(p.direction) ==> e.calls == [RfcGetCharsByIndex(p.fun, p.index, IncU32(p.len))]
    ensures CanRead(p.direction) && !IsOk(answer.status.rc) ==> e.result == Err(Reported(answer.status.err))
    ensures e.result.Ok? ==> CanRead(p.direction) && IsOk(answer.status.rc)
    ensures e.result.Ok? ==> Encode(e.result.value) == Read(answer.memory, IncU32(p.len) as nat)
    ensures CanRead(p.direction) && IsOk(answer.status.rc) ==>
              (e.result.Ok? <==> FromBuf(Read(answer.memory, IncU32(p.len) as nat)).Ok?)
  {
    if !CanRead(p.direction) then Effect(Err(Custom(READ_ONLY)), [])
    else
      var reserve := IncU32(p.len);
      var calls := [RfcGetCharsByIndex(p.fun, p.index, reserve)];
      if !IsOk(answer.status.rc) then Effect(Err(Reported(answer.status.err)), calls)
      else Effect(FromBuf(Read(answer.memory, reserve as nat)), calls)
  }

  /**
   * `get_string`: only for readable parameters. Ask for the length, then
   * fill a buffer of that length plus one (wrapping in `u32`) and convert as
   * many units as the second call reports.
   */
  function GetString(p: Parameter, length: Reply<u32>, answer: BufferReply<u16>): (e: Effect<string>)
    ensures !CanRead(p.direction) ==> e == Effect(Err(Custom(READ_ONLY)), [])
    ensures CanRead(p.direction) && !IsOk(length.status.rc) ==>
              e == Effect(Err(Reported(length.status.err)), [RfcGetStringLengthByIndex(p.fun, p.index)])
    ensures CanRead(p.direction) && IsOk(length.status.rc) ==>
              e.calls == [RfcGetStringLengthByIndex(p.fun, p.index),
                          RfcGetStringByIndex(p.fun, p.index, IncU32(length.value))]
    ensures CanRead(p.direction) && IsOk(length.status.rc) && !IsOk(answer.status.rc) ==>
              e.result == Err(Reported(answer.status.err))
    ensures e.result.Ok? ==> IsOk(length.status.rc) && IsOk(answer.status.rc)
    ensures e.result.Ok? ==> Encode(e.result.value) == Read(answer.memory, answer.written as nat)
  {
    if !CanRead(p.direction) then Effect(Err(Custom(READ_ONLY)), [])
    else
      var first := [RfcGetStringLengthByIndex(p.fun, p.index)];
      if !IsOk(length.status.rc) then Effect(Err(Reported(length.status.err)), first)
      else
        var calls := first + [RfcGetStringByIndex(p.fun, p.index, IncU32(length.value))];
        if !IsOk(answer.status.rc) then Effect(Err(Reported(answer.status.err)), calls)
        else Effect(FromBuf(Read(answer.memory, answer.written as nat)), calls)
  }

  /** `set_xstring`: only for writable XSTRING parameters; the bytes and
      their count are passed on. */
  function SetXString(p: Parameter, bytes: seq<u8>, answer: Status): (e: Effect<()>)
    ensures !CanWrite(p.direction) ==> e == Effect(Err(Custom(READ_ONLY)), [])
    ensures CanWrite(p.direction) && p.fieldType != XString ==> e == Effect(Err(Custom(NOT_AN_XSTRING)), [])
    ensures CanWrite(p.direction) && p.fieldType == XString ==>
              e.calls == [RfcSetXStringByIndex(p.fun, p.index, bytes, ToU32(|bytes|))]
              && (e.result.Ok? <==> IsOk(answer.rc))
    ensures |bytes| < U32_MODULUS && e.calls != [] ==> e.calls[0].length as int == |bytes|
  {
    if !CanWrite(p.direction) then Effect(Err(Custom(READ_ONLY)), [])
    else if p.fieldType != XString then Effect(Err(Custom(NOT_AN_XSTRING)), [])
    else Effect(Check(answer, ()), [RfcSetXStringByIndex(p.fun, p.index, bytes, ToU32(|bytes|))])
  }

  /**
   * `get_xstring`: only for readable XSTRING parameters. Ask for the length,
   * fill a buffer of exactly that many bytes and return all of it, whatever
   * count the second call reports.
   */
  function GetXString(p: Parameter, length: Reply<u32>, answer: BufferReply<u8>): (e: Effect<seq<u8>>)
    ensures !CanRead(p.direction) ==> e == Effect(Err(Custom(READ_ONLY)), [])
    ensures CanRead(p.direction) && p.fieldType != XString ==> e == Effect(Err(Custom(NOT_AN_XSTRING)), [])
    ensures CanRead(p.direction) && p.fieldType == XString && !IsOk(length.status.rc) ==>
              e == Effect(Err(Reported(length.status.err)), [RfcGetStringLengthByIndex(p.fun, p.index)])
    ensures CanRead(p.direction) && p.fieldType == XString && IsOk(length.status.rc) ==>
              e.calls == [RfcGetStringLengthByIndex(p.fun, p.index),
                          RfcGetXStringByIndex(p.fun, p.index, length.value)]
              && (e.result.Ok? <==> IsOk(answer.status.rc))
    ensures e.result.Ok? ==> |e.result.value| == length.value as int
    ensures e.result.Ok? ==> forall i :: 0 <= i < |e.result.value| ==> e.result.value[i] == answer.memory(i)
  {
    if !CanRead(p.direction) then Effect(Err(Custom(READ_ONLY)), [])
    else if p.fieldType != XString then Effect(Err(Custom(NOT_AN_XSTRING)), [])
    else
      var first := [RfcGetStringLengthByIndex(p.fun, p.index)];
      if !IsOk(length.status.rc) then Effect(Err(Reported(length.status.err)), first)
      else
        var calls := first + [RfcGetXStringByIndex(p.fun, p.index, length.value)];
        Effect(Check(answer.status, Read(answer.memory, length.value as nat)), calls)
  }

  /** Import parameters are never read and export parameters never written:
      the accessor fails before any native call. */
  lemma DirectionGates(p: Parameter, s: Status, r: Reply<u32>, b: BufferReply<u16>, x: BufferReply<u8>,
                       text: string, bytes: seq<u8>, n: i64, m: LengthMeasure)
    ensures p.direction == RfcImport ==>
              GetChars(p, b).calls == [] && GetString(p, r, b).calls == [] && GetXString(p, r, x).calls == []
    ensures p.direction == RfcExport ==>
              SetString(p, text, s, m).calls == [] && SetInt(p, n, s).calls == [] && SetXString(p, bytes, s).calls == []
    ensures p.direction == RfcImport ==> GetChars(p, b).result == Err(Custom(READ_ONLY))
    ensures p.direction == RfcExport ==> SetInt(p, n, s).result == Err(Custom(READ_ONLY))
  {
  }
}
