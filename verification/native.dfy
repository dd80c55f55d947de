/**
 * The native RFC library as an oracle. Every answer the library can give is
 * a value here: a result code with the error record it fills in, a pointer
 * that may be null, and the contents of an output record after the call.
 * Handles the wrapper decodes recursively are trees: a data container
 * answers "describe type" with a type description (or null), and the type
 * description answers, for each field index below its count, the field
 * descriptor fetch; the container answers, for the same index, the fetch of
 * the structure or table nested at that index.
 */
module Native {
  import opened Units
  import opened Error
  import opened RfcTypes

  /** A native pointer. */
  datatype Handle = NullHandle | Handle(addr: nat)

  /** What a call returning `RFC_RC` reports: the code, and the error record
      it populates when the code is not `RfcOk`. */
  datatype Status = Status(rc: RfcRc, err: ErrorRecord)

  /** A call that returns a code and writes one output value. */
  datatype Reply<+T> = Reply(status: Status, value: T)

  /** A call that returns a pointer: `None` is null, with the error record. */
  datatype PtrReply<+T> = PtrReply(target: Option<T>, err: ErrorRecord)

  const NAME_LEN: nat := 31
  const PARAMETER_TEXT_LEN: nat := 80

  /** A fixed-width name buffer, `[u16; 31]`. */
  type NameBuf = b: seq<u16> | |b| == NAME_LEN witness Zeros(NAME_LEN)

  /** A data container (function, structure or table instance). */
  datatype Container = Container(addr: nat, describe: PtrReply<TypeDesc>)

  /** A type description: the field-count query, and one slot per field. */
  datatype TypeDesc = TypeDesc(countStatus: Status, slots: seq<FieldSlot>)

  /** The answers at one field index: the field descriptor fetch, the
      descriptor record after it, and the nested structure/table fetch. */
  datatype FieldSlot = FieldSlot(fetch: Status, desc: FieldDesc, member: MemberReply)

  /**
   * `RfcFieldDesc`, restricted to the members the wrapper reads. The
   * wrapper hands `typeDescHandle`, a type-description handle, to
   * `from_handle`, whose first call, `RfcDescribeType`, expects a data
   * container. The model gives that handle the answers of a container
   * (`Container`); what the library really answers for a handle of the
   * other kind is outside the model.
   */
  datatype FieldDesc = FieldDesc(
    name: NameBuf,
    fieldType: RfcType,
    ucLength: u32,
    typeDescHandle: Option<Container>)

  /** `RfcGetStructureByIndex` / `RfcGetTableByIndex`: the code and the
      handle written to the out-pointer (possibly null). */
  datatype MemberReply = MemberReply(status: Status, handle: Option<Container>)

  /** A function descriptor: `RfcCreateFunction`, `RfcGetParameterCount`, and
      one slot per parameter. */
  datatype FunctionDesc = FunctionDesc(
    addr: nat,
    create: PtrReply<nat>,
    countStatus: Status,
    params: seq<ParamSlot>)

  /** The answers at one parameter index, as `FieldSlot`; the nested fetch
      is answered by the function container created from the descriptor. */
  datatype ParamSlot = ParamSlot(fetch: Status, desc: ParameterDesc, member: MemberReply)

  /** `RfcParameterDesc`, restricted to the members the wrapper reads. */
  datatype ParameterDesc = ParameterDesc(
    name: NameBuf,
    fieldType: RfcType,
    direction: RfcDirection,
    ucLength: u32,
    defaultValue: NameBuf,
    optional: u8)

  /** `RfcConnectionParameter`: the name and value buffers it points to. */
  datatype ConnectionParameter = ConnectionParameter(name: seq<u16>, value: seq<u16>)

  /** A call that fills a caller-provided buffer: the code, the length it
      reports, and the buffer's contents afterwards, position by position
      (what the library wrote, and whatever the memory held beyond it). */
  datatype BufferReply<T> = BufferReply(status: Status, written: u32, memory: nat -> T)

  /** The first `n` positions of a buffer. */
  function Read<T>(memory: nat -> T, n: nat): (r: seq<T>)
    ensures |r| == n
    ensures forall i :: 0 <= i < n ==> r[i] == memory(i)
  {
    seq(n, i requires 0 <= i < n => memory(i))
  }

  /** A buffer holding `s` and `fill` after it. */
  function Holding<T>(s: seq<T>, fill: T): (m: nat -> T)
    ensures Read(m, |s|) == s
  {
    var m := (i: nat) => if i < |s| then s[i] else fill;
    assert Read(m, |s|) == s;
    m
  }

  /** The native calls an operation issues, with their arguments. */
  datatype NativeCall =
    | RfcOpenConnection(parameters: seq<ConnectionParameter>)
    | RfcCloseConnection(connection: Handle)
    | RfcGetFunctionDesc(connection: Handle, name: seq<u16>)
    | RfcCreateFunction(desc: Handle)
    | RfcGetParameterCount(desc: Handle)
    | RfcGetParameterDescByIndex(desc: Handle, index: nat)
    | RfcDestroyFunction(fun: Handle)
    | RfcInvoke(connection: Handle, fun: Handle)
    | RfcAppendNewRows(table: Handle, count: u32)
    | RfcMoveToFirstRow(table: Handle)
    | RfcMoveToNextRow(table: Handle)
    | RfcMoveToPreviousRow(table: Handle)
    | RfcMoveToLastRow(table: Handle)
    | RfcMoveTo(table: Handle, row: u32)
    | RfcGetRowCount(table: Handle)
    | RfcSetCharsByIndex(container: Handle, index: nat, value: seq<u16>, length: u32)
    | RfcSetIntByIndex(container: Handle, index: nat, intValue: i64)
    | RfcGetCharsByIndex(container: Handle, index: nat, bufferLength: u32)
    | RfcGetStringLengthByIndex(container: Handle, index: nat)
    | RfcGetStringByIndex(container: Handle, index: nat, bufferLength: u32)
    | RfcSetXStringByIndex(container: Handle, index: nat, bytes: seq<u8>, length: u32)
    | RfcGetXStringByIndex(container: Handle, index: nat, bufferLength: u32)

  /** The outcome of an operation together with the native calls it issued,
      in order. */
  datatype Effect<+T> = Effect(result: Result<T>, calls: seq<NativeCall>)

  /** Translate a status into the operation's result, as the wrapper does
      after every call: `Ok` on `RfcOk`, the populated record otherwise. */
  function Check<T>(status: Status, value: T): (r: Result<T>)
    ensures r.Ok? <==> IsOk(status.rc)
    ensures r.Ok? ==> r.value == value
    ensures r.Err? ==> r.error == Reported(status.err)
  {
    if IsOk(status.rc) then Ok(value) else Err(Reported(status.err))
  }
}
