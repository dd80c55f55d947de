/**
 * Recursive decoding of native descriptors into the parameter tree:
 * `RfcFieldDesc::to_parameter`, `RfcParameterDesc::to_parameter` and
 * `RfcDecodedFieldDesc::from_handle`.
 */
module Decoder {
  import opened Units
  import opened Text
  import opened Error
  import opened WideString
  import opened RfcTypes
  import opened Native

  /** `RfcParameter`: one parameter of a function, or one field of a
      structure or table. `index` is its position in the native order. */
  datatype Parameter = Parameter(
    index: nat,
    name: string,
    fieldType: RfcType,
    direction: RfcDirection,
    len: u32,
    structDef: Option<DecodedFieldDesc>,
    defaultValue: Option<string>,
    optional: bool,
    fun: Handle,
    structureOrTable: Handle)

  /** `RfcDecodedFieldDesc`: the fields of a structure or table row, decoded
      twice — from the type description (`fields`) and as parameters bound to
      the container (`parameters`). */
  datatype DecodedFieldDesc = DecodedFieldDesc(fields: seq<DecodedField>, parameters: seq<Parameter>)

  /** `RfcDecodedField`. */
  datatype DecodedField = DecodedField(
    name: string,
    index: nat,
    len: u32,
    fieldType: RfcType,
    subFields: Option<DecodedFieldDesc>)

  /**
   * When the decoding loop consults the code of `RfcGetFieldDescByIndex`.
   * The source converts the descriptor record first and checks the code
   * afterwards (`CheckAfterUse`); checking first (`CheckBeforeUse`) is the
   * evident intent.
   */
  datatype FetchCheck = CheckAfterUse | CheckBeforeUse

  const AS_WRITTEN: FetchCheck := CheckAfterUse
  const CORRECTED: FetchCheck := CheckBeforeUse

  /**
   * The two lists of a decoded description describe the same fields: equal
   * length, entry `k` carrying index `offset + k` in both, the same name,
   * type and length in both, and every nested description coherent too.
   */
  predicate CoherentFrom(d: DecodedFieldDesc, offset: nat)
    decreases d
  {
    && |d.fields| == |d.parameters|
    && forall k :: 0 <= k < |d.fields| ==>
         && d.fields[k].index == offset + k
         && d.parameters[k].index == offset + k
         && d.fields[k].name == d.parameters[k].name
         && d.fields[k].fieldType == d.parameters[k].fieldType
         && d.fields[k].len == d.parameters[k].len
         && (d.fields[k].subFields.Some? ==> CoherentFrom(d.fields[k].subFields.value, 0))
         && (d.parameters[k].structDef.Some? ==> CoherentFrom(d.parameters[k].structDef.value, 0))
  }

  predicate Coherent(d: DecodedFieldDesc)
  {
    CoherentFrom(d, 0)
  }

  /** Lossy decoding of an encoding gives the string back. */
  lemma LossyOfEncode(s: string)
    ensures DecodeLossy(Encode(s)) == s
  {
    DecodeEncode(s);
    DecodeLossyAgrees(Encode(s));
  }

  /**
   * The nested structure or table of a member: no native call for other
   * types; for a structure or table, the fetch by index, then, when it
   * wrote a non-null handle, the recursive decoding of that handle.
   */
  function DecodeMember(fieldType: RfcType, member: MemberReply, check: FetchCheck)
    : (r: Result<(Handle, Option<DecodedFieldDesc>)>)
    decreases member, 1
    ensures !IsStructOrTable(fieldType) ==> r == Ok((NullHandle, None))
    ensures IsStructOrTable(fieldType) && !IsOk(member.status.rc) ==> r == Err(Reported(member.status.err))
    ensures IsStructOrTable(fieldType) && IsOk(member.status.rc) && member.handle.None? ==> r == Ok((NullHandle, None))
    ensures r.Ok? ==> (r.value.0 == NullHandle <==> r.value.1.None?)
    ensures r.Ok? && r.value.1.Some? ==> member.handle.Some? && r.value.0 == Handle(member.handle.value.addr)
    ensures r.Ok? && r.value.1.Some? ==> Coherent(r.value.1.value)
    ensures IsStructOrTable(fieldType) && IsOk(member.status.rc) && member.handle.Some? ==>
              var nested := FromHandle(member.handle.value, check);
              && (r.Ok? <==> nested.Ok?)
              && (r.Ok? ==> r.value == (Handle(member.handle.value.addr), Some(nested.value)))
              && (r.Err? ==> r.error == nested.error)
  {
    if fieldType == Structure || fieldType == Table then
      if !IsOk(member.status.rc) then Err(Reported(member.status.err))
      else
        match member.handle
        case None => Ok((NullHandle, None))
        case Some(c) =>
          var d :- FromHandle(c, check);
          Ok((Handle(c.addr), Some(d)))
    else Ok((NullHandle, None))
  }

  /** `RfcFieldDesc::to_parameter`: a field becomes a changing parameter
      without default, bound to the container `fun`. */
  function FieldToParameter(desc: FieldDesc, index: nat, fun: Handle, member: MemberReply, check: FetchCheck)
    : (r: Result<Parameter>)
    decreases member, 2
    ensures 0 !in desc.name ==> r == Err(ConversionFailure(MissingNul))
    ensures r.Ok? ==> 0 in desc.name && Encode(r.value.name) == NulPrefix(desc.name).value
    ensures r.Ok? ==> r.value.index == index && r.value.fun == fun
    ensures r.Ok? ==> r.value.fieldType == desc.fieldType && r.value.len == desc.ucLength
    ensures r.Ok? ==> r.value.direction == RfcChanging && r.value.defaultValue.None? && !r.value.optional
    ensures r.Ok? && r.value.structDef.Some? ==> IsStructOrTable(desc.fieldType) && Coherent(r.value.structDef.value)
    ensures FromBufWithNul(desc.name).Ok? ==> (r.Ok? <==> DecodeMember(desc.fieldType, member, check).Ok?)
    ensures FromBufWithNul(desc.name).Ok? && DecodeMember(desc.fieldType, member, check).Err? ==>
              r == Err(DecodeMember(desc.fieldType, member, check).error)
    ensures r.Ok? ==> FromBufWithNul(desc.name) == Ok(r.value.name)
    ensures r.Ok? ==> DecodeMember(desc.fieldType, member, check) == Ok((r.value.structureOrTable, r.value.structDef))
  {
    var name :- FromBufWithNul(desc.name);
    var decoded :- DecodeMember(desc.fieldType, member, check);
    Ok(Parameter(index, name, desc.fieldType, RfcChanging, desc.ucLength, decoded.1, None, false, fun, decoded.0))
  }

  /** The optional description behind a field's type-description handle,
      decoded as if the handle were a data container (see `FieldDesc`). */
  function DecodeSubFields(handle: Option<Container>, check: FetchCheck)
    : (r: Result<Option<DecodedFieldDesc>>)
    decreases handle, 1
    ensures handle.None? ==> r == Ok(None)
    ensures r.Ok? ==> (r.value.Some? <==> handle.Some?)
    ensures r.Ok? && r.value.Some? ==> Coherent(r.value.value)
    ensures handle.Some? ==>
              && (r.Ok? <==> FromHandle(handle.value, check).Ok?)
              && (r.Ok? ==> r.value == Some(FromHandle(handle.value, check).value))
              && (r.Err? ==> r.error == FromHandle(handle.value, check).error)
  {
    match handle
    case None => Ok(None)
    case Some(c) =>
      var d :- FromHandle(c, check);
      Ok(Some(d))
  }

  /** Every parameter of `d` is bound to the container `fun` and, being a
      field, may be both read and written. */
  predicate BoundTo(d: DecodedFieldDesc, fun: Handle)
  {
    forall k :: 0 <= k < |d.parameters| ==>
      d.parameters[k].fun == fun && d.parameters[k].direction == RfcChanging
  }

  /**
   * One round of the loop of `from_handle`: fetch the descriptor at index
   * `i`, convert it to a parameter bound to `fun`, check the fetch code (the
   * order of these two is `check`), then decode the field's name and its own
   * type description.
   */
  function DecodeSlot(slot: FieldSlot, fun: Handle, i: nat, check: FetchCheck)
    : (r: Result<(DecodedField, Parameter)>)
    decreases slot, 3
    ensures !IsOk(slot.fetch.rc) ==> r.Err?
    ensures check == CheckBeforeUse && !IsOk(slot.fetch.rc) ==> r == Err(Reported(slot.fetch.err))
    ensures r.Ok? ==> r.value.0.index == i && r.value.1.index == i
    ensures r.Ok? ==> r.value.0.name == r.value.1.name && 0 in slot.desc.name && Encode(r.value.0.name) == NulPrefix(slot.desc.name).value
    ensures r.Ok? ==> r.value.0.fieldType == r.value.1.fieldType == slot.desc.fieldType
    ensures r.Ok? ==> r.value.0.len == r.value.1.len == slot.desc.ucLength
    ensures r.Ok? ==> r.value.1.fun == fun && r.value.1.direction == RfcChanging
    ensures r.Ok? ==> (r.value.0.subFields.Some? <==> slot.desc.typeDescHandle.Some?)
    ensures r.Ok? && r.value.0.subFields.Some? ==> Coherent(r.value.0.subFields.value)
    ensures r.Ok? && r.value.1.structDef.Some? ==> Coherent(r.value.1.structDef.value)
    ensures r.Ok? <==>
              && IsOk(slot.fetch.rc)
              && FieldToParameter(slot.desc, i, fun, slot.member, check).Ok?
              && DecodeSubFields(slot.desc.typeDescHandle, check).Ok?
    ensures r.Ok? ==> r.value.1 == FieldToParameter(slot.desc, i, fun, slot.member, check).value
    ensures r.Ok? ==> r.value.0.subFields == DecodeSubFields(slot.desc.typeDescHandle, check).value
    ensures (check == CheckAfterUse || IsOk(slot.fetch.rc)) && FieldToParameter(slot.desc, i, fun, slot.member, check).Err? ==>
              r == Err(FieldToParameter(slot.desc, i, fun, slot.member, check).error)
    ensures IsOk(slot.fetch.rc) && FieldToParameter(slot.desc, i, fun, slot.member, check).Ok? &&
            DecodeSubFields(slot.desc.typeDescHandle, check).Err? ==>
              r == Err(DecodeSubFields(slot.desc.typeDescHandle, check).error)
  {
    var param :- if check == CheckBeforeUse && !IsOk(slot.fetch.rc) then Err(Reported(slot.fetch.err))
                 else FieldToParameter(slot.desc, i, fun, slot.member, check);
    if !IsOk(slot.fetch.rc) then Err(Reported(slot.fetch.err))
    else
      // The `unwrap` of the name conversion cannot fail: `to_parameter` has
      // just converted the same record, so its name holds a NUL.
      var name := DecodeLossy(NulPrefix(slot.desc.name).value);
      var subFields :- DecodeSubFields(slot.desc.typeDescHandle, check);
      LossyOfEncode(param.name);
      Ok((DecodedField(name, i, slot.desc.ucLength, slot.desc.fieldType, subFields), param))
  }

  /**
   * The outcome of every round of the loop of `from_handle`, were the loop
   * to reach it. A round only reads answers of the native library, so
   * listing a round the loop never reaches changes nothing.
   */
  function Rounds(td: TypeDesc, fun: Handle, check: FetchCheck): (rs: seq<Result<(DecodedField, Parameter)>>)
    decreases td, 0
    ensures |rs| == |td.slots|
    ensures forall j :: 0 <= j < |rs| ==> rs[j] == DecodeSlot(td.slots[j], fun, j, check)
  {
    seq(|td.slots|, j requires 0 <= j < |td.slots| => DecodeSlot(td.slots[j], fun, j, check))
  }

  /**
   * The loop of `from_handle` from round `i` on, over the rounds' outcomes
   * `rs`: it succeeds exactly when every round does, entry `k` being what
   * round `i + k` decoded, and the first failing round ends it.
   */
  function Collect(rs: seq<Result<(DecodedField, Parameter)>>, i: nat): (r: Result<DecodedFieldDesc>)
    requires i <= |rs|
    decreases |rs| - i
    ensures r.Ok? <==> forall j :: i <= j < |rs| ==> rs[j].Ok?
    ensures r.Ok? ==> |r.value.fields| == |rs| - i && |r.value.parameters| == |rs| - i
    ensures r.Ok? ==> forall k :: 0 <= k < |rs| - i ==> rs[i + k] == Ok((r.value.fields[k], r.value.parameters[k]))
  {
    if i == |rs| then Ok(DecodedFieldDesc([], []))
    else
      var entry :- rs[i];
      var rest :- Collect(rs, i + 1);
      var d := DecodedFieldDesc([entry.0] + rest.fields, [entry.1] + rest.parameters);
      CollectCons(rs, i, d, rest);
      Ok(d)
  }

  /** Entry `k > 0` of a loop result built by prepending round `i` is entry
      `k - 1` of the rest of the loop. */
  lemma CollectCons(rs: seq<Result<(DecodedField, Parameter)>>, i: nat, d: DecodedFieldDesc, rest: DecodedFieldDesc)
    requires i < |rs| && rs[i].Ok?
    requires d == DecodedFieldDesc([rs[i].value.0] + rest.fields, [rs[i].value.1] + rest.parameters)
    requires |rest.fields| == |rs| - (i + 1) && |rest.parameters| == |rs| - (i + 1)
    requires forall k :: 0 <= k < |rs| - (i + 1) ==> rs[(i + 1) + k] == Ok((rest.fields[k], rest.parameters[k]))
    ensures forall k :: 0 <= k < |rs| - i ==> rs[i + k] == Ok((d.fields[k], d.parameters[k]))
  {
    forall k | 0 <= k < |rs| - i
      ensures rs[i + k] == Ok((d.fields[k], d.parameters[k]))
    {
      if k > 0 {
        assert d.fields[k] == rest.fields[k - 1] && d.parameters[k] == rest.parameters[k - 1];
        assert rs[(i + 1) + (k - 1)] == Ok((rest.fields[k - 1], rest.parameters[k - 1]));
      }
    }
  }

  /** Round `j` is where the loop started at `i` stops: every round from `i`
      to `j` succeeded and round `j` failed. */
  predicate StopsAt(rs: seq<Result<(DecodedField, Parameter)>>, i: nat, j: nat)
  {
    && i <= j < |rs|
    && rs[j].Err?
    && forall l :: i <= l < j ==> rs[l].Ok?
  }

  /** The first round from `i` on that fails, or `|rs|` when none does. */
  function StopIndex(rs: seq<Result<(DecodedField, Parameter)>>, i: nat): (j: nat)
    requires i <= |rs|
    decreases |rs| - i
  {
    if i == |rs| || rs[i].Err? then i else StopIndex(rs, i + 1)
  }

  /** A failing loop stops at its first failing round, with that round's
      error. */
  lemma {:induction false} CollectFirstError(rs: seq<Result<(DecodedField, Parameter)>>, i: nat)
    requires i <= |rs|
    decreases |rs| - i
    ensures Collect(rs, i).Err? ==>
              StopsAt(rs, i, StopIndex(rs, i)) && Collect(rs, i) == Err(rs[StopIndex(rs, i)].error)
  {
    if i < |rs| && rs[i].Ok? {
      CollectFirstError(rs, i + 1);
    }
  }

  /**
   * `RfcDecodedFieldDesc::from_handle`: describe the container's type, query
   * its field count, then decode every field in native order.
   */
  function FromHandle(c: Container, check: FetchCheck): (r: Result<DecodedFieldDesc>)
    decreases c, 0
    ensures c.describe.target.None? ==> r == Err(Reported(c.describe.err))
    ensures c.describe.target.Some? && !IsOk(c.describe.target.value.countStatus.rc) ==>
              r == Err(Reported(c.describe.target.value.countStatus.err))
    ensures r.Ok? ==> c.describe.target.Some?
    ensures r.Ok? ==> |r.value.fields| == |r.value.parameters| == |c.describe.target.value.slots|
    ensures r.Ok? ==> Coherent(r.value)
    ensures r.Ok? ==> BoundTo(r.value, Handle(c.addr))
    ensures r.Ok? ==> forall j :: 0 <= j < |c.describe.target.value.slots| ==>
                        IsOk(c.describe.target.value.slots[j].fetch.rc)
  {
    match c.describe.target
    case None => Err(Reported(c.describe.err))
    case Some(td) =>
      if !IsOk(td.countStatus.rc) then Err(Reported(td.countStatus.err))
      else Collect(Rounds(td, Handle(c.addr), check), 0)
  }

  /**
   * `from_handle` succeeds exactly when the type is described, the count
   * is read and every field decodes; then field `j` of the result is what
   * round `j` decoded: the descriptor's name, type and length, its own
   * type description decoded, and the parameter `to_parameter` built.
   */
  lemma FromHandleDecodesEveryField(c: Container, check: FetchCheck)
    ensures FromHandle(c, check).Ok? <==>
              && c.describe.target.Some? && IsOk(c.describe.target.value.countStatus.rc)
              && forall j :: 0 <= j < |c.describe.target.value.slots| ==>
                   DecodeSlot(c.describe.target.value.slots[j], Handle(c.addr), j, check).Ok?
    ensures var r := FromHandle(c, check);
            r.Ok? ==> forall j :: 0 <= j < |c.describe.target.value.slots| ==>
              var slot := c.describe.target.value.slots[j];
              && DecodeSlot(slot, Handle(c.addr), j, check) == Ok((r.value.fields[j], r.value.parameters[j]))
              && r.value.fields[j].fieldType == slot.desc.fieldType
              && r.value.fields[j].len == slot.desc.ucLength
              && Encode(r.value.fields[j].name) == NulPrefix(slot.desc.name).value
              && r.value.fields[j].subFields == DecodeSubFields(slot.desc.typeDescHandle, check).value
              && r.value.parameters[j] == FieldToParameter(slot.desc, j, Handle(c.addr), slot.member, check).value
  {
    if c.describe.target.Some? && IsOk(c.describe.target.value.countStatus.rc) {
      var td := c.describe.target.value;
      var rs := Rounds(td, Handle(c.addr), check);
      var r := FromHandle(c, check);
      assert r == Collect(rs, 0);
      if r.Ok? {
        forall j | 0 <= j < |td.slots|
          ensures DecodeSlot(td.slots[j], Handle(c.addr), j, check) == Ok((r.value.fields[j], r.value.parameters[j]))
        {
          assert rs[0 + j] == rs[j];
        }
      }
    }
  }

  /** A failing `from_handle` whose type was described and counted reports
      the error of its first failing field. */
  lemma FromHandleFirstError(c: Container, check: FetchCheck)
    ensures c.describe.target.Some? && IsOk(c.describe.target.value.countStatus.rc) && FromHandle(c, check).Err? ==>
              var rs := Rounds(c.describe.target.value, Handle(c.addr), check);
              StopsAt(rs, 0, StopIndex(rs, 0)) && FromHandle(c, check) == Err(rs[StopIndex(rs, 0)].error)
  {
    if c.describe.target.Some? && IsOk(c.describe.target.value.countStatus.rc) {
      var rs := Rounds(c.describe.target.value, Handle(c.addr), check);
      assert FromHandle(c, check) == Collect(rs, 0);
      CollectFirstError(rs, 0);
    }
  }

  /** The default value of a parameter: none when the buffer starts with
      NUL, otherwise its text up to the first NUL. */
  function DecodeDefault(buf: NameBuf): (r: Result<Option<string>>)
    ensures buf[0] == 0 ==> r == Ok(None)
    ensures r.Ok? && r.value.Some? ==> buf[0] != 0 && 0 in buf && Encode(r.value.value) == NulPrefix(buf).value
    ensures buf[0] != 0 && 0 !in buf ==> r == Err(ConversionFailure(MissingNul))
  {
    if buf[0] == 0 then Ok(None)
    else
      var text :- FromBufWithNul(buf);
      Ok(Some(text))
  }

  /** `RfcParameterDesc::to_parameter`: name, default value, then the nested
      structure or table, keeping the declared direction and optionality. */
  function ParameterToParameter(desc: ParameterDesc, index: nat, fun: Handle, member: MemberReply, check: FetchCheck)
    : (r: Result<Parameter>)
    ensures 0 !in desc.name ==> r == Err(ConversionFailure(MissingNul))
    ensures r.Ok? ==> 0 in desc.name && Encode(r.value.name) == NulPrefix(desc.name).value
    ensures r.Ok? ==> r.value.index == index && r.value.fun == fun
    ensures r.Ok? ==> r.value.fieldType == desc.fieldType && r.value.len == desc.ucLength
    ensures r.Ok? ==> r.value.direction == desc.direction && r.value.optional == (desc.optional != 0)
    ensures r.Ok? ==> (r.value.defaultValue.None? <==> desc.defaultValue[0] == 0)
    ensures r.Ok? && r.value.structDef.Some? ==> IsStructOrTable(desc.fieldType) && Coherent(r.value.structDef.value)
    ensures FromBufWithNul(desc.name).Ok? && DecodeDefault(desc.defaultValue).Err? ==>
              r == Err(DecodeDefault(desc.defaultValue).error)
    ensures FromBufWithNul(desc.name).Ok? && DecodeDefault(desc.defaultValue).Ok? ==>
              (r.Ok? <==> DecodeMember(desc.fieldType, member, check).Ok?)
    ensures FromBufWithNul(desc.name).Ok? && DecodeDefault(desc.defaultValue).Ok? &&
            DecodeMember(desc.fieldType, member, check).Err? ==>
              r == Err(DecodeMember(desc.fieldType, member, check).error)
    ensures r.Ok? ==> FromBufWithNul(desc.name) == Ok(r.value.name)
    ensures r.Ok? ==> DecodeDefault(desc.defaultValue) == Ok(r.value.defaultValue)
    ensures r.Ok? ==> DecodeMember(desc.fieldType, member, check) == Ok((r.value.structureOrTable, r.value.structDef))
  {
    var name :- FromBufWithNul(desc.name);
    var defaultValue :- DecodeDefault(desc.defaultValue);
    var decoded :- DecodeMember(desc.fieldType, member, check);
    Ok(Parameter(index, name, desc.fieldType, desc.direction, desc.ucLength, decoded.1,
                 defaultValue, desc.optional != 0, fun, decoded.0))
  }

  /** A 31-unit name buffer holding `"A"`. */
  function NameA(): (b: NameBuf)
    ensures b[0] == 0x41 && b[1] == 0
  {
    var b := [0x41] + Zeros(30);
    assert b[1] == 0;
    b
  }

  /** A successful code with an all-zero error record. */
  function OkStatus(): (s: Status)
    ensures IsOk(s.rc)
  {
    Status(RfcOk, NewErrorInfo())
  }

  function FailedStatus(rc: RfcRc): (s: Status)
    requires rc != RfcOk
    ensures s.rc == rc && !IsOk(s.rc) && s.err.code == rc
  {
    Status(rc, NewErrorInfo().(code := rc))
  }

  /**
   * A structure whose second descriptor fetch fails. The record still holds
   * the first field's structure descriptor, so the conversion asks for a
   * nested structure at index 1, and that request fails with a different
   * code.
   */
  function StaleDescriptorContainer(addr: nat): (c: Container)
    ensures c.describe.target.Some? && |c.describe.target.value.slots| == 2
    ensures !IsOk(c.describe.target.value.slots[1].fetch.rc)
  {
    var stale := FieldDesc(NameA(), Structure, 4, None);
    var first := FieldSlot(OkStatus(), stale, MemberReply(OkStatus(), None));
    var second := FieldSlot(FailedStatus(RfcInvalidHandle), stale,
                            MemberReply(FailedStatus(RfcInvalidParameter), None));
    Container(addr, PtrReply(Some(TypeDesc(OkStatus(), [first, second])), NewErrorInfo()))
  }

  /** `NameA` converts to a name. */
  lemma NameAConverts()
    ensures NulPrefix(NameA()) == Some([0x41])
    ensures FromBufWithNul(NameA()).Ok?
  {
    var b := NameA();
    var v := NulPrefix(b).value;
    assert |v| == 1;
    assert Decode(v).Some?;
  }

  /** The first field of the stale container decodes, whatever the order
      of use and check. */
  lemma StaleFirstSlotDecodes(addr: nat, check: FetchCheck)
    ensures DecodeSlot(StaleDescriptorContainer(addr).describe.target.value.slots[0], Handle(addr), 0, check).Ok?
  {
    var slot := StaleDescriptorContainer(addr).describe.target.value.slots[0];
    NameAConverts();
    assert FieldToParameter(slot.desc, 0, Handle(addr), slot.member, check).Ok?;
  }

  /** As written, the second field's stale nested-structure request is
      made, and its failure is what the field reports. */
  lemma StaleSecondSlotAsWritten(addr: nat)
    ensures var slot := StaleDescriptorContainer(addr).describe.target.value.slots[1];
            DecodeSlot(slot, Handle(addr), 1, AS_WRITTEN) == Err(Reported(slot.member.status.err))
  {
    var slot := StaleDescriptorContainer(addr).describe.target.value.slots[1];
    NameAConverts();
    assert FieldToParameter(slot.desc, 1, Handle(addr), slot.member, AS_WRITTEN)
        == Err(Reported(slot.member.status.err));
  }

  /** As written, the failing fetch is reported as the error of the stale
      nested-structure request instead of its own. */
  lemma StaleDescriptorMisreported(addr: nat)
    ensures FromHandle(StaleDescriptorContainer(addr), AS_WRITTEN).Err?
    ensures Code(FromHandle(StaleDescriptorContainer(addr), AS_WRITTEN).error) == RfcInvalidParameter
    ensures StaleDescriptorContainer(addr).describe.target.value.slots[1].fetch.err.code == RfcInvalidHandle
  {
    var c := StaleDescriptorContainer(addr);
    var td := c.describe.target.value;
    StaleFirstSlotDecodes(addr, AS_WRITTEN);
    StaleSecondSlotAsWritten(addr);
    var rs := Rounds(td, Handle(addr), AS_WRITTEN);
    assert Collect(rs, 1) == Err(rs[1].error);
    assert FromHandle(c, AS_WRITTEN) == Collect(rs, 0);
  }

  /** Checking the code first reports the failing fetch itself. */
  lemma StaleDescriptorCorrected(addr: nat)
    ensures FromHandle(StaleDescriptorContainer(addr), CORRECTED).Err?
    ensures Code(FromHandle(StaleDescriptorContainer(addr), CORRECTED).error) == RfcInvalidHandle
  {
    var c := StaleDescriptorContainer(addr);
    var td := c.describe.target.value;
    StaleFirstSlotDecodes(addr, CORRECTED);
    assert DecodeSlot(td.slots[1], Handle(addr), 1, CORRECTED) == Err(Reported(td.slots[1].fetch.err));
    var rs := Rounds(td, Handle(addr), CORRECTED);
    assert Collect(rs, 1) == Err(rs[1].error);
    assert FromHandle(c, CORRECTED) == Collect(rs, 0);
  }
}
