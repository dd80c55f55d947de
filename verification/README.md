# rsrfc parameter-marshalling core, modelled in Dafny

rsrfc is a Rust wrapper around the SAP NetWeaver RFC library. This project
models the decision logic the wrapper adds around the native library:

- **Connection-parameter list.** `RfcConnParmHelper` keeps an ordered list
  of NUL-terminated UTF-16 name/value pairs. `convert` and `from_hashmap`
  fill it, and `from_parm_helper` opens a connection with it.
- **Function description.** `get_function` looks up a function description
  by name and creates a function container. It then decodes every
  parameter descriptor, stopping at the first error.
- **Parameter-tree decoding.** Struct and table parameters are decoded
  recursively (`from_handle`, both `to_parameter`s) into ordered `fields`
  and `parameters` lists.
- **Gating.** The type and direction predicates decide whether a table
  cursor operation, field lookup, string or integer setter, or reader may
  reach the native library at all.
- **Error records.** An `RfcErrorInfo` has fixed-width UTF-16 buffers.
  `custom` writes a message into it, and `Display`/`Debug` render it.
- **Release.** The null-guarded release in both `Drop` implementations.

The native library is an oracle and is never called:

- Every native call the model would make is recorded as a `NativeCall` in
  an `Effect`.
- Every answer is an input: a `Status` (result code plus the error record
  the library filled), a `PtrReply` (a pointer that may be null), or a
  `BufferReply` (the contents of a caller-provided buffer).
- A struct or table type is an abstract tree (`Container`, `TypeDesc`,
  `FieldSlot`).

The files:

| File | Module | Contents |
|---|---|---|
| `units.dfy` | `Units` | Unsigned integer widths, `u32` wrap-around, `Option` |
| `text.dfy` | `Text` | UTF-16 encoding and decoding, lossy decoding, UTF-8 length and truncation, first-NUL search, ASCII case folding |
| `error.dfy` | `Error` | Result codes, error groups, the error record, `custom`, `Display`, `Result` |
| `widestring.dfy` | `WideString` | The `U16CString` conversions the wrapper uses |
| `rfc_types.dfy` | `RfcTypes` | `RfcType` and `RfcDirection` predicates |
| `native.dfy` | `Native` | Handles, descriptors, the oracle's answers, the native-call alphabet |
| `decoder.dfy` | `Decoder` | `from_handle`, both `to_parameter`s |
| `accessors.dfy` | `Accessors` | `RfcParameter` table operations, field lookups, readers and writers |
| `library.dfy` | `Library` | A store of the values the native library keeps, and the write-then-read properties of the accessors against it |
| `connparams.dfy` | `ConnParams` | `RfcConnParmHelper` |
| `lib.dfy` | `Lib` | `convert`, opening connections, `get_function`, parameter lookup, `call`, both `Drop`s |

Modelling decisions:

- **Panics.** A Rust `unwrap` that panics on an interior NUL is a
  precondition. `custom`'s message has the type `CustomText`, which is a
  string without NUL.
- **Error values.** An error is either `Reported(record)`, a record the
  library filled, or `Custom(text)`, a `custom` error. `Record(e)` gives
  the 512-unit record `custom` would build, so both kinds are inspected the
  same way.
- **Integers.**
  - `u32` counts and lengths wrap explicitly (`ToU32`, `IncU32`).
  - Parameter indices are `nat`; the source uses `u32` indices that
    cannot exceed the native count.
- **Group rename.** The error group `Ok` is called `GroupOk`, so that it
  does not clash with the `Result` constructor.
- **Null handle.** The null handle is `NullHandle`.
- **Decoding order.** `from_handle` uses each field descriptor before
  checking the fetch's result code. `FetchCheck` selects the order:
  `AS_WRITTEN` is the source's order, `CORRECTED` checks first. The rest
  of the model uses `AS_WRITTEN` for the nested decode, as the source does.
- **Cleanup in `get_function`.** `Cleanup` selects what happens to the
  created container when a later step fails: `GET_FUNCTION_AS_WRITTEN`
  leaks it, `GET_FUNCTION_CORRECTED` destroys it.
- **Call signatures.** `src/lib.rs` calls the native functions through
  `rfc_api` and creates `RfcParameterDesc::new(&…)` with signatures that do
  not match `src/rfc.rs`. The model follows the logic, not the signatures.
- **`Debug` is `Display`.** `Debug for RfcErrorInfo` (src/error.rs:76-89)
  is the same code as `Display` (src/error.rs:91-104). `Error.Display`
  models both, so they agree on every buffer by construction.
- **The library's store.** Round trips such as `set_string` then
  `get_string` depend on what the native library keeps. `Library` models
  that as a `Store` of field values and row counts:
  - `Perform` gives the effect of each recorded writing call.
  - `LengthAnswer`, `StringAnswer`, `CharsAnswer`, `XStringAnswer` and
    `RowCountAnswer` derive the readers' answers from the store.
  - A write whose length exceeds its buffer has no defined effect
    (`None`).

  This behaviour is assumed from the library's documented interface. It is
  not derived from the wrapper.
- **Type-description handles.** `from_handle` is applied to a field's
  `type_desc_handle` (src/rfc.rs:386). That handle is a type description,
  but `from_handle` starts with `RfcDescribeType`, which expects a data
  container. The model gives such a handle a container's answers
  (`FieldDesc.typeDescHandle: Option<Container>`). What the library really
  does with a handle of the wrong kind is outside the model.
- **`get_field_by_index_mut`.** It performs the same checks as
  `get_field_by_index` and is modelled by `Accessors.GetFieldByIndex`.

## Model

| member | source | states |
|---|---|---|
| Error.RcValue | src/error.rs:4-37 | The code's numeric value is 0 exactly for `RfcOk` and 65536 exactly for the custom `RfcCaiberp`; every other code's value is its position in the native code table |
| Error.RcValueInjective | src/error.rs:4-37 | Distinct result codes have distinct numeric values |
| Error.IsOk | src/error.rs:41-43 | A code is ok exactly when its numeric value is 0 |
| Error.GroupValue | src/error.rs:48-59 | The group value is 0 exactly for `Ok` and 65536 exactly for `CaiberP`; native groups are below 8 |
| Error.NewErrorInfo | src/rfc.rs:417-431 | A fresh record has code `RfcOk`, group `Ok` and every buffer zeroed |
| Error.CustomRecord | src/rfc.rs:433-445 | Code `RfcCaiberp`, group `CaiberP`; the message holds the first min(512, units+1) units of the NUL-terminated encoding; everything else is zero |
| Error.Code | src/rfc.rs:442-443 | A custom error always carries `RfcCaiberp` |
| Error.MessageLen | src/error.rs:93-99 | The position of the first NUL in the message, or 0 when there is none |
| Error.ScanMessageLen | src/error.rs:93-99 | The scanning loop finds the first NUL, and leaves 0 when the buffer has none |
| Error.Display | src/error.rs:91-104 | With a NUL present, the output is the units before it exactly when those units are ASCII; with none, it is empty; any output has as many UTF-8 bytes as there are units before the NUL |
| Error.TruncatedAtNul | src/error.rs:93-101 | Cutting the decoded buffer at the unit index of the first NUL keeps exactly the text before the NUL only when that text is ASCII |
| Error.DisplayAsciiMessage | src/error.rs:91-104 | For an ASCII message, the output has one character per unit before the first NUL, equal to that unit |
| Error.CustomShortMessage | src/rfc.rs:433-445 | A message shorter than 512 units is stored whole, followed by a NUL |
| Error.CustomLongMessage | src/rfc.rs:436-440 | A message of 512 units or more is cut to 512 units, and no NUL is stored |
| Error.CustomDisplayRoundTrip | src/rfc.rs:433-445 | An ASCII message shorter than 512 units renders back as itself |
| Error.CustomLongDisplayEmpty | src/error.rs:93-101 | A message of 512 units or more renders as the empty string |
| Error.DisplayIntended | src/error.rs:91-104 | The corrected rendering is the text before the first NUL, or the whole buffer when there is none; valid UTF-16 text before the NUL encodes back to those units |
| Error.CustomDisplayIntendedRoundTrip | src/error.rs:91-104 | The corrected rendering gives back every short message, and the 512 stored units of a long one |
| Error.DisplayIntendedAgrees | src/error.rs:91-104 | On ASCII messages with a NUL, the corrected rendering matches the source's |
| Error.DisplayPanicsOnAcute | src/error.rs:100-101 | For the message "é" the source's truncation has no result (it panics), while the corrected rendering gives "é" |
| Text.TruncateUtf8 | src/error.rs:101 | `String::truncate`: when it succeeds, the result is a character prefix whose UTF-8 length is min(n, length); it fails only when n is below the string's UTF-8 length |
| WideString.FromStrWithNul | src/rfc.rs:585-588 | Without a NUL the result is the encoding plus one zero unit; with one it is a custom error |
| WideString.ConversionMessage | src/rfc.rs:169-174 | A conversion error's text never contains NUL, so turning it into a custom error cannot panic |
| WideString.FromBufWithNul | src/rfc.rs:168-175 | Succeeds exactly when the buffer has a NUL and the units before it decode; the result encodes back to those units; no NUL gives the missing-NUL error |
| WideString.FromBuf | src/rfc.rs:656-663 | Succeeds exactly when the buffer has no NUL and decodes; the result encodes back to the buffer; a NUL reports its position |
| WideString.FromBufEncode | src/rfc.rs:712-718 | Reading back the encoding of a NUL-free string gives the string |
| RfcTypes.IsStructOrTable | src/rfc.rs:60-68 | True exactly for `Structure` and `Table` |
| RfcTypes.IsTable | src/rfc.rs:71-73 | Every table is a struct-or-table |
| RfcTypes.TableIsStructOrTable | src/rfc.rs:60-73 | `is_struct_or_table` holds exactly for `Structure` and `Table`; `is_table` implies it |
| RfcTypes.EnsureStructOrTable | src/rfc.rs:76-82 | Ok exactly for `Structure` or `Table`; otherwise the custom "Expected struct table" error |
| RfcTypes.EnsureTable | src/rfc.rs:85-91 | Ok exactly for `Table`; otherwise the custom "Expected table" error |
| RfcTypes.CanWrite | src/rfc.rs:112-119 | False only for `RfcExport`; equivalently, the low bit of the direction mask is set |
| RfcTypes.CanRead | src/rfc.rs:122-129 | False only for `RfcImport`; equivalently, bit 1 of the direction mask is set |
| RfcTypes.DirectionsCoverBothWays | src/rfc.rs:98-129 | Every direction is readable or writable; `RfcChanging` and `RfcTables` are exactly the ones that are both |
| Native.Check | src/lib.rs:228-232 | A status becomes Ok exactly when its code is `RfcOk`, and otherwise the record the library filled |
| Decoder.DecodeMember | src/rfc.rs:177-199 | Only struct or table members are fetched; a failed fetch reports its record; a null handle means no nested description; a non-null one succeeds exactly when its recursive `from_handle` does, giving that description and handle, and otherwise fails with its error |
| Decoder.FieldToParameter | src/rfc.rs:163-217 | A field becomes a changing, non-optional parameter without default, with the same index, type and length and the name before the NUL; a name without NUL is the missing-NUL error; with a valid name it succeeds exactly when the member decode does, failing with its error, and its nested description and handle are that decode's |
| Decoder.DecodeSubFields | src/rfc.rs:384-389 | No handle, no nested description; with a handle, it succeeds exactly when the recursive `from_handle` does, giving its description or its error |
| Decoder.DecodeSlot | src/rfc.rs:371-398 | A failed fetch fails the entry (with its own record when checked first); the entry succeeds exactly when the fetch, `to_parameter` and the nested decode do; its parameter is `to_parameter`'s, its sub-fields the nested decode's, and a failure is the first failing step's error; field and parameter share index, name, type and length |
| Decoder.Collect | src/rfc.rs:370-399 | The loop succeeds exactly when every round from its start does, and entry k is then what round start+k decoded |
| Decoder.CollectFirstError | src/rfc.rs:370-399 | A failing loop stops at its first failing round, every earlier round having succeeded, and returns that round's error |
| Decoder.FromHandle | src/rfc.rs:350-403 | Null type description or failed count report their records; on success `fields` and `parameters` both have `count` entries, coherent and bound to the container, and every fetch succeeded |
| Decoder.FromHandleDecodesEveryField | src/rfc.rs:350-403 | `from_handle` succeeds exactly when the type is described, counted and every field decodes; field j is then round j's: the descriptor's type, length and name, its own nested description, and `to_parameter`'s parameter |
| Decoder.FromHandleFirstError | src/rfc.rs:370-399 | A failing `from_handle` past the count returns the error of its first failing field, every earlier field having decoded |
| Decoder.DecodeDefault | src/rfc.rs:275-288 | A leading zero means no default; otherwise the text before the NUL, or the missing-NUL error |
| Decoder.ParameterToParameter | src/rfc.rs:260-329 | The parameter keeps index, type, length, direction and optional flag from the descriptor; it has a default exactly when the buffer's first unit is not zero; name, default and member decode fail in that order with their own errors, and on success the default and the nested description and handle are theirs |
| Decoder.StaleDescriptorMisreported | src/rfc.rs:372-378 | As written, a failed fetch whose buffer still holds the previous descriptor reports `RfcInvalidParameter` instead of the fetch's `RfcInvalidHandle` |
| Decoder.StaleDescriptorCorrected | src/rfc.rs:372-378 | Checking the code first reports the fetch's own `RfcInvalidHandle` |
| Accessors.RunRowOp | src/rfc.rs:449-513 | Each cursor operation on a non-table returns "Expected table" with no native call; on a table, it makes one call and succeeds exactly when that call does |
| Accessors.GetRowCount | src/rfc.rs:515-526 | Non-tables give "Expected table" with no call; otherwise one `RfcGetRowCount`, whose count is returned on success |
| Accessors.GetFieldCount | src/rfc.rs:528-534 | Ok exactly for a table with a decoded description (structures are rejected), and the count is the number of parameters |
| Accessors.FindField | src/rfc.rs:542-548 | The first field whose name equals the key exactly, or none |
| Accessors.GetFieldIndexByName | src/rfc.rs:536-550 | Ok exactly when some field's name equals the key (case-sensitive); the result is the first such index; otherwise "Unknown field" |
| Accessors.GetFieldByIndex | src/rfc.rs:552-578 | Ok exactly when the index is below the number of parameters, giving that parameter; otherwise "illegal index" |
| Accessors.FieldCountBoundsIndex | src/rfc.rs:528-578 | For a table, the field count is defined, and `get_field_by_index` accepts exactly the indexes below it |
| Accessors.TableFieldCount | src/rfc.rs:528-534 | A decoded table parameter's field count is the number of fields its nested type describes; without a nested handle there is no count |
| Accessors.FieldByNameRoundTrip | src/rfc.rs:536-564 | Looking a field up by name, then its index, gives a parameter with that name and index |
| Accessors.SetString | src/rfc.rs:580-610 | Read-only first, then "not a string" for types other than `String`/`Char`; only then one `RfcSetCharsByIndex` with the terminated encoding |
| Accessors.SetStringUnitsInBounds | src/rfc.rs:590-600 | With the length counted in UTF-16 units, the length passed covers exactly the encoding and stops before the NUL |
| Accessors.SetStringAsciiAgrees | src/rfc.rs:597 | On ASCII values, counting bytes and counting units produce the same call |
| Accessors.SetStringOverReadsEuro | src/rfc.rs:597 | As written, "€" is sent with length 3 in a buffer of 2 units |
| Accessors.SetInt | src/rfc.rs:612-622 | Read-only is the only gate (there is no type check); then one `RfcSetIntByIndex` |
| Accessors.GetChars | src/rfc.rs:624-666 | Non-readable gives "Read-only parameter" with no call; otherwise one call asking for len+1 units, whose buffer is decoded |
| Accessors.GetString | src/rfc.rs:668-722 | Length query, then a fetch of length+1 units; each failure reports its record; the text is the written units |
| Accessors.SetXString | src/rfc.rs:724-749 | Read-only first, then "Not of type XSTRING"; then one call carrying the bytes and their count |
| Accessors.GetXString | src/rfc.rs:751-791 | Read-only first, then "Not of type XSTRING"; then a length query and a fetch; the result is the returned bytes |
| Accessors.DirectionGates | src/rfc.rs:580-627 | Import parameters are never read and export parameters are never written: no native call, "Read-only parameter" |
| Library.StoredChars | src/rfc.rs:580-610 | `set_string` succeeds; the store is defined exactly when the length passed is at most the units plus the NUL, and then holds that many units of the terminated encoding |
| Library.ReadStoredString | src/rfc.rs:668-722 | `get_string` on stored units converts exactly those units |
| Library.ReadStoredChars | src/rfc.rs:624-667 | `get_chars` on stored units converts them padded with blanks to the len+1 units it reserves |
| Library.StringRoundTrip | src/rfc.rs:580-722 | With the length counted in UTF-16 units, `set_string` then `get_string` gives the value back |
| Library.TerminatorRead | src/rfc.rs:668-722 | Stored units that include the NUL make `get_string` fail at the NUL's position |
| Library.Utf8RoundTripOnlyAscii | src/rfc.rs:597 | As written, `set_string` then `get_string` gives the value back exactly for ASCII text; one extra byte stores the NUL, which the read then fails on; more makes the write read past its buffer |
| Library.CharsRoundTrip | src/rfc.rs:580-667 | `set_string` on a CHAR field, then `get_chars`, gives the value followed by blanks up to len+1 units |
| Library.SetIntStores | src/rfc.rs:612-622 | `set_int` stores the integer at the parameter's field; every other field and row count is unchanged |
| Library.XStringRoundTrip | src/rfc.rs:724-791 | `set_xstring` then `get_xstring` gives the bytes back |
| Library.AppendRowsCounted | src/rfc.rs:449-526 | `append_rows(n)` then `get_row_count` gives the former count plus n |
| Library.MovesKeepStore | src/rfc.rs:460-513 | The cursor moves change no value and no row count |
| ConnParams.New | src/connparams.rs:13-15 | The pair list starts empty |
| ConnParams.Terminated | src/connparams.rs:19-20 | A stored name or value is its UTF-16 encoding followed by one zero unit |
| ConnParams.TerminatedRoundTrip | src/connparams.rs:19-20 | The terminator is the only zero: the units before the first zero are the encoding, and they decode back to the input |
| ConnParams.TerminatedInjective | src/connparams.rs:19-20 | Different inputs are stored differently |
| ConnParams.TerminatedReadsBack | src/connparams.rs:19-20 | Reading a stored buffer up to its NUL gives the input back |
| ConnParams.Add | src/connparams.rs:18-22 | Exactly one pair is appended at the end, and all earlier pairs are unchanged |
| ConnParams.AddKeepsDuplicates | src/connparams.rs:18-22 | Adding the same name twice stores two pairs with that name |
| ConnParams.Parameters | src/connparams.rs:24-37 | One parameter record per stored pair, in insertion order, pointing at the stored buffers |
| ConnParams.AsVec | src/connparams.rs:24-37 | The callback receives one record per stored pair, in insertion order, pointing at the stored name and value, and its result is returned |
| ConnParams.ParametersAfterAdd | src/connparams.rs:18-37 | After `add`, `as_vec` hands over the old records plus one new record at the end |
| ConnParams.AddAll | src/lib.rs:132-134 | Adding a list of entries appends one pair per entry, in list order, after the unchanged earlier pairs |
| Lib.ConvertEntries | src/lib.rs:34-43 | The entries follow the order ashost, sysnr, client, user, passwd, lang, each with its field |
| Lib.Convert | src/lib.rs:34-43 | Exactly six pairs; pair i is name i of ashost, sysnr, client, user, passwd, lang with the matching value |
| Lib.FromParmHelper | src/lib.rs:113-127 | One `RfcOpenConnection` with the helper's records; Ok exactly when the handle is non-null; otherwise the record the library filled |
| Lib.Open | src/lib.rs:107-110 | Opening with the six converted parameters, in convert's order |
| Lib.HashmapHelper | src/lib.rs:130-136 | One pair per visited key, in visiting order, each storing the key and its value |
| Lib.FromHashmap | src/lib.rs:130-136 | One open call with the filled helper; Ok exactly when the handle is non-null |
| Lib.HashmapStoresEntry | src/lib.rs:132-134 | Every map entry's pair is stored |
| Lib.HashmapNamesDistinct | src/lib.rs:132-134 | No name is stored at two positions, so there is exactly one pair per entry |
| Lib.ParamOutcome | src/lib.rs:173-177 | A failed descriptor fetch reports its record before `to_parameter` runs; a decoded parameter has index i and the created container |
| Lib.DecodeParams | src/lib.rs:168-179 | On success there is one parameter per remaining index, each the outcome of its own pass |
| Lib.DecodeParamsSucceeds | src/lib.rs:172-179 | The loop succeeds exactly when every pass does, and then it fetched every index once, in order |
| Lib.DecodeParamsFirstError | src/lib.rs:172-179 | A failing loop returns the first failing pass's error, having fetched exactly up to that pass |
| Lib.GetFunction | src/lib.rs:140-188 | Null lookup, null creation or failed count each return their record; otherwise Ok exactly when every pass succeeds, with `parm_count` entries, entry i being exactly what pass i decoded (index i, the created container) |
| Lib.GetFunctionFirstError | src/lib.rs:172-177 | When the loop fails, `get_function` returns the first failing pass's error and no partial result |
| Lib.Release | src/lib.rs:236-264 | A null handle issues nothing; otherwise one release call; a failed release yields only a warning with the whole message buffer, decoded lossily |
| Lib.DropConnection | src/lib.rs:236-249 | `RfcCloseConnection` only for a non-null handle; a failure gives only the "Unable to close" warning |
| Lib.DropFunction | src/lib.rs:251-264 | `RfcDestroyFunction` only for a non-null container; a failure gives only the "Unable to destroy" warning |
| Lib.CreatedFunctionDestroyedOnce | src/lib.rs:151-186 | With the corrected cleanup, a created container is destroyed exactly once, whether `get_function` fails or the function is later dropped |
| Lib.LifetimeShape | src/lib.rs:151-186 | With the corrected cleanup, a function's lifetime issues the lookup, the creation, the count, some descriptor fetches and then exactly one destroy of the created container, as the last call |
| Lib.CreatedFunctionLeaked | src/lib.rs:151-166 | As written, a failed parameter count after creation returns an error and the container is never destroyed |
| Lib.Call | src/lib.rs:226-233 | One `RfcInvoke` on the connection and container; Ok exactly when it succeeds |
| Lib.GetParameterByIndex | src/lib.rs:193-198 | Some exactly when the index is below the number of parameters, giving that parameter |
| Lib.FindParameter | src/lib.rs:216-223 | The first position whose name equals the query ignoring ASCII case, or none |
| Lib.GetParameter | src/lib.rs:216-223 | The first parameter whose name equals the query ignoring ASCII case; None exactly when there is none |
| Lib.GetMutParameter | src/lib.rs:202-212 | The loop finds the same first case-insensitive match as `get_parameter`, as a position |

## Left out

- **Native library.** The `extern "C"` block (src/rfc.rs:793-961) and the
  native functions themselves are not modelled. Their answers are inputs,
  and a native call is only recorded, never run.
- **Library loading.** `RfcLib::new` (src/lib.rs:63-104) loads a shared
  library dynamically. This is platform I/O.
- **Not modelled.** src/main.rs (a demo against a live server) and
  build.rs (linker paths).
- **Ownership.** Rust lifetimes, `PhantomData` and pointer arithmetic in
  the buffer readers are left out. A reader's buffer is modelled by its
  contents after the call.
- **`eprintln!` output.** It is not written anywhere; `Drop` returns the
  warning text it would print.
- **Nested native calls in the trace.** `Lib.GetFunction`'s trace records
  the calls `get_function` issues itself. The calls made while decoding a
  nested struct or table are not recorded; their answers are still inputs.
- **`HashMap` iteration order.** The order is chosen by the map's hasher
  and is an input that visits every key once.
- **Work past the first failure.** `Lib.DecodeParams` is defined over the
  outcomes of all passes. It uses only the passes the loop reaches, and its
  trace stops at the first failure.
- Lib.GetMutParameter: returns the position of the match rather than a
  mutable reference. Updating the parameter through the reference is not
  modelled.
- Text.TruncateUtf8: does not state that it fails exactly when n is inside
  a character. It states only that success gives the prefix of UTF-8
  length min(n, length), and that failure needs n below the string's
  length.
- Decoder.Rounds: lists the outcome of every round, including rounds past
  the first failure. `Decoder.Collect` uses only the rounds the loop
  reaches.
- Error.CustomText: excludes messages holding NUL. `custom` panics on them
  (`unwrap`, src/rfc.rs:435), and a panic is not modelled.
- ConnParams.Terminated: requires a text without NUL. The `unwrap` at
  src/connparams.rs:19-20 panics otherwise.
- ConnParams.Add: requires a name and value without NUL, for the same
  panic.
- Lib.GetFunction: requires a name without NUL. The `unwrap` at
  src/lib.rs:144 panics otherwise. `Lib.Lifetime` inherits the
  precondition.
- **Library store.** The store does not pad or cut CHAR values to their
  declared length. It does not convert between kinds (an integer read as
  text), and it has no current-row cursor.
- **Indices wider than `u32`.** Index wrap-around beyond 2^32 entries in
  `get_field_index_by_name` is modelled with `ToU32`. The round-trip lemma
  assumes fewer entries than that.

## Findings

| source | as written | input that shows it | evidently intended | confidence | as-written member | corrected member |
|---|---|---|---|---|---|---|
| src/error.rs:100-101 | `truncate(len)` cuts the lossily decoded text at `len` UTF-8 bytes, but `len` counts UTF-16 units | Message buffer `[0xE9, 0, …]` ("é"): len is 1, and byte 1 is inside "é", so `truncate` panics | Keep the characters decoded from the units before the first NUL | high, not executed | Error.DisplayPanicsOnAcute | Error.DisplayIntendedAgrees |
| src/error.rs:93-101 | When no unit is NUL, `len` stays 0 and the whole message is dropped | `custom` with a message of 512 units or more: no NUL is stored, and the text renders as "" | Render the whole 512-unit buffer when there is no NUL | high, not executed | Error.CustomLongDisplayEmpty | Error.CustomDisplayIntendedRoundTrip |
| src/rfc.rs:597 | `set_string` passes `value.len()`, the UTF-8 byte count, as the length in UTF-16 units | `set_string("€")` on a writable `Char` parameter: length 3 for a 2-unit buffer (one unit plus NUL), so the library reads past it | Pass the number of UTF-16 units of the encoding | high, not executed | Accessors.SetStringOverReadsEuro | Library.StringRoundTrip |
| src/rfc.rs:372-378 | `from_handle` passes the field descriptor to `to_parameter` before checking the fetch's code | The second fetch fails with `RfcInvalidHandle` while the buffer still holds the first descriptor of a struct field whose nested fetch fails with `RfcInvalidParameter`: the error returned is `RfcInvalidParameter` | Check the fetch's code before using the descriptor | medium, not executed | Decoder.StaleDescriptorMisreported | Decoder.StaleDescriptorCorrected |
| src/lib.rs:151-175 | `get_function` returns early after `RfcCreateFunction` succeeded, without destroying the container; no `RfcFunction` exists to drop it | `RfcGetParameterCount` fails after a successful creation: the error is returned and `RfcDestroyFunction` is never called | Destroy the created container before returning the error | high, not executed | Lib.CreatedFunctionLeaked | Lib.CreatedFunctionDestroyedOnce |
