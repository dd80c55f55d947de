/**
 * The connection and function layer: building the parameter list and
 * opening a connection, describing a remote function and decoding its
 * parameters, looking parameters up, invoking, and releasing handles.
 */
module Lib {
  import opened Units
  import opened Text
  import opened Error
  import opened WideString
  import opened RfcTypes
  import opened Native
  import opened Decoder
  import opened ConnParams

  /** `RfcConnectionParameters`: the six values a simple connection needs. */
  datatype ConnectionParameters = ConnectionParameters(
    ashost: string, sysnr: string, client: string, user: string, passwd: string, lang: string)

  /** The names `convert` uses, in the order it adds them. */
  const CONVERT_KEYS: seq<string> := ["ashost", "sysnr", "client", "user", "passwd", "lang"]

  /** `add` panics on an interior NUL, so every value must be free of one. */
  predicate NulFree(c: ConnectionParameters)
  {
    '\0' !in c.ashost && '\0' !in c.sysnr && '\0' !in c.client &&
    '\0' !in c.user && '\0' !in c.passwd && '\0' !in c.lang
  }

  /** The values of `c`, in the order of `CONVERT_KEYS`. */
  function Values(c: ConnectionParameters): (v: seq<string>)
    ensures |v| == |CONVERT_KEYS|
  {
    [c.ashost, c.sysnr, c.client, c.user, c.passwd, c.lang]
  }

  /** The (name, value) entries `convert` adds, one `add` call each. */
  function ConvertEntries(c: ConnectionParameters): (entries: seq<(string, string)>)
    requires NulFree(c)
    ensures |entries| == |CONVERT_KEYS| && NulFreeEntries(entries)
    ensures forall i :: 0 <= i < |entries| ==> entries[i] == (CONVERT_KEYS[i], Values(c)[i])
  {
    [("ashost", c.ashost), ("sysnr", c.sysnr), ("client", c.client),
     ("user", c.user), ("passwd", c.passwd), ("lang", c.lang)]
  }

  /** `RfcConnectionParameters::convert`: exactly six pairs, the names in
      the order of `CONVERT_KEYS`, each with the matching field. */
  function Convert(c: ConnectionParameters): (h: ConnParmHelper)
    requires NulFree(c)
    ensures |h.parms| == |CONVERT_KEYS| == 6
    ensures forall i :: 0 <= i < 6 ==> h.parms[i] == Stored((CONVERT_KEYS[i], Values(c)[i]))
  {
    var empty := New();
    var entries := ConvertEntries(c);
    var h := AddAll(empty, entries);
    forall i | 0 <= i < 6
      ensures h.parms[i] == Stored((CONVERT_KEYS[i], Values(c)[i]))
    {
      assert h.parms[|empty.parms| + i] == Stored(entries[i]);
    }
    h
  }

  /** `RfcConnection`: the native connection handle. */
  datatype Connection = Connection(handle: Handle)

  /** `RfcConnection::from_parm_helper`: one `RfcOpenConnection` call with
      the helper's parameter records; a null handle reports the record the
      library filled in. */
  function FromParmHelper(h: ConnParmHelper, open: PtrReply<nat>): (e: Effect<Connection>)
    ensures e.calls == [RfcOpenConnection(Parameters(h))]
    ensures e.result.Ok? <==> open.target.Some?
    ensures e.result.Ok? ==> e.result.value.handle == Handle(open.target.value)
    ensures e.result.Err? ==> e.result.error == Reported(open.err)
  {
    var call := RfcOpenConnection(AsVec(h, pv => pv));
    match open.target
    case None => Effect(Err(Reported(open.err)), [call])
    case Some(addr) => Effect(Ok(Connection(Handle(addr))), [call])
  }

  /** `RfcConnection::new`: open with the six converted parameters. */
  function Open(c: ConnectionParameters, open: PtrReply<nat>): (e: Effect<Connection>)
    requires NulFree(c)
    ensures |e.calls| == 1 && e.calls[0].RfcOpenConnection?
    ensures var pv := e.calls[0].parameters;
            |pv| == 6 &&
            forall i :: 0 <= i < 6 ==> (pv[i].name, pv[i].value) == Stored((CONVERT_KEYS[i], Values(c)[i]))
    ensures e.result.Ok? <==> open.target.Some?
    ensures e.result.Err? ==> e.result.error == Reported(open.err)
  {
    FromParmHelper(Convert(c), open)
  }

  /**
   * The order in which `for (k, v) in parms` visits the keys of a `HashMap`:
   * every key exactly once. The order itself is chosen by the map and is a
   * parameter here.
   */
  predicate IsIterationOrder(m: map<string, string>, keys: seq<string>)
  {
    (forall k :: k in keys ==> k in m) &&
    (forall i, j :: 0 <= i < j < |keys| ==> keys[i] != keys[j]) &&
    (forall k :: k in m ==> k in keys)
  }

  /** No name or value of the map holds a NUL (otherwise `add` panics). */
  predicate NulFreeMap(m: map<string, string>)
  {
    forall k :: k in m ==> '\0' !in k && '\0' !in m[k]
  }

  /** The (name, value) entries in visiting order. */
  function Visit(m: map<string, string>, keys: seq<string>): (entries: seq<(string, string)>)
    requires forall k :: k in keys ==> k in m
    ensures |entries| == |keys|
    ensures forall i :: 0 <= i < |keys| ==> keys[i] in m && entries[i] == (keys[i], m[keys[i]])
  {
    seq(|keys|, i requires 0 <= i < |keys| => assert keys[i] in keys; (keys[i], m[keys[i]]))
  }

  /** The helper `from_hashmap` fills: one `add` per visited entry. */
  function HashmapHelper(m: map<string, string>, keys: seq<string>): (h: ConnParmHelper)
    requires NulFreeMap(m) && IsIterationOrder(m, keys)
    ensures |h.parms| == |keys|
    ensures forall i :: 0 <= i < |keys| ==> keys[i] in m && h.parms[i] == Stored((keys[i], m[keys[i]]))
  {
    var entries := Visit(m, keys);
    assert NulFreeEntries(entries) by {
      forall i | 0 <= i < |entries|
        ensures '\0' !in entries[i].0 && '\0' !in entries[i].1
      {
        assert keys[i] in m;
      }
    }
    var empty := New();
    var h := AddAll(empty, entries);
    forall i | 0 <= i < |keys|
      ensures keys[i] in m && h.parms[i] == Stored((keys[i], m[keys[i]]))
    {
      assert h.parms[|empty.parms| + i] == Stored(entries[i]);
    }
    h
  }

  /** `RfcConnection::from_hashmap`. */
  function FromHashmap(m: map<string, string>, keys: seq<string>, open: PtrReply<nat>)
    : (e: Effect<Connection>)
    requires NulFreeMap(m) && IsIterationOrder(m, keys)
    ensures e.calls == [RfcOpenConnection(Parameters(HashmapHelper(m, keys)))]
    ensures e.result.Ok? <==> open.target.Some?
    ensures e.result.Err? ==> e.result.error == Reported(open.err)
  {
    FromParmHelper(HashmapHelper(m, keys), open)
  }

  /** Every map entry's pair is among those `from_hashmap` stores (and by
      `HashmapHelper`'s contract, every stored pair is an entry's). */
  lemma HashmapStoresEntry(m: map<string, string>, keys: seq<string>, k: string)
    requires NulFreeMap(m) && IsIterationOrder(m, keys)
    requires k in m
    ensures var h := HashmapHelper(m, keys);
            exists i :: 0 <= i < |h.parms| && h.parms[i] == Stored((k, m[k]))
  {
    var h := HashmapHelper(m, keys);
    var i :| 0 <= i < |keys| && keys[i] == k;
    assert keys[i] in m;
    assert h.parms[i] == Stored((k, m[k]));
  }

  /** `from_hashmap` stores no name at two positions: a map has no duplicate
      keys and different names are stored differently. Together with
      `HashmapStoresEntry` this is one pair per entry. */
  lemma HashmapNamesDistinct(m: map<string, string>, keys: seq<string>, i: nat, j: nat)
    requires NulFreeMap(m) && IsIterationOrder(m, keys)
    requires i < |keys| && j < |keys|
    ensures HashmapHelper(m, keys).parms[i].0 == HashmapHelper(m, keys).parms[j].0 ==> i == j
  {
    HashmapNameInjective(m, keys, i, j);
    KeysOnce(m, keys, i, j);
  }

  /** Equal stored names come from equal keys. */
  lemma HashmapNameInjective(m: map<string, string>, keys: seq<string>, i: nat, j: nat)
    requires NulFreeMap(m) && IsIterationOrder(m, keys)
    requires i < |keys| && j < |keys|
    ensures HashmapHelper(m, keys).parms[i].0 == HashmapHelper(m, keys).parms[j].0 ==> keys[i] == keys[j]
  {
    assert keys[i] in m && keys[j] in m;
    if HashmapHelper(m, keys).parms[i].0 == HashmapHelper(m, keys).parms[j].0 {
      TerminatedInjective(keys[i], keys[j]);
    }
  }

  /** An iteration order lists each key once. */
  lemma KeysOnce(m: map<string, string>, keys: seq<string>, i: nat, j: nat)
    requires IsIterationOrder(m, keys)
    requires i < |keys| && j < |keys|
    ensures keys[i] == keys[j] ==> i == j
  {
  }

  /** `RfcFunction`: the connection, the created function container and the
      decoded parameters. */
  datatype Function = Function(connection: Connection, fun: Handle, funDesc: seq<Parameter>)

  /**
   * One pass of the `get_function` loop at index `i`: the fetch's code is
   * checked first, then `to_parameter` decodes the descriptor against the
   * created container `ff`.
   */
  function ParamOutcome(slot: ParamSlot, i: nat, ff: Handle): (r: Result<Parameter>)
    ensures !IsOk(slot.fetch.rc) ==> r == Err(Reported(slot.fetch.err))
    ensures r.Ok? ==> IsOk(slot.fetch.rc) && r.value.index == i && r.value.fun == ff
    ensures r.Ok? ==> 0 in slot.desc.name && Encode(r.value.name) == NulPrefix(slot.desc.name).value
  {
    if !IsOk(slot.fetch.rc) then Err(Reported(slot.fetch.err))
    else ParameterToParameter(slot.desc, i, ff, slot.member, AS_WRITTEN)
  }

  /** The outcome of every pass, were the loop to reach it. Passes are pure
      in the answers they read, so computing one the loop never reaches
      changes nothing; the calls it would issue are not recorded. */
  function Outcomes(slots: seq<ParamSlot>, ff: Handle): (rs: seq<Result<Parameter>>)
    ensures |rs| == |slots|
    ensures forall k | 0 <= k < |rs| :: rs[k] == ParamOutcome(slots[k], k, ff)
  {
    seq(|slots|, k requires 0 <= k < |slots| => ParamOutcome(slots[k], k, ff))
  }

  /** Index `j` is where the loop started at `i` stops: every earlier pass
      succeeded and pass `j` failed. */
  predicate FirstFailure(outcomes: seq<Result<Parameter>>, i: nat, j: nat)
  {
    i <= j < |outcomes| && outcomes[j].Err? && forall k | i <= k < j :: outcomes[k].Ok?
  }

  /** The descriptor fetches for indices `i` up to but excluding `j`. */
  function FetchCalls(fd: Handle, i: nat, j: nat): (calls: seq<NativeCall>)
    requires i <= j
    ensures |calls| == j - i
    ensures forall k :: 0 <= k < |calls| ==> calls[k] == RfcGetParameterDescByIndex(fd, i + k)
  {
    seq(j - i, k requires 0 <= k < j - i => RfcGetParameterDescByIndex(fd, i + k))
  }

  /** Fetching index `i` and then the rest is fetching from `i`. */
  lemma FetchCallsCons(fd: Handle, i: nat, j: nat)
    requires i < j
    ensures [RfcGetParameterDescByIndex(fd, i)] + FetchCalls(fd, i + 1, j) == FetchCalls(fd, i, j)
  {
    var a := [RfcGetParameterDescByIndex(fd, i)] + FetchCalls(fd, i + 1, j);
    forall k | 0 <= k < j - i
      ensures a[k] == FetchCalls(fd, i, j)[k]
    {
      if k > 0 {
        assert a[k] == FetchCalls(fd, i + 1, j)[k - 1];
      }
    }
  }

  /** The `get_function` loop from index `i` on, over the outcomes of its
      passes; pass `k` first fetches descriptor `k`. */
  function DecodeParams(fd: Handle, outcomes: seq<Result<Parameter>>, i: nat): (e: Effect<seq<Parameter>>)
    requires i <= |outcomes|
    decreases |outcomes| - i
    ensures e.result.Ok? ==> |e.result.value| == |outcomes| - i
    ensures e.result.Ok? ==> forall k | 0 <= k < |e.result.value| :: outcomes[i + k] == Ok(e.result.value[k])
  {
    if i == |outcomes| then Effect(Ok([]), [])
    else
      var call := RfcGetParameterDescByIndex(fd, i);
      match outcomes[i]
      case Err(err) => Effect(Err(err), [call])
      case Ok(p) =>
        var rest := DecodeParams(fd, outcomes, i + 1);
        match rest.result
        case Err(err) => Effect(Err(err), [call] + rest.calls)
        case Ok(ps) =>
          var value := [p] + ps;
          assert forall k | 1 <= k < |value| :: value[k] == ps[k - 1];
          Effect(Ok(value), [call] + rest.calls)
  }

  /** The loop succeeds exactly when every pass does, having fetched every
      index once, in order. */
  lemma {:induction false} DecodeParamsSucceeds(fd: Handle, outcomes: seq<Result<Parameter>>, i: nat)
    requires i <= |outcomes|
    decreases |outcomes| - i
    ensures var e := DecodeParams(fd, outcomes, i);
            (e.result.Ok? <==> forall k | i <= k < |outcomes| :: outcomes[k].Ok?) &&
            (e.result.Ok? ==> e.calls == FetchCalls(fd, i, |outcomes|))
  {
    if i < |outcomes| {
      DecodeParamsSucceeds(fd, outcomes, i + 1);
      if outcomes[i].Ok? && DecodeParams(fd, outcomes, i + 1).result.Ok? {
        FetchCallsCons(fd, i, |outcomes|);
      }
    }
  }

  /** When the loop fails, it fails with the error of the first failing
      pass, having fetched exactly the indices up to that pass. */
  lemma {:induction false} DecodeParamsFirstError(fd: Handle, outcomes: seq<Result<Parameter>>, i: nat)
    requires i <= |outcomes|
    requires DecodeParams(fd, outcomes, i).result.Err?
    decreases |outcomes| - i
    ensures var e := DecodeParams(fd, outcomes, i);
            exists j: nat :: FirstFailure(outcomes, i, j) && e.result.error == outcomes[j].error &&
                             e.calls == FetchCalls(fd, i, j + 1)
  {
    var e := DecodeParams(fd, outcomes, i);
    if outcomes[i].Err? {
      assert FirstFailure(outcomes, i, i);
      assert e.calls == FetchCalls(fd, i, i + 1);
    } else {
      DecodeParamsFirstError(fd, outcomes, i + 1);
      var rest := DecodeParams(fd, outcomes, i + 1);
      var j: nat :| FirstFailure(outcomes, i + 1, j) && rest.result.error == outcomes[j].error &&
                    rest.calls == FetchCalls(fd, i + 1, j + 1);
      FirstErrorPassedOn(fd, outcomes, i, j);
    }
  }

  /** A successful pass in front of a failing loop keeps its first failure
      and adds its own fetch in front. */
  lemma FirstErrorPassedOn(fd: Handle, outcomes: seq<Result<Parameter>>, i: nat, j: nat)
    requires i < |outcomes| && outcomes[i].Ok?
    requires FirstFailure(outcomes, i + 1, j)
    requires DecodeParams(fd, outcomes, i + 1).result == Err(outcomes[j].error)
    requires DecodeParams(fd, outcomes, i + 1).calls == FetchCalls(fd, i + 1, j + 1)
    ensures FirstFailure(outcomes, i, j)
    ensures DecodeParams(fd, outcomes, i).result == Err(outcomes[j].error)
    ensures DecodeParams(fd, outcomes, i).calls == FetchCalls(fd, i, j + 1)
  {
    FetchCallsCons(fd, i, j + 1);
  }

  /** What `get_function` does with the created function container when a
      later step fails. */
  datatype Cleanup = LeakOnError | DestroyOnError

  /** As written, the early returns drop the container handle on the floor;
      the corrected loop destroys it before returning the error. */
  const GET_FUNCTION_AS_WRITTEN: Cleanup := LeakOnError
  const GET_FUNCTION_CORRECTED: Cleanup := DestroyOnError

  /** Return `err` after `calls`, releasing the created container `ff` if
      the cleanup asks for it. */
  function Abandon(err: ErrorInfo, calls: seq<NativeCall>, ff: Handle, cleanup: Cleanup): (e: Effect<Function>)
    ensures e.result == Err(err)
    ensures cleanup == LeakOnError ==> e.calls == calls
    ensures cleanup == DestroyOnError ==> e.calls == calls + [RfcDestroyFunction(ff)]
  {
    match cleanup
    case LeakOnError => Effect(Err(err), calls)
    case DestroyOnError => Effect(Err(err), calls + [RfcDestroyFunction(ff)])
  }

  /**
   * `RfcConnection::get_function`: look the description up by name, create
   * a container from it, read the parameter count and decode every
   * parameter, stopping at the first failure. The lookup's answer carries
   * the answers to everything issued against the description.
   */
  function GetFunction(conn: Connection, name: string, lookup: PtrReply<FunctionDesc>, cleanup: Cleanup)
    : (e: Effect<Function>)
    requires '\0' !in name
    ensures |e.calls| >= 1 && e.calls[0] == RfcGetFunctionDesc(conn.handle, Encode(name) + [0])
    ensures lookup.target.None? ==> e.result == Err(Reported(lookup.err)) && |e.calls| == 1
    ensures lookup.target.Some? && lookup.target.value.create.target.None? ==>
              e.result == Err(Reported(lookup.target.value.create.err)) && |e.calls| == 2
    ensures lookup.target.Some? && lookup.target.value.create.target.Some? &&
            !IsOk(lookup.target.value.countStatus.rc) ==>
              e.result == Err(Reported(lookup.target.value.countStatus.err))
    ensures e.result.Ok? <==>
              lookup.target.Some? && lookup.target.value.create.target.Some? &&
              IsOk(lookup.target.value.countStatus.rc) &&
              forall k | 0 <= k < |lookup.target.value.params| ::
                ParamOutcome(lookup.target.value.params[k], k, Handle(lookup.target.value.create.target.value)).Ok?
    ensures e.result.Ok? ==>
              var f := e.result.value;
              f.connection == conn && f.fun == Handle(lookup.target.value.create.target.value) &&
              |f.funDesc| == |lookup.target.value.params| &&
              forall k | 0 <= k < |f.funDesc| :: f.funDesc[k].index == k && f.funDesc[k].fun == f.fun
    ensures e.result.Ok? ==>
              forall k | 0 <= k < |e.result.value.funDesc| ::
                ParamOutcome(lookup.target.value.params[k], k, e.result.value.fun) == Ok(e.result.value.funDesc[k])
  {
    var getDesc := RfcGetFunctionDesc(conn.handle, Terminated(name));
    match lookup.target
    case None => Effect(Err(Reported(lookup.err)), [getDesc])
    case Some(fd) =>
      var fdHandle := Handle(fd.addr);
      var create := RfcCreateFunction(fdHandle);
      match fd.create.target
      case None => Effect(Err(Reported(fd.create.err)), [getDesc, create])
      case Some(addr) =>
        var ff := Handle(addr);
        var calls := [getDesc, create, RfcGetParameterCount(fdHandle)];
        if !IsOk(fd.countStatus.rc) then Abandon(Reported(fd.countStatus.err), calls, ff, cleanup)
        else
          var outcomes := Outcomes(fd.params, ff);
          var decoded := DecodeParams(fdHandle, outcomes, 0);
          DecodeParamsSucceeds(fdHandle, outcomes, 0);
          match decoded.result
          case Err(err) => Abandon(err, calls + decoded.calls, ff, cleanup)
          case Ok(funDesc) => Effect(Ok(Function(conn, ff, funDesc)), calls + decoded.calls)
  }

  /** A failure inside the loop reports the first failing pass, whose own
      error is either the fetch's record or the decoding error. */
  lemma GetFunctionFirstError(conn: Connection, name: string, fd: FunctionDesc, err: ErrorRecord, cleanup: Cleanup)
    requires '\0' !in name
    requires fd.create.target.Some? && IsOk(fd.countStatus.rc)
    requires GetFunction(conn, name, PtrReply(Some(fd), err), cleanup).result.Err?
    ensures var ff := Handle(fd.create.target.value);
            exists j: nat :: FirstFailure(Outcomes(fd.params, ff), 0, j) &&
                             GetFunction(conn, name, PtrReply(Some(fd), err), cleanup).result ==
                             Err(ParamOutcome(fd.params[j], j, ff).error)
  {
    var ff := Handle(fd.create.target.value);
    DecodeParamsFirstError(Handle(fd.addr), Outcomes(fd.params, ff), 0);
  }

  /** What `Drop` leaves behind: the calls it issued and the warning it
      printed, if any. It has no error to return. */
  datatype Teardown = Teardown(calls: seq<NativeCall>, warning: Option<string>)

  const CLOSE_WARNING: string := "Warning: Unable to close RFC connection: "
  const DESTROY_WARNING: string := "Warning: Unable to destroy RFC function: "

  /** Release a non-null handle with `call`; a failing `answer` turns into a
      warning carrying the whole message buffer, decoded lossily. */
  function Release(handle: Handle, call: NativeCall, answer: Status, warning: string): (t: Teardown)
    ensures handle == NullHandle ==> t == Teardown([], None)
    ensures handle != NullHandle ==> t.calls == [call]
    ensures t.warning.Some? <==> handle != NullHandle && !IsOk(answer.rc)
    ensures t.warning.Some? ==> t.warning.value == warning + DecodeLossy(answer.err.message)
  {
    if handle == NullHandle then Teardown([], None)
    else if IsOk(answer.rc) then Teardown([call], None)
    else Teardown([call], Some(warning + DecodeLossy(answer.err.message)))
  }

  /** `Drop for RfcConnection`. */
  function DropConnection(c: Connection, answer: Status): (t: Teardown)
    ensures c.handle == NullHandle ==> t.calls == [] && t.warning.None?
    ensures c.handle != NullHandle ==> t.calls == [RfcCloseConnection(c.handle)]
    ensures t.warning.Some? <==> c.handle != NullHandle && !IsOk(answer.rc)
    ensures t.warning.Some? ==> t.warning.value == CLOSE_WARNING + DecodeLossy(answer.err.message)
  {
    Release(c.handle, RfcCloseConnection(c.handle), answer, CLOSE_WARNING)
  }

  /** `Drop for RfcFunction`. */
  function DropFunction(f: Function, answer: Status): (t: Teardown)
    ensures f.fun == NullHandle ==> t.calls == [] && t.warning.None?
    ensures f.fun != NullHandle ==> t.calls == [RfcDestroyFunction(f.fun)]
    ensures t.warning.Some? <==> f.fun != NullHandle && !IsOk(answer.rc)
    ensures t.warning.Some? ==> t.warning.value == DESTROY_WARNING + DecodeLossy(answer.err.message)
  {
    Release(f.fun, RfcDestroyFunction(f.fun), answer, DESTROY_WARNING)
  }

  /** Everything issued for one function from `get_function` until it is
      dropped (or until `get_function` gives up). */
  function Lifetime(conn: Connection, name: string, lookup: PtrReply<FunctionDesc>, cleanup: Cleanup, answer: Status)
    : (calls: seq<NativeCall>)
    requires '\0' !in name
  {
    var got := GetFunction(conn, name, lookup, cleanup);
    match got.result
    case Ok(f) => got.calls + DropFunction(f, answer).calls
    case Err(_) => got.calls
  }

  /** How often `calls` destroys `fun`. */
  function Destroys(calls: seq<NativeCall>, fun: Handle): nat
  {
    multiset(calls)[RfcDestroyFunction(fun)]
  }

  /** The calls `get_function` issues before any cleanup never destroy. */
  lemma NoDestroyBeforeCleanup(getDesc: NativeCall, create: NativeCall, count: NativeCall,
                               fd: Handle, j: nat, fun: Handle)
    requires !getDesc.RfcDestroyFunction? && !create.RfcDestroyFunction? && !count.RfcDestroyFunction?
    ensures Destroys([getDesc, create, count] + FetchCalls(fd, 0, j), fun) == 0
  {
    assert RfcDestroyFunction(fun) !in FetchCalls(fd, 0, j);
  }

  /**
   * With the corrected cleanup, a created function container is destroyed
   * exactly once over its lifetime: by `get_function` itself if it gives up
   * after creating it, by `Drop` otherwise.
   */
  lemma CreatedFunctionDestroyedOnce(conn: Connection, name: string, fd: FunctionDesc, err: ErrorRecord, answer: Status)
    requires '\0' !in name
    requires fd.create.target.Some?
    ensures Destroys(Lifetime(conn, name, PtrReply(Some(fd), err), GET_FUNCTION_CORRECTED, answer),
                     Handle(fd.create.target.value)) == 1
  {
    var ff := Handle(fd.create.target.value);
    var fdHandle := Handle(fd.addr);
    var prefix := [RfcGetFunctionDesc(conn.handle, Terminated(name)), RfcCreateFunction(fdHandle),
                   RfcGetParameterCount(fdHandle)];
    var j := LifetimeShape(conn, name, fd, err, answer);
    NoDestroyBeforeCleanup(prefix[0], prefix[1], prefix[2], fdHandle, j, ff);
    DestroysAppend(prefix + FetchCalls(fdHandle, 0, j), [RfcDestroyFunction(ff)], ff);
  }

  /** With the corrected order, the calls of a function's lifetime are the
      lookup, the creation, the count, `j` descriptor fetches and one
      destroy of the created container. */
  lemma LifetimeShape(conn: Connection, name: string, fd: FunctionDesc, err: ErrorRecord, answer: Status)
    returns (j: nat)
    requires '\0' !in name
    requires fd.create.target.Some?
    ensures Lifetime(conn, name, PtrReply(Some(fd), err), GET_FUNCTION_CORRECTED, answer)
            == [RfcGetFunctionDesc(conn.handle, Terminated(name)), RfcCreateFunction(Handle(fd.addr)),
                RfcGetParameterCount(Handle(fd.addr))]
               + FetchCalls(Handle(fd.addr), 0, j) + [RfcDestroyFunction(Handle(fd.create.target.value))]
  {
    var ff := Handle(fd.create.target.value);
    var fdHandle := Handle(fd.addr);
    var got := GetFunction(conn, name, PtrReply(Some(fd), err), GET_FUNCTION_CORRECTED);
    var life := Lifetime(conn, name, PtrReply(Some(fd), err), GET_FUNCTION_CORRECTED, answer);
    var getDesc := RfcGetFunctionDesc(conn.handle, Terminated(name));
    var create := RfcCreateFunction(fdHandle);
    var count := RfcGetParameterCount(fdHandle);
    var destroy := [RfcDestroyFunction(ff)];
    // `j` is how many descriptors were fetched before the container went
    // away or was handed over.
    if !IsOk(fd.countStatus.rc) {
      j := 0;
      assert got.result.Err? && life == got.calls;
      assert got.calls == [getDesc, create, count] + FetchCalls(fdHandle, 0, j) + destroy;
    } else {
      var outcomes := Outcomes(fd.params, ff);
      var decoded := DecodeParams(fdHandle, outcomes, 0);
      DecodeParamsSucceeds(fdHandle, outcomes, 0);
      if decoded.result.Ok? {
        j := |outcomes|;
        assert got.result.Ok? && got.result.value.fun == ff;
        assert life == got.calls + destroy;
        assert got.calls == [getDesc, create, count] + FetchCalls(fdHandle, 0, j);
      } else {
        DecodeParamsFirstError(fdHandle, outcomes, 0);
        j :| FirstFailure(outcomes, 0, j) && decoded.calls == FetchCalls(fdHandle, 0, j + 1);
        j := j + 1;
        assert got.result.Err? && life == got.calls;
        assert got.calls == [getDesc, create, count] + FetchCalls(fdHandle, 0, j) + destroy;
      }
    }
    assert life == [getDesc, create, count] + FetchCalls(fdHandle, 0, j) + destroy;
  }

  /** Counting destroys distributes over concatenation. */
  lemma DestroysAppend(a: seq<NativeCall>, b: seq<NativeCall>, fun: Handle)
    ensures Destroys(a + b, fun) == Destroys(a, fun) + Destroys(b, fun)
  {
    assert multiset(a + b) == multiset(a) + multiset(b);
  }

  /** As written, a failing parameter count after a successful creation
      returns the error without ever destroying the container. */
  lemma CreatedFunctionLeaked(conn: Connection, name: string, fd: FunctionDesc, err: ErrorRecord, answer: Status)
    requires '\0' !in name
    requires fd.create.target.Some? && !IsOk(fd.countStatus.rc)
    ensures GetFunction(conn, name, PtrReply(Some(fd), err), GET_FUNCTION_AS_WRITTEN).result.Err?
    ensures Destroys(Lifetime(conn, name, PtrReply(Some(fd), err), GET_FUNCTION_AS_WRITTEN, answer),
                     Handle(fd.create.target.value)) == 0
  {
    var ff := Handle(fd.create.target.value);
    var fdHandle := Handle(fd.addr);
    NoDestroyBeforeCleanup(RfcGetFunctionDesc(conn.handle, Terminated(name)), RfcCreateFunction(fdHandle),
                           RfcGetParameterCount(fdHandle), fdHandle, 0, ff);
  }

  /** `RfcFunction::call`: one `RfcInvoke` on the connection and container. */
  function Call(f: Function, answer: Status): (e: Effect<()>)
    ensures e.calls == [RfcInvoke(f.connection.handle, f.fun)]
    ensures e.result.Ok? <==> IsOk(answer.rc)
    ensures e.result.Err? ==> e.result.error == Reported(answer.err)
  {
    Effect(Check(answer, ()), [RfcInvoke(f.connection.handle, f.fun)])
  }

  /** `RfcFunction::get_parameter_by_index`: `Vec::get_mut`. */
  function GetParameterByIndex(f: Function, index: nat): (r: Option<Parameter>)
    ensures r.Some? <==> index < |f.funDesc|
    ensures r.Some? ==> r.value == f.funDesc[index]
  {
    if index < |f.funDesc| then Some(f.funDesc[index]) else None
  }

  /** The position of the first parameter whose name equals `query`
      ignoring ASCII case, searching from `from`. */
  function FindParameter(params: seq<Parameter>, query: string, from: nat): (r: Option<nat>)
    requires from <= |params|
    decreases |params| - from
    ensures r.Some? ==> from <= r.value < |params| && EqIgnoreAsciiCase(params[r.value].name, query)
    ensures r.Some? ==> forall k | from <= k < r.value :: !EqIgnoreAsciiCase(params[k].name, query)
    ensures r.None? <==> forall k | from <= k < |params| :: !EqIgnoreAsciiCase(params[k].name, query)
  {
    if from == |params| then None
    else if EqIgnoreAsciiCase(params[from].name, query) then Some(from)
    else FindParameter(params, query, from + 1)
  }

  /** `RfcFunction::get_parameter`: the first parameter whose name equals
      the query ignoring ASCII case. */
  function GetParameter(f: Function, query: string): (r: Option<Parameter>)
    ensures r.None? <==> forall k | 0 <= k < |f.funDesc| :: !EqIgnoreAsciiCase(f.funDesc[k].name, query)
    ensures r.Some? ==> EqIgnoreAsciiCase(r.value.name, query)
    ensures r.Some? ==> exists j :: 0 <= j < |f.funDesc| && f.funDesc[j] == r.value &&
                                    forall k | 0 <= k < j :: !EqIgnoreAsciiCase(f.funDesc[k].name, query)
  {
    match FindParameter(f.funDesc, query, 0)
    case None => None
    case Some(j) => Some(f.funDesc[j])
  }

  /**
   * `RfcFunction::get_mut_parameter`: the same search, walking the
   * parameters with a loop; the mutable reference it returns is modelled
   * by the position of the parameter it points at.
   */
  method GetMutParameter(f: Function, query: string) returns (r: Option<nat>)
    ensures r.Some? ==> r.value < |f.funDesc| && EqIgnoreAsciiCase(f.funDesc[r.value].name, query)
    ensures r.Some? ==> forall k | 0 <= k < r.value :: !EqIgnoreAsciiCase(f.funDesc[k].name, query)
    ensures r.None? <==> forall k | 0 <= k < |f.funDesc| :: !EqIgnoreAsciiCase(f.funDesc[k].name, query)
    ensures GetParameter(f, query) == if r.Some? then Some(f.funDesc[r.value]) else None
  {
    var i := 0;
    while i < |f.funDesc|
      invariant 0 <= i <= |f.funDesc|
      invariant forall k | 0 <= k < i :: !EqIgnoreAsciiCase(f.funDesc[k].name, query)
    {
      if EqIgnoreAsciiCase(f.funDesc[i].name, query) {
        assert FindParameter(f.funDesc, query, 0) == Some(i);
        return Some(i);
      }
      i := i + 1;
    }
    return None;
  }
}
