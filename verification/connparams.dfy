/**
 * `RfcConnParmHelper`: an ordered, append-only list of (name, value) pairs,
 * each kept as NUL-terminated UTF-16, and the view of it that is handed to
 * the native connection call.
 */
module ConnParams {
  import opened Units
  import opened Text
  import opened Error
  import opened WideString
  import opened Native

  /** A stored pair: the terminated name and the terminated value. */
  type Pair = (seq<u16>, seq<u16>)

  datatype ConnParmHelper = ConnParmHelper(parms: seq<Pair>)

  /** `RfcConnParmHelper::new`. */
  function New(): (h: ConnParmHelper)
    ensures |h.parms| == 0
  {
    ConnParmHelper([])
  }

  /** `U16CString::from_str(s).unwrap().into_vec_with_nul()`: the UTF-16
      encoding followed by one zero unit. The `unwrap` panics on an interior
      NUL, hence the precondition. */
  function Terminated(s: string): (u: seq<u16>)
    requires '\0' !in s
    ensures u == Encode(s) + [0]
  {
    FromStrWithNul(s).value
  }

  /** The zero `add` appends is the only one: the units before the first
      zero are exactly the encoding, and they decode back to the text. */
  lemma TerminatedRoundTrip(s: string)
    requires '\0' !in s
    ensures var u := Terminated(s);
            NulPrefix(u) == Some(Encode(s)) && Decode(u[..|u| - 1]) == Some(s)
  {
    var u := Terminated(s);
    EncodeZero(s);
    DecodeEncode(s);
    assert u[..|u| - 1] == Encode(s);
    assert forall j :: 0 <= j < |u| - 1 ==> u[j] == Encode(s)[j];
    assert NulPrefix(u).Some?;
  }

  /** Different texts are stored differently. */
  lemma TerminatedInjective(s: string, t: string)
    requires '\0' !in s && '\0' !in t
    requires Terminated(s) == Terminated(t)
    ensures s == t
  {
    TerminatedRoundTrip(s);
    TerminatedRoundTrip(t);
  }

  /** Reading a stored text back with `from_ptr_with_nul` gives the text. */
  lemma TerminatedReadsBack(s: string)
    requires '\0' !in s
    ensures FromBufWithNul(Terminated(s)) == Ok(s)
  {
    TerminatedRoundTrip(s);
    DecodeEncode(s);
    var r := FromBufWithNul(Terminated(s));
    assert r.Ok?;
    EncodeInjective(r.value, s);
  }

  /** `RfcConnParmHelper::add`: append one pair at the end. */
  function Add(h: ConnParmHelper, k: string, v: string): (h': ConnParmHelper)
    requires '\0' !in k && '\0' !in v
    ensures |h'.parms| == |h.parms| + 1
    ensures h'.parms[..|h.parms|] == h.parms
    ensures h'.parms[|h.parms|] == (Terminated(k), Terminated(v))
  {
    ConnParmHelper(h.parms + [(Terminated(k), Terminated(v))])
  }

  /** `add` does not look at the pairs already there: adding the same name
      twice stores it twice. */
  lemma AddKeepsDuplicates(h: ConnParmHelper, k: string, v1: string, v2: string)
    requires '\0' !in k && '\0' !in v1 && '\0' !in v2
    ensures var h' := Add(Add(h, k, v1), k, v2);
            |h'.parms| == |h.parms| + 2 &&
            h'.parms[|h.parms|].0 == h'.parms[|h.parms| + 1].0 == Terminated(k)
  {
  }

  /** The parameter records `as_vec` passes to its callback: one per stored
      pair, in insertion order, pointing at the stored buffers. */
  function Parameters(h: ConnParmHelper): (pv: seq<ConnectionParameter>)
    ensures |pv| == |h.parms|
    ensures forall i :: 0 <= i < |pv| ==> pv[i].name == h.parms[i].0 && pv[i].value == h.parms[i].1
  {
    seq(|h.parms|, i requires 0 <= i < |h.parms| => ConnectionParameter(h.parms[i].0, h.parms[i].1))
  }

  /** `ps` is one record per stored pair, in insertion order, pointing at
      the stored name and value. */
  predicate RecordsOf(h: ConnParmHelper, ps: seq<ConnectionParameter>)
  {
    && |ps| == |h.parms|
    && forall i :: 0 <= i < |ps| ==> ps[i].name == h.parms[i].0 && ps[i].value == h.parms[i].1
  }

  /** `as_vec`: the callback's result on the records of the stored pairs,
      whichever way that list is described. */
  function AsVec<T>(h: ConnParmHelper, f: seq<ConnectionParameter> -> T): (r: T)
    ensures forall ps :: RecordsOf(h, ps) ==> r == f(ps)
  {
    assert forall ps :: RecordsOf(h, ps) ==> ps == Parameters(h);
    f(Parameters(h))
  }

  /** Appending a pair appends one record to what `as_vec` hands over. */
  lemma ParametersAfterAdd(h: ConnParmHelper, k: string, v: string)
    requires '\0' !in k && '\0' !in v
    ensures Parameters(Add(h, k, v)) == Parameters(h) + [ConnectionParameter(Terminated(k), Terminated(v))]
  {
  }

  /** No entry of the list holds a NUL in its name or value. */
  predicate NulFreeEntries(entries: seq<(string, string)>)
  {
    forall i :: 0 <= i < |entries| ==> '\0' !in entries[i].0 && '\0' !in entries[i].1
  }

  /** The pair `add` stores for one (name, value) entry. */
  function Stored(entry: (string, string)): (p: Pair)
    requires '\0' !in entry.0 && '\0' !in entry.1
  {
    (Terminated(entry.0), Terminated(entry.1))
  }

  /** Adding every entry of a list with `add`, in list order. */
  function AddAll(h: ConnParmHelper, entries: seq<(string, string)>): (h': ConnParmHelper)
    requires NulFreeEntries(entries)
    ensures |h'.parms| == |h.parms| + |entries|
    ensures forall i :: 0 <= i < |h.parms| ==> h'.parms[i] == h.parms[i]
    ensures forall i :: 0 <= i < |entries| ==> h'.parms[|h.parms| + i] == Stored(entries[i])
    decreases |entries|
  {
    if |entries| == 0 then h
    else
      var n := |entries| - 1;
      var front := AddAll(h, entries[..n]);
      var h' := Add(front, entries[n].0, entries[n].1);
      forall i | 0 <= i < |entries|
        ensures h'.parms[|h.parms| + i] == Stored(entries[i])
      {
        if i < n {
          assert entries[..n][i] == entries[i];
          assert h'.parms[|h.parms| + i] == front.parms[|h.parms| + i];
        } else {
          assert h'.parms[|h.parms| + i] == h'.parms[|front.parms|];
        }
      }
      h'
  }
}
