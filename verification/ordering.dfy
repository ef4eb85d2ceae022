/** The canonical order of a node's edges: `iter_edges` (sort by parameter
    position plus variadic index) and `_iter_params_in_onnx_order` (look the
    edges up by their expected ONNX connector names). */
module Ordering {
  import opened Results
  import opened Seqs
  import opened OnnxSchema
  import opened OpErrors
  import opened Sorting

  /** The edge names a connector and exactly one parameter carries its base name. */
  predicate EdgeKeyed(params: seq<Param>, e: Edge, isInput: bool) {
    ConnOf(e, isInput).Some? && UniquelyNamed(params, BaseName(ConnOf(e, isInput).value))
  }

  predicate Keyed(params: seq<Param>, es: seq<Edge>, isInput: bool) {
    forall i :: 0 <= i < |es| ==> EdgeKeyed(params, es[i], isInput)
  }

  /** `get_idx`: the position of the parameter named by the connector's base
      name, plus its variadic index. Where the source raises instead (the
      edge is not keyed) the value is 0; `IterEdges` never sorts such edges. */
  function EdgeKey(params: seq<Param>, e: Edge, isInput: bool): (k: nat)
    ensures EdgeKeyed(params, e, isInput) ==>
      var c := ConnOf(e, isInput).value;
      && k >= OccurrenceIndex(c)
      && k - OccurrenceIndex(c) < |params|
      && params[k - OccurrenceIndex(c)].name == BaseName(c)
  {
    if EdgeKeyed(params, e, isInput) then
      var c := ConnOf(e, isInput).value;
      MatchingIndices(params, BaseName(c))[0] + OccurrenceIndex(c)
    else 0
  }

  /** The sort key of one direction as a function value. */
  function KeyFn(params: seq<Param>, isInput: bool): Edge -> nat {
    e => EdgeKey(params, e, isInput)
  }

  /** The key computation over all edges of one direction, in list order;
      the first edge whose key cannot be computed raises. */
  function CheckKeys(params: seq<Param>, es: seq<Edge>, isInput: bool): (r: Outcome<OpError>)
    ensures r.Pass? <==> Keyed(params, es, isInput)
    ensures r.Fail? ==>
      exists i :: (0 <= i < |es| && !EdgeKeyed(params, es[i], isInput) &&
        (forall j :: 0 <= j < i ==> EdgeKeyed(params, es[j], isInput)) &&
        r.error == KeyError(params, es[i], isInput))
  {
    if |es| == 0 then Pass
    else if !EdgeKeyed(params, es[0], isInput) then Fail(KeyError(params, es[0], isInput))
    else
      var r := CheckKeys(params, es[1..], isInput);
      if r.Fail? then
        ghost var i :| 0 <= i < |es[1..]| && !EdgeKeyed(params, es[1..][i], isInput) &&
          (forall j :: 0 <= j < i ==> EdgeKeyed(params, es[1..][j], isInput)) &&
          r.error == KeyError(params, es[1..][i], isInput);
        assert es[1..][i] == es[i + 1];
        r
      else r
  }

  /** The error `get_idx` raises for an edge it cannot place. */
  function KeyError(params: seq<Param>, e: Edge, isInput: bool): OpError {
    match ConnOf(e, isInput)
    case None => NoneConnector
    case Some(c) => ParamLookup(isInput, BaseName(c), |MatchingIndices(params, BaseName(c))|)
  }

  /** Ascending by key. */
  predicate KeySorted(params: seq<Param>, es: seq<Edge>, isInput: bool) {
    SortedBy(es, KeyFn(params, isInput))
  }

  /** Pairs every edge with the direction flag. */
  function Tag(es: seq<Edge>, isInput: bool): (t: seq<(Edge, bool)>)
    ensures |t| == |es|
    ensures forall i :: 0 <= i < |t| ==> t[i] == (es[i], isInput)
  {
    seq(|es|, i requires 0 <= i < |es| => (es[i], isInput))
  }

  /** The edges of a tagged sequence. */
  function Untag(t: seq<(Edge, bool)>): (es: seq<Edge>)
    ensures |es| == |t|
    ensures forall i :: 0 <= i < |t| ==> es[i] == t[i].0
  {
    seq(|t|, i requires 0 <= i < |t| => t[i].0)
  }

  /** `iter_edges`: the in-edges sorted by key and tagged True, then the
      out-edges sorted by key and tagged False; on each side, edges of equal
      key keep their input order. Keys are computed for all in-edges before
      any out-edge. */
  function IterEdges(s: Schema, ins: seq<Edge>, outs: seq<Edge>): (r: Result<seq<(Edge, bool)>, OpError>)
    ensures r.Ok? <==> Keyed(s.inputs, ins, true) && Keyed(s.outputs, outs, false)
    ensures r.Err? && !Keyed(s.inputs, ins, true) ==> CheckKeys(s.inputs, ins, true) == Fail(r.error)
    ensures r.Err? && Keyed(s.inputs, ins, true) ==> CheckKeys(s.outputs, outs, false) == Fail(r.error)
    ensures r.Ok? ==>
      var n := |ins|;
      && |r.value| == |ins| + |outs|
      && (forall i :: 0 <= i < |r.value| ==> (r.value[i].1 <==> i < n))
      && multiset(Untag(r.value[..n])) == multiset(ins)
      && multiset(Untag(r.value[n..])) == multiset(outs)
      && KeySorted(s.inputs, Untag(r.value[..n]), true)
      && KeySorted(s.outputs, Untag(r.value[n..]), false)
      && KeepsTies(Untag(r.value[..n]), ins, KeyFn(s.inputs, true))
      && KeepsTies(Untag(r.value[n..]), outs, KeyFn(s.outputs, false))
  {
    var ci := CheckKeys(s.inputs, ins, true);
    if ci.Fail? then Err(ci.error)
    else
      var co := CheckKeys(s.outputs, outs, false);
      if co.Fail? then Err(co.error)
      else
        var sortedIn := SortBy(ins, KeyFn(s.inputs, true));
        var sortedOut := SortBy(outs, KeyFn(s.outputs, false));
        var t := Tag(sortedIn, true) + Tag(sortedOut, false);
        assert Untag(t[..|ins|]) == sortedIn;
        assert Untag(t[|ins|..]) == sortedOut;
        Ok(t)
  }

  /** The plain connector names of the given parameters. */
  function PlainNames(params: seq<Param>): (r: seq<Connector>)
    ensures |r| == |params|
    ensures forall i :: 0 <= i < |r| ==> r[i] == Plain(params[i].name)
  {
    seq(|params|, i requires 0 <= i < |params| => Plain(params[i].name))
  }

  /** `name__0, ..., name__(count-1)`. */
  function VariadicRun(name: string, count: nat): (r: seq<Connector>)
    ensures |r| == count
    ensures forall i :: 0 <= i < count ==> r[i] == Suffixed(name, i)
  {
    seq(count, i requires 0 <= i < count => Suffixed(name, i))
  }

  /** The first `count` names of the ONNX connector sequence: the plain
      names of the parameters, except that a Variadic last parameter `v`
      contributes the unbounded run `v__0, v__1, ...` instead of its own name. */
  function ExpectedNames(params: seq<Param>, count: nat): (r: seq<Connector>)
    requires |params| > 0
    ensures var last := |params| - 1;
      && |r| == (if params[last].kind == Variadic || count <= |params| then count else |params|)
      && forall i :: 0 <= i < |r| ==>
           r[i] == (if params[last].kind == Variadic && i >= last
                    then Suffixed(params[last].name, i - last)
                    else Plain(params[i].name))
  {
    var last := |params| - 1;
    var names :=
      if params[last].kind == Variadic
      then PlainNames(params[..last]) + VariadicRun(params[last].name, count)
      else PlainNames(params);
    if count <= |names| then names[..count] else names
  }

  /** The dictionary `{connector: edge}` built from the edges, read at `c`:
      the last edge occupying `c` wins. */
  function ConnToEdge(es: seq<Edge>, c: Connector, isInput: bool): (r: Option<Edge>)
    ensures r.None? <==> forall i :: 0 <= i < |es| ==> ConnOf(es[i], isInput) != Some(c)
    ensures r.Some? ==>
      exists k :: (0 <= k < |es| && es[k] == r.value && ConnOf(es[k], isInput) == Some(c) &&
        forall j :: k < j < |es| ==> ConnOf(es[j], isInput) != Some(c))
  {
    if |es| == 0 then None
    else
      var last := es[|es| - 1];
      if ConnOf(last, isInput) == Some(c) then Some(last)
      else
        var r := ConnToEdge(es[..|es| - 1], c, isInput);
        assert forall i :: 0 <= i < |es| - 1 ==> es[..|es| - 1][i] == es[i];
        r
  }

  /** Looks every name up in the dictionary, in order; the first name
      without an edge raises a KeyError. */
  function LookupAll(names: seq<Connector>, es: seq<Edge>, isInput: bool): (r: Result<seq<Edge>, OpError>)
    ensures r.Ok? <==> forall i :: 0 <= i < |names| ==> ConnToEdge(es, names[i], isInput).Some?
    ensures r.Ok? ==>
      (|r.value| == |names| &&
       forall i :: 0 <= i < |names| ==> Some(r.value[i]) == ConnToEdge(es, names[i], isInput))
    ensures r.Err? ==>
      (r.error.MissingKey? && r.error.conn in names && ConnToEdge(es, r.error.conn, isInput).None?)
  {
    if |names| == 0 then Ok([])
    else
      var first := ConnToEdge(es, names[0], isInput);
      if first.None? then Err(MissingKey(names[0]))
      else
        var rest := LookupAll(names[1..], es, isInput);
        if rest.Err? then rest
        else
          var r := [first.value] + rest.value;
          assert forall i :: 1 <= i < |names| ==> names[1..][i - 1] == names[i];
          Ok(r)
  }

  /** `_iter_params_in_onnx_order`: the edges of one direction looked up by
      the first `|es|` expected ONNX connector names. */
  function ParamsInOnnxOrder(params: seq<Param>, es: seq<Edge>, isInput: bool): (r: Result<seq<Edge>, OpError>)
    ensures |params| == 0 ==> r == Err(EmptyParameterList)
    ensures |params| > 0 ==> var names := ExpectedNames(params, |es|);
      && (r.Ok? <==> forall i :: 0 <= i < |names| ==>
            exists k :: 0 <= k < |es| && ConnOf(es[k], isInput) == Some(names[i]))
      && (r.Ok? ==> |r.value| == |names| && forall i :: 0 <= i < |names| ==>
            && ConnOf(r.value[i], isInput) == Some(names[i])
            && exists k :: (0 <= k < |es| && es[k] == r.value[i] &&
                 forall j :: k < j < |es| ==> ConnOf(es[j], isInput) != Some(names[i])))
      && (r.Err? ==>
            (r.error.MissingKey? && r.error.conn in names &&
             forall k :: 0 <= k < |es| ==> ConnOf(es[k], isInput) != Some(r.error.conn)))
  {
    if |params| == 0 then Err(EmptyParameterList)
    else
      var names := ExpectedNames(params, |es|);
      var r := LookupAll(names, es, isInput);
      if r.Ok? then
        assert forall i :: 0 <= i < |names| ==> ConnToEdge(es, names[i], isInput).Some?;
        r
      else r
  }

  /** Every edge names a connector and no two edges name the same one. */
  predicate ConnectorsDistinct(es: seq<Edge>, isInput: bool) {
    && (forall k :: 0 <= k < |es| ==> ConnOf(es[k], isInput).Some?)
    && (forall k, l :: 0 <= k < l < |es| ==> ConnOf(es[k], isInput) != ConnOf(es[l], isInput))
  }

  /** On a well-formed parameter list, the edge on the `i`-th expected
      connector name has sort key `i`. */
  lemma KeyOfExpectedName(params: seq<Param>, count: nat, e: Edge, isInput: bool, i: nat)
    requires WellFormedParams(params) && |params| > 0
    requires i < |ExpectedNames(params, count)|
    requires ConnOf(e, isInput) == Some(ExpectedNames(params, count)[i])
    ensures EdgeKeyed(params, e, isInput) && EdgeKey(params, e, isInput) == i
  {
    var c := ConnOf(e, isInput).value;
    var last := |params| - 1;
    var p: nat := if params[last].kind == Variadic && i >= last then last else i;
    assert params[p].name == BaseName(c);
    UniquelyNamedMeans(params, BaseName(c), p);
    assert p in MatchingIndices(params, BaseName(c));
  }

  /** The premise of the agreement lemma: distinct connectors, all among
      the expected ONNX names. */
  predicate OccupiesExpectedNames(params: seq<Param>, es: seq<Edge>, isInput: bool)
    requires |params| > 0
  {
    && ConnectorsDistinct(es, isInput)
    && forall k :: 0 <= k < |es| ==> ConnOf(es[k], isInput).value in ExpectedNames(params, |es|)
  }

  lemma KeysLocateNames(params: seq<Param>, es: seq<Edge>, isInput: bool)
    requires WellFormedParams(params) && |params| > 0
    requires OccupiesExpectedNames(params, es, isInput)
    ensures forall k :: 0 <= k < |es| ==>
      && EdgeKeyed(params, es[k], isInput)
      && EdgeKey(params, es[k], isInput) < |ExpectedNames(params, |es|)|
      && ExpectedNames(params, |es|)[EdgeKey(params, es[k], isInput)] == ConnOf(es[k], isInput).value
  {
    var names := ExpectedNames(params, |es|);
    forall k | 0 <= k < |es|
      ensures EdgeKeyed(params, es[k], isInput) && EdgeKey(params, es[k], isInput) < |names|
      ensures names[EdgeKey(params, es[k], isInput)] == ConnOf(es[k], isInput).value
    {
      var i :| 0 <= i < |names| && names[i] == ConnOf(es[k], isInput).value;
      KeyOfExpectedName(params, |es|, es[k], isInput, i);
    }
  }

  /** If every edge's key is the position of its connector in `names`
      (with no more names than edges), sorting puts the edge on `names[i]`
      at position `i`, and there are exactly as many names as edges. */
  lemma {:induction false} SortedEdgesFollowNames(es: seq<Edge>, key: Edge -> nat, names: seq<Connector>, isInput: bool)
    requires ConnectorsDistinct(es, isInput) && |names| <= |es|
    requires forall k :: 0 <= k < |es| ==>
      key(es[k]) < |names| && names[key(es[k])] == ConnOf(es[k], isInput).value
    ensures |names| == |es|
    ensures var r := SortBy(es, key);
      forall i :: 0 <= i < |r| ==> r[i] in es && ConnOf(r[i], isInput) == Some(names[i])
  {
    var r := SortBy(es, key);
    assert NoDup(es);
    PermutationKeepsNoDup(es, r);
    forall i | 0 <= i < |r|
      ensures r[i] in es && key(r[i]) < |names| && names[key(r[i])] == ConnOf(r[i], isInput).value
    {
      assert r[i] in multiset(es);
    }
    SortedKeysDistinct(es, r, key, names, isInput);
    SortedDistinctBelowIsIdentity(r, key);
    if |r| > 0 {
      assert key(r[|r| - 1]) == |r| - 1;
    }
  }

  lemma SortedKeysDistinct(es: seq<Edge>, r: seq<Edge>, key: Edge -> nat, names: seq<Connector>, isInput: bool)
    requires ConnectorsDistinct(es, isInput) && NoDup(r)
    requires forall i :: 0 <= i < |r| ==>
      r[i] in es && key(r[i]) < |names| && names[key(r[i])] == ConnOf(r[i], isInput).value
    ensures DistinctKeys(r, key)
  {
    forall i, j | 0 <= i < j < |r| ensures key(r[i]) != key(r[j]) {
      var ki :| 0 <= ki < |es| && es[ki] == r[i];
      var kj :| 0 <= kj < |es| && es[kj] == r[j];
      assert ki != kj;
      if ki < kj {
        assert ConnOf(es[ki], isInput) != ConnOf(es[kj], isInput);
      } else {
        assert ConnOf(es[kj], isInput) != ConnOf(es[ki], isInput);
      }
    }
  }

  /** The dictionary lookup of a connector that exactly one edge occupies
      returns that edge. */
  lemma LookupFindsOnlyOccupant(es: seq<Edge>, c: Connector, isInput: bool, e: Edge)
    requires ConnectorsDistinct(es, isInput)
    requires e in es && ConnOf(e, isInput) == Some(c)
    ensures ConnToEdge(es, c, isInput) == Some(e)
  {
    var k :| 0 <= k < |es| && es[k] == e;
    var found := ConnToEdge(es, c, isInput);
    var m :| 0 <= m < |es| && es[m] == found.value && ConnOf(es[m], isInput) == Some(c);
  }

  /** Looking up names that are occupied by the edges `r` (one edge per
      connector) returns exactly `r`. */
  lemma LookupAllOccupants(names: seq<Connector>, es: seq<Edge>, r: seq<Edge>, isInput: bool)
    requires ConnectorsDistinct(es, isInput) && |r| == |names|
    requires forall i :: 0 <= i < |r| ==> r[i] in es && ConnOf(r[i], isInput) == Some(names[i])
    ensures LookupAll(names, es, isInput) == Ok(r)
  {
    forall i | 0 <= i < |names|
      ensures ConnToEdge(es, names[i], isInput) == Some(r[i])
    {
      LookupFindsOnlyOccupant(es, names[i], isInput, r[i]);
    }
    var got := LookupAll(names, es, isInput);
    assert got.value == r;
  }

  /** When the edges of one direction occupy distinct connectors that are
      all among the expected ONNX names, the lookup by expected name and the
      sort by key produce the same sequence (and the lookup succeeds). */
  lemma OnnxOrderAgreesWithKeyOrder(params: seq<Param>, es: seq<Edge>, isInput: bool)
    requires WellFormedParams(params) && |params| > 0
    requires OccupiesExpectedNames(params, es, isInput)
    ensures Keyed(params, es, isInput)
    ensures ParamsInOnnxOrder(params, es, isInput) == Ok(SortBy(es, KeyFn(params, isInput)))
  {
    var names := ExpectedNames(params, |es|);
    var key := KeyFn(params, isInput);
    KeysLocateNames(params, es, isInput);
    assert |names| <= |es|;
    SortedEdgesFollowNames(es, key, names, isInput);
    LookupAllOccupants(names, es, SortBy(es, key), isInput);
  }
}
