/** Graph helpers the operator code leans on: finding the one edge at a
    connector, the descriptor of the data it moves, and the row-major
    contiguity test of a descriptor. */
module GraphUtils {
  import opened Results
  import opened OnnxSchema
  import opened OpErrors

  // ---------------------------------------------------------------------
  // The edge at a connector

  /** The edges occupying connector `name`, in order. */
  function Candidates(es: seq<Edge>, name: Connector, isInput: bool): (r: seq<Edge>)
    ensures forall e :: e in r <==> e in es && ConnOf(e, isInput) == Some(name)
    ensures |r| <= |es|
  {
    if |es| == 0 then []
    else
      var rest := Candidates(es[1..], name, isInput);
      assert forall e :: e in es <==> e == es[0] || e in es[1..];
      if ConnOf(es[0], isInput) == Some(name) then [es[0]] + rest else rest
  }

  /** `in_edge_with_name` (`isInput`) and `out_edge_with_name`: the only
      edge at the connector, or an error carrying how many there are. */
  function EdgeWithName(es: seq<Edge>, name: Connector, isInput: bool): (r: Result<Edge, OpError>)
    ensures r.Ok? <==> |Candidates(es, name, isInput)| == 1
    ensures r.Ok? ==> r.value in es && ConnOf(r.value, isInput) == Some(name)
    ensures r.Err? ==> r.error == EdgeCount(name, |Candidates(es, name, isInput)|)
  {
    var cands := Candidates(es, name, isInput);
    if |cands| != 1 then Err(EdgeCount(name, |cands|))
    else
      assert cands[0] in cands;
      Ok(cands[0])
  }

  /** The lookup succeeds exactly when no other position holds the
      connector, and then returns that position's edge. */
  lemma {:induction false} EdgeWithNameMeans(es: seq<Edge>, name: Connector, isInput: bool, i: nat)
    requires i < |es| && ConnOf(es[i], isInput) == Some(name)
    ensures EdgeWithName(es, name, isInput).Ok? <==>
      forall j :: 0 <= j < |es| && ConnOf(es[j], isInput) == Some(name) ==> j == i
    ensures EdgeWithName(es, name, isInput).Ok? ==> EdgeWithName(es, name, isInput).value == es[i]
  {
    var rest := Candidates(es[1..], name, isInput);
    assert forall j :: 1 <= j < |es| ==> es[1..][j - 1] == es[j];
    if i == 0 {
      if rest != [] {
        assert rest[0] in rest;
        var k :| 0 <= k < |es[1..]| && es[1..][k] == rest[0];
      }
    } else if ConnOf(es[0], isInput) == Some(name) {
      assert es[1..][i - 1] == es[i];
      assert es[i] in rest;
    } else {
      EdgeWithNameMeans(es[1..], name, isInput, i - 1);
      if forall j :: 0 <= j < |es[1..]| && ConnOf(es[1..][j], isInput) == Some(name) ==> j == i - 1 {
        forall j | 0 <= j < |es| && ConnOf(es[j], isInput) == Some(name) ensures j == i {
          assert j != 0;
          assert es[1..][j - 1] == es[j];
        }
      }
    }
  }

  // ---------------------------------------------------------------------
  // Data descriptors

  /** A data descriptor: a scalar, an array with its shape and strides, or
      any other kind (named by its class). */
  datatype Desc = Scalar(dtype: DType) | Array(dtype: DType, shape: seq<nat>, strides: seq<int>) | OtherDesc(kind: string)

  /** The product of a sequence of extents; 1 for the empty sequence. */
  function Prod(s: seq<nat>): nat {
    if |s| == 0 then 1 else s[0] * Prod(s[1..])
  }

  /** The strides of a row-major array of that shape. */
  function RowMajorStrides(shape: seq<nat>): (r: seq<int>)
    ensures |r| == |shape|
  {
    seq(|shape|, i requires 0 <= i < |shape| => Prod(shape[i + 1..]))
  }

  predicate ContiguousLayout(shape: seq<nat>, strides: seq<int>) {
    && |strides| == |shape|
    && forall i :: 0 <= i < |shape| ==> strides[i] == Prod(shape[i + 1..])
  }

  /** `is_desc_contiguous`. */
  function IsDescContiguous(d: Desc): (r: Result<bool, OpError>)
    ensures d.Scalar? ==> r == Ok(true)
    ensures d.Array? ==> r.Ok? && (r.value <==> ContiguousLayout(d.shape, d.strides))
    ensures d.OtherDesc? ==> r == Err(UnsupportedDescriptor(d.kind))
  {
    match d
    case Scalar(_) => Ok(true)
    case Array(_, shape, strides) => Ok(strides == RowMajorStrides(shape))
    case OtherDesc(kind) => Err(UnsupportedDescriptor(kind))
  }

  lemma ProdStep(shape: seq<nat>, i: nat)
    requires i < |shape|
    ensures Prod(shape[i..]) == shape[i] * Prod(shape[i + 1..])
  {
    assert shape[i..][1..] == shape[i + 1..];
  }

  /** Contiguity read from the innermost dimension outwards: the last
      stride is 1 and each stride is the next one times the next extent. */
  lemma ContiguousMeansRecurrence(shape: seq<nat>, strides: seq<int>)
    ensures ContiguousLayout(shape, strides) <==> (
      && |strides| == |shape|
      && (|shape| > 0 ==> strides[|shape| - 1] == 1)
      && (forall i :: 0 <= i < |shape| - 1 ==> strides[i] == shape[i + 1] * strides[i + 1]))
  {
    var n := |shape|;
    if ContiguousLayout(shape, strides) {
      if n > 0 {
        assert shape[n..] == [];
      }
      forall i | 0 <= i < n - 1
        ensures strides[i] == shape[i + 1] * strides[i + 1]
      {
        ProdStep(shape, i + 1);
      }
    }
    if && |strides| == n
       && (n > 0 ==> strides[n - 1] == 1)
       && (forall i :: 0 <= i < n - 1 ==> strides[i] == shape[i + 1] * strides[i + 1])
    {
      RecurrenceFrom(shape, strides, 0);
    }
  }

  lemma {:induction false} RecurrenceFrom(shape: seq<nat>, strides: seq<int>, k: nat)
    requires |strides| == |shape| && k <= |shape|
    requires |shape| > 0 ==> strides[|shape| - 1] == 1
    requires forall i :: 0 <= i < |shape| - 1 ==> strides[i] == shape[i + 1] * strides[i + 1]
    ensures forall i :: k <= i < |shape| ==> strides[i] == Prod(shape[i + 1..])
    decreases |shape| - k
  {
    if k < |shape| {
      RecurrenceFrom(shape, strides, k + 1);
      if k == |shape| - 1 {
        assert shape[k + 1..] == [];
      } else {
        ProdStep(shape, k + 1);
      }
    }
  }

  /** A contiguous array of at least one dimension has innermost stride 1. */
  lemma ContiguousInnermostStride(shape: seq<nat>, strides: seq<int>)
    requires |shape| > 0 && ContiguousLayout(shape, strides)
    ensures strides[|strides| - 1] == 1
  {
    ContiguousMeansRecurrence(shape, strides);
  }

  /** Computes the row-major strides from the innermost dimension outwards. */
  method RowMajorStridesOf(shape: seq<nat>) returns (strides: seq<int>)
    ensures ContiguousLayout(shape, strides)
  {
    var n := |shape|;
    strides := [];
    var acc := 1;
    var k := n;
    while k > 0
      invariant 0 <= k <= n
      invariant |strides| == n - k
      invariant acc == Prod(shape[k..])
      invariant forall i :: 0 <= i < n - k ==> strides[i] == Prod(shape[k + i + 1..])
    {
      k := k - 1;
      assert shape[k..][1..] == shape[k + 1..];
      var prev := strides;
      strides := [acc] + strides;
      assert forall i :: 1 <= i < n - k ==> strides[i] == prev[i - 1];
      acc := shape[k] * acc;
    }
  }

  // ---------------------------------------------------------------------
  // The descriptor at a connector

  /** `in_desc_with_name` / `out_desc_with_name`: the descriptor of the
      container the connector's only edge moves. */
  function DescWithName(arrays: map<string, Desc>, es: seq<Edge>, name: Connector, isInput: bool): (r: Result<Desc, OpError>)
    ensures EdgeWithName(es, name, isInput).Err? ==> r == Err(EdgeWithName(es, name, isInput).error)
    ensures EdgeWithName(es, name, isInput).Ok? ==>
      var e := EdgeWithName(es, name, isInput).value;
      && (e.data in arrays ==> r == Ok(arrays[e.data]))
      && (e.data !in arrays ==> r == Err(NoSuchArray(e.data)))
    ensures r.Ok? ==> exists e :: e in es && ConnOf(e, isInput) == Some(name) && e.data in arrays && r.value == arrays[e.data]
  {
    match EdgeWithName(es, name, isInput)
    case Err(err) => Err(err)
    case Ok(e) => if e.data in arrays then Ok(arrays[e.data]) else Err(NoSuchArray(e.data))
  }

  /** When every container the edges move is known, the descriptor lookup
      fails exactly when the edge lookup does. */
  lemma DescFailsWithEdge(arrays: map<string, Desc>, es: seq<Edge>, name: Connector, isInput: bool)
    requires forall i :: 0 <= i < |es| ==> es[i].data in arrays
    ensures DescWithName(arrays, es, name, isInput).Err? <==> EdgeWithName(es, name, isInput).Err?
  {
    if EdgeWithName(es, name, isInput).Ok? {
      var e := EdgeWithName(es, name, isInput).value;
      var k :| 0 <= k < |es| && es[k] == e;
    }
  }
}
