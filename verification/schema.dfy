/** The data model of an ONNX operator as the operator-node code sees it:
    parameters, attributes, type constraints, connectors, edges and the
    operator node itself. */
module OnnxSchema {
  import opened Results

  /** Concrete element types carried by edges; an abstract finite enumeration. */
  datatype DType =
    | Bool | Int8 | Int16 | Int32 | Int64
    | UInt8 | UInt16 | UInt32 | UInt64
    | Float16 | Float32 | Float64 | StringType

  /** How many edges a parameter takes: exactly one, at most one, or a
      numbered group `name__0, name__1, ...`. */
  datatype ParamKind = Single | Optional | Variadic

  /** One formal input or output of an operator. `typeStr` names an entry of
      the schema's type-constraint table; `homogeneous` only matters for a
      Variadic parameter. */
  datatype Param = Param(name: string, kind: ParamKind, typeStr: string, homogeneous: bool)

  /** The declared type of an operator attribute. */
  datatype AttrType =
    | IntAttr | FloatAttr | StringAttr | TensorAttr
    | IntsAttr | FloatsAttr | StringsAttr
    | UnsupportedAttr

  /** A configured attribute value (tensors are referred to by an opaque id). */
  datatype AttrValue =
    | IntValue(i: int) | FloatValue(f: real) | StringValue(s: string) | TensorValue(id: nat)
    | IntsValue(ints: seq<int>) | FloatsValue(floats: seq<real>) | StringsValue(strings: seq<string>)

  datatype AttrSpec = AttrSpec(name: string, ty: AttrType, required: bool, default: Option<AttrValue>)

  /** An operator schema. Attributes keep their declaration order. */
  datatype Schema = Schema(
    name: string,
    inputs: seq<Param>,
    outputs: seq<Param>,
    attributes: seq<AttrSpec>,
    typeConstraints: map<string, set<DType>>)

  /** A connector name: either plain (`X`, no `__` in it) or a variadic
      occurrence `base__index`. */
  datatype Connector = Plain(name: string) | Suffixed(base: string, index: nat)

  /** A memlet edge of the dataflow graph: the connector it leaves from, the
      connector it arrives at (either may be Python's None), the name of the
      data container it moves, and that container's element type. */
  datatype Edge = Edge(srcConn: Option<Connector>, dstConn: Option<Connector>, data: string, dtype: DType)

  /** An ONNX operator node: the schema its class was generated for, its
      declared connectors, and the attribute values assigned on it (a key
      mapped to None was assigned Python's None; an absent key was never
      assigned). */
  datatype OpNode = OpNode(
    nodeName: string,
    schema: Schema,
    inConnectors: set<Connector>,
    outConnectors: set<Connector>,
    attrs: map<string, Option<AttrValue>>)

  /** The parameter list of one direction. */
  function Params(s: Schema, isInput: bool): seq<Param> {
    if isInput then s.inputs else s.outputs
  }

  /** The connector an edge occupies on the node: the destination connector
      of an in-edge, the source connector of an out-edge. */
  function ConnOf(e: Edge, isInput: bool): Option<Connector> {
    if isInput then e.dstConn else e.srcConn
  }

  /** The parameter name a connector refers to (`parse_variadic_param`'s
      first component for a suffixed connector). */
  function BaseName(c: Connector): string {
    match c
    case Plain(n) => n
    case Suffixed(b, _) => b
  }

  /** The variadic occurrence index of a connector; 0 when it has no suffix. */
  function OccurrenceIndex(c: Connector): nat {
    match c
    case Plain(_) => 0
    case Suffixed(_, i) => i
  }

  /** The names of the parameters of kind Single. */
  function SingleNames(params: seq<Param>): set<string> {
    set p | p in params && p.kind == Single :: p.name
  }

  /** The names of all declared parameters. */
  function DeclaredNames(params: seq<Param>): set<string> {
    set p | p in params :: p.name
  }

  /** The positions of the parameters called `name`, in increasing order. */
  function MatchingIndices(params: seq<Param>, name: string): (r: seq<nat>)
    ensures forall k :: 0 <= k < |r| ==> r[k] < |params| && params[r[k]].name == name
    ensures forall i :: 0 <= i < |params| && params[i].name == name ==> i in r
    ensures forall k, l :: 0 <= k < l < |r| ==> r[k] < r[l]
  {
    if |params| == 0 then []
    else
      var rest := MatchingIndices(params[..|params| - 1], name);
      if params[|params| - 1].name == name then rest + [|params| - 1] else rest
  }

  /** Exactly one parameter is called `name`. */
  predicate UniquelyNamed(params: seq<Param>, name: string) {
    |MatchingIndices(params, name)| == 1
  }

  /** `UniquelyNamed` holds exactly when one position carries the name. */
  lemma UniquelyNamedMeans(params: seq<Param>, name: string, i: nat)
    requires i < |params| && params[i].name == name
    ensures UniquelyNamed(params, name) <==>
      forall j :: 0 <= j < |params| && params[j].name == name ==> j == i
  {
    var m := MatchingIndices(params, name);
    assert i in m;
    if UniquelyNamed(params, name) {
      forall j | 0 <= j < |params| && params[j].name == name
        ensures j == i
      {
        assert j in m;
      }
    } else {
      assert |m| != 1;
      assert |m| >= 2;
      assert m[0] < m[1];
      assert params[m[0]].name == name && params[m[1]].name == name;
    }
  }

  /** The unique parameter called `name`. */
  function NamedParam(params: seq<Param>, name: string): (p: Param)
    requires UniquelyNamed(params, name)
    ensures p in params && p.name == name
  {
    params[MatchingIndices(params, name)[0]]
  }

  /** Some parameter of kind Variadic is called `name`. */
  predicate IsVariadicName(params: seq<Param>, name: string) {
    exists p :: p in params && p.kind == Variadic && p.name == name
  }

  /** The layout the catalog guarantees: parameter names are unique and only
      the last parameter may be Variadic. */
  predicate WellFormedParams(params: seq<Param>) {
    && (forall i, j :: 0 <= i < j < |params| ==> params[i].name != params[j].name)
    && (forall i :: 0 <= i < |params| - 1 ==> params[i].kind != Variadic)
  }
}
