/** Concrete operators and edge sets, and what `validate` reports for them. */
module Scenarios {
  import opened Results
  import opened Seqs
  import opened Sorting
  import opened OnnxSchema
  import opened OpErrors
  import opened Ordering
  import opened TypeSolving
  import opened Validation
  import opened Messages
  import opened Attributes
  import opened Construction

  /** `Concat`-like: one homogeneous Variadic input, one output, same constraint. */
  function ConcatSchema(): Schema {
    Schema("Concat",
      [Param("inputs", Variadic, "T", true)],
      [Param("concat_result", Single, "T", true)],
      [],
      map["T" := {Float32, Int64}])
  }

  function InEdge(c: Connector, data: string, dtype: DType): Edge {
    Edge(None, Some(c), data, dtype)
  }

  function OutEdge(c: Connector, data: string, dtype: DType): Edge {
    Edge(Some(c), None, data, dtype)
  }

  function GapEdges(): seq<Edge> {
    [InEdge(Suffixed("inputs", 0), "a", Float32), InEdge(Suffixed("inputs", 2), "b", Float32)]
  }

  function TwiceEdges(): seq<Edge> {
    [InEdge(Suffixed("inputs", 2), "a", Float32), InEdge(Suffixed("inputs", 2), "b", Float32)]
  }

  lemma ConcatInputsVariadic()
    ensures IsVariadicName(ConcatSchema().inputs, "inputs")
  {
    assert ConcatSchema().inputs[0] in ConcatSchema().inputs;
  }

  lemma GapVisitOrder()
    ensures VisitOrder(GapEdges(), true) == [Suffixed("inputs", 0), Suffixed("inputs", 2)]
  {
    var es := GapEdges();
    var cs := [Suffixed("inputs", 0), Suffixed("inputs", 2)];
    assert es[1..][1..] == [];
    assert SuffixedInOrder(es, true) == cs;
    assert cs[..1] == [cs[0]] && [cs[0]][..0] == [];
    assert Distinct([cs[0]]) == [cs[0]];
  }

  lemma GapScan()
    ensures ScanVariadic(ConcatSchema().inputs, [Suffixed("inputs", 0), Suffixed("inputs", 2)], {}, true) == Ok({0, 2})
  {
    var params := ConcatSchema().inputs;
    var cs := [Suffixed("inputs", 0), Suffixed("inputs", 2)];
    ConcatInputsVariadic();
    assert cs[1..] == [cs[1]] && [cs[1]][1..] == [];
    assert ScanVariadic(params, [cs[1]], {0}, true) == ScanVariadic(params, [], {0} + {2}, true);
    assert ScanVariadic(params, cs, {}, true) == ScanVariadic(params, [cs[1]], {} + {0}, true);
    assert {0} + {2} == {0, 2} && {} + {0} == {0};
  }

  /** Indices 0 and 2 without 1: two indices seen, index 1 missing. */
  lemma VariadicGapReported()
    ensures CheckVariadic(ConcatSchema(), GapEdges(), true) == Fail(MissingVariadicIndex(true, 2, 1))
  {
    GapVisitOrder();
    GapScan();
    assert |{0, 2}| == 2;
    assert FirstGap({0, 2}, 0, 2) == Some(1);
  }

  lemma TwiceVisitOrder()
    ensures VisitOrder(TwiceEdges(), true) == [Suffixed("inputs", 2)]
  {
    var es := TwiceEdges();
    var cs := [Suffixed("inputs", 2), Suffixed("inputs", 2)];
    assert es[1..][1..] == [];
    assert SuffixedInOrder(es, true) == cs;
    assert cs[..1] == [cs[0]] && [cs[0]][..0] == [];
    assert Distinct([cs[0]]) == [cs[0]];
  }

  lemma TwiceScan()
    ensures ScanVariadic(ConcatSchema().inputs, [Suffixed("inputs", 2)], {}, true) == Ok({2})
  {
    var params := ConcatSchema().inputs;
    ConcatInputsVariadic();
    assert [Suffixed("inputs", 2)][1..] == [];
    assert ScanVariadic(params, [Suffixed("inputs", 2)], {}, true) == ScanVariadic(params, [], {} + {2}, true);
    assert {} + {2} == {2};
  }

  /** Two edges on the same connector `inputs__2` collapse into one
      connector: the error is the missing index 0, not a duplicate index. */
  lemma SameConnectorTwice()
    ensures CheckVariadic(ConcatSchema(), TwiceEdges(), true) == Fail(MissingVariadicIndex(true, 1, 0))
  {
    TwiceVisitOrder();
    TwiceScan();
    assert |{2}| == 1;
  }

  /** An operator whose Variadic input is not homogeneous and shares its
      constraint with the output. */
  function MixedSchema(): Schema {
    Schema("Mixed",
      [Param("xs", Variadic, "T", false)],
      [Param("y", Single, "T", true)],
      [],
      map["T" := {Float32, Int64}])
  }

  function MixedEdges(): seq<(Edge, bool)> {
    [(InEdge(Suffixed("xs", 0), "a", Float32), true),
     (InEdge(Suffixed("xs", 1), "b", Int64), true),
     (OutEdge(Plain("y"), "c", Float32), false)]
  }

  lemma MixedLookups()
    ensures MatchingIndices(MixedSchema().inputs, "xs") == [0]
    ensures MatchingIndices(MixedSchema().outputs, "y") == [0]
  {
    assert MixedSchema().inputs[..0] == [];
    assert MixedSchema().outputs[..0] == [];
  }

  lemma MixedFirstStep()
    ensures CheckEdge(MixedSchema(), MixedEdges()[0].0, true, map[]) == Ok(map["T" := Float32])
  {
    MixedLookups();
  }

  lemma MixedSecondStep()
    ensures CheckEdge(MixedSchema(), MixedEdges()[1].0, true, map["T" := Float32]) == Ok(map["T" := Int64])
  {
    MixedLookups();
    assert map["T" := Float32]["T" := Int64] == map["T" := Int64];
  }

  lemma MixedThirdStep()
    ensures CheckEdge(MixedSchema(), MixedEdges()[2].0, false, map["T" := Int64])
      == Err(TypeConflict(false, "y", Int64, Float32))
  {
    MixedLookups();
  }

  /** A non-homogeneous parameter skips the consistency check but still
      commits its type: the output is checked against the LAST variadic
      edge's type, Int64, not the first one's. */
  lemma NonHomogeneousCommitsLastType()
    ensures Solve(MixedSchema(), MixedEdges(), map[]) == Err(TypeConflict(false, "y", Int64, Float32))
  {
    var t := MixedEdges();
    MixedFirstStep();
    MixedSecondStep();
    MixedThirdStep();
    assert t[1..] == [t[1], t[2]] && t[1..][1..] == [t[2]];
  }

  /** `Add`-like: two inputs and an output under one constraint. */
  function AddSchema(): Schema {
    Schema("Add",
      [Param("A", Single, "T", true), Param("B", Single, "T", true)],
      [Param("C", Single, "T", true)],
      [],
      map["T" := {Float32, Int64}])
  }

  function ConflictEdges(): seq<(Edge, bool)> {
    [(InEdge(Plain("A"), "a", Float32), true),
     (InEdge(Plain("B"), "b", Int64), true),
     (OutEdge(Plain("C"), "c", Float32), false)]
  }

  lemma AddLookupB()
    ensures MatchingIndices(AddSchema().inputs, "B") == [1]
  {
    var ps := AddSchema().inputs;
    assert ps[..1] == [ps[0]] && ps[..1][..0] == [];
    assert MatchingIndices(ps[..1], "B") == [];
  }

  /** The first input commits `T` to its element type. */
  lemma ConflictFirstStep()
    ensures CheckEdge(AddSchema(), ConflictEdges()[0].0, true, map[]) == Ok(map["T" := Float32])
  {
    var s := AddSchema();
    var e := ConflictEdges()[0].0;
    assert ConnOf(e, true) == Some(Plain("A"));
    assert Params(s, true) == s.inputs;
    AddLookups();
    assert UniquelyNamed(s.inputs, "A");
    assert NamedParam(s.inputs, "A") == Param("A", Single, "T", true);
    assert "T" in s.typeConstraints && Float32 in s.typeConstraints["T"];
  }

  /** The second input meets `T` already committed to another type. */
  lemma ConflictSecondStep()
    ensures CheckEdge(AddSchema(), ConflictEdges()[1].0, true, map["T" := Float32])
      == Err(TypeConflict(true, "B", Float32, Int64))
  {
    var s := AddSchema();
    var e := ConflictEdges()[1].0;
    var m := map["T" := Float32];
    assert ConnOf(e, true) == Some(Plain("B"));
    assert Params(s, true) == s.inputs;
    AddLookupB();
    assert UniquelyNamed(s.inputs, "B");
    assert NamedParam(s.inputs, "B") == Param("B", Single, "T", true);
    assert "T" in m && m["T"] == Float32 && e.dtype == Int64;
  }

  /** The second input disagrees with the type the first committed. */
  lemma TypeConflictReported()
    ensures Solve(AddSchema(), ConflictEdges(), map[]) == Err(TypeConflict(true, "B", Float32, Int64))
  {
    var t := ConflictEdges();
    ConflictFirstStep();
    ConflictSecondStep();
    assert t[1..] == [t[1], t[2]];
  }

  function AddNode(): OpNode {
    OpNode("add", AddSchema(), {Plain("A"), Plain("B")}, {Plain("C")}, map[])
  }

  function OnlyA(): seq<Edge> {
    [InEdge(Plain("A"), "a", Float32)]
  }

  function OnlyC(): seq<Edge> {
    [OutEdge(Plain("C"), "c", Float32)]
  }

  lemma AddLookups()
    ensures MatchingIndices(AddSchema().inputs, "A") == [0]
    ensures MatchingIndices(AddSchema().outputs, "C") == [0]
  {
    var s := AddSchema();
    assert s.inputs[..1] == [s.inputs[0]] && s.inputs[..1][..0] == [];
    assert s.outputs[..0] == [];
  }

  lemma OnlyAKeyedAndDeclared()
    ensures Keyed(AddSchema().inputs, OnlyA(), true) && Keyed(AddSchema().outputs, OnlyC(), false)
    ensures ConnectorsDeclared(AddNode(), OnlyA(), OnlyC())
  {
    AddLookups();
  }

  lemma OnlyAPassesA()
    ensures PassedPlainNames(OnlyA(), true) == {"A"}
  {
    assert OnlyA()[0] in OnlyA();
  }

  lemma AddSingleInputs()
    ensures SingleNames(AddSchema().inputs) == {"A", "B"}
  {
    var ps := AddSchema().inputs;
    assert ps[0] in ps && ps[1] in ps;
  }

  /** One Single name missing: the missing list is that name alone. */
  lemma MissingJustOne(params: seq<Param>, passed: set<string>, x: string)
    requires SingleNames(params) - passed == {x}
    ensures MissingNames(params, passed) == [x]
  {
    var r := MissingNames(params, passed);
    assert |r| == 1;
    assert r[0] in r;
    assert r == [r[0]];
  }

  /** Passing only `A` leaves exactly `B` missing. */
  lemma OnlyAMissingNames()
    ensures MissingNames(AddSchema().inputs, {"A"}) == ["B"]
  {
    AddSingleInputs();
    assert SingleNames(AddSchema().inputs) - {"A"} == {"B"};
    MissingJustOne(AddSchema().inputs, {"A"}, "B");
  }

  lemma OnlyAMissesB()
    ensures CheckRequired(AddSchema(), OnlyA(), true)
      == Fail(MissingParameters(true, ["B"], MissingArgumentsMessage("Add", ["B"], "input")))
  {
    var s := AddSchema();
    assert Params(s, true) == s.inputs;
    OnlyAPassesA();
    OnlyAMissingNames();
    assert Direction(true) == "input";
  }

  lemma OnlyANamesFail()
    ensures CheckNames(AddSchema(), OnlyA(), OnlyC())
      == Fail(MissingParameters(true, ["B"], MissingArgumentsMessage("Add", ["B"], "input")))
  {
    OnlyAMissesB();
  }

  lemma OnlyAOrdered()
    ensures IterEdges(AddSchema(), OnlyA(), OnlyC()).Ok?
    ensures ValidateOrdered(AddNode(), OnlyA(), OnlyC(), IterEdges(AddSchema(), OnlyA(), OnlyC()).value, [])
      == Fail(MissingParameters(true, ["B"], MissingArgumentsMessage("Add", ["B"], "input")))
  {
    OnlyAKeyedAndDeclared();
    var t := IterEdges(AddSchema(), OnlyA(), OnlyC()).value;
    DeclaredInCanonicalOrder(AddNode(), OnlyA(), OnlyC(), t);
    assert CheckDeclared(AddNode(), t) == Pass;
    OnlyANamesFail();
  }

  lemma OnlyAUnfolds()
    ensures IterEdges(AddSchema(), OnlyA(), OnlyC()).Ok?
    ensures Validate(AddNode(), OnlyA(), OnlyC())
      == ValidateOrdered(AddNode(), OnlyA(), OnlyC(), IterEdges(AddSchema(), OnlyA(), OnlyC()).value, [])
  {
    OnlyAKeyedAndDeclared();
    assert NoNoneConnectors(OnlyA(), OnlyC());
    ValidateUnfolds(AddNode(), OnlyA(), OnlyC(), IterEdges(AddSchema(), OnlyA(), OnlyC()).value);
  }

  /** Validating `Add` with only its first input connected reports the
      missing second input, with the pluralised message of one name. */
  lemma AddMissingInputReported()
    ensures Validate(AddNode(), OnlyA(), OnlyC())
      == Fail(MissingParameters(true, ["B"], MissingArgumentsMessage("Add", ["B"], "input")))
  {
    OnlyAOrdered();
    OnlyAUnfolds();
  }

  function BothAB(): seq<Edge> {
    [InEdge(Plain("A"), "a", Float32), InEdge(Plain("B"), "b", Float32)]
  }

  function BothABOrdered(): seq<(Edge, bool)> {
    [(BothAB()[0], true), (BothAB()[1], true), (OnlyC()[0], false)]
  }

  lemma AddKeys()
    ensures MatchingIndices(AddSchema().inputs, "A") == [0]
    ensures MatchingIndices(AddSchema().inputs, "B") == [1]
    ensures MatchingIndices(AddSchema().outputs, "C") == [0]
  {
    var s := AddSchema();
    assert s.inputs[..1] == [s.inputs[0]] && s.inputs[..1][..0] == [];
    assert s.outputs[..0] == [];
  }

  lemma BothABSorted()
    ensures SortBy(BothAB(), KeyFn(AddSchema().inputs, true)) == BothAB()
    ensures SortBy(OnlyC(), KeyFn(AddSchema().outputs, false)) == OnlyC()
  {
    AddKeys();
    var key := KeyFn(AddSchema().inputs, true);
    var es := BothAB();
    assert key(es[0]) == 0 && key(es[1]) == 1;
    assert es[1..] == [es[1]] && [es[1]][1..] == [];
    assert SortBy([es[1]], key) == [es[1]];
    assert OnlyC()[1..] == [];
  }

  lemma BothABKeyed()
    ensures Keyed(AddSchema().inputs, BothAB(), true)
    ensures Keyed(AddSchema().outputs, OnlyC(), false)
  {
    AddKeys();
  }

  lemma BothABTagged()
    ensures Tag(BothAB(), true) + Tag(OnlyC(), false) == BothABOrdered()
  {
  }

  lemma BothABIterEdges()
    ensures IterEdges(AddSchema(), BothAB(), OnlyC()) == Ok(BothABOrdered())
  {
    BothABKeyed();
    BothABSorted();
    BothABTagged();
  }

  lemma BothABSolves()
    ensures Solve(AddSchema(), BothABOrdered(), map[]).Ok?
  {
    AddKeys();
    var s := AddSchema();
    var t := BothABOrdered();
    assert CheckEdge(s, t[0].0, true, map[]) == Ok(map["T" := Float32]);
    assert map["T" := Float32]["T" := Float32] == map["T" := Float32];
    assert CheckEdge(s, t[1].0, true, map["T" := Float32]) == Ok(map["T" := Float32]);
    assert CheckEdge(s, t[2].0, false, map["T" := Float32]) == Ok(map["T" := Float32]);
    assert t[1..] == [t[1], t[2]] && t[1..][1..] == [t[2]] && [t[2]][1..] == [];
  }

  lemma BothABRequired()
    ensures CheckRequired(AddSchema(), BothAB(), true) == Pass
    ensures CheckRequired(AddSchema(), OnlyC(), false) == Pass
  {
    var s := AddSchema();
    assert BothAB()[0] in BothAB() && BothAB()[1] in BothAB() && OnlyC()[0] in OnlyC();
    assert SingleNames(s.inputs) <= PassedPlainNames(BothAB(), true);
    assert SingleNames(s.outputs) <= PassedPlainNames(OnlyC(), false);
  }

  lemma BothABKnown()
    ensures CheckKnown(AddSchema(), BothAB(), true) == Pass
    ensures CheckKnown(AddSchema(), OnlyC(), false) == Pass
  {
    BothABKeyed();
    KnownAfterKeys(AddSchema().inputs, BothAB(), true);
    KnownAfterKeys(AddSchema().outputs, OnlyC(), false);
  }

  lemma BothABVariadic()
    ensures CheckVariadic(AddSchema(), BothAB(), true) == Pass
    ensures CheckVariadic(AddSchema(), OnlyC(), false) == Pass
  {
    assert SuffixedSet(BothAB(), true) == {};
    assert SuffixedSet(OnlyC(), false) == {};
  }

  lemma BothABNames()
    ensures CheckNames(AddSchema(), BothAB(), OnlyC()) == Pass
  {
    BothABRequired();
    BothABKnown();
    BothABVariadic();
  }

  lemma BothABDeclared()
    ensures CheckDeclared(AddNode(), BothABOrdered()) == Pass
  {
    var t := BothABOrdered();
    assert t[1..] == [t[1], t[2]] && t[1..][1..] == [t[2]] && [t[2]][1..] == [];
  }

  lemma BothABOrderedPasses()
    ensures IterEdges(AddSchema(), BothAB(), OnlyC()) == Ok(BothABOrdered())
    ensures ValidateOrdered(AddNode(), BothAB(), OnlyC(), BothABOrdered(), []) == Pass
  {
    BothABIterEdges();
    BothABDeclared();
    BothABNames();
    BothABSolves();
  }

  lemma BothABUnfolds()
    ensures IterEdges(AddSchema(), BothAB(), OnlyC()).Ok?
    ensures Validate(AddNode(), BothAB(), OnlyC())
      == ValidateOrdered(AddNode(), BothAB(), OnlyC(), IterEdges(AddSchema(), BothAB(), OnlyC()).value, [])
  {
    BothABKeyed();
    assert NoNoneConnectors(BothAB(), OnlyC());
    ValidateUnfolds(AddNode(), BothAB(), OnlyC(), IterEdges(AddSchema(), BothAB(), OnlyC()).value);
  }

  /** `Add` with both inputs and its output connected, all of one allowed
      type, passes `validate`. */
  lemma AddFullyConnectedPasses()
    ensures Validate(AddNode(), BothAB(), OnlyC()) == Pass
  {
    BothABIterEdges();
    BothABOrderedPasses();
    BothABUnfolds();
  }

  /** A schema generated after `Add`, with a required attribute `Add` lacks. */
  function CastLikeSchema(): Schema {
    Schema("Cast", [Param("input", Single, "T1", true)], [Param("output", Single, "T2", true)],
      [AttrSpec("to", IntAttr, true, None)], map["T1" := {Float32}, "T2" := {Int64}])
  }

  lemma AddWellConnected()
    ensures WellConnectedWith(AddNode(), BothAB(), OnlyC(), [])
  {
    AddFullyConnectedPasses();
  }

  /** The as-written `validate` of a fully connected `Add` node, run after a
      schema with a required attribute `to` was generated last, looks `to` up
      on the node and fails, although the node satisfies its own schema. */
  lemma ValidateReadsLastGeneratedSchema()
    ensures Validate(AddNode(), BothAB(), OnlyC()) == Pass
    ensures ValidateAsWritten(AddNode(), BothAB(), OnlyC(), CastLikeSchema()) == Fail(NoSuchAttribute("to"))
  {
    AddFullyConnectedPasses();
    AddWellConnected();
    AsWrittenDiffersOnlyInAttributes(AddNode(), BothAB(), OnlyC(), CastLikeSchema());
    assert GetAttr(AddNode(), "to") == NotFound;
  }

  lemma AddConnectors()
    ensures SingleConnectors(AddSchema().inputs) == {Plain("A"), Plain("B")}
    ensures SingleConnectors(AddSchema().outputs) == {Plain("C")}
  {
    var s := AddSchema();
    assert s.inputs[0] in s.inputs && s.inputs[1] in s.inputs && s.outputs[0] in s.outputs;
    assert SingleNames(s.inputs) == {"A", "B"};
    assert SingleNames(s.outputs) == {"C"};
  }

  /** With no keyword arguments, `Add`'s own constructor builds the node
      with both inputs and the output declared and no attribute assigned. */
  lemma AddConstructs()
    ensures Construct(AddSchema(), "add", 0, []) == Ok(AddNode())
  {
    AddConnectors();
  }

  lemma CastLikeRequiresTo()
    ensures RequiredNames(CastLikeSchema().attributes) == {"to"}
    ensures AttrNames(AddSchema().attributes) == {}
  {
    var a := CastLikeSchema().attributes;
    assert a[0] in a;
  }

  /** After a schema requiring `to` was generated last, the as-written
      constructor of `Add` demands `to`, and would reject it as unknown if
      given: no `Add` node can be built. */
  lemma ConstructReadsLastGeneratedSchema()
    ensures Construct(AddSchema(), "add", 0, []).Ok?
    ensures ConstructAsWritten(AddSchema(), CastLikeSchema(), "add", 0, []).Err?
    ensures ConstructAsWritten(AddSchema(), CastLikeSchema(), "add", 0, [("to", Some(IntValue(1)))])
      == Err(UnexpectedKeyword("Add", "to"))
  {
    AddConstructs();
    CastLikeRequiresTo();
    AsWrittenUnconstructible(AddSchema(), CastLikeSchema(), "add", 0, [], "to");
    GivenToIsUnknownForAdd();
  }

  lemma GivenToIsUnknownForAdd()
    ensures ConstructAsWritten(AddSchema(), CastLikeSchema(), "add", 0, [("to", Some(IntValue(1)))])
      == Err(UnexpectedKeyword("Add", "to"))
  {
    var kw: Kwargs := [("to", Some(IntValue(1)))];
    CastLikeRequiresTo();
    assert KwargNames(kw) == {"to"} by {
      assert kw[0].0 == "to";
    }
    assert RequiredNames(CastLikeSchema().attributes) <= KwargNames(kw);
    assert !(KwargNames(kw) <= AttrNames(AddSchema().attributes));
  }

  /** Passing None for a required attribute satisfies the constructor, which
      only asks for the keyword, but not `validate`, which asks for a value. */
  lemma NoneForRequiredAttribute()
    ensures Construct(CastLikeSchema(), "cast", 0, [("to", None)]).Ok?
    ensures CheckAttributes(CastLikeSchema().attributes, Construct(CastLikeSchema(), "cast", 0, [("to", None)]).value)
      == Fail(MissingAttribute("to"))
  {
    var kw: Kwargs := [("to", None)];
    CastLikeRequiresTo();
    assert KwargNames(kw) == {"to"} by { assert kw[0].0 == "to"; }
    assert AttrNames(CastLikeSchema().attributes) == {"to"} by {
      assert CastLikeSchema().attributes[0] in CastLikeSchema().attributes;
    }
    KwargMapKeepsValues(kw, 0);
  }
}
