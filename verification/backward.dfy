/** Backward-implementation dispatch: the registry of reverse-mode
    strategies, the scan that picks one for a forward node, and the naming
    contract of the result a strategy returns. */
module Backward {
  import opened Results

  /** A forward node as dispatch sees it: the names of its class and all its
      base classes (what `isinstance` tests), and, for an ONNX operator
      node, its schema's name. */
  datatype ForwardNode = ForwardNode(classes: set<string>, schemaName: Option<string>)

  /** The registration arguments: a node class, an operator name, or both. */
  datatype Selector = Selector(nodeType: Option<string>, op: Option<string>)

  /** A registered strategy; `customPredicate` says whether it overrides the
      default applicability predicate. */
  datatype Registration = Registration(impl: string, selector: Selector, customPredicate: bool)

  /** The overridden applicability predicates, by strategy; graph and state
      arguments are folded into the node. */
  type Applicability = (string, ForwardNode) -> bool

  /** `isinstance(node, ONNXOp)`. */
  predicate IsOnnxOp(node: ForwardNode) {
    "ONNXOp" in node.classes
  }

  /** Exactly the ONNX operator nodes carry a schema. */
  predicate WellFormedNode(node: ForwardNode) {
    IsOnnxOp(node) <==> node.schemaName.Some?
  }

  /** The selector test: a node class the node is an instance of, or an
      operator name equal to an ONNX node's schema name. */
  predicate SelectorMatches(sel: Selector, node: ForwardNode) {
    || (sel.nodeType.Some? && sel.nodeType.value in node.classes)
    || (IsOnnxOp(node) && sel.op.Some? && node.schemaName == Some(sel.op.value))
  }

  /** `backward_can_be_applied` as inherited from the base class. */
  predicate DefaultCanBeApplied(node: ForwardNode) {
    true
  }

  predicate CanApply(reg: Registration, node: ForwardNode, custom: Applicability) {
    if reg.customPredicate then custom(reg.impl, node) else DefaultCanBeApplied(node)
  }

  /** The registration both selects the node and agrees to handle it. */
  predicate Applicable(reg: Registration, node: ForwardNode, custom: Applicability) {
    SelectorMatches(reg.selector, node) && CanApply(reg, node, custom)
  }

  /** `find_backward_implementation`: the first applicable registration in
      registration order; None when there is none. */
  function FindBackward(regs: seq<Registration>, node: ForwardNode, custom: Applicability): (r: Option<Registration>)
    ensures r.None? <==> forall i :: 0 <= i < |regs| ==> !Applicable(regs[i], node, custom)
    ensures r.Some? ==> exists i :: (
      && 0 <= i < |regs| && regs[i] == r.value && Applicable(regs[i], node, custom)
      && (forall j :: 0 <= j < i ==> !Applicable(regs[j], node, custom)))
  {
    if |regs| == 0 then None
    else if Applicable(regs[0], node, custom) then Some(regs[0])
    else
      var r := FindBackward(regs[1..], node, custom);
      assert forall i :: 1 <= i < |regs| ==> regs[1..][i - 1] == regs[i];
      r
  }

  /** Registering more strategies later never changes a node that already
      found one; otherwise the later ones are scanned in their order. */
  lemma {:induction false} FindBackwardAppend(a: seq<Registration>, b: seq<Registration>, node: ForwardNode, custom: Applicability)
    ensures FindBackward(a + b, node, custom)
      == if FindBackward(a, node, custom).Some? then FindBackward(a, node, custom) else FindBackward(b, node, custom)
  {
    if |a| > 0 {
      assert (a + b)[0] == a[0];
      assert (a + b)[1..] == a[1..] + b;
      FindBackwardAppend(a[1..], b, node, custom);
    } else {
      assert a + b == b;
    }
  }

  /** An operator-name selector matches exactly the ONNX nodes whose schema
      has that name. */
  lemma OpSelectorMatchesExactly(op: string, node: ForwardNode)
    ensures SelectorMatches(Selector(None, Some(op)), node) <==> IsOnnxOp(node) && node.schemaName == Some(op)
    ensures WellFormedNode(node) ==> (SelectorMatches(Selector(None, Some(op)), node) <==> node.schemaName == Some(op))
  {
  }

  /** A node-class selector matches exactly the instances of that class,
      ONNX or not. */
  lemma NodeTypeSelectorMatchesInstances(nodeType: string, node: ForwardNode)
    ensures SelectorMatches(Selector(Some(nodeType), None), node) <==> nodeType in node.classes
  {
  }

  /** A strategy that keeps the default predicate applies wherever its
      selector matches. */
  lemma DefaultPredicateNeverRefuses(reg: Registration, node: ForwardNode, custom: Applicability)
    requires !reg.customPredicate
    ensures Applicable(reg, node, custom) <==> SelectorMatches(reg.selector, node)
  {
  }

  /** What a strategy returns besides the backward node: for forward input
      connectors, the backward output connector carrying their gradient;
      for forward output connectors, the backward input connector consuming
      theirs. Either map may leave names out; None stands for Python's None. */
  datatype BackwardResult = BackwardResult(
    requiredGradNames: map<Option<string>, Option<string>>,
    givenGradNames: map<Option<string>, Option<string>>)

  /** `BackwardResult.empty()`. */
  function EmptyResult(): BackwardResult {
    BackwardResult(map[], map[])
  }

  /** The connectors of the backward node a strategy adds. */
  datatype BackwardNode = BackwardNode(inConnectors: set<string>, outConnectors: set<string>)

  /** Every gradient name the result hands out is a connector of the
      backward node on the right side. */
  predicate NamesConnectors(res: BackwardResult, bwd: BackwardNode) {
    && (forall k :: k in res.requiredGradNames && res.requiredGradNames[k].Some? ==>
          res.requiredGradNames[k].value in bwd.outConnectors)
    && (forall k :: k in res.givenGradNames && res.givenGradNames[k].Some? ==>
          res.givenGradNames[k].value in bwd.inConnectors)
  }

  /** The result names a gradient connector for every requested input. */
  predicate ProvidesRequired(res: BackwardResult, required: set<string>) {
    forall n :: n in required ==> Some(n) in res.requiredGradNames && res.requiredGradNames[Some(n)].Some?
  }

  /** The strategy contract: every requested input's gradient leaves the
      backward node on the output connector the result names for it. */
  predicate HonoursContract(res: BackwardResult, bwd: BackwardNode, required: set<string>) {
    ProvidesRequired(res, required) && NamesConnectors(res, bwd)
  }

  /** The empty result names no connector, so it honours the contract
      exactly when no gradient was requested. */
  lemma EmptyResultContract(bwd: BackwardNode, required: set<string>)
    ensures NamesConnectors(EmptyResult(), bwd)
    ensures HonoursContract(EmptyResult(), bwd, required) <==> required == {}
  {
    if required != {} {
      var n :| n in required;
      assert Some(n) !in EmptyResult().requiredGradNames;
    }
  }

  // ---------------------------------------------------------------------
  // Scenarios

  function OnnxNode(name: string): ForwardNode {
    ForwardNode({"ONNXOp", "ONNX" + name}, Some(name))
  }

  function ReluBackward(): Registration {
    Registration("ReluBackward", Selector(None, Some("Relu")), false)
  }

  /** A strategy for any ONNX node that refuses every node, then one for
      `Relu`. */
  function Strategies(): seq<Registration> {
    [Registration("Picky", Selector(Some("ONNXOp"), None), true), ReluBackward()]
  }

  /** Only `Relu` is handled: its node finds the strategy past the refusing
      one, a `Sigmoid` node finds nothing. */
  lemma ReluDispatch()
    ensures FindBackward(Strategies(), OnnxNode("Relu"), (impl, node) => false) == Some(ReluBackward())
    ensures FindBackward(Strategies(), OnnxNode("Sigmoid"), (impl, node) => false).None?
  {
    var regs := Strategies();
    assert regs[1..] == [ReluBackward()] && regs[1..][1..] == [];
  }

  /** A `Relu` strategy asked for the gradient of `X`, given that of `Y`. */
  lemma ReluResultHonoursContract()
    ensures var res := BackwardResult(map[Some("X") := Some("X_gradient")], map[Some("Y") := Some("Y_gradient")]);
      var bwd := BackwardNode({"Y_gradient", "X"}, {"X_gradient"});
      HonoursContract(res, bwd, {"X"}) && !HonoursContract(res, bwd, {"X", "Y"})
  {
    var res := BackwardResult(map[Some("X") := Some("X_gradient")], map[Some("Y") := Some("Y_gradient")]);
    assert Some("Y") !in res.requiredGradNames;
  }
}
