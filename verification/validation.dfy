/** `ONNXOp.validate`: the staged contract check of an operator node against
    the edges that touch it. Each stage is a function whose success is
    characterised by a declarative predicate; `Validate` runs them in the
    source's order and succeeds exactly when all the predicates hold. */
module Validation {
  import opened Results
  import opened Seqs
  import opened OnnxSchema
  import opened OpErrors
  import opened Ordering
  import opened Messages
  import opened TypeSolving
  import opened Attributes

  // ---------------------------------------------------------------------
  // Stage 1: no connector is None

  predicate NoNoneConnectors(ins: seq<Edge>, outs: seq<Edge>) {
    && (forall i :: 0 <= i < |ins| ==> ins[i].dstConn.Some?)
    && (forall i :: 0 <= i < |outs| ==> outs[i].srcConn.Some?)
  }

  // ---------------------------------------------------------------------
  // Stage 2: every edge arrives at a connector the node declares

  predicate Declared(node: OpNode, e: Edge, isInput: bool) {
    match ConnOf(e, isInput)
    case None => false
    case Some(c) => c in (if isInput then node.inConnectors else node.outConnectors)
  }

  /** The error raised for an undeclared connector. */
  function DeclarationError(e: Edge, isInput: bool): OpError {
    match ConnOf(e, isInput)
    case None => NoneConnector
    case Some(c) => NonexistentConnector(isInput, c)
  }

  /** The loop over `iter_edges` that checks connector declarations; the
      first undeclared connector in canonical order raises. */
  function CheckDeclared(node: OpNode, t: seq<(Edge, bool)>): (r: Outcome<OpError>)
    ensures r.Pass? <==> forall i :: 0 <= i < |t| ==> Declared(node, t[i].0, t[i].1)
    ensures r.Fail? ==> r.error.NoneConnector? || r.error.NonexistentConnector?
    ensures r.Fail? ==> exists i :: (
      && 0 <= i < |t| && !Declared(node, t[i].0, t[i].1)
      && (forall j :: 0 <= j < i ==> Declared(node, t[j].0, t[j].1))
      && r.error == DeclarationError(t[i].0, t[i].1))
  {
    if |t| == 0 then Pass
    else if !Declared(node, t[0].0, t[0].1) then Fail(DeclarationError(t[0].0, t[0].1))
    else
      var r := CheckDeclared(node, t[1..]);
      assert forall i :: 1 <= i < |t| ==> t[1..][i - 1] == t[i];
      if r.Fail? then
        ghost var i :| (
          && 0 <= i < |t[1..]| && !Declared(node, t[1..][i].0, t[1..][i].1)
          && (forall j :: 0 <= j < i ==> Declared(node, t[1..][j].0, t[1..][j].1))
          && r.error == DeclarationError(t[1..][i].0, t[1..][i].1));
        assert t[1..][i] == t[i + 1];
        assert forall j :: 1 <= j < i + 1 ==> Declared(node, t[j].0, t[j].1);
        assert !Declared(node, t[i + 1].0, t[i + 1].1) && r.error == DeclarationError(t[i + 1].0, t[i + 1].1);
        r
      else r
  }

  // ---------------------------------------------------------------------
  // Stage 3: every Single parameter has an unsuffixed edge

  /** The names of the unsuffixed connectors the edges occupy. */
  function PassedPlainNames(es: seq<Edge>, isInput: bool): set<string> {
    set e | e in es && ConnOf(e, isInput).Some? && ConnOf(e, isInput).value.Plain? :: ConnOf(e, isInput).value.name
  }

  /** The Single parameter names outside `passed`, in declaration order. */
  function UncoveredSingles(params: seq<Param>, passed: set<string>): (r: seq<string>)
    ensures forall i :: 0 <= i < |r| ==> r[i] in SingleNames(params) && r[i] !in passed
    ensures forall n :: n in SingleNames(params) && n !in passed ==> n in r
  {
    if |params| == 0 then []
    else
      var init := UncoveredSingles(params[..|params| - 1], passed);
      var p := params[|params| - 1];
      assert params == params[..|params| - 1] + [p];
      if p.kind == Single && p.name !in passed then init + [p.name] else init
  }

  /** The missing Single names, each once, in declaration order. */
  function MissingNames(params: seq<Param>, passed: set<string>): (r: seq<string>)
    ensures forall n :: n in r <==> n in SingleNames(params) - passed
    ensures NoDup(r)
    ensures |r| == |SingleNames(params) - passed|
  {
    var r := Distinct(UncoveredSingles(params, passed));
    assert (set n | n in r) == SingleNames(params) - passed;
    NoDupCardinality(r);
    r
  }

  function Direction(isInput: bool): string {
    if isInput then "input" else "output"
  }

  /** Fails with the set of Single parameters that no unsuffixed edge
      occupies, reporting all of them in one pluralised message. */
  function CheckRequired(s: Schema, es: seq<Edge>, isInput: bool): (r: Outcome<OpError>)
    ensures r.Pass? <==> SingleNames(Params(s, isInput)) <= PassedPlainNames(es, isInput)
    ensures r.Fail? ==>
      var missing := SingleNames(Params(s, isInput)) - PassedPlainNames(es, isInput);
      && r.error.MissingParameters?
      && r.error.isInput == isInput
      && (forall n :: n in r.error.names <==> n in missing)
      && NoDup(r.error.names)
      && |r.error.names| == |missing| > 0
      && r.error.message == MissingArgumentsMessage(s.name, r.error.names, Direction(isInput))
  {
    var names := MissingNames(Params(s, isInput), PassedPlainNames(es, isInput));
    if |names| == 0 then Pass
    else
      Fail(MissingParameters(isInput, names, MissingArgumentsMessage(s.name, names, Direction(isInput))))
  }

  // ---------------------------------------------------------------------
  // Stage 4: no unsuffixed connector outside the schema

  /** The first unsuffixed connector name, in edge order, not in `known`. */
  function FirstUnknown(es: seq<Edge>, isInput: bool, known: set<string>): (r: Option<string>)
    ensures r.None? <==> PassedPlainNames(es, isInput) <= known
    ensures r.Some? ==> r.value in PassedPlainNames(es, isInput) - known
  {
    if |es| == 0 then None
    else
      var c := ConnOf(es[0], isInput);
      assert es == [es[0]] + es[1..];
      assert PassedPlainNames(es, isInput) ==
        PassedPlainNames([es[0]], isInput) + PassedPlainNames(es[1..], isInput);
      if c.Some? && c.value.Plain? && c.value.name !in known then Some(c.value.name)
      else FirstUnknown(es[1..], isInput, known)
  }

  /** Fails naming an unsuffixed connector the schema does not declare. */
  function CheckKnown(s: Schema, es: seq<Edge>, isInput: bool): (r: Outcome<OpError>)
    ensures r.Pass? <==> PassedPlainNames(es, isInput) <= DeclaredNames(Params(s, isInput))
    ensures r.Fail? ==> (
      && r.error.UnexpectedArgument?
      && r.error.name in PassedPlainNames(es, isInput) - DeclaredNames(Params(s, isInput)))
  {
    match FirstUnknown(es, isInput, DeclaredNames(Params(s, isInput)))
    case None => Pass
    case Some(n) => Fail(UnexpectedArgument(n))
  }

  // ---------------------------------------------------------------------
  // Stage 5: variadic connectors are well indexed

  /** The suffixed connectors the edges occupy (a set: two edges on one
      connector count once). */
  function SuffixedSet(es: seq<Edge>, isInput: bool): set<Connector> {
    set e | e in es && ConnOf(e, isInput).Some? && ConnOf(e, isInput).value.Suffixed? :: ConnOf(e, isInput).value
  }

  /** The indices of a set of connectors. */
  function IndexSet(cs: set<Connector>): set<nat> {
    set c | c in cs :: OccurrenceIndex(c)
  }

  /** The suffixed connectors in edge order, with repetitions. */
  function SuffixedInOrder(es: seq<Edge>, isInput: bool): (r: seq<Connector>)
    ensures forall i :: 0 <= i < |r| ==> r[i].Suffixed?
    ensures forall c :: c in r <==> c in SuffixedSet(es, isInput)
  {
    if |es| == 0 then []
    else
      var rest := SuffixedInOrder(es[1..], isInput);
      assert es == [es[0]] + es[1..];
      assert SuffixedSet(es, isInput) == SuffixedSet([es[0]], isInput) + SuffixedSet(es[1..], isInput);
      var c := ConnOf(es[0], isInput);
      if c.Some? && c.value.Suffixed? then [c.value] + rest else rest
  }

  /** What the scan accepts from `seen` on: every connector names a
      Variadic parameter and carries an index neither seen before nor
      repeated later. */
  predicate ScanAccepts(params: seq<Param>, cs: seq<Connector>, seen: set<nat>)
    requires forall i :: 0 <= i < |cs| ==> cs[i].Suffixed?
  {
    && (forall i :: 0 <= i < |cs| ==> IsVariadicName(params, cs[i].base) && cs[i].index !in seen)
    && (forall i, j :: 0 <= i < j < |cs| ==> cs[i].index != cs[j].index)
  }

  /** The indices the connectors carry. */
  function CarriedIndices(cs: seq<Connector>): set<nat>
    requires forall i :: 0 <= i < |cs| ==> cs[i].Suffixed?
  {
    set i | 0 <= i < |cs| :: cs[i].index
  }

  /** `err` is raised for some connector: it names no Variadic parameter,
      or its index was seen before or occurs earlier in the sequence. */
  predicate ScanBlames(params: seq<Param>, cs: seq<Connector>, seen: set<nat>, isInput: bool, err: OpError)
    requires forall i :: 0 <= i < |cs| ==> cs[i].Suffixed?
  {
    exists i :: (
      && 0 <= i < |cs|
      && (|| (err == UnexpectedVariadic(isInput, cs[i]) && !IsVariadicName(params, cs[i].base))
          || (err == DuplicateVariadicIndex(isInput, cs[i].index) &&
              (cs[i].index in seen || exists j :: 0 <= j < i && cs[j].index == cs[i].index))))
  }

  lemma ScanAcceptsCons(params: seq<Param>, cs: seq<Connector>, seen: set<nat>)
    requires |cs| > 0 && forall i :: 0 <= i < |cs| ==> cs[i].Suffixed?
    ensures ScanAccepts(params, cs, seen) <==>
      && IsVariadicName(params, cs[0].base) && cs[0].index !in seen
      && ScanAccepts(params, cs[1..], seen + {cs[0].index})
  {
    var tail := cs[1..];
    assert forall i :: 1 <= i < |cs| ==> tail[i - 1] == cs[i];
    if IsVariadicName(params, cs[0].base) && cs[0].index !in seen && ScanAccepts(params, tail, seen + {cs[0].index}) {
      forall i, j | 0 <= i < j < |cs| ensures cs[i].index != cs[j].index {
        assert tail[j - 1].index !in seen + {cs[0].index};
        if i > 0 {
          assert tail[i - 1].index != tail[j - 1].index;
        }
      }
    }
  }

  lemma CarriedIndicesCons(cs: seq<Connector>)
    requires |cs| > 0 && forall i :: 0 <= i < |cs| ==> cs[i].Suffixed?
    ensures CarriedIndices(cs) == {cs[0].index} + CarriedIndices(cs[1..])
  {
    var tail := cs[1..];
    assert forall i :: 1 <= i < |cs| ==> tail[i - 1] == cs[i];
    forall x | x in CarriedIndices(cs) ensures x in {cs[0].index} + CarriedIndices(tail) {
      var i :| 0 <= i < |cs| && cs[i].index == x;
      if i > 0 {
        assert tail[i - 1].index == x;
      }
    }
  }

  lemma ScanBlamesCons(params: seq<Param>, cs: seq<Connector>, seen: set<nat>, isInput: bool, err: OpError)
    requires |cs| > 0 && forall i :: 0 <= i < |cs| ==> cs[i].Suffixed?
    requires ScanBlames(params, cs[1..], seen + {cs[0].index}, isInput, err)
    ensures ScanBlames(params, cs, seen, isInput, err)
  {
    var tail := cs[1..];
    var i :| (
      && 0 <= i < |tail|
      && (|| (err == UnexpectedVariadic(isInput, tail[i]) && !IsVariadicName(params, tail[i].base))
          || (err == DuplicateVariadicIndex(isInput, tail[i].index) &&
              (tail[i].index in seen + {cs[0].index} || exists j :: 0 <= j < i && tail[j].index == tail[i].index))));
    assert tail[i] == cs[i + 1];
    if err.DuplicateVariadicIndex? && tail[i].index !in seen {
      if tail[i].index == cs[0].index {
        assert cs[0].index == cs[i + 1].index;
      } else {
        var j :| 0 <= j < i && tail[j].index == tail[i].index;
        assert cs[j + 1].index == cs[i + 1].index;
      }
    }
  }

  /** The loop over the suffixed connectors: each must name a Variadic
      parameter and carry an index not seen before. Returns the indices seen. */
  function ScanVariadic(params: seq<Param>, cs: seq<Connector>, seen: set<nat>, isInput: bool): (r: Result<set<nat>, OpError>)
    requires forall i :: 0 <= i < |cs| ==> cs[i].Suffixed?
    ensures r.Ok? <==> ScanAccepts(params, cs, seen)
    ensures r.Ok? ==> r.value == seen + CarriedIndices(cs)
    ensures r.Err? ==> ScanBlames(params, cs, seen, isInput, r.error)
    decreases |cs|
  {
    if |cs| == 0 then Ok(seen)
    else
      var c := cs[0];
      ScanAcceptsCons(params, cs, seen);
      if !IsVariadicName(params, c.base) then
        assert ScanBlames(params, cs, seen, isInput, UnexpectedVariadic(isInput, c)) by {
          assert cs[0] == c;
        }
        Err(UnexpectedVariadic(isInput, c))
      else if c.index in seen then
        assert ScanBlames(params, cs, seen, isInput, DuplicateVariadicIndex(isInput, c.index)) by {
          assert cs[0] == c;
        }
        Err(DuplicateVariadicIndex(isInput, c.index))
      else
        var r := ScanVariadic(params, cs[1..], seen + {c.index}, isInput);
        if r.Ok? then
          CarriedIndicesCons(cs);
          r
        else
          ScanBlamesCons(params, cs, seen, isInput, r.error);
          r
  }

  /** The first number in `[i, n)` missing from `seen`. */
  function FirstGap(seen: set<nat>, i: nat, n: nat): (r: Option<nat>)
    ensures r.None? <==> forall k :: i <= k < n ==> k in seen
    ensures r.Some? ==> (
      && i <= r.value < n && r.value !in seen
      && forall k :: i <= k < r.value ==> k in seen)
    decreases n - i
  {
    if i >= n then None
    else if i !in seen then Some(i)
    else FirstGap(seen, i + 1, n)
  }

  /** Every suffixed connector names a Variadic parameter and no two
      distinct ones share an index. */
  predicate DistinctlyIndexed(params: seq<Param>, cs: set<Connector>) {
    && (forall c :: c in cs ==> IsVariadicName(params, BaseName(c)))
    && (forall c, d :: c in cs && d in cs && c != d ==> OccurrenceIndex(c) != OccurrenceIndex(d))
  }

  /** The declarative condition of the variadic stage: the suffixed
      connectors are distinctly indexed and, with `n` indices seen, each of
      `0 .. n-1` is among them. */
  predicate VariadicWellIndexed(params: seq<Param>, es: seq<Edge>, isInput: bool) {
    var cs := SuffixedSet(es, isInput);
    var seen := IndexSet(cs);
    DistinctlyIndexed(params, cs) && forall k :: 0 <= k < |seen| ==> k in seen
  }

  /** The suffixed connectors in the order the loop visits them. */
  function VisitOrder(es: seq<Edge>, isInput: bool): (r: seq<Connector>)
    ensures forall i :: 0 <= i < |r| ==> r[i].Suffixed?
    ensures forall c :: c in r <==> c in SuffixedSet(es, isInput)
    ensures NoDup(r)
  {
    Distinct(SuffixedInOrder(es, isInput))
  }

  /** The scan succeeds exactly when the connectors are distinctly indexed,
      and then it has seen their index set. */
  lemma ScanMeansDistinctlyIndexed(params: seq<Param>, cs: seq<Connector>, set_: set<Connector>, isInput: bool)
    requires forall i :: 0 <= i < |cs| ==> cs[i].Suffixed?
    requires forall c :: c in cs <==> c in set_
    requires NoDup(cs)
    ensures var r := ScanVariadic(params, cs, {}, isInput);
      && (r.Ok? <==> DistinctlyIndexed(params, set_))
      && (r.Ok? ==> r.value == IndexSet(set_))
  {
    ScanOkDistinct(params, cs, set_, isInput);
    ScanOkSeesIndexSet(params, cs, set_, isInput);
    ScanErrNotDistinct(params, cs, set_, isInput);
  }

  lemma ScanErrNotDistinct(params: seq<Param>, cs: seq<Connector>, set_: set<Connector>, isInput: bool)
    requires forall i :: 0 <= i < |cs| ==> cs[i].Suffixed?
    requires forall c :: c in cs <==> c in set_
    requires NoDup(cs)
    ensures ScanVariadic(params, cs, {}, isInput).Err? ==> !DistinctlyIndexed(params, set_)
  {
    if ScanVariadic(params, cs, {}, isInput).Err? {
      ScanFailureIsReal(params, cs, isInput);
      ViolationNotDistinct(params, cs, set_);
    }
  }

  /** A connector with a non-variadic base, or two distinct connectors
      sharing an index, breaks `DistinctlyIndexed`. */
  lemma ViolationNotDistinct(params: seq<Param>, cs: seq<Connector>, set_: set<Connector>)
    requires forall c :: c in cs <==> c in set_
    requires (exists i :: 0 <= i < |cs| && !IsVariadicName(params, BaseName(cs[i]))) ||
      (exists i, j :: 0 <= i < j < |cs| && cs[i] != cs[j] && OccurrenceIndex(cs[i]) == OccurrenceIndex(cs[j]))
    ensures !DistinctlyIndexed(params, set_)
  {
    if exists i :: 0 <= i < |cs| && !IsVariadicName(params, BaseName(cs[i])) {
      var i :| 0 <= i < |cs| && !IsVariadicName(params, BaseName(cs[i]));
      assert cs[i] in set_;
    } else {
      var i, j :| 0 <= i < j < |cs| && cs[i] != cs[j] && OccurrenceIndex(cs[i]) == OccurrenceIndex(cs[j]);
      assert cs[i] in set_ && cs[j] in set_;
    }
  }

  lemma ScanOkDistinct(params: seq<Param>, cs: seq<Connector>, set_: set<Connector>, isInput: bool)
    requires forall i :: 0 <= i < |cs| ==> cs[i].Suffixed?
    requires forall c :: c in cs <==> c in set_
    ensures ScanVariadic(params, cs, {}, isInput).Ok? ==> DistinctlyIndexed(params, set_)
  {
    if ScanVariadic(params, cs, {}, isInput).Err? {
      return;
    }
    forall c | c in set_
      ensures IsVariadicName(params, BaseName(c))
    {
      var i :| 0 <= i < |cs| && cs[i] == c;
    }
    forall c, d | c in set_ && d in set_ && c != d
      ensures OccurrenceIndex(c) != OccurrenceIndex(d)
    {
      var i :| 0 <= i < |cs| && cs[i] == c;
      var j :| 0 <= j < |cs| && cs[j] == d;
      if i < j {
        assert cs[i].index != cs[j].index;
      } else {
        assert cs[j].index != cs[i].index;
      }
    }
  }

  lemma ScanOkSeesIndexSet(params: seq<Param>, cs: seq<Connector>, set_: set<Connector>, isInput: bool)
    requires forall i :: 0 <= i < |cs| ==> cs[i].Suffixed?
    requires forall c :: c in cs <==> c in set_
    ensures ScanVariadic(params, cs, {}, isInput).Ok? ==> ScanVariadic(params, cs, {}, isInput).value == IndexSet(set_)
  {
    var r := ScanVariadic(params, cs, {}, isInput);
    if r.Err? {
      return;
    }
    assert r.value == (set i | 0 <= i < |cs| :: cs[i].index);
    forall n | n in r.value
      ensures n in IndexSet(set_)
    {
      var i :| 0 <= i < |cs| && cs[i].index == n;
      assert OccurrenceIndex(cs[i]) == n;
    }
    forall n | n in IndexSet(set_)
      ensures n in r.value
    {
      var c :| c in set_ && OccurrenceIndex(c) == n;
      var i :| 0 <= i < |cs| && cs[i] == c;
    }
  }

  /** The loop `for i in range(len(seen))`: the first index below the
      number of indices seen that is missing. */
  function CheckContiguous(seen: set<nat>, isInput: bool): (r: Outcome<OpError>)
    ensures r.Pass? <==> forall k :: 0 <= k < |seen| ==> k in seen
    ensures r.Fail? ==> (
      && r.error.MissingVariadicIndex? && r.error.isInput == isInput && r.error.count == |seen|
      && r.error.index < |seen| && r.error.index !in seen
      && forall k :: 0 <= k < r.error.index ==> k in seen)
  {
    match FirstGap(seen, 0, |seen|)
    case None => Pass
    case Some(k) => Fail(MissingVariadicIndex(isInput, |seen|, k))
  }

  /** The variadic stage of one direction. */
  function CheckVariadic(s: Schema, es: seq<Edge>, isInput: bool): (r: Outcome<OpError>)
    ensures r.Pass? <==> VariadicWellIndexed(Params(s, isInput), es, isInput)
    ensures r.Fail? ==> (
      || r.error.UnexpectedVariadic?
      || r.error.DuplicateVariadicIndex?
      || (r.error.MissingVariadicIndex? && r == CheckContiguous(IndexSet(SuffixedSet(es, isInput)), isInput)))
  {
    var params := Params(s, isInput);
    var cs := VisitOrder(es, isInput);
    var set_ := SuffixedSet(es, isInput);
    ScanMeansDistinctlyIndexed(params, cs, set_, isInput);
    var r := ScanVariadic(params, cs, {}, isInput);
    if r.Err? then Fail(r.error)
    else CheckContiguous(r.value, isInput)
  }

  /** A failed scan over distinct suffixed connectors witnesses a real
      violation: a non-variadic base or two distinct connectors sharing an index. */
  lemma ScanFailureIsReal(params: seq<Param>, cs: seq<Connector>, isInput: bool)
    requires forall i :: 0 <= i < |cs| ==> cs[i].Suffixed?
    requires NoDup(cs)
    requires ScanVariadic(params, cs, {}, isInput).Err?
    ensures (exists i :: 0 <= i < |cs| && !IsVariadicName(params, BaseName(cs[i]))) ||
      (exists i, j :: 0 <= i < j < |cs| && cs[i] != cs[j] && OccurrenceIndex(cs[i]) == OccurrenceIndex(cs[j]))
  {
    var r := ScanVariadic(params, cs, {}, isInput);
    var i :| 0 <= i < |cs| && (
      || (r.error == UnexpectedVariadic(isInput, cs[i]) && !IsVariadicName(params, cs[i].base))
      || (r.error == DuplicateVariadicIndex(isInput, cs[i].index) &&
          (cs[i].index in {} || exists j :: 0 <= j < i && cs[j].index == cs[i].index)));
    if !IsVariadicName(params, cs[i].base) {
      assert BaseName(cs[i]) == cs[i].base;
    } else {
      var j :| 0 <= j < i && cs[j].index == cs[i].index;
      assert cs[j] != cs[i];
      assert OccurrenceIndex(cs[j]) == OccurrenceIndex(cs[i]);
    }
  }

  // ---------------------------------------------------------------------
  // The whole check

  /** Every in-edge arrives at a declared input connector and every
      out-edge leaves from a declared output connector. */
  predicate ConnectorsDeclared(node: OpNode, ins: seq<Edge>, outs: seq<Edge>) {
    && (forall i :: 0 <= i < |ins| ==> Declared(node, ins[i], true))
    && (forall i :: 0 <= i < |outs| ==> Declared(node, outs[i], false))
  }

  /** The connector-name stages: required Single parameters present, no
      unknown unsuffixed names, variadic connectors well indexed. */
  predicate NamesWellFormed(s: Schema, ins: seq<Edge>, outs: seq<Edge>) {
    && SingleNames(s.inputs) <= PassedPlainNames(ins, true)
    && SingleNames(s.outputs) <= PassedPlainNames(outs, false)
    && PassedPlainNames(ins, true) <= DeclaredNames(s.inputs)
    && PassedPlainNames(outs, false) <= DeclaredNames(s.outputs)
    && VariadicWellIndexed(s.inputs, ins, true)
    && VariadicWellIndexed(s.outputs, outs, false)
  }

  /** The connector-name stages in source order; the first failure raises. */
  function CheckNames(s: Schema, ins: seq<Edge>, outs: seq<Edge>): (r: Outcome<OpError>)
    ensures r.Pass? <==> NamesWellFormed(s, ins, outs)
    ensures r.Fail? ==> (
      || r == CheckRequired(s, ins, true) || r == CheckRequired(s, outs, false)
      || r == CheckKnown(s, ins, true) || r == CheckKnown(s, outs, false)
      || r == CheckVariadic(s, ins, true) || r == CheckVariadic(s, outs, false))
    // The failure is the first failing stage's, in the order
    // missing inputs, missing outputs, unknown inputs, unknown outputs,
    // variadic inputs, variadic outputs.
    ensures !(SingleNames(s.inputs) <= PassedPlainNames(ins, true))
      ==> r == CheckRequired(s, ins, true)
    ensures SingleNames(s.inputs) <= PassedPlainNames(ins, true)
      && !(SingleNames(s.outputs) <= PassedPlainNames(outs, false))
      ==> r == CheckRequired(s, outs, false)
    ensures SingleNames(s.inputs) <= PassedPlainNames(ins, true)
      && SingleNames(s.outputs) <= PassedPlainNames(outs, false)
      && !(PassedPlainNames(ins, true) <= DeclaredNames(s.inputs))
      ==> r == CheckKnown(s, ins, true)
    ensures SingleNames(s.inputs) <= PassedPlainNames(ins, true)
      && SingleNames(s.outputs) <= PassedPlainNames(outs, false)
      && PassedPlainNames(ins, true) <= DeclaredNames(s.inputs)
      && !(PassedPlainNames(outs, false) <= DeclaredNames(s.outputs))
      ==> r == CheckKnown(s, outs, false)
    ensures SingleNames(s.inputs) <= PassedPlainNames(ins, true)
      && SingleNames(s.outputs) <= PassedPlainNames(outs, false)
      && PassedPlainNames(ins, true) <= DeclaredNames(s.inputs)
      && PassedPlainNames(outs, false) <= DeclaredNames(s.outputs)
      && !VariadicWellIndexed(s.inputs, ins, true)
      ==> r == CheckVariadic(s, ins, true)
    ensures SingleNames(s.inputs) <= PassedPlainNames(ins, true)
      && SingleNames(s.outputs) <= PassedPlainNames(outs, false)
      && PassedPlainNames(ins, true) <= DeclaredNames(s.inputs)
      && PassedPlainNames(outs, false) <= DeclaredNames(s.outputs)
      && VariadicWellIndexed(s.inputs, ins, true)
      && !VariadicWellIndexed(s.outputs, outs, false)
      ==> r == CheckVariadic(s, outs, false)
  {
    var missingIn := CheckRequired(s, ins, true);
    var missingOut := CheckRequired(s, outs, false);
    var unknownIn := CheckKnown(s, ins, true);
    var unknownOut := CheckKnown(s, outs, false);
    var variadicIn := CheckVariadic(s, ins, true);
    var variadicOut := CheckVariadic(s, outs, false);
    if missingIn.Fail? then missingIn
    else if missingOut.Fail? then missingOut
    else if unknownIn.Fail? then unknownIn
    else if unknownOut.Fail? then unknownOut
    else if variadicIn.Fail? then variadicIn
    else variadicOut
  }

  /** The declarative meaning of a successful `validate`, with the
      required attributes taken from `reqAttrs`. */
  predicate WellConnectedWith(node: OpNode, ins: seq<Edge>, outs: seq<Edge>, reqAttrs: seq<AttrSpec>) {
    var s := node.schema;
    && NoNoneConnectors(ins, outs)
    && Keyed(s.inputs, ins, true) && Keyed(s.outputs, outs, false)
    && ConnectorsDeclared(node, ins, outs)
    && NamesWellFormed(s, ins, outs)
    && TypesSolve(s, IterEdges(s, ins, outs).value)
    && AttributesPresent(reqAttrs, node)
  }

  /** The stages after the edges have been put in canonical order `t`. */
  function ValidateOrdered(node: OpNode, ins: seq<Edge>, outs: seq<Edge>, t: seq<(Edge, bool)>, reqAttrs: seq<AttrSpec>): (r: Outcome<OpError>)
    requires IterEdges(node.schema, ins, outs) == Ok(t)
    ensures r.Pass? <==> (
      && ConnectorsDeclared(node, ins, outs)
      && NamesWellFormed(node.schema, ins, outs)
      && TypesSolve(node.schema, t)
      && AttributesPresent(reqAttrs, node))
  {
    DeclaredInCanonicalOrder(node, ins, outs, t);
    SolveMeansTypesSolve(node.schema, t);
    var declared := CheckDeclared(node, t);
    if declared.Fail? then declared
    else
      var names := CheckNames(node.schema, ins, outs);
      if names.Fail? then names
      else
        match Solve(node.schema, t, map[])
        case Err(e) => Fail(e)
        case Ok(_) => CheckAttributes(reqAttrs, node)
  }

  /** `validate` with its required-attribute stage reading `reqAttrs`. */
  function ValidateWith(node: OpNode, ins: seq<Edge>, outs: seq<Edge>, reqAttrs: seq<AttrSpec>): (r: Outcome<OpError>)
    ensures r.Pass? <==> WellConnectedWith(node, ins, outs, reqAttrs)
  {
    if !NoNoneConnectors(ins, outs) then Fail(NoneConnector)
    else
      match IterEdges(node.schema, ins, outs)
      case Err(e) => Fail(e)
      case Ok(t) => ValidateOrdered(node, ins, outs, t, reqAttrs)
  }

  /** Checking one direction's edges in sorted order is checking them in
      list order: the sorted half holds the same edges. */
  lemma DeclaredHalf(node: OpNode, es: seq<Edge>, sorted: seq<Edge>, isInput: bool)
    requires multiset(sorted) == multiset(es)
    ensures (forall i :: 0 <= i < |sorted| ==> Declared(node, sorted[i], isInput)) <==>
      (forall i :: 0 <= i < |es| ==> Declared(node, es[i], isInput))
  {
    SameElements(sorted, es);
    if forall i :: 0 <= i < |sorted| ==> Declared(node, sorted[i], isInput) {
      forall i | 0 <= i < |es|
        ensures Declared(node, es[i], isInput)
      {
        assert es[i] in sorted;
      }
    }
    if forall i :: 0 <= i < |es| ==> Declared(node, es[i], isInput) {
      forall i | 0 <= i < |sorted|
        ensures Declared(node, sorted[i], isInput)
      {
        assert sorted[i] in es;
      }
    }
  }

  /** Checking declarations in canonical order is checking them per edge list. */
  lemma DeclaredInCanonicalOrder(node: OpNode, ins: seq<Edge>, outs: seq<Edge>, t: seq<(Edge, bool)>)
    requires IterEdges(node.schema, ins, outs) == Ok(t)
    ensures (forall i :: 0 <= i < |t| ==> Declared(node, t[i].0, t[i].1)) <==> ConnectorsDeclared(node, ins, outs)
  {
    DeclaredTagged(node, ins, outs, t);
  }

  /** The same for any tagged sequence holding the in-edges (tagged True)
      followed by the out-edges (tagged False), each half in any order. */
  lemma DeclaredTagged(node: OpNode, ins: seq<Edge>, outs: seq<Edge>, t: seq<(Edge, bool)>)
    requires |t| == |ins| + |outs|
    requires forall i :: 0 <= i < |t| ==> (t[i].1 <==> i < |ins|)
    requires multiset(Untag(t[..|ins|])) == multiset(ins)
    requires multiset(Untag(t[|ins|..])) == multiset(outs)
    ensures (forall i :: 0 <= i < |t| ==> Declared(node, t[i].0, t[i].1)) <==> ConnectorsDeclared(node, ins, outs)
  {
    var n := |ins|;
    var a := Untag(t[..n]);
    var b := Untag(t[n..]);
    DeclaredHalf(node, ins, a, true);
    DeclaredHalf(node, outs, b, false);
    if forall i :: 0 <= i < |t| ==> Declared(node, t[i].0, t[i].1) {
      forall i | 0 <= i < |a|
        ensures Declared(node, a[i], true)
      {
        assert a[i] == t[i].0 && t[i].1;
      }
      forall i | 0 <= i < |b|
        ensures Declared(node, b[i], false)
      {
        assert b[i] == t[n + i].0 && !t[n + i].1;
      }
    }
    if ConnectorsDeclared(node, ins, outs) {
      forall i | 0 <= i < |t|
        ensures Declared(node, t[i].0, t[i].1)
      {
        if i < n {
          assert a[i] == t[i].0 && t[i].1;
        } else {
          assert b[i - n] == t[i].0 && !t[i].1;
        }
      }
    }
  }

  lemma SameElements(a: seq<Edge>, b: seq<Edge>)
    requires multiset(a) == multiset(b)
    ensures forall x :: x in a <==> x in b
  {
    forall x
      ensures x in a <==> x in b
    {
      assert x in a <==> x in multiset(a);
      assert x in b <==> x in multiset(b);
    }
  }

  /** The corrected `validate`: the required attributes are those of the
      schema the node's class was generated for (see `ValidateAsWritten`). */
  function Validate(node: OpNode, ins: seq<Edge>, outs: seq<Edge>): (r: Outcome<OpError>)
    ensures r.Pass? <==> WellConnectedWith(node, ins, outs, node.schema.attributes)
  {
    ValidateWith(node, ins, outs, node.schema.attributes)
  }

  /** With connectors present and keys computable, `validate` is the
      ordered stages over the canonical order. */
  lemma ValidateUnfolds(node: OpNode, ins: seq<Edge>, outs: seq<Edge>, t: seq<(Edge, bool)>)
    requires NoNoneConnectors(ins, outs) && IterEdges(node.schema, ins, outs) == Ok(t)
    ensures Validate(node, ins, outs) == ValidateOrdered(node, ins, outs, t, node.schema.attributes)
  {
  }

  /** `validate` as written: the required-attribute stage reads the module
      variable left over from the class-generation loop, which holds the
      schema generated last, whatever the node's own schema is. */
  function ValidateAsWritten(node: OpNode, ins: seq<Edge>, outs: seq<Edge>, lastGenerated: Schema): (r: Outcome<OpError>)
    ensures r.Pass? <==> WellConnectedWith(node, ins, outs, lastGenerated.attributes)
  {
    ValidateWith(node, ins, outs, lastGenerated.attributes)
  }

  /** Once the edges pass every structural stage, `validate` is decided by
      its required-attribute stage alone, whichever attribute list that
      stage reads. */
  lemma AttributeStageDecides(node: OpNode, ins: seq<Edge>, outs: seq<Edge>, reqAttrs: seq<AttrSpec>)
    requires WellConnectedWith(node, ins, outs, [])
    ensures ValidateWith(node, ins, outs, reqAttrs) == CheckAttributes(reqAttrs, node)
  {
    var t := IterEdges(node.schema, ins, outs).value;
    DeclaredInCanonicalOrder(node, ins, outs, t);
    SolveMeansTypesSolve(node.schema, t);
    assert CheckDeclared(node, t) == Pass;
    assert CheckNames(node.schema, ins, outs) == Pass;
  }

  /** The as-written `validate` and the corrected one differ only in the
      attribute list their last stage checks: the node's own schema's, or
      the schema generated last. */
  lemma AsWrittenDiffersOnlyInAttributes(node: OpNode, ins: seq<Edge>, outs: seq<Edge>, lastGenerated: Schema)
    requires WellConnectedWith(node, ins, outs, [])
    ensures Validate(node, ins, outs) == CheckAttributes(node.schema.attributes, node)
    ensures ValidateAsWritten(node, ins, outs, lastGenerated) == CheckAttributes(lastGenerated.attributes, node)
  {
    AttributeStageDecides(node, ins, outs, node.schema.attributes);
    AttributeStageDecides(node, ins, outs, lastGenerated.attributes);
  }

  // ---------------------------------------------------------------------
  // Checks that can never fire

  /** Once every edge is keyed, every unsuffixed connector names a declared
      parameter: the unknown-argument stage always passes. */
  lemma KnownAfterKeys(params: seq<Param>, es: seq<Edge>, isInput: bool)
    requires Keyed(params, es, isInput)
    ensures PassedPlainNames(es, isInput) <= DeclaredNames(params)
  {
    forall n | n in PassedPlainNames(es, isInput)
      ensures n in DeclaredNames(params)
    {
      var e :| e in es && ConnOf(e, isInput).Some? && ConnOf(e, isInput).value.Plain? && ConnOf(e, isInput).value.name == n;
      var i :| 0 <= i < |es| && es[i] == e;
      assert EdgeKeyed(params, es[i], isInput);
      var p := NamedParam(params, n);
    }
  }

  /** Every edge of the canonical order comes from the edge list of its tag. */
  lemma CanonicalEdgesFromLists(s: Schema, ins: seq<Edge>, outs: seq<Edge>, t: seq<(Edge, bool)>)
    requires IterEdges(s, ins, outs) == Ok(t)
    ensures forall k :: 0 <= k < |t| ==> t[k].0 in (if t[k].1 then ins else outs)
  {
    TaggedFromLists(ins, outs, t);
  }

  /** Every edge of a sequence holding the in-edges (tagged True) followed
      by the out-edges (tagged False) comes from the list its tag names. */
  lemma TaggedFromLists(ins: seq<Edge>, outs: seq<Edge>, t: seq<(Edge, bool)>)
    requires |t| == |ins| + |outs|
    requires forall i :: 0 <= i < |t| ==> (t[i].1 <==> i < |ins|)
    requires multiset(Untag(t[..|ins|])) == multiset(ins)
    requires multiset(Untag(t[|ins|..])) == multiset(outs)
    ensures forall k :: 0 <= k < |t| ==> t[k].0 in (if t[k].1 then ins else outs)
  {
    var n := |ins|;
    var a := Untag(t[..n]);
    var b := Untag(t[n..]);
    SameElements(a, ins);
    SameElements(b, outs);
    forall k | 0 <= k < |t|
      ensures t[k].0 in (if t[k].1 then ins else outs)
    {
      if k < n {
        assert a[k] == t[k].0 && a[k] in a;
      } else {
        assert b[k - n] == t[k].0 && b[k - n] in b;
      }
    }
  }


  lemma KeyedMember(params: seq<Param>, es: seq<Edge>, e: Edge, isInput: bool)
    requires Keyed(params, es, isInput) && e in es
    ensures EdgeKeyed(params, e, isInput)
  {
    var i :| 0 <= i < |es| && es[i] == e;
  }

  /** Every edge of the canonical order resolves to a parameter. */
  lemma CanonicalEdgesResolve(s: Schema, ins: seq<Edge>, outs: seq<Edge>, t: seq<(Edge, bool)>)
    requires IterEdges(s, ins, outs) == Ok(t)
    ensures AllResolve(s, t)
  {
    CanonicalEdgesFromLists(s, ins, outs, t);
    forall k | 0 <= k < |t|
      ensures Resolves(s, t[k].0, t[k].1)
    {
      if t[k].1 {
        KeyedMember(s.inputs, ins, t[k].0, true);
      } else {
        KeyedMember(s.outputs, outs, t[k].0, false);
      }
    }
  }

  /** After the variadic stage, a resolved suffixed connector belongs to a
      Variadic parameter. */
  lemma SuffixedEdgesAreVariadic(s: Schema, e: Edge, isInput: bool, es: seq<Edge>)
    requires e in es && Resolves(s, e, isInput) && ConnOf(e, isInput).value.Suffixed?
    requires VariadicWellIndexed(Params(s, isInput), es, isInput)
    ensures ParamOf(s, e, isInput).kind == Variadic
  {
    var params := Params(s, isInput);
    var c := ConnOf(e, isInput).value;
    assert c in SuffixedSet(es, isInput);
    assert IsVariadicName(params, BaseName(c));
    var p :| p in params && p.kind == Variadic && p.name == BaseName(c);
    var i :| 0 <= i < |params| && params[i] == p;
    var m := MatchingIndices(params, BaseName(c));
    assert i in m;
    assert m[0] == i;
  }

  /** The outcome reports none of the errors whose checks are unreachable. */
  predicate Dead(r: Outcome<OpError>) {
    r.Fail? ==> !r.error.UnexpectedArgument? && !r.error.ParamMatch? && !r.error.VariadicForNonVariadic?
  }

  /** Type solving after the earlier stages never reports a parameter-count
      mismatch or a suffixed connector on a non-variadic parameter. */
  lemma SolveDeadChecks(s: Schema, ins: seq<Edge>, outs: seq<Edge>, t: seq<(Edge, bool)>)
    requires IterEdges(s, ins, outs) == Ok(t)
    requires NamesWellFormed(s, ins, outs)
    ensures var r := Solve(s, t, map[]);
      r.Err? ==> !r.error.ParamMatch? && !r.error.VariadicForNonVariadic? && !r.error.UnexpectedArgument?
  {
    var r := Solve(s, t, map[]);
    if r.Err? {
      CanonicalEdgesResolve(s, ins, outs, t);
      CanonicalEdgesFromLists(s, ins, outs, t);
      var k :| 0 <= k < |t| && Blames(s, t[k].0, t[k].1, r.error);
      if r.error.VariadicForNonVariadic? {
        SuffixedEdgesAreVariadic(s, t[k].0, t[k].1, if t[k].1 then ins else outs);
      }
    }
  }

  /** The missing-parameter and variadic stages report only their own errors. */
  lemma RequiredAndVariadicDead(s: Schema, es: seq<Edge>, isInput: bool)
    ensures Dead(CheckRequired(s, es, isInput)) && Dead(CheckVariadic(s, es, isInput))
  {
  }

  /** The connector-name stages after keying never report an unknown name. */
  lemma NamesDeadChecks(s: Schema, ins: seq<Edge>, outs: seq<Edge>)
    requires Keyed(s.inputs, ins, true) && Keyed(s.outputs, outs, false)
    ensures Dead(CheckNames(s, ins, outs))
  {
    KnownAfterKeys(s.inputs, ins, true);
    KnownAfterKeys(s.outputs, outs, false);
    assert CheckKnown(s, ins, true).Pass? && CheckKnown(s, outs, false).Pass?;
    RequiredAndVariadicDead(s, ins, true);
    RequiredAndVariadicDead(s, outs, false);
  }

  /** The ordered stages report the first failing stage's outcome. */
  lemma OrderedStages(node: OpNode, ins: seq<Edge>, outs: seq<Edge>, t: seq<(Edge, bool)>, reqAttrs: seq<AttrSpec>)
    requires IterEdges(node.schema, ins, outs) == Ok(t)
    ensures var r := ValidateOrdered(node, ins, outs, t, reqAttrs);
      || (r.Fail? && r == CheckDeclared(node, t))
      || (CheckDeclared(node, t).Pass? && r.Fail? && r == CheckNames(node.schema, ins, outs))
      || (CheckDeclared(node, t).Pass? && CheckNames(node.schema, ins, outs).Pass?
          && Solve(node.schema, t, map[]).Err? && r == Fail(Solve(node.schema, t, map[]).error))
      || r == CheckAttributes(reqAttrs, node)
  {
  }

  lemma OrderedDeadChecks(node: OpNode, ins: seq<Edge>, outs: seq<Edge>, t: seq<(Edge, bool)>, reqAttrs: seq<AttrSpec>)
    requires IterEdges(node.schema, ins, outs) == Ok(t)
    ensures Dead(ValidateOrdered(node, ins, outs, t, reqAttrs))
  {
    OrderedStages(node, ins, outs, t, reqAttrs);
    var declared := CheckDeclared(node, t);
    var names := CheckNames(node.schema, ins, outs);
    var solved := Solve(node.schema, t, map[]);
    var attrs := CheckAttributes(reqAttrs, node);
    assert Dead(declared);
    assert Dead(attrs);
    if declared.Pass? {
      NamesDeadChecks(node.schema, ins, outs);
      if names.Pass? {
        SolveDeadChecks(node.schema, ins, outs, t);
        assert solved.Err? ==> Dead(Fail(solved.error));
      }
    }
  }

  /** The unknown-argument stage, the parameter-count check and the
      suffixed-on-non-variadic check of type solving are unreachable:
      `validate` never raises those errors. */
  lemma DeadChecksNeverFire(node: OpNode, ins: seq<Edge>, outs: seq<Edge>, reqAttrs: seq<AttrSpec>)
    ensures var r := ValidateWith(node, ins, outs, reqAttrs);
      r.Fail? ==> !r.error.UnexpectedArgument? && !r.error.ParamMatch? && !r.error.VariadicForNonVariadic?
  {
    var s := node.schema;
    if NoNoneConnectors(ins, outs) {
      match IterEdges(s, ins, outs)
      case Err(e) =>
        if Keyed(s.inputs, ins, true) {
          assert CheckKeys(s.outputs, outs, false) == Fail(e);
        } else {
          assert CheckKeys(s.inputs, ins, true) == Fail(e);
        }
      case Ok(t) =>
        OrderedDeadChecks(node, ins, outs, t, reqAttrs);
    }
  }
}
