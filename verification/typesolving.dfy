/** The type-solving stage of `ONNXOp.validate`: every edge, in canonical
    order, is matched to its parameter, and the parameter's type constraint
    is committed to the edge's element type. A later edge on a checked
    parameter must agree with what is committed at that moment. */
module TypeSolving {
  import opened Results
  import opened OnnxSchema
  import opened OpErrors
  import opened Ordering

  /** The edge has a connector whose base name exactly one parameter carries. */
  predicate Resolves(s: Schema, e: Edge, isInput: bool) {
    EdgeKeyed(Params(s, isInput), e, isInput)
  }

  function ParamOf(s: Schema, e: Edge, isInput: bool): (p: Param)
    requires Resolves(s, e, isInput)
    ensures p in Params(s, isInput) && p.name == BaseName(ConnOf(e, isInput).value)
  {
    NamedParam(Params(s, isInput), BaseName(ConnOf(e, isInput).value))
  }

  /** Parameters whose edges must agree on a type: all but the
      non-homogeneous Variadic ones. */
  predicate Checked(p: Param) {
    !(p.kind == Variadic && !p.homogeneous)
  }

  /** The edge's connector form matches its parameter: suffixed exactly for
      a Variadic parameter. */
  predicate FormAgrees(s: Schema, e: Edge, isInput: bool)
    requires Resolves(s, e, isInput)
  {
    ConnOf(e, isInput).value.Suffixed? <==> ParamOf(s, e, isInput).kind == Variadic
  }

  /** A checked parameter's constraint, if already committed, holds the edge's type. */
  predicate Agrees(s: Schema, e: Edge, isInput: bool, m: map<string, DType>)
    requires Resolves(s, e, isInput)
  {
    var p := ParamOf(s, e, isInput);
    Checked(p) && p.typeStr in m ==> m[p.typeStr] == e.dtype
  }

  /** The constraint exists and admits the edge's type. */
  predicate Allowed(s: Schema, e: Edge, isInput: bool)
    requires Resolves(s, e, isInput)
  {
    var p := ParamOf(s, e, isInput);
    p.typeStr in s.typeConstraints && e.dtype in s.typeConstraints[p.typeStr]
  }

  predicate Accepted(s: Schema, e: Edge, isInput: bool, m: map<string, DType>) {
    Resolves(s, e, isInput) && FormAgrees(s, e, isInput) && Agrees(s, e, isInput, m) && Allowed(s, e, isInput)
  }

  /** One iteration of the solving loop, with the committed assignment `m`. */
  function CheckEdge(s: Schema, e: Edge, isInput: bool, m: map<string, DType>): (r: Result<map<string, DType>, OpError>)
    ensures r.Ok? <==> Accepted(s, e, isInput, m)
    ensures r.Ok? ==> r.value == m[ParamOf(s, e, isInput).typeStr := e.dtype]
    ensures r.Err? && Resolves(s, e, isInput) && FormAgrees(s, e, isInput) && !Agrees(s, e, isInput, m) ==>
      r.error == TypeConflict(isInput, ParamOf(s, e, isInput).name, m[ParamOf(s, e, isInput).typeStr], e.dtype)
    ensures r.Err? ==> Blames(s, e, isInput, r.error)
  {
    match ConnOf(e, isInput)
    case None => Err(NoneConnector)
    case Some(c) =>
      var params := Params(s, isInput);
      var name := BaseName(c);
      if !UniquelyNamed(params, name) then Err(ParamMatch(isInput, name, |MatchingIndices(params, name)|))
      else
        var p := NamedParam(params, name);
        if c.Suffixed? && p.kind != Variadic then Err(VariadicForNonVariadic(c, p.name))
        else if c.Plain? && p.kind == Variadic then Err(PlainForVariadic(c, p.name))
        else if Checked(p) && p.typeStr in m && m[p.typeStr] != e.dtype then
          Err(TypeConflict(isInput, p.name, m[p.typeStr], e.dtype))
        else if p.typeStr !in s.typeConstraints then Err(UnknownTypeConstraint(p.typeStr))
        else if e.dtype !in s.typeConstraints[p.typeStr] then
          Err(TypeNotAllowed(isInput, p.name, s.typeConstraints[p.typeStr], e.dtype))
        else Ok(m[p.typeStr := e.dtype])
  }

  /** What an error of the solving loop says about the edge it was raised
      for: a lookup failure means the edge does not resolve, a suffixed
      connector was rejected only on a non-variadic parameter, None only for
      a missing connector, and the loop never reports an unknown name. */
  predicate Blames(s: Schema, e: Edge, isInput: bool, err: OpError) {
    && !err.UnexpectedArgument?
    && (err.NoneConnector? ==> ConnOf(e, isInput).None?)
    && (err.ParamMatch? ==> !Resolves(s, e, isInput))
    && (err.VariadicForNonVariadic? ==>
          Resolves(s, e, isInput) && ConnOf(e, isInput).value.Suffixed? && ParamOf(s, e, isInput).kind != Variadic)
  }

  /** The solving loop over the tagged edges, from the assignment `m`. */
  function Solve(s: Schema, t: seq<(Edge, bool)>, m: map<string, DType>): (r: Result<map<string, DType>, OpError>)
    ensures r.Err? ==> exists k :: 0 <= k < |t| && Blames(s, t[k].0, t[k].1, r.error)
    decreases |t|
  {
    if |t| == 0 then Ok(m)
    else
      match CheckEdge(s, t[0].0, t[0].1, m)
      case Err(e) => Err(e)
      case Ok(m') =>
        var r := Solve(s, t[1..], m');
        assert forall k :: 1 <= k < |t| ==> t[1..][k - 1] == t[k];
        r
  }

  predicate AllResolve(s: Schema, t: seq<(Edge, bool)>) {
    forall i :: 0 <= i < |t| ==> Resolves(s, t[i].0, t[i].1)
  }

  /** The type string the `k`-th edge commits. */
  function TypeStrAt(s: Schema, t: seq<(Edge, bool)>, k: nat): string
    requires k < |t| && Resolves(s, t[k].0, t[k].1)
  {
    ParamOf(s, t[k].0, t[k].1).typeStr
  }

  /** Folding a sequence of writes `(typeStr, dtype)` into an assignment. */
  function Commit(w: seq<(string, DType)>): map<string, DType>
    decreases |w|
  {
    if |w| == 0 then map[] else Commit(w[..|w| - 1])[w[|w| - 1].0 := w[|w| - 1].1]
  }

  /** The committed type of a key is the value of the LAST write to it; a
      key is committed exactly when some write names it. */
  lemma {:induction false} CommitIsLastWrite(w: seq<(string, DType)>, ts: string)
    ensures ts in Commit(w) <==> exists k :: 0 <= k < |w| && w[k].0 == ts
    ensures ts in Commit(w) ==> exists k :: (
      && 0 <= k < |w| && w[k].0 == ts
      && Commit(w)[ts] == w[k].1
      && forall j :: k < j < |w| ==> w[j].0 != ts)
    decreases |w|
  {
    if |w| > 0 {
      var n := |w| - 1;
      var p := w[..n];
      CommitIsLastWrite(p, ts);
      if w[n].0 != ts && ts in Commit(p) {
        var k :| 0 <= k < n && p[k].0 == ts && Commit(p)[ts] == p[k].1
          && forall j :: k < j < n ==> p[j].0 != ts;
        assert w[k] == p[k];
      }
    }
  }

  /** If every write agrees with what is already committed for its key,
      then all writes to one key carry the same value. */
  lemma {:induction false} AgreeingWritesAreConstant(w: seq<(string, DType)>)
    requires AgreesWithCommitted(w)
    ensures forall i, j :: 0 <= i < j < |w| && w[i].0 == w[j].0 ==> w[i].1 == w[j].1
    decreases |w|
  {
    if |w| > 0 {
      var n := |w| - 1;
      var p := w[..n];
      AgreementOfPrefix(w, n);
      AgreeingWritesAreConstant(p);
      assert w[n].0 in Commit(p) ==> Commit(p)[w[n].0] == w[n].1;
      forall i, j | 0 <= i < j < |w| && w[i].0 == w[j].0
        ensures w[i].1 == w[j].1
      {
        assert p[i] == w[i];
        if j < n {
          assert p[j] == w[j];
        } else {
          LastAgrees(p, w[n], i);
        }
      }
    }
  }

  predicate AgreesWithCommitted(w: seq<(string, DType)>) {
    forall j :: 0 <= j < |w| ==> (w[j].0 in Commit(w[..j]) ==> Commit(w[..j])[w[j].0] == w[j].1)
  }

  lemma AgreementOfPrefix(w: seq<(string, DType)>, n: nat)
    requires n <= |w| && AgreesWithCommitted(w)
    ensures AgreesWithCommitted(w[..n])
  {
    var p := w[..n];
    forall j | 0 <= j < n
      ensures p[j].0 in Commit(p[..j]) ==> Commit(p[..j])[p[j].0] == p[j].1
    {
      assert p[..j] == w[..j] && p[j] == w[j];
    }
  }

  /** The step of `AgreeingWritesAreConstant` for a last write `x` after
      the writes `p`: once the writes of `p` agree among themselves and `x`
      agrees with what `p` committed, an earlier write to `x`'s key carries
      `x`'s value. */
  lemma LastAgrees(p: seq<(string, DType)>, x: (string, DType), i: nat)
    requires i < |p| && p[i].0 == x.0
    requires x.0 in Commit(p) ==> Commit(p)[x.0] == x.1
    requires forall a, b :: 0 <= a < b < |p| && p[a].0 == p[b].0 ==> p[a].1 == p[b].1
    ensures p[i].1 == x.1
  {
    CommitIsLastWrite(p, x.0);
    var k :| 0 <= k < |p| && p[k].0 == x.0 && Commit(p)[x.0] == p[k].1;
    if i < k {
      assert p[i].1 == p[k].1;
    } else if k < i {
      assert p[k].1 == p[i].1;
    }
  }

  /** The writes of the solving loop: each edge commits its parameter's
      type string to its element type. */
  function Writes(s: Schema, t: seq<(Edge, bool)>): (w: seq<(string, DType)>)
    requires AllResolve(s, t)
    ensures |w| == |t|
    ensures forall k :: 0 <= k < |t| ==> w[k] == (TypeStrAt(s, t, k), t[k].0.dtype)
  {
    seq(|t|, k requires 0 <= k < |t| && Resolves(s, t[k].0, t[k].1) => (TypeStrAt(s, t, k), t[k].0.dtype))
  }

  /** The assignment after all of `t` has been committed. */
  function Assigned(s: Schema, t: seq<(Edge, bool)>): map<string, DType>
    requires AllResolve(s, t)
  {
    Commit(Writes(s, t))
  }

  lemma WritesPrefix(s: Schema, t: seq<(Edge, bool)>, j: nat)
    requires AllResolve(s, t) && j <= |t|
    ensures AllResolve(s, t[..j])
    ensures Writes(s, t[..j]) == Writes(s, t)[..j]
  {
  }

  /** Declarative success of type solving: every edge resolves and is
      accepted against what the edges before it committed. */
  predicate TypesSolve(s: Schema, t: seq<(Edge, bool)>) {
    && AllResolve(s, t)
    && forall j :: 0 <= j < |t| ==> Accepted(s, t[j].0, t[j].1, Assigned(s, t[..j]))
  }

  /** The committed type of a constraint is the type of the LAST edge that
      wrote it, whether or not its parameter is checked. */
  lemma AssignedIsLastWrite(s: Schema, t: seq<(Edge, bool)>, ts: string)
    requires AllResolve(s, t)
    ensures ts in Assigned(s, t) <==> exists k :: 0 <= k < |t| && TypeStrAt(s, t, k) == ts
    ensures ts in Assigned(s, t) ==> exists k :: (
      && 0 <= k < |t| && TypeStrAt(s, t, k) == ts
      && Assigned(s, t)[ts] == t[k].0.dtype
      && forall j :: k < j < |t| ==> TypeStrAt(s, t, j) != ts)
  {
    var w := Writes(s, t);
    CommitIsLastWrite(w, ts);
    if ts in Assigned(s, t) {
      var k :| 0 <= k < |w| && w[k].0 == ts && Commit(w)[ts] == w[k].1
        && forall j :: k < j < |w| ==> w[j].0 != ts;
      assert TypeStrAt(s, t, k) == ts;
    }
  }

  /** The first `k` edges resolve and are accepted. */
  predicate PrefixAccepted(s: Schema, t: seq<(Edge, bool)>, k: nat)
    requires k <= |t|
  {
    && AllResolve(s, t[..k])
    && forall j :: 0 <= j < k ==> Accepted(s, t[j].0, t[j].1, Assigned(s, t[..j]))
  }

  lemma PrefixOfSolved(s: Schema, t: seq<(Edge, bool)>, k: nat)
    requires k <= |t|
    ensures PrefixAccepted(s, t, |t|) <==> TypesSolve(s, t)
    ensures TypesSolve(s, t) ==> PrefixAccepted(s, t, k)
  {
    assert t[..|t|] == t;
  }

  lemma ExtendPrefix(s: Schema, t: seq<(Edge, bool)>, k: nat)
    requires k < |t| && PrefixAccepted(s, t, k)
    ensures PrefixAccepted(s, t, k + 1) <==> Accepted(s, t[k].0, t[k].1, Assigned(s, t[..k]))
  {
    if Accepted(s, t[k].0, t[k].1, Assigned(s, t[..k])) {
      ExtendResolved(s, t, k);
      ExtendAccepted(s, t, k);
    }
  }

  lemma ExtendResolved(s: Schema, t: seq<(Edge, bool)>, k: nat)
    requires k < |t| && AllResolve(s, t[..k]) && Resolves(s, t[k].0, t[k].1)
    ensures AllResolve(s, t[..k + 1])
  {
    var q := t[..k + 1];
    forall i | 0 <= i < k + 1
      ensures Resolves(s, q[i].0, q[i].1)
    {
      if i < k {
        assert q[i] == t[..k][i];
      }
    }
  }

  lemma ExtendAccepted(s: Schema, t: seq<(Edge, bool)>, k: nat)
    requires k < |t| && PrefixAccepted(s, t, k) && AllResolve(s, t[..k + 1])
    requires Accepted(s, t[k].0, t[k].1, Assigned(s, t[..k]))
    ensures PrefixAccepted(s, t, k + 1)
  {
  }

  /** Running the loop from the assignment of an accepted prefix succeeds
      exactly when the whole sequence solves, and then ends in `Assigned`. */
  lemma SolveFromPrefix(s: Schema, t: seq<(Edge, bool)>, k: nat)
    requires k <= |t| && PrefixAccepted(s, t, k)
    ensures Solve(s, t[k..], Assigned(s, t[..k])).Ok? <==> PrefixAccepted(s, t, |t|)
    ensures PrefixAccepted(s, t, |t|) ==> Solve(s, t[k..], Assigned(s, t[..k])) == Ok(Assigned(s, t[..|t|]))
    decreases |t| - k
  {
    if k < |t| {
      var m := Assigned(s, t[..k]);
      SolveStep(s, t, k, m);
      ExtendPrefix(s, t, k);
      if Accepted(s, t[k].0, t[k].1, m) {
        NextAssigned(s, t, k);
        SolveFromPrefix(s, t, k + 1);
      }
    }
  }

  lemma SolveStep(s: Schema, t: seq<(Edge, bool)>, k: nat, m: map<string, DType>)
    requires k < |t|
    ensures Solve(s, t[k..], m) ==
      match CheckEdge(s, t[k].0, t[k].1, m)
      case Err(e) => Err(e)
      case Ok(m') => Solve(s, t[k + 1..], m')
  {
    assert t[k..][0] == t[k];
    assert t[k..][1..] == t[k + 1..];
  }

  lemma NextAssigned(s: Schema, t: seq<(Edge, bool)>, k: nat)
    requires k < |t| && AllResolve(s, t[..k + 1])
    ensures AllResolve(s, t[..k])
    ensures Accepted(s, t[k].0, t[k].1, Assigned(s, t[..k])) ==>
      CheckEdge(s, t[k].0, t[k].1, Assigned(s, t[..k])) == Ok(Assigned(s, t[..k + 1]))
  {
    var q := t[..k + 1];
    assert q[..k] == t[..k];
    assert q[k] == t[k];
    StepAssigned(s, q);
  }

  lemma StepAssigned(s: Schema, q: seq<(Edge, bool)>)
    requires |q| > 0 && AllResolve(s, q)
    ensures AllResolve(s, q[..|q| - 1])
    ensures Assigned(s, q) == Assigned(s, q[..|q| - 1])[TypeStrAt(s, q, |q| - 1) := q[|q| - 1].0.dtype]
  {
    var n := |q| - 1;
    WritesPrefix(s, q, n);
    var w := Writes(s, q);
    CommitSnoc(w, n);
    assert w[n] == (TypeStrAt(s, q, n), q[n].0.dtype);
    assert Assigned(s, q[..n]) == Commit(w[..n]);
  }

  lemma CommitSnoc(w: seq<(string, DType)>, n: nat)
    requires n + 1 == |w|
    ensures Commit(w) == Commit(w[..n])[w[n].0 := w[n].1]
  {
  }

  /** The solving loop from the empty assignment succeeds exactly when the
      declarative condition holds, and then commits `Assigned`. */
  lemma SolveMeansTypesSolve(s: Schema, t: seq<(Edge, bool)>)
    ensures Solve(s, t, map[]).Ok? <==> TypesSolve(s, t)
    ensures TypesSolve(s, t) ==> Solve(s, t, map[]) == Ok(Assigned(s, t))
  {
    assert t[..0] == [] && t[0..] == t;
    SolveFromPrefix(s, t, 0);
    PrefixOfSolved(s, t, 0);
    assert t[..|t|] == t;
  }

  /** When no edge belongs to a non-homogeneous Variadic parameter, solved
      edges sharing a type constraint all carry the same type: the first
      commit decides. */
  lemma CheckedEdgesAgree(s: Schema, t: seq<(Edge, bool)>)
    requires TypesSolve(s, t)
    requires forall k :: 0 <= k < |t| ==> Checked(ParamOf(s, t[k].0, t[k].1))
    ensures forall i, j :: 0 <= i < j < |t| && TypeStrAt(s, t, i) == TypeStrAt(s, t, j) ==>
      t[i].0.dtype == t[j].0.dtype
  {
    var w := Writes(s, t);
    forall j | 0 <= j < |w|
      ensures w[j].0 in Commit(w[..j]) ==> Commit(w[..j])[w[j].0] == w[j].1
    {
      WritesPrefix(s, t, j);
      assert Agrees(s, t[j].0, t[j].1, Assigned(s, t[..j]));
    }
    assert AgreesWithCommitted(w);
    AgreeingWritesAreConstant(w);
  }
}
