/** The module-level loop that turns the catalog of ONNX schemas into node
    classes, reduced to what it decides: which attributes become properties,
    when the whole import aborts, which classes end up registered under
    which names, and which schema is left in the loop variable. */
module Registry {
  import opened Results
  import opened OnnxSchema
  import opened OpErrors
  import opened Attributes

  /** The generated class name of an operator. */
  function ClassName(opName: string): string {
    "ONNX" + opName
  }

  lemma ClassNameInjective(a: string, b: string)
    ensures ClassName(a) == ClassName(b) <==> a == b
  {
    if ClassName(a) == ClassName(b) {
      assert a == ClassName(a)[4..] && b == ClassName(b)[4..];
    }
  }

  /** An attribute that is required but has no property type. */
  predicate Unsupported(a: AttrSpec) {
    a.required && PropertyFor(a.ty).None?
  }

  /** The properties the generated class declares, one per attribute of a
      supported type, in declaration order; a required attribute of an
      unsupported type aborts with the first such attribute, an optional
      one is skipped. */
  function Properties(attrs: seq<AttrSpec>): (r: Result<seq<(string, PropertyKind)>, OpError>)
    ensures r.Ok? <==> forall i :: 0 <= i < |attrs| ==> !Unsupported(attrs[i])
    ensures r.Ok? ==> forall p :: p in r.value <==>
      exists i :: 0 <= i < |attrs| && PropertyFor(attrs[i].ty).Some? && p == (attrs[i].name, PropertyFor(attrs[i].ty).value)
    ensures r.Err? ==> exists i :: (
      && 0 <= i < |attrs| && Unsupported(attrs[i])
      && (forall j :: 0 <= j < i ==> !Unsupported(attrs[j]))
      && r.error == UnsupportedRequiredAttribute(attrs[i].name))
  {
    if |attrs| == 0 then Ok([])
    else
      var init := attrs[..|attrs| - 1];
      var a := attrs[|attrs| - 1];
      assert forall i :: 0 <= i < |init| ==> init[i] == attrs[i];
      match Properties(init)
      case Err(e) => Err(e)
      case Ok(ps) =>
        match PropertyFor(a.ty)
        case Some(k) => Ok(ps + [(a.name, k)])
        case None => if a.required then Err(UnsupportedRequiredAttribute(a.name)) else Ok(ps)
  }

  /** Attribute names are unique (the schema keeps them in a dict). */
  predicate UniqueAttrNames(attrs: seq<AttrSpec>) {
    forall i, j :: 0 <= i < j < |attrs| ==> attrs[i].name != attrs[j].name
  }

  /** The properties the class declares are exactly the names a node of
      that class resolves without an assigned value. */
  lemma PropertiesAreWhatGetAttrSees(s: Schema, name: string)
    requires UniqueAttrNames(s.attributes) && Properties(s.attributes).Ok?
    ensures HasProperty(s, name) <==> exists p :: p in Properties(s.attributes).value && p.0 == name
  {
    var attrs := s.attributes;
    var ps := Properties(attrs).value;
    if HasProperty(s, name) {
      var a := FindAttr(attrs, name).value;
      var i :| 0 <= i < |attrs| && attrs[i] == a;
      assert (attrs[i].name, PropertyFor(attrs[i].ty).value) in ps;
    }
    if exists p :: p in ps && p.0 == name {
      var p :| p in ps && p.0 == name;
      var i :| 0 <= i < |attrs| && PropertyFor(attrs[i].ty).Some? && p == (attrs[i].name, PropertyFor(attrs[i].ty).value);
      var a := FindAttr(attrs, name);
      assert a.Some?;
      var k :| 0 <= k < |attrs| && attrs[k] == a.value;
      assert k == i;
    }
  }

  /** The catalog as the loop reads it: None stands for a schema whose
      conversion raised, which the loop logs and skips. */
  type Catalog = seq<Option<Schema>>

  /** Every schema in the catalog converts its attributes to properties. */
  predicate AllConvert(catalog: Catalog) {
    forall i :: 0 <= i < |catalog| && catalog[i].Some? ==> Properties(catalog[i].value.attributes).Ok?
  }

  /** `m` registers a class for every schema of the catalog, under the
      class name of a schema of the catalog it holds. */
  predicate Registers(catalog: Catalog, m: map<string, Schema>) {
    && (forall i :: 0 <= i < |catalog| && catalog[i].Some? ==> ClassName(catalog[i].value.name) in m)
    && (forall k :: k in m ==> k == ClassName(m[k].name) && Some(m[k]) in catalog)
  }

  /** `e` is the conversion error of the first schema that fails to convert. */
  predicate FirstFailure(catalog: Catalog, e: OpError) {
    exists i :: (
      && 0 <= i < |catalog| && catalog[i].Some?
      && Properties(catalog[i].value.attributes) == Err(e)
      && (forall j :: 0 <= j < i && catalog[j].Some? ==> Properties(catalog[j].value.attributes).Ok?))
  }

  lemma AllConvertSnoc(catalog: Catalog)
    requires |catalog| > 0
    ensures var n := |catalog| - 1;
      AllConvert(catalog) <==>
        AllConvert(catalog[..n]) && (catalog[n].Some? ==> Properties(catalog[n].value.attributes).Ok?)
  {
    var init := catalog[..|catalog| - 1];
    assert forall i :: 0 <= i < |init| ==> init[i] == catalog[i];
  }

  lemma FirstFailureSnoc(catalog: Catalog, e: OpError)
    requires |catalog| > 0 && FirstFailure(catalog[..|catalog| - 1], e)
    ensures FirstFailure(catalog, e)
  {
    var init := catalog[..|catalog| - 1];
    var i :| (
      && 0 <= i < |init| && init[i].Some?
      && Properties(init[i].value.attributes) == Err(e)
      && (forall j :: 0 <= j < i && init[j].Some? ==> Properties(init[j].value.attributes).Ok?));
    assert forall j :: 0 <= j <= i ==> init[j] == catalog[j];
  }

  lemma FirstFailureLast(catalog: Catalog, e: OpError)
    requires |catalog| > 0 && AllConvert(catalog[..|catalog| - 1])
    requires var last := catalog[|catalog| - 1]; last.Some? && Properties(last.value.attributes) == Err(e)
    ensures FirstFailure(catalog, e)
  {
    var init := catalog[..|catalog| - 1];
    assert forall j :: 0 <= j < |init| ==> init[j] == catalog[j];
  }

  lemma RegistersSnoc(catalog: Catalog, m: map<string, Schema>)
    requires |catalog| > 0 && Registers(catalog[..|catalog| - 1], m)
    ensures var last := catalog[|catalog| - 1];
      Registers(catalog, if last.Some? then m[ClassName(last.value.name) := last.value] else m)
  {
    var n := |catalog| - 1;
    var init := catalog[..n];
    assert forall i :: 0 <= i < |init| ==> init[i] == catalog[i];
    assert forall x :: x in init ==> x in catalog;
    assert catalog[n] in catalog;
  }

  /** The classes registered by the loop, keyed by class name; a later
      schema with the same name replaces the earlier class. The first schema
      with a required attribute of unsupported type aborts the whole import. */
  function Generate(catalog: Catalog): (r: Result<map<string, Schema>, OpError>)
    ensures r.Ok? <==> AllConvert(catalog)
    ensures r.Ok? ==> Registers(catalog, r.value)
    ensures r.Err? ==> FirstFailure(catalog, r.error)
  {
    if |catalog| == 0 then Ok(map[])
    else
      var n := |catalog| - 1;
      var init := catalog[..n];
      AllConvertSnoc(catalog);
      match Generate(init)
      case Err(e) =>
        FirstFailureSnoc(catalog, e);
        Err(e)
      case Ok(m) =>
        RegistersSnoc(catalog, m);
        match catalog[n]
        case None => Ok(m)
        case Some(s) =>
          match Properties(s.attributes)
          case Err(e) =>
            FirstFailureLast(catalog, e);
            Err(e)
          case Ok(_) => Ok(m[ClassName(s.name) := s])
  }

  /** A later schema of the same name wins: the registered class of an
      operator is the last schema of that name in the catalog. */
  lemma {:induction false} LastSchemaWins(catalog: Catalog, i: nat)
    requires Generate(catalog).Ok? && i < |catalog| && catalog[i].Some?
    requires forall j :: i < j < |catalog| && catalog[j].Some? ==> catalog[j].value.name != catalog[i].value.name
    ensures Generate(catalog).value[ClassName(catalog[i].value.name)] == catalog[i].value
  {
    var init := catalog[..|catalog| - 1];
    assert forall j :: 0 <= j < |init| ==> init[j] == catalog[j];
    if i < |catalog| - 1 {
      LastSchemaWins(init, i);
      var last := catalog[|catalog| - 1];
      if last.Some? {
        ClassNameInjective(last.value.name, catalog[i].value.name);
      }
    }
  }

  /** The last converted schema among the first `n` catalog entries. */
  function LastBefore(catalog: Catalog, n: nat): (r: Option<Schema>)
    requires n <= |catalog|
    ensures r.None? <==> forall i :: 0 <= i < n ==> catalog[i].None?
    ensures r.Some? ==> exists i :: (
      && 0 <= i < n && catalog[i] == r
      && (forall j :: i < j < n ==> catalog[j].None?))
  {
    if n == 0 then None
    else if catalog[n - 1].Some? then catalog[n - 1]
    else LastBefore(catalog, n - 1)
  }

  /** The schema the loop variable holds after the loop: the last one whose
      conversion succeeded. */
  function LastGenerated(catalog: Catalog): (r: Option<Schema>)
    ensures r.None? <==> forall i :: 0 <= i < |catalog| ==> catalog[i].None?
    ensures r.Some? ==> exists i :: (
      && 0 <= i < |catalog| && catalog[i] == r
      && (forall j :: i < j < |catalog| ==> catalog[j].None?))
  {
    LastBefore(catalog, |catalog|)
  }

  /** The schema left in the loop variable is a registered class's. */
  lemma LastGeneratedIsRegistered(catalog: Catalog)
    requires Generate(catalog).Ok? && LastGenerated(catalog).Some?
    ensures var s := LastGenerated(catalog).value;
      Generate(catalog).value[ClassName(s.name)] == s
  {
    var i :| 0 <= i < |catalog| && catalog[i] == LastGenerated(catalog)
      && (forall j :: i < j < |catalog| ==> catalog[j].None?);
    LastSchemaWins(catalog, i);
  }

  /** `has_onnx_node`. */
  predicate HasOnnxNode(registry: map<string, Schema>, name: string) {
    ClassName(name) in registry
  }

  /** `get_onnx_node`: the class generated for operator `name`. */
  function GetOnnxNode(registry: map<string, Schema>, name: string): (r: Result<Schema, OpError>)
    ensures r.Ok? <==> HasOnnxNode(registry, name)
    ensures r.Err? ==> r.error == NoSuchOperator(name)
  {
    if ClassName(name) in registry then Ok(registry[ClassName(name)]) else Err(NoSuchOperator(name))
  }

  /** Over a generated registry, an operator is found exactly when the
      catalog holds a schema of that name, and the class found is the
      schema of that name. */
  lemma LookupFindsCatalogSchema(catalog: Catalog, name: string)
    requires Generate(catalog).Ok?
    ensures HasOnnxNode(Generate(catalog).value, name) <==>
      exists i :: 0 <= i < |catalog| && catalog[i].Some? && catalog[i].value.name == name
    ensures GetOnnxNode(Generate(catalog).value, name).Ok? ==>
      var s := GetOnnxNode(Generate(catalog).value, name).value;
      s.name == name && Some(s) in catalog
  {
    var m := Generate(catalog).value;
    if ClassName(name) in m {
      var s := m[ClassName(name)];
      ClassNameInjective(s.name, name);
      var i :| 0 <= i < |catalog| && catalog[i] == Some(s);
      assert catalog[i].value.name == name;
    }
  }
}
