/** The constructor every generated operator class gets: it declares the
    Single parameters as connectors, rejects positional arguments, missing
    required attributes and unknown keywords, in that order, and assigns
    the keyword arguments as attribute values. */
module Construction {
  import opened Results
  import opened Seqs
  import opened OnnxSchema
  import opened OpErrors
  import opened Messages
  import opened Attributes

  /** Keyword arguments in call order; a later repeat of a name overrides an
      earlier one, as when a dict is built from them. */
  type Kwargs = seq<(string, Option<AttrValue>)>

  function KwargNames(kwargs: Kwargs): set<string> {
    set i | 0 <= i < |kwargs| :: kwargs[i].0
  }

  lemma KwargNamesSnoc(kwargs: Kwargs)
    requires |kwargs| > 0
    ensures KwargNames(kwargs) == KwargNames(kwargs[..|kwargs| - 1]) + {kwargs[|kwargs| - 1].0}
  {
    var init := kwargs[..|kwargs| - 1];
    forall k | k in KwargNames(kwargs) ensures k in KwargNames(init) + {kwargs[|kwargs| - 1].0} {
      var i :| 0 <= i < |kwargs| && kwargs[i].0 == k;
      if i < |kwargs| - 1 { assert init[i] == kwargs[i]; }
    }
    forall k | k in KwargNames(init) ensures k in KwargNames(kwargs) {
      var i :| 0 <= i < |init| && init[i].0 == k;
      assert kwargs[i] == init[i];
    }
  }

  /** The dict of the keyword arguments: every key was given, and its value
      is the one given with it. */
  function KwargMap(kwargs: Kwargs): (m: map<string, Option<AttrValue>>)
    ensures m.Keys == KwargNames(kwargs)
    ensures forall k :: k in m ==> exists i :: 0 <= i < |kwargs| && kwargs[i].0 == k && m[k] == kwargs[i].1
  {
    if |kwargs| == 0 then map[]
    else
      var init := kwargs[..|kwargs| - 1];
      var last := kwargs[|kwargs| - 1];
      KwargNamesSnoc(kwargs);
      var m0 := KwargMap(init);
      var m := m0[last.0 := last.1];
      assert forall k :: k in m0 && k != last.0 ==> m[k] == m0[k];
      assert forall i :: 0 <= i < |init| ==> init[i] == kwargs[i];
      m
  }

  /** Keyword names occurring once in the call keep the value given with
      them. */
  lemma {:induction false} KwargMapKeepsValues(kwargs: Kwargs, i: nat)
    requires i < |kwargs|
    requires forall j :: 0 <= j < |kwargs| && j != i ==> kwargs[j].0 != kwargs[i].0
    ensures KwargMap(kwargs)[kwargs[i].0] == kwargs[i].1
  {
    var init := kwargs[..|kwargs| - 1];
    if i < |kwargs| - 1 {
      assert init[i] == kwargs[i];
      KwargMapKeepsValues(init, i);
      KwargNamesSnoc(kwargs);
    }
  }

  /** The names of the attributes marked required. */
  function RequiredNames(attrs: seq<AttrSpec>): set<string> {
    set a | a in attrs && a.required :: a.name
  }

  /** The names of all declared attributes. */
  function AttrNames(attrs: seq<AttrSpec>): set<string> {
    set a | a in attrs :: a.name
  }

  /** The required attribute names without a keyword, in declaration order. */
  function UngivenRequired(attrs: seq<AttrSpec>, given: set<string>): (r: seq<string>)
    ensures forall n :: n in r <==> n in RequiredNames(attrs) - given
  {
    if |attrs| == 0 then []
    else
      var init := attrs[..|attrs| - 1];
      var a := attrs[|attrs| - 1];
      assert attrs == init + [a];
      var r := UngivenRequired(init, given);
      if a.required && a.name !in given then r + [a.name] else r
  }

  /** `required_attrs.difference(op_attributes)`, each name once. */
  function MissingRequired(attrs: seq<AttrSpec>, given: set<string>): (r: seq<string>)
    ensures forall n :: n in r <==> n in RequiredNames(attrs) - given
    ensures NoDup(r)
    ensures |r| == |RequiredNames(attrs) - given|
  {
    var r := Distinct(UngivenRequired(attrs, given));
    assert (set n | n in r) == RequiredNames(attrs) - given;
    NoDupCardinality(r);
    r
  }

  /** The first keyword, in call order, that names no declared attribute. */
  function FirstUnknownKeyword(kwargs: Kwargs, declared: set<string>): (r: Option<string>)
    ensures r.None? <==> KwargNames(kwargs) <= declared
    ensures r.Some? ==> r.value in KwargNames(kwargs) - declared
  {
    if |kwargs| == 0 then None
    else if kwargs[0].0 !in declared then Some(kwargs[0].0)
    else
      var r := FirstUnknownKeyword(kwargs[1..], declared);
      assert KwargNames(kwargs) == {kwargs[0].0} + KwargNames(kwargs[1..]) by {
        forall k | k in KwargNames(kwargs) ensures k in {kwargs[0].0} + KwargNames(kwargs[1..]) {
          var i :| 0 <= i < |kwargs| && kwargs[i].0 == k;
          if i > 0 { assert kwargs[1..][i - 1] == kwargs[i]; }
        }
        forall k | k in KwargNames(kwargs[1..]) ensures k in KwargNames(kwargs) {
          var i :| 0 <= i < |kwargs[1..]| && kwargs[1..][i].0 == k;
          assert kwargs[i + 1] == kwargs[1..][i];
        }
      }
      r
  }

  /** The connectors a fresh node declares: its Single parameters. */
  function SingleConnectors(params: seq<Param>): (r: set<Connector>)
    ensures forall c :: c in r <==> c.Plain? && c.name in SingleNames(params)
  {
    set n | n in SingleNames(params) :: Plain(n)
  }

  /** The constructor, with its missing-attribute stage reading the required
      attributes of `required` (a list of attribute specifications). */
  function InitWith(s: Schema, required: seq<AttrSpec>, name: string, extraPositional: nat, kwargs: Kwargs): (r: Result<OpNode, OpError>)
    ensures r.Ok? <==> (
      && extraPositional == 0
      && RequiredNames(required) <= KwargNames(kwargs)
      && KwargNames(kwargs) <= AttrNames(s.attributes))
    ensures extraPositional > 0 ==> r == Err(TooManyPositional(1 + extraPositional))
    ensures extraPositional == 0 && !(RequiredNames(required) <= KwargNames(kwargs)) ==>
      var missing := RequiredNames(required) - KwargNames(kwargs);
      && r.Err? && r.error.MissingKeywordArguments?
      && (forall n :: n in r.error.names <==> n in missing)
      && NoDup(r.error.names)
      && |r.error.names| == |missing| > 0
      && r.error.message == MissingArgumentsMessage("__init__()", r.error.names, "keyword-only argument")
    ensures extraPositional == 0 && RequiredNames(required) <= KwargNames(kwargs) && r.Err? ==>
      && r.error.UnexpectedKeyword?
      && r.error.opName == s.name
      && r.error.name in KwargNames(kwargs) - AttrNames(s.attributes)
    ensures r.Ok? ==>
      && r.value.nodeName == name
      && r.value.schema == s
      && r.value.inConnectors == SingleConnectors(s.inputs)
      && r.value.outConnectors == SingleConnectors(s.outputs)
      && r.value.attrs == KwargMap(kwargs)
  {
    if extraPositional > 0 then Err(TooManyPositional(1 + extraPositional))
    else
      var missing := MissingRequired(required, KwargNames(kwargs));
      if |missing| > 0 then
        Err(MissingKeywordArguments(missing, MissingArgumentsMessage("__init__()", missing, "keyword-only argument")))
      else
        var req, given := RequiredNames(required), KwargNames(kwargs);
        assert |req - given| == 0;
        assert req - given == {};
        assert req <= given by {
          forall n | n in req ensures n in given {
            assert n !in req - given;
          }
        }
        match FirstUnknownKeyword(kwargs, AttrNames(s.attributes))
        case Some(k) => Err(UnexpectedKeyword(s.name, k))
        case None =>
          Ok(OpNode(name, s, SingleConnectors(s.inputs), SingleConnectors(s.outputs), KwargMap(kwargs)))
  }

  /** The constructor checking the node's own required attributes. */
  function Construct(s: Schema, name: string, extraPositional: nat, kwargs: Kwargs): (r: Result<OpNode, OpError>)
    ensures r.Ok? <==> extraPositional == 0 && RequiredNames(s.attributes) <= KwargNames(kwargs) <= AttrNames(s.attributes)
  {
    InitWith(s, s.attributes, name, extraPositional, kwargs)
  }

  /** The constructor as written: the required-attribute set it reads is the
      module variable left over from the class-generation loop, the one of
      the schema generated last. */
  function ConstructAsWritten(s: Schema, lastGenerated: Schema, name: string, extraPositional: nat, kwargs: Kwargs): (r: Result<OpNode, OpError>)
    ensures r.Ok? <==> extraPositional == 0 && RequiredNames(lastGenerated.attributes) <= KwargNames(kwargs) <= AttrNames(s.attributes)
  {
    InitWith(s, lastGenerated.attributes, name, extraPositional, kwargs)
  }

  /** A constructed node whose keyword values are all other than None
      passes the required-attribute stage of `validate`. */
  lemma ConstructedHasRequiredAttributes(s: Schema, name: string, kwargs: Kwargs)
    requires Construct(s, name, 0, kwargs).Ok?
    requires forall i :: 0 <= i < |kwargs| ==> kwargs[i].1.Some?
    ensures AttributesPresent(s.attributes, Construct(s, name, 0, kwargs).value)
  {
    var node := Construct(s, name, 0, kwargs).value;
    forall i | 0 <= i < |s.attributes| && s.attributes[i].required
      ensures GetAttr(node, s.attributes[i].name).Found? && GetAttr(node, s.attributes[i].name).value.Some?
    {
      var n := s.attributes[i].name;
      assert n in RequiredNames(s.attributes);
      assert n in node.attrs;
      var j :| 0 <= j < |kwargs| && kwargs[j].0 == n && node.attrs[n] == kwargs[j].1;
    }
  }

  /** When the schema generated last requires an attribute the node's own
      schema does not declare, the as-written constructor rejects every
      call: omitting the keyword misses it, giving it is unknown. */
  lemma AsWrittenUnconstructible(s: Schema, lastGenerated: Schema, name: string, extraPositional: nat, kwargs: Kwargs, a: string)
    requires a in RequiredNames(lastGenerated.attributes) && a !in AttrNames(s.attributes)
    ensures ConstructAsWritten(s, lastGenerated, name, extraPositional, kwargs).Err?
  {
  }

  /** The corrected constructor accepts exactly what the as-written one
      accepts when the schema generated last is the node's own. */
  lemma AsWrittenAgreesOnLastSchema(s: Schema, name: string, extraPositional: nat, kwargs: Kwargs)
    ensures ConstructAsWritten(s, s, name, extraPositional, kwargs) == Construct(s, name, extraPositional, kwargs)
  {
  }
}
