/** Operator attributes as the generated node classes expose them: which
    attribute types become properties, how a node reads an attribute, and
    the required-attribute check of `validate`. */
module Attributes {
  import opened Results
  import opened OnnxSchema
  import opened OpErrors

  /** The two property flavours a generated class declares. */
  datatype PropertyKind = ScalarProperty | ListProperty

  /** The property generated for an attribute of type `ty`; None for types
      the node classes do not support. */
  function PropertyFor(ty: AttrType): (r: Option<PropertyKind>)
    ensures r.None? <==> ty == UnsupportedAttr
    ensures r == Some(ListProperty) <==> ty in {IntsAttr, FloatsAttr, StringsAttr}
  {
    match ty
    case IntAttr => Some(ScalarProperty)
    case StringAttr => Some(ScalarProperty)
    case FloatAttr => Some(ScalarProperty)
    case TensorAttr => Some(ScalarProperty)
    case IntsAttr => Some(ListProperty)
    case StringsAttr => Some(ListProperty)
    case FloatsAttr => Some(ListProperty)
    case UnsupportedAttr => None
  }

  /** The attribute called `name`, if the schema declares one. */
  function FindAttr(attrs: seq<AttrSpec>, name: string): (r: Option<AttrSpec>)
    ensures r.None? <==> forall i :: 0 <= i < |attrs| ==> attrs[i].name != name
    ensures r.Some? ==> r.value in attrs && r.value.name == name
  {
    if |attrs| == 0 then None
    else if attrs[0].name == name then Some(attrs[0])
    else
      var r := FindAttr(attrs[1..], name);
      assert forall i :: 1 <= i < |attrs| ==> attrs[1..][i - 1] == attrs[i];
      r
  }

  /** The node's class declares a property called `name`. */
  predicate HasProperty(s: Schema, name: string) {
    var a := FindAttr(s.attributes, name);
    a.Some? && PropertyFor(a.value.ty).Some?
  }

  /** The outcome of Python's `getattr(node, name)`. */
  datatype Lookup = Found(value: Option<AttrValue>) | NotFound

  /** Reading an attribute of a node: an assigned value wins; otherwise a
      declared property yields its default; otherwise the lookup fails. */
  function GetAttr(node: OpNode, name: string): (r: Lookup)
    ensures r.NotFound? <==> name !in node.attrs && !HasProperty(node.schema, name)
    ensures name in node.attrs ==> r == Found(node.attrs[name])
    ensures r.Found? && name !in node.attrs ==>
      exists a :: a in node.schema.attributes && a.name == name && r.value == a.default
  {
    if name in node.attrs then Found(node.attrs[name])
    else if HasProperty(node.schema, name) then Found(FindAttr(node.schema.attributes, name).value.default)
    else NotFound
  }

  /** Every attribute marked required in `attrs` reads as a value other
      than None on the node. */
  predicate AttributesPresent(attrs: seq<AttrSpec>, node: OpNode) {
    forall i :: 0 <= i < |attrs| && attrs[i].required ==> GetAttr(node, attrs[i].name).Found? && GetAttr(node, attrs[i].name).value.Some?
  }

  /** The loop over the required attribute names: a failed lookup raises
      AttributeError, a None value raises ValueError. */
  function CheckAttributes(attrs: seq<AttrSpec>, node: OpNode): (r: Outcome<OpError>)
    ensures r.Pass? <==> AttributesPresent(attrs, node)
    ensures r.Fail? ==> r.error.NoSuchAttribute? || r.error.MissingAttribute?
    ensures r.Fail? ==> exists i :: (
      && 0 <= i < |attrs| && attrs[i].required
      && (|| (r.error == NoSuchAttribute(attrs[i].name) && GetAttr(node, attrs[i].name).NotFound?)
          || (r.error == MissingAttribute(attrs[i].name) && GetAttr(node, attrs[i].name) == Found(None))))
  {
    if |attrs| == 0 then Pass
    else
      var a := attrs[0];
      assert forall i :: 1 <= i < |attrs| ==> attrs[1..][i - 1] == attrs[i];
      if !a.required then CheckAttributes(attrs[1..], node)
      else
        match GetAttr(node, a.name)
        case NotFound => Fail(NoSuchAttribute(a.name))
        case Found(None) => Fail(MissingAttribute(a.name))
        case Found(Some(_)) => CheckAttributes(attrs[1..], node)
  }
}
