/** The exceptions the operator-node code raises, as structured values. */
module OpErrors {
  import opened OnnxSchema

  datatype OpError =
      /** An edge names no connector (Python None). */
    | NoneConnector
      /** `get_idx`: not exactly one parameter carries the connector's base name. */
    | ParamLookup(isInput: bool, name: string, found: nat)
      /** The edge's connector is not declared on the node. */
    | NonexistentConnector(isInput: bool, conn: Connector)
      /** Single parameters without an edge, with the pluralised message. */
    | MissingParameters(isInput: bool, names: seq<string>, message: string)
      /** An unsuffixed connector whose name the schema does not declare. */
    | UnexpectedArgument(name: string)
      /** A suffixed connector whose base is not a Variadic parameter. */
    | UnexpectedVariadic(isInput: bool, conn: Connector)
      /** Two distinct suffixed connectors with the same index. */
    | DuplicateVariadicIndex(isInput: bool, index: nat)
      /** `count` distinct indices were seen but `index` < `count` was not. */
    | MissingVariadicIndex(isInput: bool, count: nat, index: nat)
      /** Type solving: not exactly one parameter of the direction has the name. */
    | ParamMatch(isInput: bool, name: string, found: nat)
      /** A `base__i` connector on a parameter that is not Variadic. */
    | VariadicForNonVariadic(conn: Connector, param: string)
      /** An unsuffixed connector on a Variadic parameter. */
    | PlainForVariadic(conn: Connector, param: string)
      /** The constraint is already committed to a different type. */
    | TypeConflict(isInput: bool, param: string, expected: DType, actual: DType)
      /** The parameter's `type_str` has no entry in the constraint table (a KeyError). */
    | UnknownTypeConstraint(typeStr: string)
      /** The edge's type is outside the constraint's allowed set. */
    | TypeNotAllowed(isInput: bool, param: string, allowed: set<DType>, actual: DType)
      /** A required attribute holds None. */
    | MissingAttribute(name: string)
      /** A Python attribute lookup on a name the node's class does not define. */
    | NoSuchAttribute(name: string)
      /** `_iter_params_in_onnx_order`: no edge for an expected connector (a KeyError). */
    | MissingKey(conn: Connector)
      /** `_iter_params_in_onnx_order` on an empty parameter list (an IndexError). */
    | EmptyParameterList
      /** The constructor got positional arguments after the name; `given`
          counts the name too. */
    | TooManyPositional(given: nat)
      /** Required attributes without a keyword argument, with the pluralised
          message. */
    | MissingKeywordArguments(names: seq<string>, message: string)
      /** A keyword argument the operator's schema does not declare. */
    | UnexpectedKeyword(opName: string, name: string)
      /** The class generator met a required attribute of a type it has no
          property for (a NotImplementedError). */
    | UnsupportedRequiredAttribute(name: string)
      /** No operator class was generated under the name (a KeyError). */
    | NoSuchOperator(name: string)
      /** Not exactly one edge occupies the connector; `found` counts them. */
    | EdgeCount(conn: Connector, found: nat)
      /** A data descriptor that is neither a Scalar nor an Array. */
    | UnsupportedDescriptor(kind: string)
      /** The graph has no data container of that name (a KeyError). */
    | NoSuchArray(data: string)
}
