# ONNX operator nodes of daceml, modelled in Dafny

daceml embeds ONNX operators as library nodes of DaCe dataflow graphs. One
node class is generated per operator schema of the ONNX catalog. Each node
checks its edges against the schema: parameters, variadic groups, type
constraints and required attributes. A separate registry picks the strategy
that builds the reverse-mode (backward) node of a forward node.

This project models that core as pure functions over immutable data:

- `results.dfy`, `seqs.dfy`, `sorting.dfy`: `Option`/`Result`/`Outcome`,
  first-occurrence deduplication (the stand-in for iterating a Python
  `set`), and a stable insertion sort specified as "a permutation, ascending
  by key".
- `schema.dfy`, `errors.dfy`: the data model. It covers parameters of kind
  Single/Optional/Variadic, attributes, type constraints, connectors
  (`Plain(name)` or `Suffixed(base, index)` for `base__index`), edges and
  operator nodes. Every exception the code raises is a variant of `OpError`.
- `messages.dfy`: `get_missing_arguments_message`.
- `ordering.dfy`: `iter_edges` with its sort key `get_idx`, and
  `_iter_params_in_onnx_order`.
- `validation.dfy`, `typesolving.dfy`, `attributes.dfy`: `validate`, stage by
  stage. Each stage's success is proved equivalent to a declarative
  predicate, and the whole check succeeds exactly when all of them hold.
- `construct.dfy`: the generated `__init__`.
- `registry.dfy`: the class-generation loop reduced to what it decides, and
  `has_onnx_node`/`get_onnx_node`.
- `backward.dfy`: `BackwardResult`, the default applicability predicate and
  `find_backward_implementation`.
- `utils.dfy`: `in_edge_with_name`/`out_edge_with_name`,
  `is_desc_contiguous`, `in_desc_with_name`/`out_desc_with_name`.
- `scenarios.dfy`: concrete operators (`Add`, a variadic `Concat`, a
  non-homogeneous variadic) run through the model.

Behaviour the model follows because the code does it, where the docstrings
would suggest otherwise:

- `passed_variadic_inputs` is a set of connector names. Two edges on the
  same `x__2` therefore count once, and the failure is a missing index
  (`MissingVariadicIndex`, count 1, index 0) rather than a duplicate index.
  See `Scenarios.SameConnectorTwice`.
- A non-homogeneous variadic occurrence skips the consistency check but
  still writes its type into the committed map (line 326). A later
  homogeneous parameter with the same constraint is compared against the
  last occurrence's type, not the first's. See
  `Scenarios.NonHomogeneousCommitsLastType`.
- The unknown-name stage (lines 187-204), the parameter-count check of type
  solving (lines 277-287) and its suffixed-on-non-variadic check (lines
  290-294) can never fire. `iter_edges` has already demanded exactly one
  parameter per base name, and the variadic stage already rejected
  suffixed names of non-variadic parameters (`Validation.DeadChecksNeverFire`).
- A required attribute of unsupported type raises `NotImplementedError`
  outside the `try` that covers schema conversion. That aborts the whole
  generation loop, not just that operator (`Registry.Generate`).
- A required attribute passes `validate` when it was never assigned but its
  schema gives it a default. A required attribute passed to the constructor
  as `None` passes the constructor but fails `validate`
  (`Scenarios.NoneForRequiredAttribute`).
- `find_backward_implementation` matches a node-type selector with
  `isinstance`, so subclasses match too.

## Model

| member | source | states |
|---|---|---|
| Messages.MessagePlural | daceml/onnx/nodes/onnx_op.py:21-35 | the type word carries a plural `s` exactly when more than one name is missing |
| Messages.MessageCount | daceml/onnx/nodes/onnx_op.py:29-35 | the message opens with "<function> missing N", where N is the decimal numeral of the number of names |
| Messages.ParseNatToString | daceml/onnx/nodes/onnx_op.py:31-32 | the count numeral reads back as the count |
| Messages.MessageListsExactlyTheNames | daceml/onnx/nodes/onnx_op.py:21-35 | the single-quoted tokens of the message are exactly the missing names, in order, for one name and for several joined by ", " and ", and " |
| Messages.OneNameMessage | daceml/onnx/nodes/onnx_op.py:21-35 | one missing name gives the count 1, the singular type word and that name alone in quotes: "Add missing 1 required input: 'B'" |
| Messages.TwoNamesMessage | daceml/onnx/nodes/onnx_op.py:21-35 | two missing names give the count 2, the plural type word, and ", and " even between just two names |
| Sorting.SortBy | daceml/onnx/nodes/onnx_op.py:117-122 | `sorted` returns a permutation of its input, ascending by key, with elements of equal key in their input order |
| Sorting.InsertByKeepsTies | daceml/onnx/nodes/onnx_op.py:117-122 | inserting an element ahead of the first element whose key is not smaller puts it at the front of its key group and leaves every other group unchanged |
| Sorting.StableSortIsUnique | daceml/onnx/nodes/onnx_op.py:117-122 | two arrangements that are both ascending by key and keep every key group in the same order are equal, so a stable sort has exactly one possible result |
| Ordering.EdgeKey | daceml/onnx/nodes/onnx_op.py:93-115 | `get_idx` is the position of the parameter named by the connector's base name plus the variadic index |
| Ordering.CheckKeys | daceml/onnx/nodes/onnx_op.py:100-108 | the key computation fails exactly when some edge's base name is carried by zero or several parameters, reporting the first such edge with the number found |
| Ordering.IterEdges | daceml/onnx/nodes/onnx_op.py:83-125 | succeeds exactly when every edge can be keyed; then it returns the in-edges tagged True followed by the out-edges tagged False, each side a permutation of its edges ascending by key, edges of equal key in their input order |
| Ordering.ExpectedNames | daceml/onnx/nodes/onnx_op.py:63-75 | the first `count` ONNX connector names: the parameter names, a Variadic last parameter expanding into `v__0, v__1, ...` |
| Ordering.ConnToEdge | daceml/onnx/nodes/onnx_op.py:76-79 | the dictionary from connector to edge holds the last edge on each connector and nothing for unoccupied ones |
| Ordering.LookupAll | daceml/onnx/nodes/onnx_op.py:81 | the lookup succeeds exactly when every name has an edge and returns them in name order; otherwise the KeyError names an unoccupied connector |
| Ordering.ParamsInOnnxOrder | daceml/onnx/nodes/onnx_op.py:63-81 | returns one edge per expected name, each on that connector, failing exactly when some expected name has no edge; an empty parameter list raises |
| Ordering.OnnxOrderAgreesWithKeyOrder | daceml/onnx/nodes/onnx_op.py:63-125 | on well-formed parameters and edges on distinct expected connectors, `_iter_params_in_onnx_order` returns exactly the `iter_edges` order of that side |
| Validation.CheckDeclared | daceml/onnx/nodes/onnx_op.py:138-151 | passes exactly when every edge's connector is declared on the node; otherwise it reports the first undeclared connector in canonical order |
| Validation.MissingNames | daceml/onnx/nodes/onnx_op.py:153-166 | the Single parameters without an unsuffixed edge, each once and no others |
| Validation.CheckRequired | daceml/onnx/nodes/onnx_op.py:153-185 | passes exactly when every Single parameter has an unsuffixed edge; otherwise it reports the whole missing set with its pluralised message |
| Validation.CheckKnown | daceml/onnx/nodes/onnx_op.py:187-204 | passes exactly when every unsuffixed connector is a declared parameter name; otherwise it names an undeclared one |
| Validation.ScanMeansDistinctlyIndexed | daceml/onnx/nodes/onnx_op.py:218-228 | the loop over the suffixed connector set succeeds exactly when each names a Variadic parameter and no two share an index; it then has seen their index set |
| Validation.CheckContiguous | daceml/onnx/nodes/onnx_op.py:230-235 | with n indices seen, passes exactly when 0..n-1 are all seen; otherwise it reports the smallest missing index and n |
| Validation.CheckVariadic | daceml/onnx/nodes/onnx_op.py:206-263 | the variadic stage passes exactly when the suffixed connectors are distinctly indexed and their indices are contiguous from 0 |
| Validation.CheckNames | daceml/onnx/nodes/onnx_op.py:153-263 | the name stages pass exactly when required parameters are covered, names are known and variadic groups are well indexed; a failure is the first failing stage's |
| Validation.ValidateOrdered | daceml/onnx/nodes/onnx_op.py:138-338 | after ordering, passes exactly when connectors are declared, names are well formed, types solve and required attributes are present |
| Validation.ValidateWith | daceml/onnx/nodes/onnx_op.py:127-338 | `validate` passes exactly when no connector is None, every edge is keyed, and all later stages' predicates hold |
| Validation.Validate | daceml/onnx/nodes/onnx_op.py:127-338 | the corrected `validate`, with the attribute stage reading the node's own schema, passes exactly when the node is well connected under that schema |
| Validation.ValidateAsWritten | daceml/onnx/nodes/onnx_op.py:328-338 | `validate` as written, whose attribute stage reads the last generated schema, passes exactly when the node is well connected under that schema's attributes |
| Validation.AttributeStageDecides | daceml/onnx/nodes/onnx_op.py:328-338 | once every structural stage passes, `validate`'s outcome is its attribute stage's |
| Validation.AsWrittenDiffersOnlyInAttributes | daceml/onnx/nodes/onnx_op.py:328-338 | the as-written and corrected `validate` agree except in which attribute list the last stage checks |
| Validation.KnownAfterKeys | daceml/onnx/nodes/onnx_op.py:187-204 | once every edge is keyed, every unsuffixed name is declared, so the unknown-name stage cannot fail |
| Validation.DeadChecksNeverFire | daceml/onnx/nodes/onnx_op.py:277-294 | `validate` never raises an unknown-argument, parameter-count or suffixed-on-non-variadic error |
| TypeSolving.CheckEdge | daceml/onnx/nodes/onnx_op.py:270-326 | one edge passes exactly when its form fits its parameter, a checked parameter agrees with the committed type, and the type is allowed; then the map commits that type |
| TypeSolving.Solve | daceml/onnx/nodes/onnx_op.py:268-326 | the loop over the canonical edges; any failure is blamed on some edge |
| TypeSolving.CommitIsLastWrite | daceml/onnx/nodes/onnx_op.py:326 | the committed map holds, for each constraint, the type of the last edge written |
| TypeSolving.SolveMeansTypesSolve | daceml/onnx/nodes/onnx_op.py:268-326 | solving succeeds exactly when every edge is accepted against the map built by the edges before it, and then it returns that map |
| TypeSolving.CheckedEdgesAgree | daceml/onnx/nodes/onnx_op.py:304-315 | when every parameter is consistency-checked, solving succeeds only if all edges with one constraint carry one type: the first edge decides |
| Attributes.PropertyFor | daceml/onnx/nodes/onnx_op.py:362-380 | scalar attribute types get a Property, list types a ListProperty, other types none |
| Attributes.GetAttr | daceml/onnx/nodes/onnx_op.py:334-338 | `getattr` yields the assigned value, else a declared property's default, and fails exactly when neither exists |
| Attributes.CheckAttributes | daceml/onnx/nodes/onnx_op.py:328-338 | passes exactly when every required attribute reads as a value; otherwise it reports a missing property or a None value |
| Construction.KwargMap | daceml/onnx/nodes/onnx_op.py:426-427 | the attributes set are exactly the keywords given, each with a value given for it |
| Construction.KwargMapKeepsValues | daceml/onnx/nodes/onnx_op.py:426-427 | a keyword given once is set to the value given |
| Construction.MissingRequired | daceml/onnx/nodes/onnx_op.py:412 | the required attribute names without a keyword, each once and no others |
| Construction.FirstUnknownKeyword | daceml/onnx/nodes/onnx_op.py:419-424 | finds an undeclared keyword exactly when some keyword is undeclared |
| Construction.SingleConnectors | daceml/onnx/nodes/onnx_op.py:392-404 | the initial connectors are exactly the Single parameter names |
| Construction.InitWith | daceml/onnx/nodes/onnx_op.py:391-427 | rejects positional arguments first, then all missing required keywords with the pluralised message, then an unknown keyword; otherwise it builds the node with the Single connectors and the given attributes |
| Construction.Construct | daceml/onnx/nodes/onnx_op.py:391-427 | the corrected constructor succeeds exactly when there are no positional arguments and the keywords cover the required attributes and stay within the declared ones |
| Construction.ConstructAsWritten | daceml/onnx/nodes/onnx_op.py:386-412 | the constructor as written succeeds exactly when the keywords cover the last generated schema's required attributes and stay within the node's own |
| Construction.ConstructedHasRequiredAttributes | daceml/onnx/nodes/onnx_op.py:412-427 | a node built with no None keyword value passes the required-attribute stage of `validate` |
| Construction.AsWrittenUnconstructible | daceml/onnx/nodes/onnx_op.py:412-424 | if the last generated schema requires an attribute the node's schema lacks, the as-written constructor rejects every call |
| Construction.AsWrittenAgreesOnLastSchema | daceml/onnx/nodes/onnx_op.py:386-412 | for the operator generated last, the as-written and corrected constructors coincide |
| Registry.ClassNameInjective | daceml/onnx/nodes/onnx_op.py:431 | distinct operator names give distinct class names |
| Registry.Properties | daceml/onnx/nodes/onnx_op.py:361-384 | succeeds exactly when no required attribute has an unsupported type, declaring one property per supported attribute; otherwise it raises on the first offending attribute |
| Registry.PropertiesAreWhatGetAttrSees | daceml/onnx/nodes/onnx_op.py:361-380 | the class declares a property for a name exactly when attribute lookup on its nodes finds a declared property |
| Registry.Generate | daceml/onnx/nodes/onnx_op.py:346-477 | the loop completes exactly when no converted schema has an unsupported required attribute; then every converted schema is registered under "ONNX" plus its name, and only those |
| Registry.LastSchemaWins | daceml/onnx/nodes/onnx_op.py:476-477 | the class registered for a name is the last schema of that name in the catalog |
| Registry.LastGenerated | daceml/onnx/nodes/onnx_op.py:348-353 | the loop variable ends up holding the last successfully converted schema |
| Registry.LastGeneratedIsRegistered | daceml/onnx/nodes/onnx_op.py:346-477 | the schema left in the loop variable is the one registered under its class name |
| Registry.GetOnnxNode | daceml/onnx/nodes/onnx_op.py:482-493 | `get_onnx_node` succeeds exactly when `has_onnx_node` holds, and otherwise fails with a lookup error naming the operator |
| Registry.LookupFindsCatalogSchema | daceml/onnx/nodes/onnx_op.py:482-493 | an operator is found exactly when the catalog converted a schema of that name, and the class found has that name |
| Backward.FindBackward | daceml/autodiff/base_abc.py:94-111 | returns the first registration, in registration order, whose selector matches and whose predicate accepts; None exactly when there is none |
| Backward.FindBackwardAppend | daceml/autodiff/base_abc.py:104-110 | scanning two registries in a row finds the first one's answer if it has one, else the second's |
| Backward.OpSelectorMatchesExactly | daceml/autodiff/base_abc.py:105-107 | an `op` selector matches exactly the instances of `ONNXOp` whose schema name equals it; on a node where exactly the ONNX operators carry a schema, exactly the nodes with that schema name |
| Backward.NodeTypeSelectorMatchesInstances | daceml/autodiff/base_abc.py:105 | a `node_type` selector matches exactly the instances of that class |
| Backward.DefaultPredicateNeverRefuses | daceml/autodiff/base_abc.py:53-62 | a strategy with the default predicate applies wherever its selector matches |
| Backward.EmptyResultContract | daceml/autodiff/base_abc.py:38-40 | the empty result names no connector, so it honours the gradient-naming contract exactly when no gradient is required |
| Backward.ReluDispatch | daceml/autodiff/base_abc.py:104-111 | a `Relu` node skips a refusing strategy and finds the `Relu` one; a `Sigmoid` node finds none |
| Backward.ReluResultHonoursContract | daceml/autodiff/base_abc.py:71-74 | a result naming `X`'s gradient connector on the backward node honours a request for `X` but not one for `X` and `Y` |
| GraphUtils.EdgeWithName | daceml/util/utils.py:66-98 | succeeds exactly when one edge occupies the connector, returning an edge on it; otherwise the error carries the count |
| GraphUtils.EdgeWithNameMeans | daceml/util/utils.py:76-81 | the lookup succeeds exactly when no other position holds the connector, and returns that position's edge |
| GraphUtils.IsDescContiguous | daceml/util/utils.py:29-39 | a scalar is contiguous; an array is contiguous exactly when each stride is the product of the later extents; other descriptors are an error |
| GraphUtils.ContiguousMeansRecurrence | daceml/util/utils.py:32-36 | contiguity holds exactly when the last stride is 1 and each stride is the next stride times the next extent |
| GraphUtils.ContiguousInnermostStride | daceml/util/utils.py:32-36 | a contiguous array has innermost stride 1 |
| GraphUtils.RowMajorStridesOf | daceml/util/utils.py:33-35 | computes, innermost first, strides that make the array contiguous |
| GraphUtils.DescWithName | daceml/util/utils.py:42-63 | returns the descriptor of the container moved by the connector's only edge, and fails with the edge lookup's error when that fails |
| GraphUtils.DescFailsWithEdge | daceml/util/utils.py:42-63 | when every moved container is known, the descriptor lookup fails exactly when the edge lookup does |
| Scenarios.VariadicGapReported | daceml/onnx/nodes/onnx_op.py:230-235 | variadic inputs at indices 0 and 2 fail with 2 seen and index 1 missing |
| Scenarios.SameConnectorTwice | daceml/onnx/nodes/onnx_op.py:213-235 | two edges on `inputs__2` count once and fail with index 0 missing, not a duplicate |
| Scenarios.NonHomogeneousCommitsLastType | daceml/onnx/nodes/onnx_op.py:304-326 | a non-homogeneous variadic group with types Float32 then Int64 makes a Float32 output of the same constraint conflict with Int64 |
| Scenarios.TypeConflictReported | daceml/onnx/nodes/onnx_op.py:307-315 | `Add` with inputs of Float32 and Int64 fails on `B`, expecting Float32 |
| Scenarios.OnlyAMissingNames | daceml/onnx/nodes/onnx_op.py:153-160 | passing only `A` to `Add` leaves exactly `B` missing |
| Scenarios.AddMissingInputReported | daceml/onnx/nodes/onnx_op.py:153-169 | `Add` with only `A` and `C` connected fails with exactly `B` missing, reported with the one-name message for `B` |
| Scenarios.AddFullyConnectedPasses | daceml/onnx/nodes/onnx_op.py:127-338 | `Add` with `A`, `B` and `C` connected, all Float32, passes `validate` |
| Scenarios.ValidateReadsLastGeneratedSchema | daceml/onnx/nodes/onnx_op.py:330-338 | that passing `Add` node fails the as-written `validate` once a schema requiring `to` was generated last |
| Scenarios.AddConstructs | daceml/onnx/nodes/onnx_op.py:391-427 | `Add` built without keywords has connectors `A`, `B`, `C` and no attributes |
| Scenarios.ConstructReadsLastGeneratedSchema | daceml/onnx/nodes/onnx_op.py:412-424 | after such a schema, the as-written `Add` constructor fails without `to` and rejects `to` as unknown when given |
| Scenarios.NoneForRequiredAttribute | daceml/onnx/nodes/onnx_op.py:412-427 | `to=None` satisfies the constructor but the node then fails the required-attribute stage |

## Left out

- The class-creation plumbing of the generation loop is left out because it is framework metaprogramming: `type(...)`, `dace.library.node`, the ONNX Runtime and pure expansions, `ONNXForward.extensions()` and `globals()`. A node is modelled as a value carrying its schema.
- `expansion` and `expand_node` are left out because they generate code through a library this model does not cover.
- `ONNXSchema.from_onnx_proto` is not part of this model. A catalog entry whose conversion raised is given as `None`, and the log message is dropped.
- `parse_variadic_param` (in `node_utils`) is not part of this model. Connector names arrive already parsed as `Plain(name)` or `Suffixed(base, index)`.
- Element types come from the edge directly instead of `sdfg.arrays[edge.data.data].dtype`, and form an abstract enumeration. Shapes and strides are integers, not symbolic expressions.
- Python `set` iteration order is not modelled. Where the code iterates or indexes a set (missing names, `list(unknown)[0]`, the variadic loop), the model uses first-occurrence order. Every contract is stated independently of that order.
- Exception messages other than the missing-arguments message are left out. Each exception is a structured `OpError` variant carrying the values the message formats.
- `iter_inputs_in_onnx_order` and `iter_outputs_in_onnx_order` are one-line wrappers. They are `Ordering.ParamsInOnnxOrder` with the direction fixed.
- The constructor's `location` keyword and the `LibraryNode` base constructor are left out. The type checks a `Property` performs on assignment are left out too.
- The concrete backward strategies, their `backward` methods, `BackwardContext` and the registry decorator machinery are foreign code. A strategy is an opaque registration whose overridden predicate is a function parameter.
- `paramdec` is left out: it is a decorator factory with no data behaviour to state.
- Backward.ForwardNode: `isinstance` is modelled as membership in the set of class names a node is an instance of. Nothing ties the `ONNXOp` class to carrying a schema name; `Backward.WellFormedNode` states that tie and `Backward.OpSelectorMatchesExactly` is stated with and without it.
- Construction.KwargMap: Python rejects a keyword repeated in one call before `__init__` runs, so that input cannot reach the constructor. The model accepts it anyway and lets the last value win; its contracts speak of keywords given once.
- Backward.HonoursContract states the naming contract the backward doc-comment asks of a strategy's result. No strategy is modelled that could be checked against it.
- GraphUtils.IsDescContiguous compares the strides with the row-major strides by value. Whether the descriptor's strides are stored as a tuple, which never equals a list in Python, depends on DaCe and is not part of this model.
- The end-to-end PyTorch/BERT test, its GPU runs and its floating-point tolerances are left out.

## Findings

| source | as written | input that shows it | evidently intended | confidence | as-written member | corrected member |
|---|---|---|---|---|---|---|
| daceml/onnx/nodes/onnx_op.py:330-338 | `validate` collects the required attributes from `dace_schema`, the module variable of the generation loop, which holds the schema generated last | a fully connected `Add` node, validated after an operator requiring attribute `to` was generated last: `getattr(node, 'to')` raises although `Add` has no attributes | collect them from `self.schema` | high; not executed | Validation.ValidateAsWritten (Scenarios.ValidateReadsLastGeneratedSchema) | Validation.Validate (Validation.AsWrittenDiffersOnlyInAttributes) |
| daceml/onnx/nodes/onnx_op.py:386-412 | the generated `__init__` reads `required_attrs`, a module variable rebound on every loop iteration, so every class checks the last generated schema's required attributes | `ONNXAdd("add")` after an operator requiring `to` was generated last: missing `to`; `ONNXAdd("add", to=1)`: unexpected keyword `to` | each class checks its own schema's required attributes | high; not executed | Construction.ConstructAsWritten (Scenarios.ConstructReadsLastGeneratedSchema, Construction.AsWrittenUnconstructible) | Construction.Construct (Construction.ConstructedHasRequiredAttributes) |
