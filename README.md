# Hy hoisting mangles, modelled in Dafny

This models the hoisting rewrite rules of the Hy compiler (`hy/core/mangles.py`).
Some Hy forms cannot sit where a value is expected in the Python AST Hy emits.
The rules find such forms and rewrite them:

- `HoistableMangle.should_hoist` decides, from the ancestor stack, the scope
  frame and a rule's list of transparent heads (`ignore`), whether the visited
  node must be moved out.
  Quoted data is never touched.
  The walk stops `false` at the scope frame, passes over expressions headed by
  an ignored form, and stops `true` at any other frame.
- `FunctionMangle` hoists a nested `fn` literal.
  It mints `_hy_hoisted_fn_N` from a per-instance counter.
  It hands `(def _hy_hoisted_fn_N (fn ...))` to the scope's hoist buffer.
  It leaves the name symbol in the literal's place.
- `IfMangle` turns a nested `if` into `((fn [] (if ...)))`, a call of a
  nullary closure.
  The `fn` rule can then hoist that closure on a later pass.

The model also covers `flatten_literal_list` from `hy/util.py`.
It yields the leaves of nested plain Python lists in order.
It descends only into values whose type is exactly `list`.

Layout:

- `nodes.dfy`: the model objects (`Node`) with a source position, and stack frames.
  Each frame carries an identity.
- `hoisting.dfy`: `should_hoist`, as a pure function and as the source's two-loop scan.
  Also the lemmas that pin down its answer.
- `naming.dfy`: the names `unique_name` mints, and the fact that they read back as their counter.
- `function_mangle.dfy`: the `FunctionMangle` class (`series`, the hoist buffer, `unique_name`, `visit`).
- `if_mangle.dfy`: `IfMangle.visit`, plus lemmas on how the two rules and the
  hoisting test interact across passes.
- `literal_list.dfy`: `flatten_literal_list`.

Modelling choices:

- `self.scope` is compared by identity (`is`).
  So frames are `Frame(id, node)` and the scope is an identity.
  Structural equality of nodes is never used for it.
  The stack is walked from index 0, as the source iterates it.
  Nothing assumes whether index 0 is the innermost or the outermost frame.
- A Python `==` between a model object and a `str` is true for symbols and for
  the other `str`-based models (`HyString`, `HyKeyword`).
  So `Nodes.StrValue` returns the text of both `Sym` and `Str` nodes.
  As a result, an expression headed by the string literal `"quote"` also stops
  hoisting, as it does in the code.
- The stack and scope that the traversal driver keeps in `self.stack` and
  `self.scope` are parameters of `should_hoist` and of both `visit`s.
  `self.hoist` appends to the `hoisted` field of `FunctionMangle`.
- `replace(source)` is modelled as copying `source`'s position onto the node it
  is called on, and nothing else.
- The transparent heads of `FunctionMangle` are spelled as in the code, with
  `decorate_with` using an underscore.
- The code calls `replace` only on the outer call of `IfMangle.visit`.
  What `replace` does to children is not modelled, so the inner closure's position is left unstated.
  The model builds it with `NoPos`.

## Model

| member | source | states |
|---|---|---|
| `Nodes.StrValue` | hy/core/mangles.py:45-46 | a node equals some `str` under `==` exactly when it is a symbol or another `str`-based model, and then it equals exactly that node's own text |
| `Nodes.HeadedBy` | hy/core/mangles.py:81-83 | a node is headed by a form iff it is a non-empty expression whose first element is a symbol or `str` model with exactly that text |
| `Nodes.Replace` | hy/core/mangles.py:86 | `replace` gives the target the source node's position and leaves everything else about the target unchanged |
| `Hoisting.Transparent` | hy/core/mangles.py:53-56 | a frame is passed over iff it is an expression headed by one of the `ignore` forms |
| `Hoisting.Walk` | hy/core/mangles.py:49-58 | the walk answers true only if some frame of the stack is neither the scope nor transparent |
| `Hoisting.ShouldHoist` | hy/core/mangles.py:34-58 | true only when no frame is quoted, the stack is non-empty and its first frame is not the scope |
| `Hoisting.ShouldHoistScan` | hy/core/mangles.py:34-58 | the source's two early-return loops compute exactly `ShouldHoist`: no quoted frame, and the walk from index 0 stops at a nesting frame |
| `Hoisting.QuoteForbidsHoisting` | hy/core/mangles.py:44-47 | a quote-headed expression at any index of the stack gives false, whatever the scope and the ignore list |
| `Hoisting.ScopeReachedGivesFalse` | hy/core/mangles.py:49-56 | reaching the scope frame (by identity) after only transparent non-scope frames gives false |
| `Hoisting.NestingFrameGivesTrue` | hy/core/mangles.py:49-57 | with no quote, the first frame that is neither the scope nor a non-empty expression headed by an ignored form gives true |
| `Hoisting.ExhaustedWalkGivesFalse` | hy/core/mangles.py:49-58 | an empty stack, or one of only transparent non-scope frames, gives false |
| `Hoisting.NonTransparentParentHoists` | hy/core/mangles.py:53-57 | a list literal or an empty expression as the first frame (not the scope) forces hoisting when nothing is quoted |
| `Hoisting.ShouldHoistCharacterised` | hy/core/mangles.py:34-58 | both directions: hoist iff nothing is quoted and some nesting frame has only transparent non-scope frames before it |
| `Hoisting.MoreTransparencyHoistsLess` | hy/core/mangles.py:53-57 | a larger ignore list says hoist only where a smaller one does too |
| `Naming.Decimal` | hy/core/mangles.py:75 | `%s` of a counter value is a non-empty string of decimal digits that starts with `0` only for the value 0 (no leading zeros) |
| `Naming.ParseDecimalOfDecimal` | hy/core/mangles.py:75 | reading the decimal numeral back gives the counter value |
| `Naming.HoistedName` | hy/core/mangles.py:75 | a minted name is the prefix `_hy_hoisted_fn_` followed by at least one decimal digit and nothing else |
| `Naming.HoistedNameRoundTrip` | hy/core/mangles.py:75 | every minted name starts with `_hy_hoisted_fn_` and reads back as the counter it was made from |
| `Naming.HoistedNameInjective` | hy/core/mangles.py:73-75 | two counter values give the same name iff they are equal |
| `Naming.FirstHoistedName` | hy/core/mangles.py:71-75 | the first name minted after construction is `_hy_hoisted_fn_1` |
| `FunctionMangling.MintedInOrderDistinct` | hy/core/mangles.py:73-75 | definitions named from strictly increasing counter values have pairwise distinct names |
| `FunctionMangling.FunctionMangle.constructor` | hy/core/mangles.py:70-71 | a new instance has counter 0 and has hoisted nothing |
| `FunctionMangling.FunctionMangle.UniqueName` | hy/core/mangles.py:73-75 | raises `series` by exactly 1, returns the name for the new value, and keeps the invariant that hoisted names are distinct |
| `FunctionMangling.FunctionMangle.Visit` | hy/core/mangles.py:67-92 | when a non-empty `fn` expression must be hoisted: `series` goes up by 1, exactly one `(def name tree)` holding the original tree is appended, its name is new, and the same name is returned; both new nodes take the tree's position; otherwise returns no rewrite and changes nothing |
| `IfMangling.Unthunk` | hy/core/mangles.py:112-114 | reference inverse of the `if` rewrite: what it recovers is an element of the single closure of a one-element call, and that closure is headed by the symbol `fn` |
| `IfMangling.UnthunkRecoversBody` | hy/core/mangles.py:112-114 | `Unthunk` gives back the body of any `((fn [] body))`, whatever positions its nodes carry |
| `IfMangling.Visit` | hy/core/mangles.py:102-116 | rewrites iff the node is a non-empty `if` expression and `should_hoist` over `foreach`/`do` holds; the result is a one-element call whose closure, headed by the symbol `fn` with an empty parameter list, has the original tree as its only body, at the tree's position |
| `RuleInterplay.QuotedDataNeverRewritten` | hy/core/mangles.py:44-47 | under a quoted frame neither rule rewrites anything |
| `RuleInterplay.FunctionContextRewritesIf` | hy/core/mangles.py:67-102 | since `foreach`/`do` are among the `fn` rule's ignored heads, an `if` is rewritten wherever an `fn` would be hoisted |
| `RuleInterplay.IfThunkIsHoistedNext` | hy/core/mangles.py:81-83 | the closure made by an `if` rewrite is hoisted by the `fn` rule when its call is the first frame the walk meets, is not the scope, and nothing outside it is quoted |
| `RuleInterplay.HoistedDefinitionIsStable` | hy/core/mangles.py:49-56 | an `fn` inside a hoisted `(def name fn)` placed directly in its scope is not hoisted again, whatever positions the `def` and its head symbol carry |
| `RuleInterplay.ReplacementNameIsStable` | hy/core/mangles.py:81-83 | the symbol left by an `fn` rewrite is rewritten by neither rule |
| `RuleInterplay.FunctionAsArgument` | hy/core/mangles.py:70-92 | a fresh `FunctionMangle` visiting `fn` in `(print (fn [x] x))` returns `_hy_hoisted_fn_1` at the literal's position and its buffer then holds exactly `(def _hy_hoisted_fn_1 (fn [x] x))` |
| `RuleInterplay.ConditionalAsArgument` | hy/core/mangles.py:107-116 | for `(if a b c)` as the argument of `print`, the replacement node the rule returns is `((fn [] (if a b c)))` at the `if`'s position |
| `RuleInterplay.ConditionalAtScopeTop` | hy/core/mangles.py:49-51 | in `(def f (fn [] (if a b c)))`, with the `fn` expression's frame (the first one) as the scope, the `if` is not rewritten |
| `RuleInterplay.QuotedFunctionLiteral` | hy/core/mangles.py:44-47 | `(quote (fn [] 1))`: the quoted literal is not hoisted |
| `LiteralList.Flatten` | hy/util.py:46-52 | nothing yielded is a plain `list` |
| `LiteralList.FlattenAppend` | hy/util.py:47-52 | flattening a concatenation is the concatenation of the flattenings |
| `LiteralList.DepthFirst` | hy/util.py:47-52 | reference definition: a work-list depth-first traversal, whose output holds no plain list |
| `LiteralList.FlattenIsDepthFirst` | hy/util.py:47-52 | the output equals a depth-first, left-to-right traversal that uses an explicit work list |
| `LiteralList.FlattenWithoutPlainLists` | hy/util.py:51-52 | an input with no plain lists is yielded unchanged, element for element |
| `LiteralList.FlattenIdempotent` | hy/util.py:47-52 | flattening the output again gives the same sequence |
| `LiteralList.LeafYieldedWhole` | hy/util.py:48-52 | a non-`list` value, a Hy model list included, is yielded whole at its place |
| `LiteralList.PlainListSpliced` | hy/util.py:48-50 | a nested plain list contributes its own flattening at its place |

## Left out

- The traversal driver, the `Mangle` base class and the fixpoint loop (`hy/mangle.py` is not part of this model).
  The stack, the scope and the hoist buffer they supply are parameters and a field here.
  The model does not show that the fixpoint terminates or that a converged tree is stable as a whole.
  It only proves the stability of single shapes.
- `HyObject.replace` is not part of this model.
  Only its effect of copying the position onto the node it is called on is modelled.
  Any copying onto children is not modelled.
  Two contracts depend on this choice.
  `FunctionMangling.FunctionMangle.Visit` states that the `def` symbol has no position and that the descendants of `tree` are unchanged.
  `IfMangling.Visit` builds the inner closure without a position.
- Object sharing in `FunctionMangle.visit` (hy/core/mangles.py:85-89) is not modelled.
  The same `new_name` object is both the returned replacement and the second element of the `def`, and `tree` itself moves into the `def`.
  Nodes are values here, so that aliasing is lost.
- `flatten_literal_list` (hy/util.py:47-50) raises `RecursionError` on a cyclic or very deeply nested plain list.
  The model's lists are finite and acyclic, with unbounded recursion depth, so that error is not modelled.
- The registration of the two rules in `hy.mangle.MANGLES` (hy/core/mangles.py:119-120) is module-level plumbing with no behaviour of its own.
- `IfMangle.series` (hy/core/mangles.py:104-105) is set to 0 and never used again.
  The model has no field for it.
  `IfMangling.Visit` is a pure function and changes no state.
- `temporary_attribute_value` (hy/util.py:32-43) is left out.
  It is a context manager built on `getattr`/`setattr` and exception handling, and it silently swallows exceptions.
- The `str_type` switch on the interpreter version (hy/util.py:26-29) is left out, because it is an environment check.
- A minted name is only shown distinct from the other names the same instance mints.
  The code does not stop a program from using a symbol spelled `_hy_hoisted_fn_1` itself, so no such guarantee is stated.
- `flatten_literal_list` is a lazy generator.
  The model returns the whole sequence it would yield.
