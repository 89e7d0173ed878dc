# node-detective-amd, modelled in Dafny

node-detective-amd lists the dependencies of an AMD module. It walks the
module's syntax tree and looks at three kinds of call site: top-level
`require` calls, `define` calls and `require` calls. For each one it
sniffs the AMD form: `named`, `deps`, `driver`, `factory`, `rem` or
`nodeps`. It then reads the dependency strings that form declares:
- the array (or single value) in the first argument, or in the second for a named define;
- plus the strings of every `require` call nested inside the definition.

The lists are joined in walk order. Every string is kept at its first
occurrence only. The `skipLazyLoaded` option drops the nested, "lazily
loaded" requires, but never those of the `factory` and `rem` forms.

The model has one module per part of `index.js`:

- `Ast` (`ast.dfy`) holds the syntax-tree nodes the extractor inspects.
  - The walker becomes `PreOrder`, a pre-order list of a subtree's nodes: node first, then children in key order.
  - A walk callback that concatenates onto a running list becomes `Collect`, a left fold over that list.
- `Interfaces` (`interfaces.dfy`) holds the external collaborators, the options and the error values.
  - The parser, the classifier predicates, the form sniffer and the code generator are fields of an `Env` value of function type.
  - `isRequire` has a subset type that holds only of call expressions.
- `Evaluate` (`evaluate.dfy`) models `getEvaluatedValue` and `getElementValues`, with `map` and `filter(Boolean)` written as recursive functions.
- `LazyLoaded` (`lazy.dfy`) models `getLazyLoadedDeps`.
  - It is a method with a loop over the visited nodes, as index.js grows its list during the traversal.
  - The method is proved equal to the fold `LazyLoadedDeps`.
- `Dispatch` (`dispatch.dfy`) models `getDependencies`, the switch on the sniffed form.
- `Unique` (`unique.dfy`) models the final `indexOf`-based filter that removes duplicates.
- `Detective` (`detective.dfy`) models the exported function.
  - `Walk` is the loop of the walker callback, proved equal to the fold `Accumulate`.
  - `Extract` is the whole entry point:
    - an undefined source is an error;
    - the empty string gives the empty list;
    - a parse error is passed on;
    - otherwise the result is the de-duplicated walk, named `Detect`.

## Model

| member | source | states |
|---|---|---|
| `Detective.Extract` | index.js:13-48 | An undefined source, and only an undefined source, gives the `src not given` error. The empty string gives the empty list without a walk. A parser error is returned as it is. Otherwise the result is the de-duplicated list of the tree's dispatched dependencies. |
| `Detective.TreeOf` | index.js:17-22 | The tree the walker walks: a given tree as it is, or the parse of non-empty text. A failure is always a syntax error from parsing text. |
| `Detective.Walk` | index.js:22-42 | The walker loop builds exactly the running list `Accumulate` of the visited nodes: each dispatched node's dependencies are appended in visiting order. |
| `Detective.IsCandidate` | index.js:25-29 | The candidate filter: a node is looked at only if it is a top-level require, a `define` or a `require` call. |
| `Detective.IsSkipped` | index.js:33-35 | The skip rule: a `require` call that is not top-level and whose form is not `rem` is skipped when `skipLazyLoaded` is set. |
| `Detective.Detect` | index.js:22-47 | The tree's result: the running list `Accumulate` of its pre-order nodes, with duplicates removed by `RemoveDuplicates`. |
| `Detective.Dispatched` | index.js:25-35 | The two early returns together: a node is dispatched exactly when it is a candidate and is not skipped. |
| `Detective.Contribution` | index.js:23-41 | What the walker callback adds for one node: `getDependencies` of a dispatched node under its sniffed form, and nothing for any other node (the `deps.length` test appends nothing for an empty result either way). |
| `Detective.Accumulate` | index.js:16-41 | The running list `dependencies`: it starts empty and the contributions of the visited nodes are concatenated onto it in visiting order. |
| `Detective.WellFormed` | index.js:22-67 | Every dispatched node of the tree has the argument its form reads: the condition under which index.js does not fail on `args[1]` or `args[0]` being undefined. |
| `Detective.IgnoredNodeAddsNothing` | index.js:25-35 | Wherever it stands in the walk, a node adds nothing to the running list if it is neither a top-level require nor a `define` nor a `require`. The same holds for a non-top-level `require` of a form other than `rem` when `skipLazyLoaded` is set. |
| `Detective.AccumulateAppend` | index.js:39-41 | The running list of two consecutive runs of visited nodes is the two lists joined. |
| `Detective.AccumulateMembership` | index.js:37-41 | A string is in the running list exactly when `getDependencies` yields it for some dispatched visited node. |
| `Detective.DetectMeaning` | index.js:22-47 | The result has no duplicates. A string is in it exactly when some dispatched node of the tree yields it. The strings are ordered by their first occurrence in the running list. |
| `Detective.SkipOnlyRemoves` | index.js:33-67 | `skipLazyLoaded` only removes dependencies: every string found with it set is found without it, and a tree well formed without it stays well formed with it. |
| `Unique.IndexOf` | index.js:46 | `indexOf` returns -1 exactly when the string is absent. Otherwise it returns a position holding the string. |
| `Unique.IndexOfFirst` | index.js:46 | `indexOf` returns the first occurrence: no occurrence of the string comes before it. |
| `Unique.KeepFirstFrom` | index.js:45-47 | The `indexOf(dep) === idx` filter run over positions `i` onwards: it keeps the string at position `k` exactly when `IndexOf` finds it at `k`. |
| `Unique.KeepFirstFromMembers` | index.js:45-47 | The filter run from position `i` keeps exactly the strings whose first occurrence is at `i` or later. |
| `Unique.KeepFirstFromOrdered` | index.js:45-47 | The filter keeps its strings in the order of their first occurrence. |
| `Unique.RemoveDuplicates` | index.js:45-47 | The filtered list has no duplicates and the same strings as the input, ordered by their first occurrence in the input. |
| `Unique.RemoveDuplicatesIdempotent` | index.js:45-47 | A duplicate-free list is left unchanged, so filtering twice gives the same result as filtering once. |
| `Unique.RemoveDuplicatesUnique` | index.js:45-47 | The three properties of the filter determine its result: any duplicate-free list with the same strings, ordered by first occurrence, equals it. |
| `Unique.SortedByFirstEqual` | index.js:45-47 | Two duplicate-free lists with the same strings, both ordered by first occurrence in the same list, are equal. |
| `Dispatch.GetDependencies` | index.js:56-75 | The switch on the form. `named` reads argument 1 and `deps`/`driver` read argument 0, each followed by the inner scan unless `skipLazyLoaded` is set. `factory`/`rem` give the inner scan. Every other form gives `[]`. |
| `Dispatch.HasDeclaredArg` | index.js:61-67 | The crash condition, negated: a `named` node has at least two arguments and a `deps` or `driver` node at least one; other forms need nothing. |
| `Dispatch.DeclaredDependenciesFirst` | index.js:61-67 | For `named` the declared dependencies are read from argument 1, and for `deps` and `driver` from argument 0. They come first in the result. With `skipLazyLoaded` they are the whole result; without it they are followed by exactly the inner scan of the node. |
| `Dispatch.InnerFormsIgnoreSkip` | index.js:68-71 | `factory` and `rem` yield exactly the inner scan of the node, whatever `skipLazyLoaded` is. |
| `Dispatch.OtherFormsYieldNothing` | index.js:72-74 | `nodeps` and unrecognised forms yield the empty list. |
| `Dispatch.SkipGivesPrefix` | index.js:60-74 | For every form, the result with `skipLazyLoaded` set is a prefix of the result without it. |
| `Dispatch.DependencyProvenance` | index.js:56-75 | Every dependency comes from the declared argument or from a `require` call inside the node's subtree. |
| `LazyLoaded.RequireDeps` | index.js:91-103 | What one visited node adds to the inner scan. A `require` call with arguments adds the element values of an array first argument, or the single evaluated value of any other first argument. Every other node adds nothing. |
| `LazyLoaded.LazyDepsOf` | index.js:90-105 | The inner scan's list after visiting a run of nodes: the `RequireDeps` of each, concatenated in visiting order. |
| `LazyLoaded.LazyLoadedDeps` | index.js:83-108 | The value of `getLazyLoadedDeps(node)`: the scan over the subtree's pre-order nodes, the node itself first. |
| `LazyLoaded.GetLazyLoadedDeps` | index.js:83-108 | The traversal loop returns exactly the fold `LazyLoadedDeps` of the subtree's visited nodes. |
| `LazyLoaded.RequireDepsAreElementValues` | index.js:97-103 | For a `require` call with arguments, the array and non-array branches together give the element values of its first argument. |
| `LazyLoaded.LazyDepsOfAppend` | index.js:90-105 | The scan follows traversal order: scanning two consecutive runs of nodes joins their results. |
| `LazyLoaded.ArgumentlessRequireIgnored` | index.js:91-94 | A `require` call without arguments contributes nothing, wherever it is visited. |
| `LazyLoaded.LazyScanStartsAtNode` | index.js:90-104 | The traversal includes the node it starts from, so that node's own `require` values come first. |
| `LazyLoaded.LazyLoadedDepsMembership` | index.js:90-105 | A string is in the scan's result exactly when some `require` call of the subtree contributes it. |
| `LazyLoaded.ComputedRequireKeepsEmptyString` | index.js:101-103 | The single value of a non-array first argument is not filtered, so a computed `require(f())` inside the subtree puts `''` in the result. |
| `LazyLoaded.NoRequireNoLazyDeps` | index.js:90-105 | A subtree without `require` calls yields the empty list. |
| `Evaluate.GetEvaluatedValue` | index.js:131-135 | A literal's value for `Literal`/`StringLiteral` nodes, `''` for a call expression, and the code generator's text of the node otherwise. |
| `Evaluate.EvaluateAll` | index.js:118-119 | `elements.map(getEvaluatedValue)`: each element's evaluated value, in array order. |
| `Evaluate.KeepTruthy` | index.js:120 | `filter(Boolean)` on strings: the list without its empty strings, in order. |
| `Evaluate.GetElementValues` | index.js:114-125 | For an array expression, its evaluated elements with the empty strings removed. For any other node, the one-element list of its evaluated value. |
| `Evaluate.GeneratorOnlyFallback` | index.js:131-135 | Literals give their value and call expressions give `''`. The code generator decides the result exactly for the other nodes: a node's value is independent of the generator iff it is a literal or a call. |
| `Evaluate.EvaluateAllAt` | index.js:118-119 | The map has one value per element, the value of that element, in array order. |
| `Evaluate.EvaluateAllAppend` | index.js:118-119 | Mapping a concatenation maps each part. |
| `Evaluate.KeepTruthyMultiset` | index.js:120 | `filter(Boolean)` removes every empty string and keeps every other string as often as it occurs. The result is no longer than the input. |
| `Evaluate.KeepTruthyMember` | index.js:120 | A string survives the filter exactly when it is non-empty and in the input. |
| `Evaluate.KeepTruthyAppend` | index.js:120 | The filter keeps order: filtering a concatenation filters each part. |
| `Evaluate.KeepTruthyIdentity` | index.js:120 | The filter leaves a list unchanged exactly when the list holds no empty string. |
| `Evaluate.ElementValuesMeaning` | index.js:114-125 | For an array: no empty string, and at most one value per element. For any other node: exactly one value, its evaluated value, which may be `''`. |
| `Evaluate.ElementValuesMember` | index.js:116-120 | For an array, the values are exactly the non-empty evaluated values of its elements. |
| `Evaluate.ElementValuesAppend` | index.js:116-120 | Array order is kept: the values of a concatenated array are the values of the parts, joined. |
| `Evaluate.ComputedElementDropped` | index.js:118-120 | A computed (call expression) element of a dependency array is dropped: inserting one anywhere leaves the values unchanged. |
| `Evaluate.LiteralArrayValues` | index.js:116-120 | An array of non-empty string literals gives exactly those strings, in order. |
| `Ast.PreOrder` | index.js:90 | The nodes of a subtree in the walker's visiting order: the node itself, then the walks of its children in key order (`callee` before `arguments`). |
| `Ast.Arguments` | index.js:62-66 | `node.arguments`, defaulting to `[]`: a call expression's arguments, and none for any other node. |
| `Ast.Collect` | index.js:39-41 | The `concat` accumulation of a walk callback: the callback's results for the visited nodes, joined in visiting order, starting from the empty list. |
| `Ast.PreOrderUnfold` | index.js:90 | The traversal visits a node first and then each of its children's subtrees, in key order. |
| `Ast.PreOrderComplete` | index.js:90 | The traversal is complete: whenever it visits a node it also visits every child of that node. |
| `Ast.CollectMembership` | index.js:39-41 | A string is in the joined callback results exactly when the callback yields it for some visited node. |
| `Ast.CollectSkipsEmpty` | index.js:39-41 | A visited node for which the callback yields nothing can be removed from the walk without changing the joined result. |

## Left out

- Parsing with esprima-fb is not modelled. The parser is the `Env.parse` parameter: it returns a tree or the message of a syntax error. The entry point passes that on as a syntax error, never as `src not given`.
- The traversal of node-source-walk is modelled as the pre-order list `PreOrder`. The walker's update of each node's `parent` field is left out, because the extractor never reads it.
- The heuristics of ast-module-types and get-amd-module-type are not modelled. `isTopLevelRequire`, `isDefine`, `isRequire` and `fromAST` are `Env` parameters, and `fromAST`'s result is the `Form` tag.
  - The only thing assumed of them is that `isRequire` holds of call expressions only, as ast-module-types checks.
- escodegen is the `Env.generate` parameter, a total function from nodes to strings.
- Only string literal values are modelled.
  - Numeric, boolean, `null` and regular-expression literals are left out.
  - So is the effect `filter(Boolean)` has on such values (`0`, `false` or `null` are dropped as well).
- Array holes (`null` elements) are left out, since `getEvaluatedValue` on them fails in index.js.
- Run-time failures on malformed trees are preconditions, not modelled errors. A `named` define without a second argument, or a `deps` or `driver` define without a first one, makes index.js read a property of `undefined`.
  - `Dispatch.GetDependencies` requires `HasDeclaredArg`.
  - `Detective.Extract` and `Detective.Detect` require the tree to be `WellFormed`: every dispatched node has that argument.
  - `Detective.Contribution` gives `[]` for such a node, a case the precondition excludes.
- `Ast.Arguments` reads the arguments of call expressions only. In index.js, `node.arguments || []` also reads the arguments of other node types that carry them, such as `NewExpression`. The model therefore lacks them. This matters only if a classifier dispatches such a node under a form that declares dependencies.
- The options object is reduced to the truth value of `skipLazyLoaded`; `options || {}` makes a missing object behave as `false`.
- The `src` argument is modelled as either text or an already-built tree. For text, the JavaScript type test and the exception mechanism are left out.
