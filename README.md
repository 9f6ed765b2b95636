# Dead-callable detector, modelled in Dafny

The tool walks a Python project and looks for callables (classes, functions
and methods) that are defined but never called. It has two parts:

- **The visitor** (`Visitor`, an `ast.NodeVisitor`) walks one parsed file and
  fills six containers:
  - the callables the file defines: classes, functions, and `Class.method` paths;
  - the dotted paths of every call;
  - the line of each method definition;
  - the imported names;
  - the import aliases;
  - the targets of assignments from calls.

  Its `report` then drops every definition that the file itself calls. It sets
  aside calls that resolve within the file (local definitions, bare built-in
  names, aliased calls). Aliased calls are re-added in their de-aliased form.
- **The pipeline** (`PythonPipeline`):
  - walks the directory tree, skipping ignored and hidden directories;
  - keeps the `.py` files and gives each a dotted module name;
  - runs the visitor on every file;
  - keeps the files that still have uncalled definitions;
  - projects each kept file to those definitions.

## Modules

- `Results`: option and result values, plus the two faults the visitor can
  raise. Reading `.id` on a call root that is not a name is `RootNotName`.
  Reading `.id` on an assignment target that is not a name is `TargetNotName`.
- `Strings`: the Python `str` operations the tool relies on, with Python's
  semantics: `startswith`, `endswith`, `split(sep)[0]`, `split(c)`, `join`,
  `replace`.
- `Syntax`: the tagged syntax tree. The node kinds the visitor inspects are
  their own constructors. Every other node kind keeps its children, so the
  generic walk still reaches what is nested inside it.
- `Extraction`: what one visitor run computes, as pure functions over a
  value snapshot of the six containers. It holds every lemma about calls,
  definitions, imports, assignments and the report.
- `Visitors`: the `Visitor` class. Its fields are the six containers. Its
  methods update them in place, and each method is proved to leave exactly
  the state the matching `Extraction` function computes. A method that
  returns a fault has raised.
- `Pipeline`: the helpers of `main_v2.py`. The directory walk and the parser
  are inputs: a walk is the sequence of `(root, files)` steps, and parsing is
  a function from a path to a tree, or `None` on a syntax error.

## Model

| member | source | states |
|---|---|---|
| Visitors.Visitor.constructor | src/true_detector/visitor.py:5-11 | all six containers start empty |
| Visitors.Visitor.Visit | src/true_detector/visitor.py:13-63 | dispatching one statement to its handler (or to the generic walk) leaves the state the walk specification gives, or raises the fault it gives |
| Visitors.Visitor.VisitClassDef | src/true_detector/visitor.py:13-23 | adds the class and `Class.m` for every function directly in its body, records each such method's line (the last definition of a name wins), skips other body statements, then walks the node |
| Visitors.Visitor.VisitFunctionDef | src/true_detector/visitor.py:25-29 | adds the bare name unless a method of that name was recorded at this very line (a recorded line 0 counts as absent), then walks the node |
| Visitors.Visitor.VisitCall | src/true_detector/visitor.py:31-37 | records the callee's id or its reconstructed dotted path, then walks the call's children; raises when the callee chain is not rooted at a name |
| Visitors.Visitor.VisitAssign | src/true_detector/visitor.py:39-49 | raises when a target is not a name; for a call value, appends the target names to the entry of the callee's path; in every case then walks the node |
| Visitors.Visitor.VisitImport | src/true_detector/visitor.py:51-55 | records every imported name and binds each non-empty alias to its name |
| Visitors.Visitor.VisitImportFrom | src/true_detector/visitor.py:57-63 | records `module.name` for every entry (`None.name` for a relative import without a module) and binds each non-empty alias to it |
| Visitors.Visitor.GenericVisit | src/true_detector/visitor.py:23 | the generic walk visits a statement's header expressions and then its nested statements, stopping at the first fault |
| Visitors.Visitor.VisitStmts | src/true_detector/visitor.py:23 | visits statements in order; the first fault ends the walk |
| Visitors.Visitor.VisitExpr | src/true_detector/visitor.py:37 | the walk of an expression adds exactly the call targets the expression holds, in pre-order, or raises the first fault |
| Visitors.Visitor.GenericVisitExpr | src/true_detector/visitor.py:37 | the generic walk of an expression adds the call targets of its children |
| Visitors.Visitor.VisitExprs | src/true_detector/visitor.py:37 | walks expressions in order, adding their call targets |
| Visitors.Visitor.CreateCallablePath | src/true_detector/visitor.py:65-72 | the loop that collects attributes from the outside in and joins them reversed returns the chain's root-first dotted path, or raises on a root that is not a name |
| Visitors.Visitor.Report | src/true_detector/visitor.py:74-92 | in any iteration order: the definitions become the uncalled ones; the calls lose the used ones and gain the de-aliased ones; the other containers are unchanged; both sets are returned |
| Extraction.PathOfChain | src/true_detector/visitor.py:65-72 | the chain `root.a1...an` has the path `"root.a1...an"` |
| Extraction.PathOnlyOfChains | src/true_detector/visitor.py:68-71 | a path exists exactly when the chain's root is a name, and the chain is then rebuilt from the path's parts |
| Extraction.CallTargetIsPath | src/true_detector/visitor.py:32-36 | the `id` branch of `visit_Call` agrees with the path reconstruction |
| Extraction.ExprCallsAreCallSites | src/true_detector/visitor.py:31-37 | the walk of an expression succeeds exactly when every callee in it is rooted at a name, and then records exactly the paths of its callees |
| Extraction.ExprsCallsAreCallSites | src/true_detector/visitor.py:31-37 | the same for a list of expressions |
| Extraction.RegisterClassEffect | src/true_detector/visitor.py:13-22 | visiting a class adds the class and exactly its direct methods' paths, records each method at the line of its last definition, and changes nothing else |
| Extraction.RegisterMethodsCallables | src/true_detector/visitor.py:17-21 | the body loop adds exactly the `Class.m` paths of the direct function definitions |
| Extraction.RegisterMethodsLines | src/true_detector/visitor.py:20-22 | after the body loop, each direct method name maps to the line of its last definition; other names keep their lines |
| Extraction.DirectMethodNotBare | src/true_detector/visitor.py:13-29 | through the real walk of a class: the body's generic walk reaches a method in the state its earlier siblings left; when it is the last definition of its name, at a non-zero line, with no class defined before it, that state still holds its line, so its visit only walks its children and it is not also registered bare |
| Extraction.WalkStmtsSplit | src/true_detector/visitor.py:23 | walking `a + b` walks `a`, then `b` from the state `a` left, and stops at `a`'s fault |
| Extraction.WalkStmtsKeepsLines | src/true_detector/visitor.py:22 | statements that define no class, at any depth, leave every recorded method line unchanged |
| Extraction.NestedClassShadowsMethod | src/true_detector/visitor.py:13-29 | a nested class defined earlier with a method of the same name records its own line, so the outer method is registered both as `C.m` and bare as `m` |
| Extraction.BindingsImports | src/true_detector/visitor.py:51-55 | the import loop adds exactly the imported names and changes only the import containers |
| Extraction.BindingsAliases | src/true_detector/visitor.py:51-55 | an alias is bound exactly when some entry carries it, and then to the name of its last entry; unbound aliases keep their old targets |
| Extraction.ImportFromNames | src/true_detector/visitor.py:57-63 | `from M import N` records `"M.N"`, with `"None"` as M when there is no module, and binds the same aliases as the qualified plain import |
| Extraction.AssignEffect | src/true_detector/visitor.py:39-48 | a non-name target raises first; a non-call value changes nothing; a call value appends the target ids to its path's entry, after the names already there |
| Extraction.WalkStmtsPreserves | src/true_detector/visitor.py:13-63 | a successful walk never removes an element or a key, and keeps every alias non-empty and bound to a recorded import |
| Extraction.DottedCallSurvives | src/true_detector/visitor.py:83-90 | a dotted call that is no local definition and whose head is no alias stays pending |
| Extraction.BuiltinDropped | src/true_detector/visitor.py:83-85 | an undotted call that is not imported is dropped, unless its de-aliased form re-adds it |
| Extraction.DealiasStartsWithTarget | src/true_detector/visitor.py:86-89 | when aliases are non-empty, a rewritten call starts with the alias's target |
| Extraction.AliasTransparency | src/true_detector/visitor.py:86-91 | with `pm` bound to `pkg.mod`, the call `pm.func` is rewritten to `pkg.mod.func` when `pm` does not occur again in the rest of the call |
| Extraction.DealiasRewritesEveryOccurrence | src/true_detector/visitor.py:88 | the rewriting replaces every occurrence of the alias in the call, not only the head |
| Extraction.PendingCallsAccounted | src/true_detector/visitor.py:74-92 | each call a file leaves pending was recorded and not resolved locally, or starts with something the file imports |
| Extraction.ClassDefinitionRecorded | src/true_detector/visitor.py:13-22 | a class at the top of the walked statements is recorded with its direct methods' paths, and they stay recorded to the end of the walk |
| Extraction.DefinitionsSurviveUncalled | src/true_detector/visitor.py:74-92 | a definition survives its own file exactly when no call in the file names it, and no definition is invented; every top-level class and each of its direct methods is a definition, so it is reported exactly when the file never calls it |
| Strings.FirstPiece | src/true_detector/visitor.py:83 | `split(sep)[0]` is the prefix before the first occurrence of the separator, or all of the string |
| Strings.FirstPieceWhole | src/true_detector/visitor.py:84 | the head of a call is the whole call exactly when the call has no dot |
| Pipeline.ComponentsJoin | src/true_detector/main_v2.py:72 | the `"/"`-separated components, joined back with `"/"`, give the directory |
| Pipeline.IgnoredSkipsSubtree | src/true_detector/main_v2.py:72-73 | an ignored directory name skips that directory and every directory below it |
| Pipeline.HiddenOnlyAtTheEnd | src/true_detector/main_v2.py:72-73 | outside ignored names, a directory is skipped exactly when its last component starts with `.` or `__`, so directories below a hidden one are walked |
| Pipeline.FilterFilesByExt | src/true_detector/main_v2.py:83-94 | returns, for every kept file in order, the path `root/file` and the module `root.stem`, where `stem` is the name before the first occurrence of the extension; the two lists are equally long |
| Pipeline.KeptExactly | src/true_detector/main_v2.py:86-87 | a file is kept exactly when it is one of the files and ends with the extension |
| Pipeline.KeptConcat | src/true_detector/main_v2.py:86-94 | keeping distributes over concatenation, so the kept files keep their input order |
| Pipeline.ModuleStem | src/true_detector/main_v2.py:91-92 | the module of `stem + ext + rest` is `root.stem` when the extension does not occur earlier, so `my.py.py` gives module `my` |
| Pipeline.CollectFiles | src/true_detector/main_v2.py:67-80 | paths and modules are those of the non-skipped directories' source files, in walk order, one module per path |
| Pipeline.CollectedAreSources | src/true_detector/main_v2.py:70-78 | every collected path is `root/file` for a `.py` file of a walked directory that is not skipped |
| Pipeline.SourcesAreCollected | src/true_detector/main_v2.py:70-78 | every `.py` file of a walked directory that is not skipped is collected |
| Pipeline.SearchExecutables | src/true_detector/main_v2.py:106-117 | a fresh visitor, walking the module body and reporting, returns exactly the file's extraction; an unparsed file yields the empty result |
| Pipeline.CollectExecutableNames | src/true_detector/main_v2.py:98-104 | when no search raises, the result maps exactly the files whose callables are non-empty to their results; when one raises, its fault propagates |
| Pipeline.UnparsedNeverAnalyzed | src/true_detector/main_v2.py:98-113 | a file with a syntax error is never kept for analysis |
| Pipeline.CountUsages | src/true_detector/main_v2.py:119-123 | the keys are the input's keys; each maps to that file's callables, or to the empty set when the file has none |
| Pipeline.Process | src/true_detector/main_v2.py:41-46 | the run succeeds exactly when every collected file's walk succeeds; it then reports exactly the collected, parsing files whose uncalled definitions are non-empty, each with those definitions |
| Pipeline.PipelineReport | src/true_detector/main_v2.py:49 | a requested name is reported exactly when no usage of it was found |

## Left out

- Interactive input (`click.prompt`/`click.echo`), the `main` entry point and the printing in `report` and `_save_results`: user interface and console output.
- `os.walk`: the walk is an input, a sequence of `(root, files)` steps in the order the walk yields them. The directory names of each step are not used by the code and are not modelled.
- File reading and `ast.parse`: parsing is an input returning a tree or `None`. A syntax error gives the empty result, as in the source.
- The parser's own node classes. Only names, attribute accesses, calls, class and function definitions, assignments and the two import forms are told apart. Every other node, including `async def`, is a generic node with its children, which is how `ast.NodeVisitor` treats it.
- The field order inside a generic node: header expressions (decorators, bases, defaults, annotations) are visited before the body. Expressions only add calls, so the order matters only for which fault is reported when a header and the body would both raise.
- `Visitors.Visitor.Visit`: after a fault, the visitor's state is left unspecified, because the exception discards the visitor.
- `Pipeline.FilterFilesByExt`: requires a non-empty extension. Python raises ValueError on `split("")`, and the only caller passes `.py`.
- `Pipeline.CollectExecutableNames`: when a search raises, it states only that the fault comes from some file, not that it comes from the first failing file in order.
- `Pipeline.Process`: when the run raises, it does not say which fault is propagated.
- The second `_search_executables` call in `_collect_executable_names` is taken to give the same result as the first, since the search is a function of the file.
- The `Node` class (unused), the unreachable `return` after `_filter_files_by_ext`'s loop, and the unused `concurrent.futures` import.
- `Attributes`, `CallableListParamType` and `AbstractPipeline` are not part of this model. The pipeline context's fields are passed as parameters, and `found_callable_usage` is taken as given, since neither main_v2.py nor visitor.py assigns it.
- The code has no cross-file resolution step. A definition called only from another file is still reported, and the model follows the code here.
- The code has no "unresolvable" bucket. A call whose callee chain is not rooted at a plain name, or an assignment with any target that is not a plain name (including `self.x = …` and tuple targets), raises and ends the run, and the model follows the code here.
- De-aliasing uses Python's `str.replace`, which rewrites every occurrence of the alias, not only the leading identifier. The model keeps that behaviour, as `Extraction.DealiasRewritesEveryOccurrence` shows.
- A bare call through an alias (`h()` after `import m as h`) is dropped as a built-in before the alias branch is reached. A function definition that shadows a method recorded at another line, such as a property setter or a method of an earlier nested class (`Extraction.NestedClassShadowsMethod`), is also registered under its bare name. Both are modelled as written.
