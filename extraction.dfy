/** What one `Visitor` run computes, as pure functions over a value-level
    snapshot of its six containers. The class in module Visitors implements
    each `visit_*` method imperatively and is proved to agree with these
    functions; the lemmas here state what the analyser promises. */
module Extraction {
  import opened Results
  import opened Strings
  import opened Syntax

  /** The six containers of a `Visitor`. */
  datatype VisitorState = VisitorState(
    assignments: map<string, seq<string>>,
    callables: set<string>,
    calls: set<string>,
    classMethods: map<string, nat>,
    imports: set<string>,
    importAliases: map<string, string>)

  /** All six containers start empty. */
  const Initial := VisitorState(map[], {}, {}, map[], {}, map[])

  /** What `report` hands back for one file; `Unparsed` is the empty result
      of a file that does not parse. */
  datatype Executables =
    | Unparsed
    | Executables(calls: set<string>, callables: set<string>)

  // ---------------------------------------------------------------------
  // Call paths (_create_callable_path)
  // ---------------------------------------------------------------------

  /** The names along an attribute chain, root first. */
  function PathParts(e: Expr): Result<seq<string>>
  {
    match e
    case Name(id) => Ok([id])
    case Attribute(v, a) =>
      (match PathParts(v)
       case Ok(p) => Ok(p + [a])
       case Err(f) => Err(f))
    case _ => Err(RootNotName)
  }

  /** The dotted path of an attribute chain; reading `.id` on a root that is
      not a name raises. */
  function CallablePath(e: Expr): Result<string>
  {
    match PathParts(e)
    case Ok(p) => Ok(Join(p, "."))
    case Err(f) => Err(f)
  }

  /** The string `visit_Call` records: the id of a plain name, otherwise the
      reconstructed path. */
  function CallTarget(func: Expr): Result<string>
  {
    if func.Name? then Ok(func.id) else CallablePath(func)
  }

  /** The chain `root.a1...an` has the path `"root.a1...an"`. */
  lemma {:induction false} PathOfChain(root: string, attrs: seq<string>)
    ensures PathParts(Chain(root, attrs)) == Ok([root] + attrs)
    ensures CallablePath(Chain(root, attrs)) == Ok(Join([root] + attrs, "."))
    decreases |attrs|
  {
    if attrs != [] {
      var n := |attrs| - 1;
      PathOfChain(root, attrs[..n]);
      assert Chain(root, attrs) == Attribute(Chain(root, attrs[..n]), attrs[n]);
      assert [root] + attrs[..n] + [attrs[n]] == [root] + attrs;
      assert PathParts(Chain(root, attrs)) == Ok([root] + attrs);
    } else {
      assert [root] + attrs == [root];
    }
  }

  /** Paths exist exactly for chains rooted at a name, and such a path names
      the whole chain. */
  lemma {:induction false} PathOnlyOfChains(e: Expr)
    ensures PathParts(e).Ok? <==> Root(e).Name?
    ensures PathParts(e).Ok? ==>
              var p := PathParts(e).value;
              |p| >= 1 && p[0] == Root(e).id && e == Chain(p[0], p[1..])
  {
    if e.Attribute? {
      PathOnlyOfChains(e.value);
      if PathParts(e.value).Ok? {
        var p := PathParts(e.value).value;
        var q := p + [e.attr];
        assert q[1..][..|q[1..]| - 1] == p[1..];
      }
    }
  }

  /** The id branch of `visit_Call` agrees with the path reconstruction. */
  lemma CallTargetIsPath(func: Expr)
    ensures CallTarget(func) == CallablePath(func)
  {
  }

  // ---------------------------------------------------------------------
  // Calls collected from expressions (visit_Call and the generic walk)
  // ---------------------------------------------------------------------

  /** The first failure wins; otherwise the two sets are joined. */
  function Union(a: Result<set<string>>, b: Result<set<string>>): Result<set<string>>
  {
    match a
    case Err(f) => Err(f)
    case Ok(x) =>
      (match b
       case Err(g) => Err(g)
       case Ok(y) => Ok(x + y))
  }

  /** The call targets the walk records inside an expression, in pre-order:
      a call records its own target, then its children are walked. */
  function ExprCalls(e: Expr): Result<set<string>>
    decreases e, 1
  {
    if e.Call? then
      match CallTarget(e.func)
      case Err(x) => Err(x)
      case Ok(t) => Union(Ok({t}), ChildrenCalls(e))
    else ChildrenCalls(e)
  }

  /** `generic_visit` on an expression: its sub-expressions in field order. */
  function ChildrenCalls(e: Expr): Result<set<string>>
    decreases e, 0
  {
    match e
    case Name(_) => Ok({})
    case Attribute(v, _) => ExprCalls(v)
    case Call(f, args) => Union(ExprCalls(f), ExprsCalls(args))
    case OtherExpr(ch) => ExprsCalls(ch)
  }

  function ExprsCalls(es: seq<Expr>): Result<set<string>>
    decreases es, 2
  {
    if es == [] then Ok({}) else Union(ExprCalls(es[0]), ExprsCalls(es[1..]))
  }

  /** Reference definition: the callee of every call node in an expression. */
  function CallFuncs(e: Expr): set<Expr>
    decreases e, 1
  {
    match e
    case Name(_) => {}
    case Attribute(v, _) => CallFuncs(v)
    case Call(f, args) => {f} + CallFuncs(f) + CallFuncsOf(args)
    case OtherExpr(ch) => CallFuncsOf(ch)
  }

  function CallFuncsOf(es: seq<Expr>): set<Expr>
    decreases es, 2
  {
    if es == [] then {} else CallFuncs(es[0]) + CallFuncsOf(es[1..])
  }

  predicate AllPaths(fs: set<Expr>)
  {
    forall f :: f in fs ==> CallablePath(f).Ok?
  }

  function Targets(fs: set<Expr>): set<string>
  {
    set f | f in fs && CallablePath(f).Ok? :: CallablePath(f).value
  }

  /** The walk records exactly one string per call node, its callee's path,
      and fails exactly when some callee is not rooted at a name. */
  lemma {:induction false} ExprCallsAreCallSites(e: Expr)
    ensures ExprCalls(e).Ok? <==> AllPaths(CallFuncs(e))
    ensures ExprCalls(e).Ok? ==> ExprCalls(e).value == Targets(CallFuncs(e))
    decreases e, 1
  {
    match e
    case Name(_) =>
    case Attribute(v, _) => ExprCallsAreCallSites(v);
    case Call(f, args) =>
      ExprCallsAreCallSites(f);
      ExprsCallsAreCallSites(args);
      TargetsUnion({f}, CallFuncs(f));
      TargetsUnion({f} + CallFuncs(f), CallFuncsOf(args));
    case OtherExpr(ch) => ExprsCallsAreCallSites(ch);
  }

  lemma {:induction false} ExprsCallsAreCallSites(es: seq<Expr>)
    ensures ExprsCalls(es).Ok? <==> AllPaths(CallFuncsOf(es))
    ensures ExprsCalls(es).Ok? ==> ExprsCalls(es).value == Targets(CallFuncsOf(es))
    decreases es, 2
  {
    if es != [] {
      ExprCallsAreCallSites(es[0]);
      ExprsCallsAreCallSites(es[1..]);
      TargetsUnion(CallFuncs(es[0]), CallFuncsOf(es[1..]));
    }
  }

  lemma TargetsUnion(a: set<Expr>, b: set<Expr>)
    ensures Targets(a + b) == Targets(a) + Targets(b)
  {
  }

  // ---------------------------------------------------------------------
  // Definitions (visit_ClassDef, visit_FunctionDef)
  // ---------------------------------------------------------------------

  /** One step of the direct-body loop of `visit_ClassDef`: a function
      definition registers `"Class.method"` and its line; any other
      statement (an assignment included) is skipped. */
  function RegisterMethod(s: VisitorState, cls: string, m: Stmt): VisitorState
  {
    if m.FunctionDef? then
      s.(callables := s.callables + {cls + "." + m.name},
         classMethods := s.classMethods[m.name := m.lineno])
    else s
  }

  function RegisterMethods(s: VisitorState, cls: string, body: seq<Stmt>): VisitorState
    decreases |body|
  {
    if body == [] then s else RegisterMethods(RegisterMethod(s, cls, body[0]), cls, body[1..])
  }

  /** `visit_ClassDef` before its generic walk. */
  function RegisterClass(s: VisitorState, cls: string, body: seq<Stmt>): VisitorState
  {
    RegisterMethods(s.(callables := s.callables + {cls}), cls, body)
  }

  /** `not class_method or class_method != node.lineno`; a recorded line 0
      is falsy in Python and counts as absent. */
  predicate RegistersBare(s: VisitorState, name: string, lineno: nat)
  {
    name !in s.classMethods || s.classMethods[name] == 0 || s.classMethods[name] != lineno
  }

  /** `visit_FunctionDef` before its generic walk. */
  function RegisterFunction(s: VisitorState, name: string, lineno: nat): VisitorState
  {
    if RegistersBare(s, name, lineno) then s.(callables := s.callables + {name}) else s
  }

  function MethodNames(body: seq<Stmt>): set<string>
  {
    set i | 0 <= i < |body| && body[i].FunctionDef? :: body[i].name
  }

  function MethodPaths(cls: string, body: seq<Stmt>): set<string>
  {
    set i | 0 <= i < |body| && body[i].FunctionDef? :: cls + "." + body[i].name
  }

  /** `line` is the line of the last function definition named `m` in `body`. */
  predicate LastDefinedAt(body: seq<Stmt>, m: string, line: nat)
  {
    exists i :: 0 <= i < |body| && body[i].FunctionDef? && body[i].name == m
      && body[i].lineno == line && NoLaterDef(body, m, i)
  }

  predicate NoLaterDef(body: seq<Stmt>, m: string, i: int)
  {
    forall j :: i < j < |body| && 0 <= j && body[j].FunctionDef? ==> body[j].name != m
  }

  /** Only the class's own registrations change, and only `callables` and
      `classMethods` are touched. */
  predicate OnlyDefinitionsChange(s: VisitorState, r: VisitorState)
  {
    r.assignments == s.assignments && r.calls == s.calls
    && r.imports == s.imports && r.importAliases == s.importAliases
  }

  /** How the method sets of a body split at its first statement. */
  lemma MethodSetsCons(cls: string, body: seq<Stmt>)
    requires body != []
    ensures MethodNames(body) ==
              (if body[0].FunctionDef? then {body[0].name} else {}) + MethodNames(body[1..])
    ensures MethodPaths(cls, body) ==
              (if body[0].FunctionDef? then {cls + "." + body[0].name} else {}) + MethodPaths(cls, body[1..])
  {
    var tail := body[1..];
    forall x | x in MethodNames(body)
      ensures x in (if body[0].FunctionDef? then {body[0].name} else {}) + MethodNames(tail)
    {
      var i :| 0 <= i < |body| && body[i].FunctionDef? && body[i].name == x;
      if i > 0 { assert tail[i - 1] == body[i]; }
    }
    forall x | x in MethodNames(tail) ensures x in MethodNames(body) {
      var i :| 0 <= i < |tail| && tail[i].FunctionDef? && tail[i].name == x;
      assert body[i + 1] == tail[i];
    }
    forall x | x in MethodPaths(cls, body)
      ensures x in (if body[0].FunctionDef? then {cls + "." + body[0].name} else {}) + MethodPaths(cls, tail)
    {
      var i :| 0 <= i < |body| && body[i].FunctionDef? && cls + "." + body[i].name == x;
      if i > 0 { assert tail[i - 1] == body[i]; }
    }
    forall x | x in MethodPaths(cls, tail) ensures x in MethodPaths(cls, body) {
      var i :| 0 <= i < |tail| && tail[i].FunctionDef? && cls + "." + tail[i].name == x;
      assert body[i + 1] == tail[i];
    }
  }

  /** The last definition in the tail is still the last one in the body. */
  lemma LastDefinedShift(body: seq<Stmt>, m: string, line: nat)
    requires body != [] && LastDefinedAt(body[1..], m, line)
    ensures LastDefinedAt(body, m, line)
  {
    var tail := body[1..];
    var i :| 0 <= i < |tail| && tail[i].FunctionDef? && tail[i].name == m
      && tail[i].lineno == line && NoLaterDef(tail, m, i);
    assert body[i + 1] == tail[i];
    forall j | i + 1 < j < |body| && 0 <= j && body[j].FunctionDef? ensures body[j].name != m {
      assert body[j] == tail[j - 1];
    }
  }

  /** A first definition that is never repeated is the last one. */
  lemma LastDefinedFirst(body: seq<Stmt>)
    requires body != [] && body[0].FunctionDef? && body[0].name !in MethodNames(body[1..])
    ensures LastDefinedAt(body, body[0].name, body[0].lineno)
  {
    var tail := body[1..];
    forall j | 0 < j < |body| && body[j].FunctionDef? ensures body[j].name != body[0].name {
      assert tail[j - 1] == body[j];
    }
  }

  lemma {:induction false} RegisterMethodsRest(s: VisitorState, cls: string, body: seq<Stmt>)
    ensures OnlyDefinitionsChange(s, RegisterMethods(s, cls, body))
    decreases |body|
  {
    if body != [] {
      RegisterMethodsRest(RegisterMethod(s, cls, body[0]), cls, body[1..]);
    }
  }

  lemma {:induction false} RegisterMethodsCallables(s: VisitorState, cls: string, body: seq<Stmt>)
    ensures RegisterMethods(s, cls, body).callables == s.callables + MethodPaths(cls, body)
    decreases |body|
  {
    if body != [] {
      RegisterMethodsCallables(RegisterMethod(s, cls, body[0]), cls, body[1..]);
      MethodSetsCons(cls, body);
    }
  }

  lemma {:induction false} RegisterMethodsLines(s: VisitorState, cls: string, body: seq<Stmt>)
    ensures RegisterMethods(s, cls, body).classMethods.Keys == s.classMethods.Keys + MethodNames(body)
    ensures forall m :: m in s.classMethods && m !in MethodNames(body) ==>
              RegisterMethods(s, cls, body).classMethods[m] == s.classMethods[m]
    ensures forall m :: m in MethodNames(body) ==>
              LastDefinedAt(body, m, RegisterMethods(s, cls, body).classMethods[m])
    decreases |body|
  {
    if body != [] {
      var tail := body[1..];
      var s' := RegisterMethod(s, cls, body[0]);
      RegisterMethodsLines(s', cls, tail);
      MethodSetsCons(cls, body);
      var r := RegisterMethods(s', cls, tail);
      forall x | x in MethodNames(body) ensures LastDefinedAt(body, x, r.classMethods[x]) {
        if x in MethodNames(tail) {
          LastDefinedShift(body, x, r.classMethods[x]);
        } else {
          LastDefinedFirst(body);
        }
      }
    }
  }

  /** Visiting `class C` adds `C` and `"C.m"` for every function definition
      `m` directly in its body to `callables`, records each such `m` at the
      line of its last definition in `classMethods`, ignores every other
      statement of the body, and touches nothing else. */
  lemma RegisterClassEffect(s: VisitorState, cls: string, body: seq<Stmt>)
    ensures var r := RegisterClass(s, cls, body);
      && r.callables == s.callables + {cls} + MethodPaths(cls, body)
      && r.classMethods.Keys == s.classMethods.Keys + MethodNames(body)
      && (forall m :: m in s.classMethods && m !in MethodNames(body) ==>
            r.classMethods[m] == s.classMethods[m])
      && (forall m :: m in MethodNames(body) ==> LastDefinedAt(body, m, r.classMethods[m]))
      && OnlyDefinitionsChange(s, r)
  {
    var s0 := s.(callables := s.callables + {cls});
    RegisterMethodsRest(s0, cls, body);
    RegisterMethodsCallables(s0, cls, body);
    RegisterMethodsLines(s0, cls, body);
  }

  // ---------------------------------------------------------------------
  // Imports (visit_Import, visit_ImportFrom)
  // ---------------------------------------------------------------------

  /** One step of the loop shared by both import visitors: record the name,
      and bind a present alias to it. */
  function Bind(s: VisitorState, a: ImportAlias): VisitorState
  {
    s.(imports := s.imports + {a.name},
       importAliases := if Binds(a) then s.importAliases[a.asname.value := a.name] else s.importAliases)
  }

  /** `visit_Import`: the loop over the entries of the statement. */
  function Bindings(s: VisitorState, names: seq<ImportAlias>): VisitorState
    decreases |names|
  {
    if names == [] then s else Bindings(Bind(s, names[0]), names[1..])
  }

  /** An f-string renders a missing module (`from . import x`) as `None`. */
  function ModuleText(source: Option<string>): string
  {
    match source
    case None => "None"
    case Some(m) => m
  }

  /** `from M import N as A` records `"M.N"` in place of `N`. */
  function Qualify(source: Option<string>, names: seq<ImportAlias>): (r: seq<ImportAlias>)
    ensures |r| == |names|
  {
    seq(|names|, i requires 0 <= i < |names| =>
      ImportAlias(ModuleText(source) + "." + names[i].name, names[i].asname))
  }

  function RecordImportFrom(s: VisitorState, source: Option<string>, names: seq<ImportAlias>): VisitorState
  {
    Bindings(s, Qualify(source, names))
  }

  function ImportedNames(names: seq<ImportAlias>): set<string>
  {
    set i | 0 <= i < |names| :: names[i].name
  }

  function BoundAliases(names: seq<ImportAlias>): set<string>
  {
    set i | 0 <= i < |names| && Binds(names[i]) :: names[i].asname.value
  }

  /** `target` is the name of the last entry that binds `alias`. */
  predicate LastBoundTo(names: seq<ImportAlias>, alias: string, target: string)
  {
    exists i :: 0 <= i < |names| && Binds(names[i]) && names[i].asname.value == alias
      && names[i].name == target && NoLaterBinding(names, alias, i)
  }

  predicate NoLaterBinding(names: seq<ImportAlias>, alias: string, i: int)
  {
    forall j :: i < j < |names| && 0 <= j && Binds(names[j]) ==> names[j].asname.value != alias
  }

  lemma ImportSetsCons(names: seq<ImportAlias>)
    requires names != []
    ensures ImportedNames(names) == {names[0].name} + ImportedNames(names[1..])
    ensures BoundAliases(names) ==
              (if Binds(names[0]) then {names[0].asname.value} else {}) + BoundAliases(names[1..])
  {
    var tail := names[1..];
    forall x | x in ImportedNames(names) ensures x in {names[0].name} + ImportedNames(tail) {
      var i :| 0 <= i < |names| && names[i].name == x;
      if i > 0 { assert tail[i - 1] == names[i]; }
    }
    forall x | x in ImportedNames(tail) ensures x in ImportedNames(names) {
      var i :| 0 <= i < |tail| && tail[i].name == x;
      assert names[i + 1] == tail[i];
    }
    forall x | x in BoundAliases(names)
      ensures x in (if Binds(names[0]) then {names[0].asname.value} else {}) + BoundAliases(tail)
    {
      var i :| 0 <= i < |names| && Binds(names[i]) && names[i].asname.value == x;
      if i > 0 { assert tail[i - 1] == names[i]; }
    }
    forall x | x in BoundAliases(tail) ensures x in BoundAliases(names) {
      var i :| 0 <= i < |tail| && Binds(tail[i]) && tail[i].asname.value == x;
      assert names[i + 1] == tail[i];
    }
  }

  lemma LastBoundShift(names: seq<ImportAlias>, k: string, target: string)
    requires names != [] && LastBoundTo(names[1..], k, target)
    ensures LastBoundTo(names, k, target)
  {
    var tail := names[1..];
    var i :| 0 <= i < |tail| && Binds(tail[i]) && tail[i].asname.value == k
      && tail[i].name == target && NoLaterBinding(tail, k, i);
    assert names[i + 1] == tail[i];
    forall j | i + 1 < j < |names| && 0 <= j && Binds(names[j]) ensures names[j].asname.value != k {
      assert names[j] == tail[j - 1];
    }
  }

  lemma LastBoundFirst(names: seq<ImportAlias>)
    requires names != [] && Binds(names[0]) && names[0].asname.value !in BoundAliases(names[1..])
    ensures LastBoundTo(names, names[0].asname.value, names[0].name)
  {
    var tail := names[1..];
    forall j | 0 < j < |names| && Binds(names[j]) ensures names[j].asname.value != names[0].asname.value {
      assert tail[j - 1] == names[j];
    }
  }

  /** Every imported name is recorded, and nothing but the two import
      containers changes. */
  lemma {:induction false} BindingsImports(s: VisitorState, names: seq<ImportAlias>)
    ensures Bindings(s, names).imports == s.imports + ImportedNames(names)
    ensures Bindings(s, names) == s.(imports := Bindings(s, names).imports,
                                     importAliases := Bindings(s, names).importAliases)
    decreases |names|
  {
    if names != [] {
      BindingsImports(Bind(s, names[0]), names[1..]);
      ImportSetsCons(names);
    }
  }

  /** An alias is bound only when present, to the name of its last binding;
      aliases bound before and not rebound keep their target. */
  lemma {:induction false} BindingsAliases(s: VisitorState, names: seq<ImportAlias>)
    ensures Bindings(s, names).importAliases.Keys == s.importAliases.Keys + BoundAliases(names)
    ensures forall k :: k in s.importAliases && k !in BoundAliases(names) ==>
              Bindings(s, names).importAliases[k] == s.importAliases[k]
    ensures forall k :: k in BoundAliases(names) ==>
              LastBoundTo(names, k, Bindings(s, names).importAliases[k])
    decreases |names|
  {
    if names != [] {
      var tail := names[1..];
      var s' := Bind(s, names[0]);
      BindingsAliases(s', tail);
      ImportSetsCons(names);
      var r := Bindings(s', tail);
      forall k | k in BoundAliases(names) ensures LastBoundTo(names, k, r.importAliases[k]) {
        if k in BoundAliases(tail) {
          LastBoundShift(names, k, r.importAliases[k]);
        } else {
          LastBoundFirst(names);
        }
      }
    }
  }

  /** `from M import N` records `"M.N"` and binds the same aliases as the
      plain form; with no module it records `"None.N"`. */
  lemma ImportFromNames(source: Option<string>, names: seq<ImportAlias>)
    ensures ImportedNames(Qualify(source, names)) ==
            set i | 0 <= i < |names| :: ModuleText(source) + "." + names[i].name
    ensures BoundAliases(Qualify(source, names)) == BoundAliases(names)
    ensures source.None? ==> forall i :: 0 <= i < |names| ==>
              "None." + names[i].name in RecordImportFrom(Initial, source, names).imports
  {
    var q := Qualify(source, names);
    var prefix := ModuleText(source) + ".";
    assert forall i :: 0 <= i < |names| ==> q[i].name == prefix + names[i].name && q[i].asname == names[i].asname;
    forall x | x in ImportedNames(q)
      ensures x in set i | 0 <= i < |names| :: prefix + names[i].name
    {
      var i :| 0 <= i < |q| && q[i].name == x;
    }
    forall x | x in (set i | 0 <= i < |names| :: prefix + names[i].name)
      ensures x in ImportedNames(q)
    {
      var i :| 0 <= i < |names| && prefix + names[i].name == x;
      assert q[i].name == x;
    }
    forall x | x in BoundAliases(q) ensures x in BoundAliases(names) {
      var i :| 0 <= i < |q| && Binds(q[i]) && q[i].asname.value == x;
      assert Binds(names[i]);
    }
    forall x | x in BoundAliases(names) ensures x in BoundAliases(q) {
      var i :| 0 <= i < |names| && Binds(names[i]) && names[i].asname.value == x;
      assert Binds(q[i]);
    }
    BindingsImports(Initial, q);
    assert ModuleText(None) + "." == "None.";
    forall i | 0 <= i < |names| && source.None?
      ensures "None." + names[i].name in RecordImportFrom(Initial, source, names).imports
    {
      assert q[i].name in ImportedNames(q);
    }
  }

  // ---------------------------------------------------------------------
  // Assignments (visit_Assign)
  // ---------------------------------------------------------------------

  predicate AllNames(ts: seq<Expr>)
  {
    forall i :: 0 <= i < |ts| ==> ts[i].Name?
  }

  function Ids(ts: seq<Expr>): (r: seq<string>)
    requires AllNames(ts)
    ensures |r| == |ts| && forall i :: 0 <= i < |ts| ==> r[i] == ts[i].id
  {
    seq(|ts|, i requires 0 <= i < |ts| => ts[i].id)
  }

  /** `visit_Assign` before its generic walk: the target names are read
      first (raising on any target that is not a name); a right-hand side
      that is a call appends them under the call's path. */
  function RecordAssign(s: VisitorState, targets: seq<Expr>, value: Expr): Result<VisitorState>
  {
    if !AllNames(targets) then Err(TargetNotName)
    else if !value.Call? then Ok(s)
    else
      match CallablePath(value.func)
      case Err(f) => Err(f)
      case Ok(p) =>
        var before := if p in s.assignments then s.assignments[p] else [];
        Ok(s.(assignments := s.assignments[p := before + Ids(targets)]))
  }

  /** An assignment of a call's result appends the target names to the
      entry of the call's path (creating it when absent) and changes no
      other entry and no other container; any other right-hand side changes
      nothing; a target that is not a name is an error. */
  lemma AssignEffect(s: VisitorState, targets: seq<Expr>, value: Expr)
    ensures RecordAssign(s, targets, value).Err? <==>
              !AllNames(targets) || (value.Call? && CallablePath(value.func).Err?)
    ensures RecordAssign(s, targets, value).Ok? && !value.Call? ==>
              RecordAssign(s, targets, value).value == s
    ensures RecordAssign(s, targets, value).Ok? && value.Call? ==>
              var r := RecordAssign(s, targets, value).value;
              var p := CallablePath(value.func).value;
              && r.assignments.Keys == s.assignments.Keys + {p}
              && r.assignments[p] == (if p in s.assignments then s.assignments[p] else []) + Ids(targets)
              && (forall q :: q in s.assignments && q != p ==> r.assignments[q] == s.assignments[q])
              && r == s.(assignments := r.assignments)
  {
  }

  // ---------------------------------------------------------------------
  // The walk (NodeVisitor.visit / generic_visit)
  // ---------------------------------------------------------------------

  function WithCalls(s: VisitorState, r: Result<set<string>>): Result<VisitorState>
  {
    match r
    case Err(f) => Err(f)
    case Ok(c) => Ok(s.(calls := s.calls + c))
  }

  /** Visiting one statement: its handler, when it has one, then the
      generic walk of its children (import handlers do not walk on). */
  function WalkStmt(s: VisitorState, st: Stmt): Result<VisitorState>
    decreases st, 1
  {
    match st
    case ClassDef(n, _, _, body) => WalkChildren(RegisterClass(s, n, body), st)
    case FunctionDef(n, l, _, _) => WalkChildren(RegisterFunction(s, n, l), st)
    case Assign(ts, v) =>
      (match RecordAssign(s, ts, v)
       case Err(f) => Err(f)
       case Ok(s') => WalkChildren(s', st))
    case Import(names) => Ok(Bindings(s, names))
    case ImportFrom(m, names) => Ok(RecordImportFrom(s, m, names))
    case OtherStmt(_, _) => WalkChildren(s, st)
  }

  /** `generic_visit`: header expressions, then the nested statements. */
  function WalkChildren(s: VisitorState, st: Stmt): Result<VisitorState>
    decreases st, 0
  {
    match st
    case ClassDef(_, _, ex, body) => WalkNested(WithCalls(s, ExprsCalls(ex)), body)
    case FunctionDef(_, _, ex, body) => WalkNested(WithCalls(s, ExprsCalls(ex)), body)
    case OtherStmt(ex, body) => WalkNested(WithCalls(s, ExprsCalls(ex)), body)
    case Assign(ts, v) => WithCalls(s, Union(ExprsCalls(ts), ExprCalls(v)))
    case Import(_) => Ok(s)
    case ImportFrom(_, _) => Ok(s)
  }

  function WalkNested(r: Result<VisitorState>, body: seq<Stmt>): Result<VisitorState>
    decreases body, 2
  {
    match r
    case Err(f) => Err(f)
    case Ok(s) => WalkStmts(s, body)
  }

  function WalkStmts(s: VisitorState, ss: seq<Stmt>): Result<VisitorState>
    decreases ss, 1
  {
    if ss == [] then Ok(s)
    else
      match WalkStmt(s, ss[0])
      case Err(f) => Err(f)
      case Ok(s') => WalkStmts(s', ss[1..])
  }

  // ---------------------------------------------------------------------
  // Invariants of the walk
  // ---------------------------------------------------------------------

  /** The walk only adds: no container loses an element or a key. */
  predicate Grows(s: VisitorState, r: VisitorState)
  {
    && s.callables <= r.callables && s.calls <= r.calls && s.imports <= r.imports
    && s.assignments.Keys <= r.assignments.Keys && s.classMethods.Keys <= r.classMethods.Keys
    && s.importAliases.Keys <= r.importAliases.Keys
  }

  /** Every bound alias is non-empty and stands for a recorded import. */
  predicate AliasesImported(s: VisitorState)
  {
    forall k :: k in s.importAliases ==> k != "" && s.importAliases[k] in s.imports
  }

  lemma {:induction false} BindingsPreserve(s: VisitorState, names: seq<ImportAlias>)
    requires AliasesImported(s)
    ensures AliasesImported(Bindings(s, names)) && Grows(s, Bindings(s, names))
    decreases |names|
  {
    if names != [] {
      var a := names[0];
      BindingsPreserve(Bind(s, a), names[1..]);
    }
  }

  lemma {:induction false} BindingsGrow(s: VisitorState, names: seq<ImportAlias>)
    ensures Grows(s, Bindings(s, names))
    decreases |names|
  {
    if names != [] {
      var a := names[0];
      BindingsGrow(Bind(s, a), names[1..]);
    }
  }

  /** Walking statements never removes anything and keeps every alias tied
      to an import. */
  lemma {:induction false} WalkStmtPreserves(s: VisitorState, st: Stmt)
    requires WalkStmt(s, st).Ok?
    ensures Grows(s, WalkStmt(s, st).value)
    ensures AliasesImported(s) ==> AliasesImported(WalkStmt(s, st).value)
    decreases st, 1
  {
    match st
    case ClassDef(n, _, _, body) =>
      RegisterClassEffect(s, n, body);
      WalkChildrenPreserves(RegisterClass(s, n, body), st);
    case FunctionDef(n, l, _, _) =>
      WalkChildrenPreserves(RegisterFunction(s, n, l), st);
    case Assign(ts, v) =>
      WalkChildrenPreserves(RecordAssign(s, ts, v).value, st);
    case Import(names) =>
      BindingsGrow(s, names);
      if AliasesImported(s) { BindingsPreserve(s, names); }
    case ImportFrom(m, names) =>
      BindingsGrow(s, Qualify(m, names));
      if AliasesImported(s) { BindingsPreserve(s, Qualify(m, names)); }
    case OtherStmt(_, _) =>
      WalkChildrenPreserves(s, st);
  }

  lemma {:induction false} WalkChildrenPreserves(s: VisitorState, st: Stmt)
    requires WalkChildren(s, st).Ok?
    ensures Grows(s, WalkChildren(s, st).value)
    ensures AliasesImported(s) ==> AliasesImported(WalkChildren(s, st).value)
    decreases st, 0
  {
    match st
    case ClassDef(_, _, ex, body) => WalkNestedPreserves(s, ExprsCalls(ex), body);
    case FunctionDef(_, _, ex, body) => WalkNestedPreserves(s, ExprsCalls(ex), body);
    case OtherStmt(ex, body) => WalkNestedPreserves(s, ExprsCalls(ex), body);
    case Assign(_, _) =>
    case Import(_) =>
    case ImportFrom(_, _) =>
  }

  lemma {:induction false} WalkNestedPreserves(s: VisitorState, c: Result<set<string>>, body: seq<Stmt>)
    requires WalkNested(WithCalls(s, c), body).Ok?
    ensures Grows(s, WalkNested(WithCalls(s, c), body).value)
    ensures AliasesImported(s) ==> AliasesImported(WalkNested(WithCalls(s, c), body).value)
    decreases body, 2
  {
    WalkStmtsPreserves(WithCalls(s, c).value, body);
  }

  lemma {:induction false} WalkStmtsPreserves(s: VisitorState, ss: seq<Stmt>)
    requires WalkStmts(s, ss).Ok?
    ensures Grows(s, WalkStmts(s, ss).value)
    ensures AliasesImported(s) ==> AliasesImported(WalkStmts(s, ss).value)
    decreases ss, 1
  {
    if ss != [] {
      WalkStmtPreserves(s, ss[0]);
      WalkStmtsPreserves(WalkStmt(s, ss[0]).value, ss[1..]);
    }
  }

  /** Walking `a + b` walks `a`, then `b` from where `a` left off. */
  lemma {:induction false} WalkStmtsSplit(s: VisitorState, a: seq<Stmt>, b: seq<Stmt>)
    ensures WalkStmts(s, a + b) ==
            (match WalkStmts(s, a)
             case Err(f) => Err(f)
             case Ok(t) => WalkStmts(t, b))
    decreases |a|
  {
    if a == [] {
      assert a + b == b;
    } else {
      assert (a + b)[0] == a[0];
      assert (a + b)[1..] == a[1..] + b;
      match WalkStmt(s, a[0])
      case Err(_) =>
      case Ok(s') => WalkStmtsSplit(s', a[1..], b);
    }
  }

  /** No class is defined in the statement, at any depth. */
  predicate ClassFree(st: Stmt)
    decreases st, 1
  {
    match st
    case ClassDef(_, _, _, _) => false
    case FunctionDef(_, _, _, body) => AllClassFree(body)
    case OtherStmt(_, body) => AllClassFree(body)
    case _ => true
  }

  predicate AllClassFree(ss: seq<Stmt>)
    decreases ss, 0
  {
    forall i :: 0 <= i < |ss| ==> ClassFree(ss[i])
  }

  /** Only `visit_ClassDef` writes `class_methods`: walking statements that
      define no class leaves every recorded method line in place. */
  lemma {:induction false} WalkStmtKeepsLines(s: VisitorState, st: Stmt)
    requires ClassFree(st) && WalkStmt(s, st).Ok?
    ensures WalkStmt(s, st).value.classMethods == s.classMethods
    decreases st, 1
  {
    match st
    case FunctionDef(n, l, _, _) => WalkChildrenKeepsLines(RegisterFunction(s, n, l), st);
    case Assign(ts, v) => WalkChildrenKeepsLines(RecordAssign(s, ts, v).value, st);
    case Import(names) => BindingsImports(s, names);
    case ImportFrom(m, names) => BindingsImports(s, Qualify(m, names));
    case OtherStmt(_, _) => WalkChildrenKeepsLines(s, st);
  }

  lemma {:induction false} WalkChildrenKeepsLines(s: VisitorState, st: Stmt)
    requires ClassFree(st) && WalkChildren(s, st).Ok?
    ensures WalkChildren(s, st).value.classMethods == s.classMethods
    decreases st, 0
  {
    match st
    case FunctionDef(_, _, ex, body) => WalkStmtsKeepsLines(WithCalls(s, ExprsCalls(ex)).value, body);
    case OtherStmt(ex, body) => WalkStmtsKeepsLines(WithCalls(s, ExprsCalls(ex)).value, body);
    case Assign(_, _) =>
    case Import(_) =>
    case ImportFrom(_, _) =>
  }

  lemma {:induction false} WalkStmtsKeepsLines(s: VisitorState, ss: seq<Stmt>)
    requires AllClassFree(ss) && WalkStmts(s, ss).Ok?
    ensures WalkStmts(s, ss).value.classMethods == s.classMethods
    decreases ss, 1
  {
    if ss != [] {
      assert ClassFree(ss[0]);
      assert AllClassFree(ss[1..]) by {
        forall k | 0 <= k < |ss[1..]| ensures ClassFree(ss[1..][k]) {
          assert ss[1..][k] == ss[k + 1];
        }
      }
      WalkStmtKeepsLines(s, ss[0]);
      WalkStmtsKeepsLines(WalkStmt(s, ss[0]).value, ss[1..]);
    }
  }

  /** The tie-break of `visit_FunctionDef` through the real walk of a class:
      after `visit_ClassDef` has recorded the class's methods and walked its
      header, the generic walk of the body reaches `body[i]` in the state the
      walk of `body[..i]` left. If `body[i]` is the last definition of its
      name, sits on a non-zero line, and no class is defined in the
      statements before it, that state still holds its line, so visiting it
      does nothing but walk its own children; it is not also registered
      under its bare name. */
  lemma DirectMethodNotBare(s: VisitorState, st: Stmt, i: int)
    requires st.ClassDef? && 0 <= i < |st.body|
    requires st.body[i].FunctionDef? && st.body[i].lineno != 0
    requires NoLaterDef(st.body, st.body[i].name, i)
    requires AllClassFree(st.body[..i])
    ensures var entered := WithCalls(RegisterClass(s, st.name, st.body), ExprsCalls(st.exprs));
      entered.Ok? ==>
        && WalkStmt(s, st) == WalkStmts(entered.value, st.body)
        && (WalkStmts(entered.value, st.body[..i]).Ok? ==>
              var reached := WalkStmts(entered.value, st.body[..i]).value;
              && !RegistersBare(reached, st.body[i].name, st.body[i].lineno)
              && WalkStmts(entered.value, st.body) ==
                 (match WalkChildren(reached, st.body[i])
                  case Err(f) => Err(f)
                  case Ok(u) => WalkStmts(u, st.body[i + 1..])))
  {
    var body := st.body;
    var r := RegisterClass(s, st.name, body);
    var entered := WithCalls(r, ExprsCalls(st.exprs));
    if entered.Ok? {
      assert WalkStmt(s, st) == WalkChildren(r, st) == WalkNested(entered, body);
    }
    if entered.Ok? && WalkStmts(entered.value, body[..i]).Ok? {
      var m := body[i].name;
      RegisterClassEffect(s, st.name, body);
      assert m in MethodNames(body);
      var k :| 0 <= k < |body| && body[k].FunctionDef? && body[k].name == m
        && body[k].lineno == r.classMethods[m] && NoLaterDef(body, m, k);
      assert k == i;
      var reached := WalkStmts(entered.value, body[..i]).value;
      WalkStmtsKeepsLines(entered.value, body[..i]);
      assert reached.classMethods == r.classMethods;
      assert body == body[..i] + body[i..];
      WalkStmtsSplit(entered.value, body[..i], body[i..]);
      assert body[i..][0] == body[i];
      assert body[i..][1..] == body[i + 1..];
      assert RegisterFunction(reached, m, body[i].lineno) == reached;
    }
  }

  /** Without the class-free condition the tie-break fails: a nested class
      defined earlier in the body that has a method of the same name records
      its own line, and the outer method is then registered bare as well. */
  lemma NestedClassShadowsMethod()
    ensures var inner := ClassDef("D", 2, [], [FunctionDef("m", 3, [], [])]);
      var outer := ClassDef("C", 1, [], [inner, FunctionDef("m", 4, [], [])]);
      var r := WalkStmts(Initial, [outer]);
      r.Ok? && "C.m" in r.value.callables && "m" in r.value.callables
  {
    var innerM := FunctionDef("m", 3, [], []);
    var inner := ClassDef("D", 2, [], [innerM]);
    var outerM := FunctionDef("m", 4, [], []);
    var body := [inner, outerM];
    var outer := ClassDef("C", 1, [], body);
    assert body[1..] == [outerM] && [outerM][1..] == [] && [innerM][1..] == [];
    assert ExprsCalls([]) == Ok({});
    var sC := Initial.(callables := Initial.callables + {"C"});
    assert RegisterMethod(sC, "C", inner) == sC;
    var s0 := RegisterMethod(sC, "C", outerM);
    assert RegisterMethods(s0, "C", []) == s0;
    assert RegisterMethods(sC, "C", body) == RegisterMethods(sC, "C", body[1..]) == s0;
    assert RegisterClass(Initial, "C", body) == s0;
    assert "C" + "." + "m" == "C.m";
    assert s0.classMethods == map["m" := 4] && s0.calls == {} && "C.m" in s0.callables;
    var sD := s0.(callables := s0.callables + {"D"});
    var s1 := RegisterMethod(sD, "D", innerM);
    assert RegisterClass(s0, "D", [innerM]) == RegisterMethods(s1, "D", []) == s1;
    assert s1.classMethods == map["m" := 3] && s1.calls == {} && "C.m" in s1.callables;
    assert !RegistersBare(s1, "m", 3);
    assert s1.(calls := s1.calls + {}) == s1;
    assert WalkChildren(s1, innerM) == WalkStmts(s1, []);
    assert WalkStmt(s1, innerM) == Ok(s1);
    assert WalkStmts(s1, [innerM]) == Ok(s1);
    assert WalkChildren(s1, inner) == WalkStmts(s1, [innerM]);
    assert WalkStmt(s0, inner) == Ok(s1);
    assert RegistersBare(s1, "m", 4);
    var s2 := s1.(callables := s1.callables + {"m"});
    assert s2.(calls := s2.calls + {}) == s2;
    assert WalkChildren(s2, outerM) == WalkStmts(s2, []);
    assert WalkStmt(s1, outerM) == Ok(s2);
    assert WalkStmts(s1, [outerM]) == Ok(s2);
    assert WalkStmts(s0, body) == Ok(s2);
    assert s0.(calls := s0.calls + {}) == s0;
    assert WalkChildren(s0, outer) == WalkStmts(s0, body);
    assert WalkStmt(Initial, outer) == Ok(s2);
    assert WalkStmts(Initial, [outer]) == Ok(s2);
  }

  /** Every class defined at the top of the walked statements is recorded,
      with the paths of its direct methods, and stays recorded to the end. */
  lemma ClassDefinitionRecorded(s: VisitorState, ss: seq<Stmt>, k: int)
    requires WalkStmts(s, ss).Ok? && 0 <= k < |ss| && ss[k].ClassDef?
    ensures ss[k].name in WalkStmts(s, ss).value.callables
    ensures MethodPaths(ss[k].name, ss[k].body) <= WalkStmts(s, ss).value.callables
  {
    assert ss == ss[..k] + ss[k..];
    WalkStmtsSplit(s, ss[..k], ss[k..]);
    var u := WalkStmts(s, ss[..k]).value;
    var st := ss[k];
    assert ss[k..][0] == st;
    assert ss[k..][1..] == ss[k + 1..];
    var r := RegisterClass(u, st.name, st.body);
    RegisterClassEffect(u, st.name, st.body);
    WalkChildrenPreserves(r, st);
    var v := WalkStmt(u, st).value;
    WalkStmtsPreserves(v, ss[k + 1..]);
  }

  // ---------------------------------------------------------------------
  // Reconciliation (report)
  // ---------------------------------------------------------------------

  /** `_call.split(".")[0]`. */
  function Head(c: string): string
  {
    FirstPiece(c, ".")
  }

  /** The first test of the loop's `if`: an undotted call that is not an
      import (a builtin, or a local name). */
  predicate Builtin(s: VisitorState, c: string)
  {
    Head(c) == c && c !in s.imports
  }

  /** The `elif`: a call through an alias, rewritten and re-added. */
  predicate Aliased(s: VisitorState, c: string)
  {
    !Builtin(s, c) && Head(c) in s.importAliases
  }

  /** The calls the loop puts into `used`. */
  function Used(s: VisitorState): set<string>
  {
    set c | c in s.calls && (c in s.callables || Builtin(s, c) || Aliased(s, c))
  }

  /** `_call.replace(first_part, alias_target)`: every occurrence of the
      alias is rewritten, not only the leading one. */
  function Dealias(s: VisitorState, c: string): string
    requires Head(c) in s.importAliases
  {
    ReplaceAll(c, Head(c), s.importAliases[Head(c)])
  }

  /** The calls the loop puts into `extend`. */
  function Extend(s: VisitorState): set<string>
  {
    set c | c in s.calls && Aliased(s, c) :: Dealias(s, c)
  }

  /** `self.calls -= used; self.calls |= extend`. */
  function ReportCalls(s: VisitorState): set<string>
  {
    (s.calls - Used(s)) + Extend(s)
  }

  /** Every called local definition is removed. */
  function ReportCallables(s: VisitorState): set<string>
  {
    s.callables - s.calls
  }

  /** What `report` returns for a walked state. */
  function ReportOf(s: VisitorState): Executables
  {
    Executables(ReportCalls(s), ReportCallables(s))
  }

  /** A dotted call that is not a local definition and whose head is not an
      alias survives `report` unchanged. */
  lemma DottedCallSurvives(s: VisitorState, c: string)
    requires c in s.calls && '.' in c && c !in s.callables && Head(c) !in s.importAliases
    ensures c in ReportCalls(s)
  {
    FirstPieceWhole(c, ".");
    OccursChar(c, '.');
  }

  /** An undotted call that is not imported never reaches the pending set,
      unless it is the rewriting of some aliased call. */
  lemma BuiltinDropped(s: VisitorState, c: string)
    requires c in s.calls && '.' !in c && c !in s.imports
    requires forall d :: d in s.calls && Aliased(s, d) ==> Dealias(s, d) != c
    ensures c !in ReportCalls(s)
  {
    FirstPieceWhole(c, ".");
    OccursChar(c, '.');
  }

  /** With every alias non-empty, a rewritten call starts with the alias's
      target. */
  lemma DealiasStartsWithTarget(s: VisitorState, c: string)
    requires AliasesImported(s) && Head(c) in s.importAliases
    ensures StartsWith(Dealias(s, c), s.importAliases[Head(c)])
  {
    var h := Head(c);
    assert c == h + c[|h|..];
    ReplaceLeading(h, c[|h|..], s.importAliases[h]);
  }

  /** Alias transparency: with `pm` bound to `pkg.mod`, the call `pm.func`
      is rewritten to `pkg.mod.func`, as long as the alias does not occur
      again inside the rest of the call. */
  lemma AliasTransparency(s: VisitorState, alias: string, rest: string)
    requires alias != "" && '.' !in alias && alias in s.importAliases
    requires !Occurs("." + rest, alias)
    ensures Head(alias + "." + rest) == alias
    ensures Dealias(s, alias + "." + rest) == s.importAliases[alias] + "." + rest
  {
    FirstPieceBefore(alias, '.', rest);
    assert alias + "." + rest == alias + ("." + rest);
    ReplaceLeading(alias, "." + rest, s.importAliases[alias]);
    ReplaceAbsent("." + rest, alias, s.importAliases[alias]);
  }

  /** The rewriting is not confined to the head: a later occurrence of the
      alias is rewritten too, so with `np` bound to `numpy` the call
      `np.np_array` becomes `numpy.numpy_array`. */
  lemma DealiasRewritesEveryOccurrence(s: VisitorState, alias: string, rest: string)
    requires alias != "" && '.' !in alias && alias in s.importAliases
    ensures Head(alias + "." + alias + rest) == alias
    ensures Dealias(s, alias + "." + alias + rest) ==
            s.importAliases[alias] + "." + s.importAliases[alias] + ReplaceAll(rest, alias, s.importAliases[alias])
  {
    var c := alias + "." + alias + rest;
    assert c == alias + ['.'] + (alias + rest);
    FirstPieceBefore(alias, '.', alias + rest);
    ReplaceTwice(alias, rest, s.importAliases[alias]);
  }

  /** The string half of the lemma above. */
  lemma ReplaceTwice(pat: string, rest: string, repl: string)
    requires pat != "" && '.' !in pat
    ensures ReplaceAll(pat + "." + pat + rest, pat, repl) == repl + "." + repl + ReplaceAll(rest, pat, repl)
  {
    var again := pat + rest;
    var tail := ['.'] + again;
    assert pat + "." + pat + rest == pat + tail;
    var r := ReplaceAll(rest, pat, repl);
    ReplaceLeading(pat, rest, repl);
    var ra := ReplaceAll(again, pat, repl);
    assert ra == repl + r;
    assert pat[0] in pat;
    ReplaceSkip('.', again, pat, repl);
    var rt := ReplaceAll(tail, pat, repl);
    assert rt == ['.'] + ra;
    ReplaceLeading(pat, tail, repl);
    assert ReplaceAll(pat + tail, pat, repl) == repl + rt;
    assert repl + (['.'] + (repl + r)) == repl + "." + repl + r;
  }

  // ---------------------------------------------------------------------
  // One file end to end (_search_executables)
  // ---------------------------------------------------------------------

  /** A file that does not parse yields the empty result; otherwise the
      whole module is walked from empty containers and reported. */
  function Extract(tree: Option<Tree>): Result<Executables>
  {
    match tree
    case None => Ok(Unparsed)
    case Some(t) =>
      (match WalkStmts(Initial, t)
       case Err(f) => Err(f)
       case Ok(s) => Ok(ReportOf(s)))
  }

  /** Every call left pending by a file either was recorded and not
      resolved locally, or is a rewritten alias call that starts with the
      name of something the file imports. */
  lemma PendingCallsAccounted(t: Tree)
    requires WalkStmts(Initial, t).Ok?
    ensures var s := WalkStmts(Initial, t).value;
      forall x :: x in ReportCalls(s) ==>
        (x in s.calls && x !in Used(s)) || (exists i :: i in s.imports && StartsWith(x, i))
  {
    var s := WalkStmts(Initial, t).value;
    WalkStmtsPreserves(Initial, t);
    forall x | x in ReportCalls(s) && !(x in s.calls && x !in Used(s))
      ensures exists i :: i in s.imports && StartsWith(x, i)
    {
      var c :| c in s.calls && Aliased(s, c) && Dealias(s, c) == x;
      DealiasStartsWithTarget(s, c);
      assert s.importAliases[Head(c)] in s.imports;
    }
  }

  /** A definition survives its own file exactly when no call in the file
      names it; definitions are never invented; and every class defined at
      the top of the file, with each of its direct methods, is a definition,
      so it is reported exactly when the file never calls it. */
  lemma DefinitionsSurviveUncalled(t: Tree)
    requires Extract(Some(t)).Ok?
    ensures var s := WalkStmts(Initial, t).value;
      var r := Extract(Some(t)).value;
      && r.Executables? && r.callables <= s.callables
      && (forall d :: d in s.callables ==> (d in r.callables <==> d !in s.calls))
      && (forall k :: 0 <= k < |t| && t[k].ClassDef? ==>
            t[k].name in s.callables && MethodPaths(t[k].name, t[k].body) <= s.callables)
  {
    forall k | 0 <= k < |t| && t[k].ClassDef?
      ensures var s := WalkStmts(Initial, t).value;
        t[k].name in s.callables && MethodPaths(t[k].name, t[k].body) <= s.callables
    {
      ClassDefinitionRecorded(Initial, t, k);
    }
  }
}
