/** The `Visitor` class: a depth-first walk over one file's tree that fills
    six containers in place, and `report`, which reconciles them. Every
    method is proved to do what the matching function of module Extraction
    says; a method that returns `Some(fault)` has raised, and the state it
    leaves behind is not specified (the caller discards the visitor). */
module Visitors {
  import opened Results
  import opened Strings
  import opened Syntax
  import opened Extraction

  /** The result of a step that either raised `fault` or left the visitor in
      state `s`. */
  function Outcome(fault: Option<Fault>, s: VisitorState): Result<VisitorState>
  {
    match fault
    case None => Ok(s)
    case Some(f) => Err(f)
  }

  class Visitor {
    var assignments: map<string, seq<string>>
    var callables: set<string>
    var calls: set<string>
    var classMethods: map<string, nat>
    var imports: set<string>
    var importAliases: map<string, string>

    function State(): VisitorState
      reads this
    {
      VisitorState(assignments, callables, calls, classMethods, imports, importAliases)
    }

    constructor ()
      ensures State() == Initial
    {
      assignments := map[];
      callables := {};
      calls := {};
      classMethods := map[];
      imports := {};
      importAliases := map[];
    }

    /** `NodeVisitor.visit`: dispatch on the node kind. */
    method Visit(node: Stmt) returns (fault: Option<Fault>)
      modifies this
      ensures Outcome(fault, State()) == WalkStmt(old(State()), node)
      decreases node, 3
    {
      match node
      case ClassDef(_, _, _, _) => fault := VisitClassDef(node);
      case FunctionDef(_, _, _, _) => fault := VisitFunctionDef(node);
      case Assign(_, _) => fault := VisitAssign(node);
      case Import(_) => VisitImport(node); fault := None;
      case ImportFrom(_, _) => VisitImportFrom(node); fault := None;
      case OtherStmt(_, _) => fault := GenericVisit(node);
    }

    method VisitClassDef(node: Stmt) returns (fault: Option<Fault>)
      requires node.ClassDef?
      modifies this
      ensures Outcome(fault, State()) == WalkStmt(old(State()), node)
      decreases node, 2
    {
      var className := node.name;
      callables := callables + {className};
      ghost var registering := State();
      for i := 0 to |node.body|
        invariant RegisterMethods(registering, className, node.body)
                  == RegisterMethods(State(), className, node.body[i..])
      {
        assert node.body[i..][1..] == node.body[i + 1..];
        var attribute := node.body[i];
        if attribute.Assign? {
          // assignments in a class body are not handled
        } else if attribute.FunctionDef? {
          callables := callables + {className + "." + attribute.name};
          classMethods := classMethods[attribute.name := attribute.lineno];
        }
      }
      fault := GenericVisit(node);
    }

    method VisitFunctionDef(node: Stmt) returns (fault: Option<Fault>)
      requires node.FunctionDef?
      modifies this
      ensures Outcome(fault, State()) == WalkStmt(old(State()), node)
      decreases node, 2
    {
      var classMethod := if node.name in classMethods then Some(classMethods[node.name]) else None;
      if classMethod.None? || classMethod.value == 0 || classMethod.value != node.lineno {
        callables := callables + {node.name};
      }
      fault := GenericVisit(node);
    }

    method VisitAssign(node: Stmt) returns (fault: Option<Fault>)
      requires node.Assign?
      modifies this
      ensures Outcome(fault, State()) == WalkStmt(old(State()), node)
      decreases node, 2
    {
      var targets: seq<string> := [];
      for i := 0 to |node.targets|
        invariant |targets| == i
        invariant forall j :: 0 <= j < i ==> node.targets[j].Name? && targets[j] == node.targets[j].id
      {
        if !node.targets[i].Name? {
          return Some(TargetNotName);
        }
        targets := targets + [node.targets[i].id];
      }
      assert targets == Ids(node.targets);
      if !node.value.Call? {
        fault := GenericVisit(node);
        return;
      }
      var path := CreateCallablePath(node.value.func);
      if path.Err? {
        return Some(path.fault);
      }
      var call := path.value;
      assert [] + targets == targets;
      if call in assignments {
        assignments := assignments[call := assignments[call] + targets];
      } else {
        assignments := assignments[call := targets];
      }
      fault := GenericVisit(node);
    }

    method VisitImport(node: Stmt)
      requires node.Import?
      modifies this
      ensures State() == Bindings(old(State()), node.names)
    {
      ghost var start := State();
      for i := 0 to |node.names|
        invariant Bindings(start, node.names) == Bindings(State(), node.names[i..])
      {
        assert node.names[i..][1..] == node.names[i + 1..];
        var name := node.names[i];
        imports := imports + {name.name};
        if Binds(name) {
          importAliases := importAliases[name.asname.value := name.name];
        }
      }
    }

    method VisitImportFrom(node: Stmt)
      requires node.ImportFrom?
      modifies this
      ensures State() == RecordImportFrom(old(State()), node.source, node.names)
    {
      ghost var start := State();
      ghost var qualified := Qualify(node.source, node.names);
      var source := ModuleText(node.source);
      for i := 0 to |node.names|
        invariant Bindings(start, qualified) == Bindings(State(), qualified[i..])
      {
        assert qualified[i..][1..] == qualified[i + 1..];
        var name := node.names[i];
        var importName := source + "." + name.name;
        assert qualified[i] == ImportAlias(importName, name.asname);
        imports := imports + {importName};
        if Binds(name) {
          importAliases := importAliases[name.asname.value := importName];
        }
      }
    }

    /** `generic_visit` on a statement: its expressions, then its nested
        statements. */
    method GenericVisit(node: Stmt) returns (fault: Option<Fault>)
      modifies this
      ensures Outcome(fault, State()) == WalkChildren(old(State()), node)
      decreases node, 1
    {
      match node
      case Assign(ts, v) =>
        WithCallsUnion(old(State()), ExprsCalls(ts), ExprCalls(v));
        fault := VisitExprs(ts);
        if fault.None? {
          fault := VisitExpr(v);
        }
      case Import(_) => fault := None;
      case ImportFrom(_, _) => fault := None;
      case _ =>
        fault := VisitExprs(node.exprs);
        if fault.None? {
          fault := VisitStmts(node.body);
        }
    }

    /** The generic walk over a list of statements, in order. */
    method VisitStmts(ss: seq<Stmt>) returns (fault: Option<Fault>)
      modifies this
      ensures Outcome(fault, State()) == WalkStmts(old(State()), ss)
      decreases ss, 0
    {
      var i := 0;
      while i < |ss|
        invariant 0 <= i <= |ss|
        invariant WalkStmts(old(State()), ss) == WalkStmts(State(), ss[i..])
      {
        assert ss[i..][1..] == ss[i + 1..];
        fault := Visit(ss[i]);
        if fault.Some? {
          return;
        }
        i := i + 1;
      }
      fault := None;
    }

    method VisitExpr(e: Expr) returns (fault: Option<Fault>)
      modifies this
      ensures Outcome(fault, State()) == WithCalls(old(State()), ExprCalls(e))
      decreases e, 2
    {
      if e.Call? {
        fault := VisitCall(e);
      } else {
        fault := GenericVisitExpr(e);
      }
    }

    method VisitCall(node: Expr) returns (fault: Option<Fault>)
      requires node.Call?
      modifies this
      ensures Outcome(fault, State()) == WithCalls(old(State()), ExprCalls(node))
      decreases node, 1
    {
      if node.func.Name? {
        WithCallsUnion(old(State()), Ok({node.func.id}), ChildrenCalls(node));
        calls := calls + {node.func.id};
      } else {
        var call := CreateCallablePath(node.func);
        if call.Err? {
          return Some(call.fault);
        }
        WithCallsUnion(old(State()), Ok({call.value}), ChildrenCalls(node));
        calls := calls + {call.value};
      }
      fault := GenericVisitExpr(node);
    }

    /** `generic_visit` on an expression. */
    method GenericVisitExpr(e: Expr) returns (fault: Option<Fault>)
      modifies this
      ensures Outcome(fault, State()) == WithCalls(old(State()), ChildrenCalls(e))
      decreases e, 0
    {
      match e
      case Name(_) =>
        assert calls + {} == calls;
        fault := None;
      case Attribute(v, _) => fault := VisitExpr(v);
      case Call(f, args) =>
        WithCallsUnion(old(State()), ExprCalls(f), ExprsCalls(args));
        fault := VisitExpr(f);
        if fault.None? {
          fault := VisitExprs(args);
        }
      case OtherExpr(ch) => fault := VisitExprs(ch);
    }

    method VisitExprs(es: seq<Expr>) returns (fault: Option<Fault>)
      modifies this
      ensures Outcome(fault, State()) == WithCalls(old(State()), ExprsCalls(es))
      decreases es, 3
    {
      var i := 0;
      while i < |es|
        invariant 0 <= i <= |es|
        invariant WithCalls(old(State()), ExprsCalls(es)) == WithCalls(State(), ExprsCalls(es[i..]))
      {
        assert es[i..][1..] == es[i + 1..];
        WithCallsUnion(State(), ExprCalls(es[i]), ExprsCalls(es[i + 1..]));
        fault := VisitExpr(es[i]);
        if fault.Some? {
          return;
        }
        i := i + 1;
      }
      assert calls + {} == calls;
      fault := None;
    }

    /** `_create_callable_path`: collect attribute names while walking down
        to the root, then the root's id, and join them in reverse. */
    static method CreateCallablePath(func: Expr) returns (r: Result<string>)
      ensures r == CallablePath(func)
    {
      var modules: seq<string> := [];
      var f := func;
      assert PathParts(func).Ok? ==> PathParts(func).value + [] == PathParts(func).value;
      while f.Attribute?
        invariant PathParts(func) == Appended(PathParts(f), Reverse(modules))
        decreases f
      {
        ghost var before := modules;
        modules := modules + [f.attr];
        assert modules[..|modules| - 1] == before;
        assert Reverse(modules) == [f.attr] + Reverse(before);
        assert PathParts(f.value).Ok? ==>
          PathParts(f.value).value + [f.attr] + Reverse(before) == PathParts(f.value).value + Reverse(modules);
        f := f.value;
      }
      if !f.Name? {
        return Err(RootNotName);
      }
      modules := modules + [f.id];
      assert Reverse(modules) == [f.id] + Reverse(modules[..|modules| - 1]);
      r := Ok(Join(Reverse(modules), "."));
    }

    /** `report`: drop the called local definitions, set aside the calls
        resolved within the file, and re-add aliased calls in their
        de-aliased form. The set is walked in an arbitrary order. */
    method Report() returns (r: Executables)
      modifies this
      ensures callables == ReportCallables(old(State()))
      ensures calls == ReportCalls(old(State()))
      ensures State() == old(State()).(calls := calls, callables := callables)
      ensures r == Executables(calls, callables)
    {
      ghost var s0 := State();
      var used: set<string> := {};
      var extend: set<string> := {};
      var todo := calls;
      ghost var done: set<string> := {};
      while todo != {}
        invariant todo + done == s0.calls && todo !! done
        invariant State() == s0.(callables := callables)
        invariant callables == s0.callables - done
        invariant used == set c | c in done && (c in s0.callables || Builtin(s0, c) || Aliased(s0, c))
        invariant extend == set c | c in done && Aliased(s0, c) :: Dealias(s0, c)
        decreases todo
      {
        var call :| call in todo;
        if call in callables {
          callables := callables - {call};
          used := used + {call};
        }
        var firstPart := FirstPiece(call, ".");
        if firstPart == call && firstPart !in imports {
          used := used + {call};
        } else if firstPart in importAliases {
          used := used + {call};
          var unaliased := ReplaceAll(call, firstPart, importAliases[firstPart]);
          extend := extend + {unaliased};
        }
        todo := todo - {call};
        done := done + {call};
      }
      calls := calls - used;
      calls := calls + extend;
      r := Executables(calls, callables);
    }
  }

  /** Adding the calls of two walks in turn is adding their union; the
      first failure wins. */
  lemma WithCallsUnion(s: VisitorState, a: Result<set<string>>, b: Result<set<string>>)
    ensures WithCalls(s, Union(a, b)) ==
            match WithCalls(s, a)
            case Err(f) => Err(f)
            case Ok(s') => WithCalls(s', b)
  {
    if a.Ok? && b.Ok? {
      assert s.calls + (a.value + b.value) == (s.calls + a.value) + b.value;
    }
  }

  /** A path with more names appended; a failure stays a failure. */
  function Appended(p: Result<seq<string>>, tail: seq<string>): Result<seq<string>>
  {
    match p
    case Ok(q) => Ok(q + tail)
    case Err(f) => Err(f)
  }
}
