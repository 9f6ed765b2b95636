/** The pipeline around the visitor: which walked directories are skipped,
    which files of a directory are taken as sources and under which module
    name, which files are kept for analysis, and the per-file projection and
    final set difference that make the report. The directory walk, the file
    reads and the parser are inputs: a walk is the sequence of
    `(root, files)` pairs it yields, and a parse is a function from a file
    path to a tree, `None` for a file with a syntax error. */
module Pipeline {
  import opened Results
  import opened Strings
  import opened Syntax
  import opened Extraction
  import opened Visitors

  /** The extension `_collect_files` asks for. */
  const SourceExtension := ".py"

  // ---------------------------------------------------------------------
  // Skipping directories (_collect_files)
  // ---------------------------------------------------------------------

  /** The `"/"`-separated components of a walked directory. */
  function Components(root: string): (r: seq<string>)
    ensures |r| >= 1
  {
    Split(root, '/')
  }

  /** A directory is skipped when one of its components is ignored, or its
      last component looks hidden (`.` or `__` in front). */
  predicate Skipped(root: string, ignorePaths: set<string>)
  {
    var nodes := Components(root);
    (exists n :: n in nodes && n in ignorePaths)
    || StartsWith(nodes[|nodes| - 1], ".")
    || StartsWith(nodes[|nodes| - 1], "__")
  }

  /** The components are exactly the pieces between slashes: joined back
      with `"/"` they give the directory. */
  lemma ComponentsJoin(root: string)
    ensures Join(Components(root), "/") == root
  {
    JoinSplit(root, '/');
  }

  /** An ignored name skips the directory it names and every directory below
      it, wherever it sits in the tree. */
  lemma IgnoredSkipsSubtree(parent: string, dir: string, below: string, ignorePaths: set<string>)
    requires dir in ignorePaths && '/' !in dir
    ensures Skipped(parent + "/" + dir, ignorePaths)
    ensures Skipped(parent + "/" + dir + "/" + below, ignorePaths)
  {
    SplitConcat(parent, '/', dir);
    assert parent + "/" + dir == parent + ['/'] + dir;
    SplitNoSeparator(dir, '/');
    assert dir in Components(parent + "/" + dir);
    SplitConcat(parent + "/" + dir, '/', below);
    assert parent + "/" + dir + "/" + below == (parent + "/" + dir) + ['/'] + below;
    assert dir in Components(parent + "/" + dir + "/" + below);
  }

  /** Only the last component is tested for a hidden name: below a hidden
      directory that is not itself skipped-by-name, a plain directory is
      walked. */
  lemma HiddenOnlyAtTheEnd(parent: string, dir: string, ignorePaths: set<string>)
    requires '/' !in dir
    requires forall n :: n in Components(parent) ==> n !in ignorePaths
    requires dir !in ignorePaths
    ensures Skipped(parent + "/" + dir, ignorePaths)
      <==> StartsWith(dir, ".") || StartsWith(dir, "__")
  {
    SplitConcat(parent, '/', dir);
    assert parent + "/" + dir == parent + ['/'] + dir;
    SplitNoSeparator(dir, '/');
    var nodes := Components(parent + "/" + dir);
    assert nodes == Components(parent) + [dir];
    assert nodes[|nodes| - 1] == dir;
  }

  /** A string without the separator splits into itself. */
  lemma {:induction false} SplitNoSeparator(s: string, c: char)
    requires c !in s
    ensures Split(s, c) == [s]
    decreases |s|
  {
    if s != "" {
      assert c !in s[1..] by {
        assert forall k :: 0 <= k < |s[1..]| ==> s[1..][k] == s[k + 1];
      }
      SplitNoSeparator(s[1..], c);
      assert s[0] != c;
      assert [s[0]] + s[1..] == s;
    }
  }

  // ---------------------------------------------------------------------
  // Selecting source files (_filter_files_by_ext)
  // ---------------------------------------------------------------------

  /** The files that end with the extension, in their order. */
  function Kept(files: seq<string>, extension: string): seq<string>
    decreases |files|
  {
    if files == [] then []
    else
      var last := files[|files| - 1];
      Kept(files[..|files| - 1], extension) + (if EndsWith(last, extension) then [last] else [])
  }

  /** The path of each kept file: `root + "/" + file`. */
  function PathsOf(root: string, kept: seq<string>): (r: seq<string>)
    ensures |r| == |kept|
  {
    seq(|kept|, i requires 0 <= i < |kept| => root + "/" + kept[i])
  }

  /** The dotted module of each kept file: the directory, a dot, and the
      file name up to the first occurrence of the extension. */
  function ModulesOf(root: string, kept: seq<string>, extension: string): (r: seq<string>)
    requires |extension| > 0
    ensures |r| == |kept|
  {
    seq(|kept|, i requires 0 <= i < |kept| => root + "." + FirstPiece(kept[i], extension))
  }

  /** A file is kept exactly when it is one of the files and ends with the
      extension. */
  lemma {:induction false} KeptExactly(files: seq<string>, extension: string, f: string)
    ensures f in Kept(files, extension) <==> f in files && EndsWith(f, extension)
    decreases |files|
  {
    if files != [] {
      var init := files[..|files| - 1];
      KeptExactly(init, extension, f);
      assert files == init + [files[|files| - 1]];
    }
  }

  /** Keeping distributes over concatenation, so the kept files keep their
      relative order. */
  lemma {:induction false} KeptConcat(a: seq<string>, b: seq<string>, extension: string)
    ensures Kept(a + b, extension) == Kept(a, extension) + Kept(b, extension)
    decreases |b|
  {
    if b == [] {
      assert a + b == a;
    } else {
      var init := b[..|b| - 1];
      var last := b[|b| - 1];
      assert (a + b)[..|a + b| - 1] == a + init;
      assert (a + b)[|a + b| - 1] == last;
      KeptConcat(a, init, extension);
    }
  }

  /** The module of a file named `stem + extension + rest` is the directory
      and `stem`, as long as the extension does not occur earlier: the
      module of `dir/my.pyc.py` is `dir.my`. */
  lemma ModuleStem(root: string, stem: string, extension: string, rest: string)
    requires |extension| > 0
    requires forall j :: 0 <= j < |stem| ==> !StartsWith((stem + extension + rest)[j..], extension)
    ensures EndsWith(stem + extension, extension)
    ensures ModulesOf(root, [stem + extension + rest], extension) == [root + "." + stem]
  {
    FirstPieceAt(stem, extension, rest);
    assert (stem + extension)[|stem + extension| - |extension|..] == extension;
  }

  /** `_filter_files_by_ext`: the paths and modules of the files of `root`
      that end with `extension`. */
  method FilterFilesByExt(files: seq<string>, root: string, extension: string)
    returns (filePaths: seq<string>, modules: seq<string>)
    requires |extension| > 0
    ensures filePaths == PathsOf(root, Kept(files, extension))
    ensures modules == ModulesOf(root, Kept(files, extension), extension)
    ensures |filePaths| == |modules|
  {
    filePaths := [];
    modules := [];
    for i := 0 to |files|
      invariant filePaths == PathsOf(root, Kept(files[..i], extension))
      invariant modules == ModulesOf(root, Kept(files[..i], extension), extension)
    {
      var file := files[i];
      assert files[..i + 1][..i] == files[..i];
      assert files[..i + 1][i] == file;
      var kept := Kept(files[..i], extension);
      if EndsWith(file, extension) {
        filePaths := filePaths + [root + "/" + file];
        var stem := FirstPiece(file, extension);
        modules := modules + [root + "." + stem];
        assert Kept(files[..i + 1], extension) == kept + [file];
        assert filePaths == PathsOf(root, kept + [file]);
        assert modules == ModulesOf(root, kept + [file], extension);
      } else {
        assert Kept(files[..i + 1], extension) == kept + [];
        assert kept + [] == kept;
      }
    }
    assert files[..|files|] == files;
  }

  // ---------------------------------------------------------------------
  // Collecting files over a walk (_collect_files)
  // ---------------------------------------------------------------------

  /** One step of the directory walk: a directory and the files in it. */
  datatype WalkStep = WalkStep(root: string, files: seq<string>)

  /** The source paths collected from the walked directories that are not
      skipped, in walk order. */
  function CollectedPaths(walk: seq<WalkStep>, ignorePaths: set<string>): seq<string>
    decreases |walk|
  {
    if walk == [] then []
    else
      var last := walk[|walk| - 1];
      CollectedPaths(walk[..|walk| - 1], ignorePaths)
      + (if Skipped(last.root, ignorePaths) then [] else PathsOf(last.root, Kept(last.files, SourceExtension)))
  }

  /** The module names collected alongside, one per path. */
  function CollectedModules(walk: seq<WalkStep>, ignorePaths: set<string>): seq<string>
    decreases |walk|
  {
    if walk == [] then []
    else
      var last := walk[|walk| - 1];
      CollectedModules(walk[..|walk| - 1], ignorePaths)
      + (if Skipped(last.root, ignorePaths) then []
         else ModulesOf(last.root, Kept(last.files, SourceExtension), SourceExtension))
  }

  /** A path in a non-skipped directory's part of the walk. */
  predicate SourceAt(walk: seq<WalkStep>, ignorePaths: set<string>, k: int, f: string)
  {
    0 <= k < |walk| && !Skipped(walk[k].root, ignorePaths)
    && f in walk[k].files && EndsWith(f, SourceExtension)
  }

  /** Every collected path is a `.py` file of a walked directory that was
      not skipped. */
  lemma {:induction false} CollectedAreSources(walk: seq<WalkStep>, ignorePaths: set<string>, p: string)
    requires p in CollectedPaths(walk, ignorePaths)
    ensures exists k, f :: SourceAt(walk, ignorePaths, k, f) && p == walk[k].root + "/" + f
    decreases |walk|
  {
    var n := |walk| - 1;
    var init := walk[..n];
    var last := walk[n];
    if p in CollectedPaths(init, ignorePaths) {
      CollectedAreSources(init, ignorePaths, p);
      var k, f :| SourceAt(init, ignorePaths, k, f) && p == init[k].root + "/" + f;
      assert walk[k] == init[k];
      assert SourceAt(walk, ignorePaths, k, f);
    } else {
      assert !Skipped(last.root, ignorePaths);
      var kept := Kept(last.files, SourceExtension);
      var here := PathsOf(last.root, kept);
      assert p in here;
      var i :| 0 <= i < |here| && here[i] == p;
      KeptExactly(last.files, SourceExtension, kept[i]);
      assert SourceAt(walk, ignorePaths, n, kept[i]);
    }
  }

  /** Every `.py` file of a walked directory that is not skipped is
      collected. */
  lemma {:induction false} SourcesAreCollected(walk: seq<WalkStep>, ignorePaths: set<string>, k: int, f: string)
    requires SourceAt(walk, ignorePaths, k, f)
    ensures walk[k].root + "/" + f in CollectedPaths(walk, ignorePaths)
    decreases |walk|
  {
    var n := |walk| - 1;
    var init := walk[..n];
    var last := walk[n];
    var here := if Skipped(last.root, ignorePaths) then [] else PathsOf(last.root, Kept(last.files, SourceExtension));
    assert CollectedPaths(walk, ignorePaths) == CollectedPaths(init, ignorePaths) + here;
    if k < n {
      assert init[k] == walk[k];
      assert SourceAt(init, ignorePaths, k, f);
      SourcesAreCollected(init, ignorePaths, k, f);
    } else {
      assert k == n;
      KeptPath(last, f);
    }
  }

  /** A `.py` file of a directory has its path among the directory's paths. */
  lemma KeptPath(step: WalkStep, f: string)
    requires f in step.files && EndsWith(f, SourceExtension)
    ensures step.root + "/" + f in PathsOf(step.root, Kept(step.files, SourceExtension))
  {
    var kept := Kept(step.files, SourceExtension);
    KeptExactly(step.files, SourceExtension, f);
    var i :| 0 <= i < |kept| && kept[i] == f;
    assert PathsOf(step.root, kept)[i] == step.root + "/" + f;
  }

  /** `_collect_files`: the paths and modules of the source files of every
      walked directory that is not skipped. */
  method CollectFiles(walk: seq<WalkStep>, ignorePaths: set<string>)
    returns (files: seq<string>, modules: seq<string>)
    ensures files == CollectedPaths(walk, ignorePaths)
    ensures modules == CollectedModules(walk, ignorePaths)
    ensures |files| == |modules|
  {
    files := [];
    modules := [];
    for i := 0 to |walk|
      invariant files == CollectedPaths(walk[..i], ignorePaths)
      invariant modules == CollectedModules(walk[..i], ignorePaths)
      invariant |files| == |modules|
    {
      var step := walk[i];
      assert walk[..i + 1][..i] == walk[..i];
      assert walk[..i + 1][i] == step;
      if Skipped(step.root, ignorePaths) {
        assert files + [] == files && modules + [] == modules;
        continue;
      }
      var filePaths, found := FilterFilesByExt(step.files, step.root, SourceExtension);
      files := files + filePaths;
      modules := modules + found;
    }
    assert walk[..|walk|] == walk;
  }

  // ---------------------------------------------------------------------
  // Extraction per file (_search_executables, _collect_executable_names)
  // ---------------------------------------------------------------------

  /** `_search_executables` on an already parsed file: a fresh visitor walks
      the module body and reports. A file that does not parse yields the
      empty result; a fault raised by the visitor propagates. */
  method SearchExecutables(tree: Option<Tree>) returns (r: Result<Executables>)
    ensures r == Extract(tree)
  {
    if tree.None? {
      return Ok(Unparsed);
    }
    var visitor := new Visitor();
    var fault := visitor.VisitStmts(tree.value);
    if fault.Some? {
      return Err(fault.value);
    }
    var data := visitor.Report();
    return Ok(data);
  }

  /** `executables.get("callables", None)` is truthy. */
  predicate HasCallables(e: Executables)
  {
    e.Executables? && e.callables != {}
  }

  /** The files kept for analysis, each with its extraction result. */
  function Analyzable(files: seq<string>, search: string -> Result<Executables>): map<string, Executables>
  {
    map f | f in files && search(f).Ok? && HasCallables(search(f).value) :: search(f).value
  }

  /** `_collect_executable_names`, with the per-file search as a parameter.
      The first search that raises ends the whole collection. */
  method CollectExecutableNames(files: seq<string>, search: string -> Result<Executables>)
    returns (r: Result<map<string, Executables>>)
    ensures r.Ok? <==> forall f :: f in files ==> search(f).Ok?
    ensures r.Ok? ==> r.value == Analyzable(files, search)
    ensures r.Err? ==> exists f :: f in files && search(f) == Err(r.fault)
  {
    var toAnalyze: map<string, Executables> := map[];
    for i := 0 to |files|
      invariant forall j :: 0 <= j < i ==> search(files[j]).Ok?
      invariant toAnalyze == Analyzable(files[..i], search)
    {
      var file := files[i];
      assert files[..i + 1] == files[..i] + [file];
      var executables := search(file);
      if executables.Err? {
        return Err(executables.fault);
      }
      if HasCallables(executables.value) {
        var again := search(file);
        toAnalyze := toAnalyze[file := again.value];
      }
      assert toAnalyze == Analyzable(files[..i + 1], search);
    }
    assert files[..|files|] == files;
    r := Ok(toAnalyze);
  }

  /** A file that does not parse is never analysed. */
  lemma UnparsedNeverAnalyzed(files: seq<string>, parse: string -> Option<Tree>, f: string)
    requires parse(f).None?
    ensures f !in Analyzable(files, g => Extract(parse(g)))
  {
  }

  // ---------------------------------------------------------------------
  // The per-file projection (_count_usages)
  // ---------------------------------------------------------------------

  /** `data.get("callables", set())`. */
  function CallablesOf(e: Executables): set<string>
  {
    if e.Executables? then e.callables else {}
  }

  /** `_count_usages`: the callables entry of every analysed file, in any
      order of the files. */
  method CountUsages(analyze: map<string, Executables>) returns (callables: map<string, set<string>>)
    ensures callables.Keys == analyze.Keys
    ensures forall f :: f in analyze ==> callables[f] == CallablesOf(analyze[f])
    ensures forall f :: f in analyze && analyze[f].Unparsed? ==> callables[f] == {}
  {
    callables := map[];
    var todo := analyze.Keys;
    while todo != {}
      invariant todo <= analyze.Keys
      invariant callables.Keys == analyze.Keys - todo
      invariant forall f :: f in callables ==> callables[f] == CallablesOf(analyze[f])
      decreases |todo|
    {
      var file :| file in todo;
      callables := callables[file := CallablesOf(analyze[file])];
      todo := todo - {file};
    }
  }

  // ---------------------------------------------------------------------
  // The whole run (process) and the final difference (report)
  // ---------------------------------------------------------------------

  /** What the run reports for one file that parses and walks cleanly. */
  function Unused(parse: string -> Option<Tree>, f: string): set<string>
    requires parse(f).Some? && WalkStmts(Initial, parse(f).value).Ok?
  {
    ReportCallables(WalkStmts(Initial, parse(f).value).value)
  }

  /** `process`, from the walk to the per-file results handed to
      `_save_results`. Each reported file is a collected source that parses,
      and is reported with the definitions it never calls; every such file
      with at least one is reported. */
  method Process(walk: seq<WalkStep>, ignorePaths: set<string>, parse: string -> Option<Tree>)
    returns (r: Result<map<string, set<string>>>)
    ensures r.Ok? <==> forall f :: f in CollectedPaths(walk, ignorePaths) ==> Extract(parse(f)).Ok?
    ensures r.Ok? ==> forall f :: f in r.value ==>
      f in CollectedPaths(walk, ignorePaths) && parse(f).Some?
      && WalkStmts(Initial, parse(f).value).Ok? && r.value[f] == Unused(parse, f) && r.value[f] != {}
    ensures r.Ok? ==> forall f ::
      (f in CollectedPaths(walk, ignorePaths) && parse(f).Some?
       && WalkStmts(Initial, parse(f).value).Ok? && Unused(parse, f) != {}) ==> f in r.value
  {
    var files, modules := CollectFiles(walk, ignorePaths);
    var search := f => Extract(parse(f));
    var analyze := CollectExecutableNames(files, search);
    if analyze.Err? {
      return Err(analyze.fault);
    }
    var results := CountUsages(analyze.value);
    r := Ok(results);
  }

  /** `report`: the requested callables for which no usage was found. */
  function PipelineReport(callableList: seq<string>, foundUsage: seq<string>): (r: set<string>)
    ensures forall x :: x in r <==> x in callableList && x !in foundUsage
  {
    (set x | x in callableList) - (set x | x in foundUsage)
  }
}
