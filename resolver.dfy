/** `getCommander` of client.py: from an optional commander name hint and
    the candidate source files, find the single class that implements
    `api.Commander`, or report why there is none. */
module Resolver {
  import opened PyStr
  import opened Runtime

  // ---------------------------------------------------------------------
  // Diagnostics written to the log
  // ---------------------------------------------------------------------

  /** One record written to the logger while resolving. */
  datatype Diagnostic =
    | FilesListed(files: seq<string>)                // debug: the files to import
    | ImportFailed(file: string, reason: string)     // error: ImportError or SyntaxError
    | CommanderNotFound(hint: string, path: string)  // error: nothing matched the hint
    | NoCommanders(path: string)                     // error: nothing found without a hint
    | SeveralCommanders(names: seq<string>)          // error: more than one candidate
    | CandidateFound(name: string)                   // debug: the one candidate

  /** `repr` of a string without quotes, backslashes or control characters. */
  function Repr(s: string): string
  {
    "'" + s + "'"
  }

  /** The items of `str(list)` for a list of strings, without the brackets. */
  function ReprItems(xs: seq<string>): string
  {
    if xs == [] then []
    else if |xs| == 1 then Repr(xs[0])
    else ReprItems(xs[..|xs| - 1]) + ", " + Repr(xs[|xs| - 1])
  }

  /** `str(list)` for a list of strings. */
  function ReprList(xs: seq<string>): string
  {
    "[" + ReprItems(xs) + "]"
  }

  /** The text each record carries. */
  function Text(d: Diagnostic): string
  {
    match d
    case FilesListed(files) => ReprList(files)
    case ImportFailed(file, reason) => "ERROR: While importing '" + file + "', " + reason + "."
    case CommanderNotFound(hint, path) => "Error: Unable to find commander " + hint + " on path " + path
    case NoCommanders(path) => "Error: Unable to find any commanders on path " + path
    case SeveralCommanders(names) => "Error: Found more than one commander: " + ReprList(names)
    case CandidateFound(name) => "Found candidate " + name
  }

  /** Every string of a list appears, quoted, in the list's `str`. */
  lemma {:induction false} ReprItemsMentions(xs: seq<string>, k: nat)
    requires k < |xs|
    ensures Contains(ReprItems(xs), Repr(xs[k]))
  {
    var last := |xs| - 1;
    var item := Repr(xs[k]);
    if |xs| == 1 {
      assert Contains(ReprItems(xs), item) by {
        ContainsMiddle([], item, []);
        assert [] + item + [] == ReprItems(xs);
      }
    } else {
      var init := ReprItems(xs[..last]);
      assert ReprItems(xs) == init + (", " + Repr(xs[last]));
      if k == last {
        assert Contains(init + (", " + item), item) by {
          ContainsMiddle(init + ", ", item, []);
          assert init + ", " + item + [] == init + (", " + item);
        }
      } else {
        assert Contains(init, item) by {
          ReprItemsMentions(xs[..last], k);
          assert xs[..last][k] == xs[k];
        }
        ContainsExtend(init, ", " + Repr(xs[last]), item);
      }
    }
  }

  // ---------------------------------------------------------------------
  // Stage 1: the files to import and the class-name selector
  // ---------------------------------------------------------------------

  /** The files to import and the selector the class names must contain. */
  datatype Enumeration = Enumeration(files: seq<string>, selector: Option<string>)

  /** With a hint, the one file is the text before its last '.', and the
      selector the text after it (the whole hint when it has no '.').
      Without one, `globbed` (the `*.py` files `glob` listed in the search path) is used and
      there is no selector. An empty hint counts as no hint. */
  function Enumerate(hint: Option<string>, globbed: seq<string>): (e: Enumeration)
    ensures !Truthy(hint) ==> e.files == globbed && e.selector == None
    ensures Truthy(hint) ==> |e.files| == 1 && e.selector.Some? && '.' !in e.selector.value
    ensures Truthy(hint) && '.' in hint.value ==> hint.value == e.files[0] + "." + e.selector.value
    ensures Truthy(hint) && '.' !in hint.value ==> e.files[0] == [] && e.selector.value == hint.value
  {
    if Truthy(hint) then
      var p := RPartition(hint.value, '.');
      Enumeration([p.head], Some(p.tail))
    else
      Enumeration(globbed, None)
  }

  // ---------------------------------------------------------------------
  // Stage 2: import every file, tolerating ImportError and SyntaxError
  // ---------------------------------------------------------------------

  /** The module name a file is imported under: its base name with the
      last extension removed. */
  function ModuleName(file: string): string
  {
    SplitExt(BaseName(file)).root
  }

  /** A module name holds no '/' and is the file's base name with its
      extension, as `splitext` finds it, cut off: the directories are
      dropped and at most the extension is removed. */
  lemma ModuleNameShape(file: string)
    ensures '/' !in ModuleName(file)
    ensures ModuleName(file) + SplitExt(BaseName(file)).ext == BaseName(file)
    ensures ModuleName(file) <= BaseName(file)
  {
    var b := BaseName(file);
    var r := SplitExt(b).root;
    BaseNameShape(file);
    SplitExtShape(b);
    assert b[..|r|] == r;
  }

  /** A file `dir` + `stem.ext`, where `dir` is empty or ends in '/', the
      extension holds no '.', and the stem has some non-dot character, is
      imported as module `stem`: "bots/alpha.py" gives "alpha", "a.b.c"
      gives "a.b". */
  lemma ModuleNameOfFile(dir: string, stem: string, ext: string)
    requires dir == [] || dir[|dir| - 1] == '/'
    requires '/' !in stem && '/' !in ext && '.' !in ext
    requires exists k :: 0 <= k < |stem| && stem[k] != '.'
    ensures ModuleName(dir + (stem + "." + ext)) == stem
  {
    assert '/' !in stem + "." + ext;
    BaseNameAfterSlash(dir, stem + "." + ext);
    SplitExtOfStem(stem, ext);
  }

  /** A hint `stem.ext.sel` names the file `stem.ext` and the selector
      `sel`; the module imported is `stem`, so only the last dotted
      component of the file part is dropped: "a.b.C" imports module "a",
      "a.b.c.D" imports module "a.b". */
  lemma DottedHintModule(stem: string, ext: string, sel: string, globbed: seq<string>)
    requires '/' !in stem && '/' !in ext && '.' !in ext && '.' !in sel
    requires exists k :: 0 <= k < |stem| && stem[k] != '.'
    ensures var e := Enumerate(Some(stem + "." + ext + "." + sel), globbed);
            e == Enumeration([stem + "." + ext], Some(sel)) && ModuleName(e.files[0]) == stem
  {
    var file := stem + "." + ext;
    var h := file + "." + sel;
    RFindBeforeTail(file, '.', sel);
    assert h[..|file|] == file && h[|file| + 1..] == sel;
    ModuleNameOfFile([], stem, ext);
    assert [] + (stem + "." + ext) == file;
  }

  /** The exception that left the import loop, and the file it came from. */
  datatype Crash = Crash(file: string, message: string)

  /** The state of the import loop: the modules imported, the failures
      logged, and the exception that stopped it, if any. */
  datatype Loading = Loading(modules: seq<Module>, log: seq<Diagnostic>, raised: Option<Crash>)

  /** One turn of the import loop, for `file`: a loaded module is kept and
      nothing is logged; an ImportError or SyntaxError is logged once,
      naming the file, and skipped; any other exception stops the loop,
      recording the file it came from. */
  function LoadStep(acc: Loading, file: string, o: ImportOutcome): (r: Loading)
    ensures o.Loaded? ==> r == Loading(acc.modules + [o.mod], acc.log, acc.raised)
    ensures o.ImportError? || o.SyntaxError? ==> r == Loading(acc.modules, acc.log + [ImportFailed(file, o.message)], acc.raised)
    ensures o.OtherError? ==> r == Loading(acc.modules, acc.log, Some(Crash(file, o.message)))
  {
    match o
    case Loaded(m) => acc.(modules := acc.modules + [m])
    case ImportError(msg) => acc.(log := acc.log + [ImportFailed(file, msg)])
    case SyntaxError(msg) => acc.(log := acc.log + [ImportFailed(file, msg)])
    case OtherError(msg) => acc.(raised := Some(Crash(file, msg)))
  }

  /** The import loop over `files`; an exception other than ImportError or
      SyntaxError ends it. Every file it gets through is either imported or
      logged, and the log holds only import failures. */
  function LoadAll(files: seq<string>, table: ImportTable): (l: Loading)
    ensures |l.modules| + |l.log| <= |files|
    ensures l.raised.None? ==> |l.modules| + |l.log| == |files|
    ensures forall d :: d in l.log ==> d.ImportFailed?
  {
    if files == [] then Loading([], [], None)
    else
      var acc := LoadAll(files[..|files| - 1], table);
      if acc.raised.Some? then acc else LoadStep(acc, files[|files| - 1], Import(table, ModuleName(files[|files| - 1])))
  }

  /** The import loop over `a` followed by the one over `b`. */
  function Then(x: Loading, y: Loading): Loading
  {
    Loading(x.modules + y.modules, x.log + y.log, y.raised)
  }

  /** One more turn after two runs of the loop is one more turn of the second. */
  lemma LoadStepThen(x: Loading, y: Loading, file: string, o: ImportOutcome)
    ensures LoadStep(Then(x, y), file, o) == Then(x, LoadStep(y, file, o))
  {
    match o
    case Loaded(m) =>
      assert x.modules + y.modules + [m] == x.modules + (y.modules + [m]);
    case ImportError(msg) =>
      assert x.log + y.log + [ImportFailed(file, msg)] == x.log + (y.log + [ImportFailed(file, msg)]);
    case SyntaxError(msg) =>
      assert x.log + y.log + [ImportFailed(file, msg)] == x.log + (y.log + [ImportFailed(file, msg)]);
    case OtherError(msg) =>
  }

  /** Importing `a + b` imports `a`, then, unless that raised, `b`, each
      file independently of the others. */
  lemma {:induction false} LoadAllAppend(a: seq<string>, b: seq<string>, table: ImportTable)
    ensures LoadAll(a, table).raised.Some? ==> LoadAll(a + b, table) == LoadAll(a, table)
    ensures LoadAll(a, table).raised.None? ==>
      LoadAll(a + b, table) == Then(LoadAll(a, table), LoadAll(b, table))
  {
    if b == [] {
      assert a + b == a;
      assert Then(LoadAll(a, table), Loading([], [], None)).modules == LoadAll(a, table).modules + [];
      assert Then(LoadAll(a, table), Loading([], [], None)).log == LoadAll(a, table).log + [];
    } else {
      var b' := b[..|b| - 1];
      var f := b[|b| - 1];
      assert (a + b)[..|a + b| - 1] == a + b';
      assert (a + b)[|a + b| - 1] == f;
      LoadAllAppend(a, b', table);
      var acc := LoadAll(a + b', table);
      assert LoadAll(a + b, table) == if acc.raised.Some? then acc else LoadStep(acc, f, Import(table, ModuleName(f)));
      if LoadAll(a, table).raised.None? && LoadAll(b', table).raised.None? {
        LoadStepThen(LoadAll(a, table), LoadAll(b', table), f, Import(table, ModuleName(f)));
      }
    }
  }

  /** The import loop after the first `i + 1` files. */
  lemma LoadAllPrefix(files: seq<string>, i: nat, table: ImportTable)
    requires i < |files|
    ensures LoadAll(files[..i + 1], table)
         == if LoadAll(files[..i], table).raised.Some? then LoadAll(files[..i], table)
            else LoadStep(LoadAll(files[..i], table), files[i], Import(table, ModuleName(files[i])))
  {
    assert files[..i + 1][..i] == files[..i];
  }

  /** Once an import has raised, no later file is imported. */
  lemma LoadAllStops(files: seq<string>, i: nat, table: ImportTable)
    requires i <= |files| && LoadAll(files[..i], table).raised.Some?
    ensures LoadAll(files, table) == LoadAll(files[..i], table)
  {
    SplitJoin(files, i);
    LoadAllAppend(files[..i], files[i..], table);
  }

  /** A sequence cut at `i` joins back to itself. */
  lemma SplitJoin<T>(s: seq<T>, i: nat)
    requires i <= |s|
    ensures s[..i] + s[i..] == s
  {
  }

  /** A file that fails with ImportError or SyntaxError adds one log record
      and nothing else: the files around it are imported as if it were not
      there. */
  lemma FailedImportIsIsolated(a: seq<string>, f: string, b: seq<string>, table: ImportTable)
    requires Import(table, ModuleName(f)).ImportError? || Import(table, ModuleName(f)).SyntaxError?
    requires LoadAll(a, table).raised.None?
    ensures LoadAll(a + [f] + b, table).modules == LoadAll(a + b, table).modules
    ensures LoadAll(a + [f] + b, table).raised == LoadAll(a + b, table).raised
    ensures LoadAll(a + [f] + b, table).log
         == LoadAll(a, table).log + [ImportFailed(f, Import(table, ModuleName(f)).message)] + LoadAll(b, table).log
  {
    LoadAllAppend(a, [f], table);
    LoadAllAppend(a + [f], b, table);
    LoadAllAppend(a, b, table);
    assert LoadAll([f], table) == LoadStep(Loading([], [], None), f, Import(table, ModuleName(f))) by {
      assert [f][..0] == [];
    }
  }

  /** A file whose module loads contributes that module and nothing else. */
  lemma LoadedModuleIsKept(a: seq<string>, f: string, b: seq<string>, table: ImportTable)
    requires Import(table, ModuleName(f)).Loaded?
    requires LoadAll(a, table).raised.None?
    ensures LoadAll(a + [f] + b, table).modules
         == LoadAll(a, table).modules + [Import(table, ModuleName(f)).mod] + LoadAll(b, table).modules
    ensures LoadAll(a + [f] + b, table).log == LoadAll(a + b, table).log
  {
    LoadAllAppend(a, [f], table);
    LoadAllAppend(a + [f], b, table);
    LoadAllAppend(a, b, table);
    assert LoadAll([f], table) == LoadStep(Loading([], [], None), f, Import(table, ModuleName(f))) by {
      assert [f][..0] == [];
    }
  }

  // ---------------------------------------------------------------------
  // Stage 3: the filter over dir(module)
  // ---------------------------------------------------------------------

  /** The tests a name of `dir(module)` must pass to become a candidate: it
      is in `__all__` when the module has one; it neither starts with "__"
      nor is "Commander"; it contains the selector, if there is one; and it
      is bound to a class for which `issubclass(cls, api.Commander)` holds
      (a TypeError from that test rejects the name). */
  predicate Eligible(exports: Option<seq<string>>, b: Binding, selector: Option<string>)
  {
    (exports.None? || b.name in exports.value)
    && !("__" <= b.name) && b.name != "Commander"
    && (selector.None? || Contains(b.name, selector.value))
    && b.def.Class? && b.def.cls.commander
  }

  /** The candidates the filter appends while scanning `bs`, in order: at
      most one per binding, each a subclass of `api.Commander`. */
  function ScanDefs(exports: Option<seq<string>>, bs: seq<Binding>, selector: Option<string>): (r: seq<PyClass>)
    ensures |r| <= |bs|
    ensures forall k :: 0 <= k < |r| ==> r[k].commander
  {
    if bs == [] then []
    else
      var prev := ScanDefs(exports, bs[..|bs| - 1], selector);
      var b := bs[|bs| - 1];
      if Eligible(exports, b, selector) then prev + [b.def.cls] else prev
  }

  /** The candidates of every module, in module order, each a subclass of
      `api.Commander`. */
  function ScanModules(ms: seq<Module>, selector: Option<string>): (r: seq<PyClass>)
    ensures forall k :: 0 <= k < |r| ==> r[k].commander
  {
    if ms == [] then []
    else
      var m := ms[|ms| - 1];
      ScanModules(ms[..|ms| - 1], selector) + ScanDefs(m.exports, m.dir, selector)
  }

  /** Soundness: every candidate is the class of an eligible binding. */
  lemma {:induction false} ScanDefsSound(exports: Option<seq<string>>, bs: seq<Binding>, selector: Option<string>, k: nat)
    requires k < |ScanDefs(exports, bs, selector)|
    ensures exists j ::
              && 0 <= j < |bs| && Eligible(exports, bs[j], selector)
              && bs[j].def.cls == ScanDefs(exports, bs, selector)[k]
  {
    var n := |bs| - 1;
    var prev := ScanDefs(exports, bs[..n], selector);
    if k < |prev| {
      ScanDefsSound(exports, bs[..n], selector, k);
      var j :| 0 <= j < n && Eligible(exports, bs[..n][j], selector) && bs[..n][j].def.cls == prev[k];
      assert bs[..n][j] == bs[j];
    } else {
      assert Eligible(exports, bs[n], selector) && bs[n].def.cls == ScanDefs(exports, bs, selector)[k];
    }
  }

  /** Soundness across modules: every candidate is the class of an eligible
      binding of one of the modules. */
  lemma {:induction false} ScanModulesSound(ms: seq<Module>, selector: Option<string>, k: nat)
    requires k < |ScanModules(ms, selector)|
    ensures exists i, j ::
              && 0 <= i < |ms| && 0 <= j < |ms[i].dir|
              && Eligible(ms[i].exports, ms[i].dir[j], selector)
              && ms[i].dir[j].def.cls == ScanModules(ms, selector)[k]
  {
    var n := |ms| - 1;
    var prev := ScanModules(ms[..n], selector);
    var here := ScanDefs(ms[n].exports, ms[n].dir, selector);
    assert ScanModules(ms, selector) == prev + here;
    if k < |prev| {
      ScanModulesSound(ms[..n], selector, k);
      var i, j :| 0 <= i < n && 0 <= j < |ms[..n][i].dir|
        && Eligible(ms[..n][i].exports, ms[..n][i].dir[j], selector) && ms[..n][i].dir[j].def.cls == prev[k];
      assert ms[..n][i] == ms[i];
    } else {
      ScanDefsSound(ms[n].exports, ms[n].dir, selector, k - |prev|);
      var j :| 0 <= j < |ms[n].dir| && Eligible(ms[n].exports, ms[n].dir[j], selector)
        && ms[n].dir[j].def.cls == here[k - |prev|];
    }
  }

  /** Scanning is done binding by binding: scanning `xs + ys` appends the
      candidates of `ys` to those of `xs`. */
  lemma {:induction false} ScanDefsAppend(exports: Option<seq<string>>, xs: seq<Binding>, ys: seq<Binding>, selector: Option<string>)
    ensures ScanDefs(exports, xs + ys, selector) == ScanDefs(exports, xs, selector) + ScanDefs(exports, ys, selector)
  {
    if ys == [] {
      assert xs + ys == xs;
    } else {
      var ys' := ys[..|ys| - 1];
      assert (xs + ys)[..|xs + ys| - 1] == xs + ys';
      assert (xs + ys)[|xs + ys| - 1] == ys[|ys| - 1];
      ScanDefsAppend(exports, xs, ys', selector);
    }
  }

  /** Scanning `ms + ns` appends the candidates of `ns` to those of `ms`. */
  lemma {:induction false} ScanModulesAppend(ms: seq<Module>, ns: seq<Module>, selector: Option<string>)
    ensures ScanModules(ms + ns, selector) == ScanModules(ms, selector) + ScanModules(ns, selector)
  {
    if ns == [] {
      assert ms + ns == ms;
    } else {
      var ns' := ns[..|ns| - 1];
      assert (ms + ns)[..|ms + ns| - 1] == ms + ns';
      assert (ms + ns)[|ms + ns| - 1] == ns[|ns| - 1];
      ScanModulesAppend(ms, ns', selector);
    }
  }

  /** The scan of one binding: its class when it is eligible, else nothing. */
  lemma ScanDefsOne(exports: Option<seq<string>>, b: Binding, selector: Option<string>)
    ensures ScanDefs(exports, [b], selector) == if Eligible(exports, b, selector) then [b.def.cls] else []
  {
    assert [b][..0] == [];
  }

  /** The binding at `j` contributes exactly its own scan, at its place. */
  lemma ScanDefsSplit(exports: Option<seq<string>>, bs: seq<Binding>, j: nat, selector: Option<string>)
    requires j < |bs|
    ensures ScanDefs(exports, bs, selector)
         == ScanDefs(exports, bs[..j], selector) + ScanDefs(exports, [bs[j]], selector) + ScanDefs(exports, bs[j + 1..], selector)
  {
    assert bs == bs[..j] + [bs[j]] + bs[j + 1..];
    ScanDefsAppend(exports, bs[..j] + [bs[j]], bs[j + 1..], selector);
    ScanDefsAppend(exports, bs[..j], [bs[j]], selector);
  }

  /** Completeness: every eligible binding's class is a candidate. */
  lemma ScanDefsComplete(exports: Option<seq<string>>, bs: seq<Binding>, j: nat, selector: Option<string>)
    requires j < |bs| && Eligible(exports, bs[j], selector)
    ensures bs[j].def.cls in ScanDefs(exports, bs, selector)
  {
    ScanDefsSplit(exports, bs, j, selector);
    ScanDefsOne(exports, bs[j], selector);
  }

  /** A binding whose subclass test raises TypeError is skipped, and the
      scan goes on with the next one as if it were not there. */
  lemma SubclassTypeErrorSkipsOnlyItself(exports: Option<seq<string>>, bs: seq<Binding>, j: nat, selector: Option<string>)
    requires j < |bs| && bs[j].def.SubclassCheckRaises?
    ensures ScanDefs(exports, bs, selector) == ScanDefs(exports, bs[..j] + bs[j + 1..], selector)
  {
    ScanDefsSplit(exports, bs, j, selector);
    ScanDefsOne(exports, bs[j], selector);
    ScanDefsAppend(exports, bs[..j], bs[j + 1..], selector);
  }

  /** An empty selector (a hint ending in '.') lets every name through. */
  lemma {:induction false} EmptySelectorMatchesAll(exports: Option<seq<string>>, bs: seq<Binding>)
    ensures ScanDefs(exports, bs, Some([])) == ScanDefs(exports, bs, None)
  {
    if bs != [] {
      EmptySelectorMatchesAll(exports, bs[..|bs| - 1]);
      ContainsEmpty(bs[|bs| - 1].name);
    }
  }

  /** The scan of the module at `i` sits at its place among the others. */
  lemma ScanModulesSplit(ms: seq<Module>, i: nat, selector: Option<string>)
    requires i < |ms|
    ensures ScanModules(ms, selector)
         == ScanModules(ms[..i], selector) + ScanDefs(ms[i].exports, ms[i].dir, selector) + ScanModules(ms[i + 1..], selector)
  {
    assert ms == ms[..i] + [ms[i]] + ms[i + 1..];
    ScanModulesAppend(ms[..i] + [ms[i]], ms[i + 1..], selector);
    ScanModulesAppend(ms[..i], [ms[i]], selector);
    assert [ms[i]][..0] == [];
  }

  /** Completeness across modules: every eligible binding of every module
      contributes its class. */
  lemma ScanModulesComplete(ms: seq<Module>, i: nat, j: nat, selector: Option<string>)
    requires i < |ms| && j < |ms[i].dir| && Eligible(ms[i].exports, ms[i].dir[j], selector)
    ensures ms[i].dir[j].def.cls in ScanModules(ms, selector)
  {
    ScanModulesSplit(ms, i, selector);
    ScanDefsComplete(ms[i].exports, ms[i].dir, j, selector);
  }

  /** Two eligible bindings of one module give two candidates, even when
      they are bound to the same class. */
  lemma TwoEligibleBindingsCountTwice(exports: Option<seq<string>>, bs: seq<Binding>, j1: nat, j2: nat, selector: Option<string>)
    requires j1 < j2 < |bs|
    requires Eligible(exports, bs[j1], selector) && Eligible(exports, bs[j2], selector)
    ensures |ScanDefs(exports, bs, selector)| >= 2
  {
    ScanDefsSplit(exports, bs, j2, selector);
    ScanDefsOne(exports, bs[j2], selector);
    assert bs[..j2][j1] == bs[j1];
    ScanDefsComplete(exports, bs[..j2], j1, selector);
  }

  /** Eligible bindings in two different modules give two candidates, even
      when both are bound to the same class. */
  lemma TwoEligibleModulesCountTwice(ms: seq<Module>, i1: nat, j1: nat, i2: nat, j2: nat, selector: Option<string>)
    requires i1 < i2 < |ms|
    requires j1 < |ms[i1].dir| && Eligible(ms[i1].exports, ms[i1].dir[j1], selector)
    requires j2 < |ms[i2].dir| && Eligible(ms[i2].exports, ms[i2].dir[j2], selector)
    ensures |ScanModules(ms, selector)| >= 2
  {
    ScanModulesSplit(ms, i2, selector);
    ScanDefsComplete(ms[i2].exports, ms[i2].dir, j2, selector);
    assert ms[..i2][i1] == ms[i1];
    ScanModulesComplete(ms[..i2], i1, j1, selector);
  }

  // ---------------------------------------------------------------------
  // Stage 4: the arbiter
  // ---------------------------------------------------------------------

  /** How resolution ends: one class, none, several, or an exception that
      escaped the import loop. */
  datatype Resolution =
    | Resolved(cls: PyClass)
    | NotFound
    | Ambiguous(candidates: seq<PyClass>)
    | Raised(crash: Crash)

  /** What `getCommander` returns when it returns at all. */
  function Returned(r: Resolution): (c: Option<PyClass>)
    requires !r.Raised?
    ensures c.Some? <==> r.Resolved?
  {
    if r.Resolved? then Some(r.cls) else None
  }

  /** The `__name__` of every candidate, in order. */
  function Names(cands: seq<PyClass>): (names: seq<string>)
    ensures |names| == |cands|
    ensures forall k :: 0 <= k < |cands| ==> names[k] == cands[k].name
  {
    seq(|cands|, k requires 0 <= k < |cands| => cands[k].name)
  }

  /** The arbiter's decision and the record it logs. */
  datatype Verdict = Verdict(result: Resolution, report: Diagnostic)

  /** Zero candidates: not found; exactly one: that class; more than one:
      ambiguous. The length decides, so a class counted twice is ambiguous. */
  function Arbitrate(cands: seq<PyClass>, hint: Option<string>, path: string): (v: Verdict)
    ensures v.result == NotFound <==> cands == []
    ensures v.result.Resolved? <==> |cands| == 1
    ensures v.result.Ambiguous? <==> |cands| > 1
    ensures v.result.Resolved? ==> v.result.cls == cands[0]
    ensures v.result.Ambiguous? ==> v.result.candidates == cands
    ensures cands == [] ==> v.report == (if Truthy(hint) then CommanderNotFound(hint.value, path) else NoCommanders(path))
    ensures |cands| > 1 ==> v.report == SeveralCommanders(Names(cands))
    ensures |cands| == 1 ==> v.report == CandidateFound(cands[0].name)
  {
    if |cands| == 0 then
      Verdict(NotFound, if Truthy(hint) then CommanderNotFound(hint.value, path) else NoCommanders(path))
    else if |cands| > 1 then
      Verdict(Ambiguous(cands), SeveralCommanders(Names(cands)))
    else
      Verdict(Resolved(cands[0]), CandidateFound(cands[0].name))
  }

  /** `getCommander` returns a class exactly when there is one candidate,
      and then it returns that candidate. */
  lemma ReturnsClassIffUnique(cands: seq<PyClass>, hint: Option<string>, path: string, c: PyClass)
    ensures Returned(Arbitrate(cands, hint, path).result) == Some(c) <==> cands == [c]
  {
  }

  /** The error logged for zero candidates names the hint and the path when
      a hint was given, and the path otherwise. */
  lemma NotFoundReportNamesContext(hint: Option<string>, path: string)
    ensures var t := Text(Arbitrate([], hint, path).report);
      Contains(t, path) && (Truthy(hint) ==> Contains(t, hint.value))
  {
    var t := Text(Arbitrate([], hint, path).report);
    if Truthy(hint) {
      ContainsMiddle("Error: Unable to find commander ", hint.value, " on path " + path);
      assert "Error: Unable to find commander " + hint.value + (" on path " + path) == t;
      ContainsMiddle("Error: Unable to find commander " + hint.value + " on path ", path, []);
      assert "Error: Unable to find commander " + hint.value + " on path " + path + [] == t;
    } else {
      ContainsMiddle("Error: Unable to find any commanders on path ", path, []);
      assert "Error: Unable to find any commanders on path " + path + [] == t;
    }
  }

  /** The error logged for several candidates names every one of them. */
  lemma AmbiguousReportNamesAll(cands: seq<PyClass>, hint: Option<string>, path: string, k: nat)
    requires |cands| > 1 && k < |cands|
    ensures Contains(Text(Arbitrate(cands, hint, path).report), Repr(cands[k].name))
  {
    var names := Names(cands);
    var t := Text(SeveralCommanders(names));
    var prefix := "Error: Found more than one commander: [";
    assert t == prefix + (ReprItems(names) + "]");
    ReprItemsMentions(names, k);
    ContainsExtend(ReprItems(names), "]", Repr(names[k]));
    ContainsPrepend(prefix, ReprItems(names) + "]", Repr(names[k]));
  }

  // ---------------------------------------------------------------------
  // The whole of getCommander
  // ---------------------------------------------------------------------

  /** How resolution ended and what it logged, in order. */
  datatype Outcome = Outcome(result: Resolution, log: seq<Diagnostic>)

  /** `getCommander(hint, path)` with `glob` answered by `globbed` and
      imports by `table`. The log starts with the files listed; the result
      is Raised exactly when an import raised something other than
      ImportError or SyntaxError; `ResolveLog` states the rest of the log. */
  function Resolve(hint: Option<string>, path: string, globbed: seq<string>, table: ImportTable): (o: Outcome)
    ensures o.log != [] && o.log[0] == FilesListed(Enumerate(hint, globbed).files)
    ensures o.result.Raised? <==> LoadAll(Enumerate(hint, globbed).files, table).raised.Some?
  {
    var e := Enumerate(hint, globbed);
    var l := LoadAll(e.files, table);
    if l.raised.Some? then
      Outcome(Raised(l.raised.value), [FilesListed(e.files)] + l.log)
    else
      var v := Arbitrate(ScanModules(l.modules, e.selector), hint, path);
      Outcome(v.result, [FilesListed(e.files)] + l.log + [v.report])
  }

  /** When no import escapes, the log is the file list, then the import
      failures in file order, then the arbiter's one record. */
  lemma ResolveLog(hint: Option<string>, path: string, globbed: seq<string>, table: ImportTable)
    ensures var e := Enumerate(hint, globbed);
            var l := LoadAll(e.files, table);
            var o := Resolve(hint, path, globbed, table);
            !o.result.Raised? ==>
              o.log == [FilesListed(e.files)] + l.log + [Arbitrate(ScanModules(l.modules, e.selector), hint, path).report]
  {
  }

  /** The modules resolution scans when no import raised. */
  function LoadedModules(hint: Option<string>, globbed: seq<string>, table: ImportTable): seq<Module>
  {
    LoadAll(Enumerate(hint, globbed).files, table).modules
  }

  /** Soundness: a resolved class is the class of an eligible binding of an
      imported module, under the selector the hint gives. */
  lemma ResolvedIsEligible(hint: Option<string>, path: string, globbed: seq<string>, table: ImportTable)
    requires Resolve(hint, path, globbed, table).result.Resolved?
    ensures var ms := LoadedModules(hint, globbed, table);
      var sel := Enumerate(hint, globbed).selector;
      exists i, j :: 0 <= i < |ms| && 0 <= j < |ms[i].dir|
        && Eligible(ms[i].exports, ms[i].dir[j], sel)
        && ms[i].dir[j].def.cls == Resolve(hint, path, globbed, table).result.cls
  {
    var ms := LoadedModules(hint, globbed, table);
    var sel := Enumerate(hint, globbed).selector;
    assert Resolve(hint, path, globbed, table).result.cls == ScanModules(ms, sel)[0];
    ScanModulesSound(ms, sel, 0);
  }

  /** With no eligible binding anywhere, resolution finds nothing. */
  lemma NoEligibleIsNotFound(hint: Option<string>, path: string, globbed: seq<string>, table: ImportTable)
    requires LoadAll(Enumerate(hint, globbed).files, table).raised.None?
    requires var ms := LoadedModules(hint, globbed, table);
      forall i, j :: 0 <= i < |ms| && 0 <= j < |ms[i].dir| ==>
        !Eligible(ms[i].exports, ms[i].dir[j], Enumerate(hint, globbed).selector)
    ensures Resolve(hint, path, globbed, table).result == NotFound
  {
    var ms := LoadedModules(hint, globbed, table);
    var sel := Enumerate(hint, globbed).selector;
    if ScanModules(ms, sel) != [] {
      ScanModulesSound(ms, sel, 0);
    }
  }

  /** Two eligible bindings make resolution ambiguous, even when both are
      bound to the same class (a class imported into two modules). */
  lemma TwoEligibleAreAmbiguous(hint: Option<string>, path: string, globbed: seq<string>, table: ImportTable,
                                i1: nat, j1: nat, i2: nat, j2: nat)
    requires LoadAll(Enumerate(hint, globbed).files, table).raised.None?
    requires var ms := LoadedModules(hint, globbed, table);
      var sel := Enumerate(hint, globbed).selector;
      i1 < |ms| && j1 < |ms[i1].dir| && Eligible(ms[i1].exports, ms[i1].dir[j1], sel)
      && i2 < |ms| && j2 < |ms[i2].dir| && Eligible(ms[i2].exports, ms[i2].dir[j2], sel)
      && (i1 < i2 || (i1 == i2 && j1 < j2))
    ensures Resolve(hint, path, globbed, table).result.Ambiguous?
  {
    var ms := LoadedModules(hint, globbed, table);
    var sel := Enumerate(hint, globbed).selector;
    if i1 < i2 {
      TwoEligibleModulesCountTwice(ms, i1, j1, i2, j2, sel);
    } else {
      TwoEligibleBindingsCountTwice(ms[i1].exports, ms[i1].dir, j1, j2, sel);
      ScanModulesSplit(ms, i1, sel);
    }
  }

  /** The file "" has the empty module name. */
  lemma EmptyFileHasEmptyName()
    ensures ModuleName([]) == []
  {
    assert RFind([], '/') == -1;
    assert SplitExt([]).root == [];
  }

  /** Importing the file "" raises ValueError, which ends the loop. */
  lemma EmptyFileRaises(table: ImportTable)
    ensures LoadAll([[]], table) == Loading([], [], Some(Crash([], "Empty module name")))
  {
    var files: seq<string> := [[]];
    EmptyFileHasEmptyName();
    assert Import(table, ModuleName([])) == OtherError("Empty module name");
    assert files[..0] == [];
    assert LoadAll(files, table) == LoadStep(LoadAll([], table), [], Import(table, ModuleName([])));
  }

  /** A hint without a '.' names the file "", whose module name is empty;
      importing it raises ValueError, which nothing catches. */
  lemma DotlessHintRaises(hint: Option<string>, path: string, globbed: seq<string>, table: ImportTable)
    requires Truthy(hint) && '.' !in hint.value
    ensures Resolve(hint, path, globbed, table).result == Raised(Crash([], "Empty module name"))
  {
    var e := Enumerate(hint, globbed);
    assert e.files == [[]];
    EmptyFileRaises(table);
  }

  /** A file whose module name starts with '.' asks for a relative import
      without a package; the TypeError this raises ends the loop. */
  lemma RelativeModuleRaises(f: string, table: ImportTable)
    requires ModuleName(f) != [] && ModuleName(f)[0] == '.'
    ensures LoadAll([f], table).raised.Some? && LoadAll([f], table).raised.value.file == f
    ensures LoadAll([f], table).modules == [] && LoadAll([f], table).log == []
  {
    assert [f][..0] == [];
    assert LoadAll([f], table) == LoadStep(Loading([], [], None), f, Import(table, ModuleName(f)));
  }

  /** The file "." keeps "." as its module name. */
  lemma DotFileName()
    ensures ModuleName(".") == "."
  {
    BaseNameAfterSlash([], ".");
    assert [] + "." == ".";
    SplitExtShape(".");
  }

  /** The hint "..Foo" names the file "." and the selector "Foo". */
  lemma DoubleDotHintFile(globbed: seq<string>)
    ensures Enumerate(Some("..Foo"), globbed) == Enumeration(["."], Some("Foo"))
  {
    RFindBeforeTail(".", '.', "Foo");
    assert "." + ['.'] + "Foo" == "..Foo";
    assert "..Foo"[..1] == "." && "..Foo"[2..] == "Foo";
  }

  /** The hint "..Foo" names the file "."; importing its module "." raises
      TypeError, which nothing catches, so `getCommander` raises. */
  lemma DoubleDotHintRaises(path: string, globbed: seq<string>, table: ImportTable)
    ensures Resolve(Some("..Foo"), path, globbed, table).result.Raised?
  {
    DoubleDotHintFile(globbed);
    DotFileName();
    RelativeModuleRaises(".", table);
  }

  /** With exactly one eligible binding among the imported modules,
      resolution returns that binding's class. */
  lemma UniqueEligibleIsResolved(hint: Option<string>, path: string, globbed: seq<string>, table: ImportTable,
                                 i: nat, j: nat)
    requires LoadAll(Enumerate(hint, globbed).files, table).raised.None?
    requires var ms := LoadedModules(hint, globbed, table);
      var sel := Enumerate(hint, globbed).selector;
      i < |ms| && j < |ms[i].dir| && Eligible(ms[i].exports, ms[i].dir[j], sel)
    requires var ms := LoadedModules(hint, globbed, table);
      var sel := Enumerate(hint, globbed).selector;
      forall i', j' :: 0 <= i' < |ms| && 0 <= j' < |ms[i'].dir| && Eligible(ms[i'].exports, ms[i'].dir[j'], sel)
        ==> i' == i && j' == j
    ensures Resolve(hint, path, globbed, table).result == Resolved(LoadedModules(hint, globbed, table)[i].dir[j].def.cls)
  {
    var ms := LoadedModules(hint, globbed, table);
    var sel := Enumerate(hint, globbed).selector;
    var m := ms[i];
    ScanModulesSplit(ms, i, sel);
    ScanDefsSplit(m.exports, m.dir, j, sel);
    ScanDefsOne(m.exports, m.dir[j], sel);
    NoEligibleModulesScanEmpty(ms[..i], sel);
    NoEligibleModulesScanEmpty(ms[i + 1..], sel);
    NoEligibleDefsScanEmpty(m.exports, m.dir[..j], sel);
    NoEligibleDefsScanEmpty(m.exports, m.dir[j + 1..], sel);
  }

  /** Bindings none of which is eligible give no candidates. */
  lemma NoEligibleDefsScanEmpty(exports: Option<seq<string>>, bs: seq<Binding>, selector: Option<string>)
    requires forall j :: 0 <= j < |bs| ==> !Eligible(exports, bs[j], selector)
    ensures ScanDefs(exports, bs, selector) == []
  {
    if ScanDefs(exports, bs, selector) != [] {
      ScanDefsSound(exports, bs, selector, 0);
    }
  }

  /** Modules none of whose bindings is eligible give no candidates. */
  lemma NoEligibleModulesScanEmpty(ms: seq<Module>, selector: Option<string>)
    requires forall i, j :: 0 <= i < |ms| && 0 <= j < |ms[i].dir| ==> !Eligible(ms[i].exports, ms[i].dir[j], selector)
    ensures ScanModules(ms, selector) == []
  {
    if ScanModules(ms, selector) != [] {
      ScanModulesSound(ms, selector, 0);
    }
  }

  /** An empty hint is no hint. */
  lemma EmptyHintIsNoHint(path: string, globbed: seq<string>, table: ImportTable)
    ensures Resolve(Some([]), path, globbed, table) == Resolve(None, path, globbed, table)
  {
  }

  // ---------------------------------------------------------------------
  // The method, as client.py runs it
  // ---------------------------------------------------------------------

  /** The import loop of `getCommander`: import every file under its module
      name, logging and skipping ImportError and SyntaxError; any other
      exception leaves the loop. */
  method ImportModules(files: seq<string>, table: ImportTable)
    returns (modules: seq<Module>, failures: seq<Diagnostic>, raised: Option<Crash>)
    ensures Loading(modules, failures, raised) == LoadAll(files, table)
  {
    modules, failures, raised := [], [], None;
    var i := 0;
    while i < |files|
      invariant 0 <= i <= |files|
      invariant LoadAll(files[..i], table) == Loading(modules, failures, None)
    {
      var file := files[i];
      LoadAllPrefix(files, i, table);
      var outcome := Import(table, ModuleName(file));
      if outcome.Loaded? {
        modules := modules + [outcome.mod];
      } else if outcome.ImportError? || outcome.SyntaxError? {
        failures := failures + [ImportFailed(file, outcome.message)];
      } else {
        raised := Some(Crash(file, outcome.message));
        LoadAllStops(files, i + 1, table);
        return;
      }
      i := i + 1;
    }
    assert files[..i] == files;
  }

  /** The inner scan of `getCommander`: every name of one module's `dir()`
      that passes the filter adds its class. */
  method ScanModule(m: Module, classname: Option<string>) returns (found: seq<PyClass>)
    ensures found == ScanDefs(m.exports, m.dir, classname)
  {
    found := [];
    var j := 0;
    while j < |m.dir|
      invariant 0 <= j <= |m.dir|
      invariant found == ScanDefs(m.exports, m.dir[..j], classname)
    {
      var c := m.dir[j];
      assert m.dir[..j + 1][..j] == m.dir[..j];
      j := j + 1;
      if Eligible(m.exports, c, classname) {
        found := found + [c.def.cls];
      }
    }
    assert m.dir[..j] == m.dir;
  }

  /** The outer scan of `getCommander`, module by module. */
  method CollectCandidates(modules: seq<Module>, classname: Option<string>) returns (candidates: seq<PyClass>)
    ensures candidates == ScanModules(modules, classname)
  {
    candidates := [];
    var i := 0;
    while i < |modules|
      invariant 0 <= i <= |modules|
      invariant candidates == ScanModules(modules[..i], classname)
    {
      var found := ScanModule(modules[i], classname);
      assert modules[..i + 1][..i] == modules[..i];
      candidates := candidates + found;
      i := i + 1;
    }
    assert modules[..i] == modules;
  }

  /** `getCommander(name, path)`: build the file list, import each file,
      scan every module's `dir()`, and let the number of candidates decide. */
  method GetCommander(hint: Option<string>, path: string, globbed: seq<string>, table: ImportTable)
    returns (result: Resolution, log: seq<Diagnostic>)
    ensures Outcome(result, log) == Resolve(hint, path, globbed, table)
  {
    var files: seq<string> := [];
    var classname: Option<string> := None;
    if Truthy(hint) {
      var p := RPartition(hint.value, '.');
      classname := Some(p.tail);
      files := files + [p.head];
    } else {
      files := globbed;
    }
    assert Enumerate(hint, globbed) == Enumeration(files, classname);
    log := [FilesListed(files)];

    var modules, failures, raised := ImportModules(files, table);
    log := log + failures;
    if raised.Some? {
      result := Raised(raised.value);
      return;
    }

    var candidates := CollectCandidates(modules, classname);
    var verdict := Arbitrate(candidates, hint, path);
    result := verdict.result;
    log := log + [verdict.report];
  }
}
