# Commander resolution and traceback formatting of the sandbox client

This project models the two pieces of decision logic in the client of the
CTF-MalazanBot sandbox (`client.py`):

- `getCommander(name, path)` finds the one class that implements
  `api.Commander`. It turns an optional name hint into a file list and a
  class-name selector. It derives a module name from each file and imports
  each module, logging and skipping `ImportError` and `SyntaxError`. It then
  filters every name of every module's `dir()` and lets the number of
  candidates decide. There are three outcomes: the class, not found, or
  ambiguous. Each is logged.
- `format(tb)` turns the frames of a traceback into one line of text per
  frame.

The Python runtime the resolver observes is plain data (`runtime.dfy`):

- A class is a `PyClass` with an identity, a `__name__` and whether it
  subclasses `api.Commander`.
- A module is its optional `__all__` plus the `(name, Def)` pairs of its
  `dir()`. A `Def` is not a class, a class, or an object on which
  `issubclass` raises `TypeError`.
- Importing is a lookup in an `ImportTable` from module name to outcome.
- What `glob` lists is given as a sequence of paths.

The Python string operations involved are in `pystr.dfy`. These are
`rpartition`, `posixpath.basename` and `splitext`, substring `in`, `strip`
and `'%d'`. The resolver is `resolver.dfy`. The formatter is
`traceback.dfy`.

`GetCommander` and `Format` are methods with the loops of the source. Each
is proved equal to a pure specification (`Resolve`, `FormatAll`). The
properties are proved about those specifications.

Two consequences of the code are easy to miss.

- A hint must hold a dot. For a hint without one, such as `"Foo"`,
  `"Foo".rpartition('.')` gives the file `""`. Its module name is `""`, and
  `importlib.import_module("")` raises `ValueError`. Nothing catches that,
  so `getCommander` raises instead of looking for `Foo`
  (`Resolver.DotlessHintRaises`). A file part whose module name starts
  with '.', as in `"..Foo"`, makes `import_module` raise `TypeError` for a
  relative import without a package, and that escapes too
  (`Resolver.DoubleDotHintRaises`).
- The candidates form a list, not a set. One class reached through two
  names or two modules counts twice and makes the outcome ambiguous.

## Model

| member | source | states |
|---|---|---|
| Resolver.GetCommander | client.py:34-93 | The method's result and its log equal `Resolve`: the hint split, the import loop, the scan and the arbiter, in that order. |
| Resolver.Resolve | client.py:34-93 | The log opens with the listed files. The result is an escaped exception exactly when an import raised something other than ImportError or SyntaxError. |
| Resolver.ResolveLog | client.py:46-93 | When no import escapes, the log is the file list, then the import failures in file order, then the arbiter's one record. |
| Runtime.Truthy | client.py:40 | No contract of its own: Python truthiness of an optional string, where `None` and `""` are false. It decides `if name:` at lines 40 and 78 and `if line:` at line 146. `EmptyHintIsNoHint` and `ShowsSourceIffTruthy` rest on it. |
| Resolver.Enumerate | client.py:38-44 | A falsy hint uses the globbed files and no selector. A truthy hint gives exactly one file, the text before its last '.', and a dot-free selector, the text after it. Without a dot the file is empty and the selector is the whole hint. |
| Resolver.EmptyHintIsNoHint | client.py:40 | An empty hint resolves exactly as no hint does. |
| Resolver.DottedHintModule | client.py:41-52 | A hint `stem.ext.sel` gives the one file `stem.ext` and the selector `sel`, and that file imports the module `stem`: only the last dotted component of the file part is dropped ("a.b.C" imports "a", "a.b.c.D" imports "a.b"). |
| Resolver.DoubleDotHintRaises | client.py:40-54 | The hint "..Foo" gives the file ".", whose module name "." makes the import raise TypeError, and the exception escapes `getCommander`. |
| Resolver.RelativeModuleRaises | client.py:52-54 | A file whose module name starts with '.' stops the import loop with an escaping exception that names the file, and adds no module and no log record. |
| Resolver.DotFileName | client.py:52 | The file "." keeps "." as its module name: `splitext` finds no extension in it. |
| Resolver.DotlessHintRaises | client.py:40-53 | A dotless hint makes the import of the empty module name raise, and the exception escapes `getCommander`. |
| Resolver.ModuleName | client.py:52 | No contract of its own: the base name with its `splitext` extension removed. `ModuleNameShape` and `ModuleNameOfFile` state its properties. |
| Resolver.ModuleNameShape | client.py:52 | A module name has no '/', and the module name followed by the base name's extension is the base name. |
| Resolver.ModuleNameOfFile | client.py:52 | A file `dir/stem.ext`, with a dot-free extension and a stem holding some non-dot character, is imported as module `stem` ("bots/alpha.py" gives "alpha"). |
| PyStr.RPartition | client.py:41 | The three parts concatenate back to the hint. The tail has no separator. Without a separator, everything is in the tail. |
| PyStr.BaseName | client.py:52 | No contract of its own: `BaseNameShape` and `BaseNameAfterSlash` state its properties. |
| PyStr.BaseNameAfterSlash | client.py:52 | A path ending in a '/'-free name right after a '/', or made of that name alone, has that name as its base name. |
| PyStr.BaseNameShape | client.py:52 | The base name is the suffix after the last '/' and contains no '/'. |
| PyStr.SplitExt | client.py:52 | No contract of its own: `SplitExtShape` and `SplitExtOfStem` state its properties. |
| PyStr.SplitExtShape | client.py:52 | root + ext is the path. A non-empty extension is one '.' followed by neither '.' nor '/', and a non-dot character of the last component precedes it. The extension is non-empty exactly when the last component has a '.' after some non-dot character. |
| PyStr.SplitExtOfStem | client.py:52 | `stem.ext`, with a dot-free extension and a stem holding some non-dot character, splits into `stem` and `.ext`. |
| PyStr.RFindBeforeTail | client.py:41 | In `s + c + t` with no `c` in `t`, the last `c` is at index `|s|`. |
| Resolver.LoadStep | client.py:51-57 | A loaded module is appended and nothing is logged. An ImportError or SyntaxError appends one record naming the file and `str(e)`, and the modules stay. Any other exception records the file and stops the loop. |
| Resolver.LoadAll | client.py:49-57 | Every file before an escaping exception gives exactly one module or one logged failure. The log holds only import failures. |
| Resolver.ImportModules | client.py:49-57 | The import loop's modules, failures and escaped exception equal `LoadAll`. |
| Resolver.LoadAllAppend | client.py:50-57 | Importing `a + b` is importing `a` and then, unless that raised, `b`. If `a` raised, `b` is never reached. |
| Resolver.LoadAllStops | client.py:50-57 | After an escaping exception, later files change nothing. |
| Resolver.FailedImportIsIsolated | client.py:54-57 | An ImportError or SyntaxError adds one log record naming the file and the error. The modules and the outcome are as if the file were absent. |
| Resolver.LoadedModuleIsKept | client.py:53 | A file that imports adds its module at its place in file order, and it adds no log record. |
| Resolver.Eligible | client.py:63-73 | No contract of its own: the five tests a name must pass. `ScanDefsSound` and `ScanDefsComplete` state that a name becomes a candidate exactly when it passes them. |
| PyStr.Contains | client.py:67 | No contract of its own: Python's substring `in`, the selector test. `ContainsMiddle`, `ContainsExtend`, `ContainsPrepend` and `ContainsEmpty` state its properties, and `EmptySelectorMatchesAll` uses the last. |
| Resolver.ScanDefs | client.py:61-75 | The scan of one module adds at most one candidate per name, and every candidate is a Commander subclass. |
| Resolver.ScanModule | client.py:61-75 | The inner loop's candidates equal `ScanDefs`. |
| Resolver.CollectCandidates | client.py:59-75 | The outer loop's candidates equal `ScanModules`, module by module. |
| Resolver.ScanDefsSound | client.py:63-73 | Every candidate is the class of a name that passes all filters: `__all__`, the private and base-class names, the selector, and the subclass test. |
| Resolver.ScanModules | client.py:59-75 | Every candidate of every module is a Commander subclass. `ScanModulesSound`, `ScanModulesComplete` and `ScanModulesAppend` fix the list exactly. |
| Resolver.ScanModulesSound | client.py:59-73 | Every candidate comes from an eligible name of some imported module. |
| Resolver.ScanDefsComplete | client.py:61-73 | Every eligible name's class is a candidate. |
| Resolver.ScanModulesComplete | client.py:59-73 | Every eligible name of every imported module contributes its class. |
| Resolver.ScanDefsAppend | client.py:61-75 | Candidates follow `dir()` order: the scan of `xs + ys` is the scan of `xs` followed by that of `ys`. |
| Resolver.ScanModulesAppend | client.py:60-75 | Candidates follow module order. |
| Resolver.SubclassTypeErrorSkipsOnlyItself | client.py:71-75 | A name whose subclass test raises TypeError is skipped, and the scan is as if it were absent. |
| Resolver.EmptySelectorMatchesAll | client.py:67 | An empty selector (a hint ending in '.') filters exactly as no selector does. |
| Resolver.TwoEligibleBindingsCountTwice | client.py:61-73 | Two eligible names in one module give at least two candidates, even for the same class. |
| Resolver.TwoEligibleModulesCountTwice | client.py:59-73 | Eligible names in two modules give at least two candidates. |
| Resolver.Names | client.py:86 | `[c.__name__ for c in candidates]`: one name per candidate, and name `k` is candidate `k`'s `__name__`. |
| Resolver.Arbitrate | client.py:77-93 | Zero candidates mean not found, and the record names the hint and path or only the path. One candidate means that candidate, with a debug record of its name. More than one means ambiguous, with every name listed. |
| Resolver.Returned | client.py:84-93 | The function returns a class exactly when the resolution is `Resolved`. |
| Resolver.ReturnsClassIffUnique | client.py:77-93 | The function returns class `c` exactly when the candidate list is `[c]`. |
| Resolver.NotFoundReportNamesContext | client.py:77-84 | The not-found error text contains the path. It also contains the hint when a hint was given. |
| Resolver.AmbiguousReportNamesAll | client.py:85-88 | The ambiguity error text contains the quoted `__name__` of every candidate. |
| Resolver.Text | client.py:46-91 | No contract of its own: the text of each log record, as the `%` and `format` calls at lines 46, 55, 79, 82, 86 and 91 build it. `NotFoundReportNamesContext` and `AmbiguousReportNamesAll` state what the error texts contain. |
| Resolver.Repr | client.py:86 | No contract of its own: `repr` of a name, in single quotes. |
| Resolver.ReprItems | client.py:86 | No contract of its own: the items of `str(list)`, separated by ", ". `ReprItemsMentions` states that every item appears. |
| Resolver.ReprList | client.py:86 | No contract of its own: `str(list)`, the items in brackets. |
| Resolver.ReprItemsMentions | client.py:86 | The rendering of a list of names contains every name, quoted. |
| Resolver.ResolvedIsEligible | client.py:59-93 | A resolved class is the class of an eligible name of an imported module. |
| Resolver.NoEligibleIsNotFound | client.py:59-84 | If no import escaped and no name is eligible, the result is not found. |
| Resolver.UniqueEligibleIsResolved | client.py:59-93 | If no import escaped and exactly one name of one imported module is eligible, the result is that name's class. |
| Resolver.NoEligibleDefsScanEmpty | client.py:61-73 | A module none of whose names is eligible gives no candidates. |
| Resolver.NoEligibleModulesScanEmpty | client.py:59-73 | Modules none of whose names is eligible give no candidates. |
| Resolver.TwoEligibleAreAmbiguous | client.py:59-88 | If no import escaped and two names are eligible, the result is ambiguous. |
| Runtime.Import | client.py:53 | A name starting with '.' raises TypeError (a relative import without a package). An empty name raises ValueError. Any other known name gives its table entry, and an unknown one raises ImportError. |
| Traceback.Format | client.py:141-151 | The loop's entries equal `FormatAll` of the frames. |
| Traceback.FormatAll | client.py:141-151 | There is one entry per frame. |
| Traceback.FormatAllAppend | client.py:144-151 | The entries of a split traceback are the entries of the parts, in order. |
| Traceback.Header | client.py:145 | No contract of its own: `'%s(%d): error in %s'` of the frame. `HeaderShape` states its layout. |
| Traceback.HeaderShape | client.py:145 | The header's length is the sum of its parts. It starts with the file name and '('. Next come the digits of the line number, then "): error in ", and the function name ends it. |
| Traceback.FormatFrame | client.py:145-149 | No contract of its own: the entry for one frame. `EntryShape`, `SourceLineIsTrimmed`, `LineNumberReadsBack` and `ShowsSourceIffTruthy` state its properties. |
| Traceback.EntryShape | client.py:145-149 | An entry starts with the header. A falsy source line adds ".". A truthy one adds "\n\t" and the stripped line. |
| Traceback.SourceLineIsTrimmed | client.py:146-147 | The text after the tab is the source line with its leading and trailing whitespace cut off, and it neither starts nor ends with whitespace. |
| Traceback.LineNumberReadsBack | client.py:145 | The digits in an entry parse back to the frame's line number. |
| Traceback.ShowsSourceIffTruthy | client.py:146-149 | If neither the file name nor the function name holds a newline, an entry has a newline exactly when the source line is truthy. |
| Traceback.BlankSourceLineShowsEmpty | client.py:146-147 | A non-empty source line made only of whitespace is truthy, so the entry is the header followed by an empty indented line. |
| PyStr.LStripAllSpace | client.py:147 | A string made only of whitespace strips to the empty string. |
| PyStr.LStrip | client.py:147 | The result is a suffix of the input and does not start with whitespace. `LStripCuts` states that the part cut off is all whitespace. |
| PyStr.RStrip | client.py:147 | The result is a prefix of the input and does not end with whitespace. `RStripCuts` states that the part cut off is all whitespace. |
| PyStr.Strip | client.py:147 | The stripped text neither starts nor ends with whitespace. |
| PyStr.StripTrims | client.py:147 | `strip` cuts only whitespace from each end. |
| PyStr.IntToStrRoundTrip | client.py:145 | What `'%d'` prints parses back to the number. |
| PyStr.IntToStr | client.py:145 | `'%d'`: the digits of a non-negative number, or '-' followed by the digits of its magnitude, and only '-' and digits. |
| PyStr.NatToStr | client.py:145 | The decimal digits are non-empty and have no leading zero. |
| PyStr.RFind | client.py:41 | The result is -1 or an index that holds the character. |
| PyStr.RFindIsLast | client.py:41 | No occurrence of the character lies after the index `RFind` returns, so it is the last one, and -1 means there is none. |

## Left out

- `flushLog` and the logger handlers: logging I/O. The log is the sequence of records returned by `GetCommander`.
- `main`: argument parsing, changes to `sys.path`, `sys.exit` and the network session. That session runs `NetworkClient(...).run()` twice, and the second run catches an undefined `DisconnectError`. All of it is socket transport through a library that is not part of this model.
- The `__main__` handler, which logs the exception, formats the traceback and raises again: process plumbing.
- `glob.glob`: the directory listing is the `globbed` parameter, and `os.path.join(path, '*.py')` is not modelled.
- `importlib.import_module`: the module loader is the `ImportTable`. Any exception other than ImportError or SyntaxError is an `OtherError`, and it escapes as `Raised`. That covers the ValueError for an empty name and the TypeError for a name starting with '.', Messages the model makes up itself follow Python 3's wording: the TypeError for a relative name, and `No module named 'x'` for a name missing from the table.
- Resolver.GetCommander: an escaping exception is a `Raised` result, not a Python exception. The log records written before it are kept.
- Resolver.Text: `repr` is modelled only for names without quotes, backslashes or control characters. `str(e)` of an import error is the text the table holds, or the model's own `No module named 'x'` when the name is not in the table.
- Runtime.Module: `dir()` lists names alphabetically. The model scans them in the order given and does not require that order to be sorted.
- PyStr.BaseName: follows the posix path rules (`posixpath`) only. On Windows `os.path` is `ntpath`, which also splits at '\\' and after a drive letter.
- PyStr.SplitExt: follows the posix path rules only, as `BaseName` does.
- Resolver.ModuleName: follows the posix path rules only. A globbed `.\alpha.py` is imported as `alpha` on Windows, but the model gives it the module name `.\alpha`, which starts with '.' and raises.
- PyStr.Strip: the whitespace is the six ASCII characters space, tab, newline, carriage return, vertical tab and form feed. Python 3 `str.strip` also removes other Unicode whitespace.
- Traceback.Format: `traceback.extract_tb` is not modelled. The frames are given. The unused `limit` parameter is dropped.
- malazan.py, the commander itself: it calls a game API that is not part of this model, and it uses randomness and floating-point vectors.
