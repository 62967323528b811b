/** The slice of the Python runtime that commander resolution observes,
    written as plain data: classes, module attributes, and the outcome of
    importing a module by name. */
module Runtime {

  datatype Option<T> = None | Some(value: T)

  /** Python truthiness of an optional string: `None` and `""` are false. */
  predicate Truthy(s: Option<string>)
  {
    s.Some? && s.value != []
  }

  /** A class object. `id` is its identity (two distinct classes may share a
      `__name__`), `name` its `__name__`, and `commander` whether
      `issubclass(cls, api.Commander)` holds. */
  datatype PyClass = PyClass(id: nat, name: string, commander: bool)

  /** What `getattr(module, c)` yields, as far as the resolver can tell:
      something that is not a class (`isclass` is false), a class, or a
      class-like object on which `issubclass` raises `TypeError`. */
  datatype Def = NotAClass | Class(cls: PyClass) | SubclassCheckRaises

  /** One name of `dir(module)` and the object it is bound to. */
  datatype Binding = Binding(name: string, def: Def)

  /** An imported module: its `__all__` list when it defines one, and its
      attributes in the order `dir()` lists them (alphabetical). */
  datatype Module = Module(exports: Option<seq<string>>, dir: seq<Binding>)

  /** The result of `importlib.import_module(name)`: a module, or the
      exception raised, with the text `str(e)` would give. */
  datatype ImportOutcome =
    | Loaded(mod: Module)
    | ImportError(message: string)
    | SyntaxError(message: string)
    | OtherError(message: string)

  /** What importing each module name would do. A name missing from the
      table cannot be found. */
  type ImportTable = map<string, ImportOutcome>

  /** `importlib.import_module(name)` without a `package` argument: a name
      starting with '.' asks for a relative import and raises `TypeError`;
      an empty name raises `ValueError` before any lookup; an unknown one
      raises `ImportError`. */
  function Import(table: ImportTable, name: string): (o: ImportOutcome)
    ensures name != [] && name[0] == '.' ==> o.OtherError?
    ensures name == [] ==> o == OtherError("Empty module name")
    ensures name != [] && name[0] != '.' && name in table ==> o == table[name]
    ensures name != [] && name[0] != '.' && name !in table ==> o.ImportError?
  {
    if name != [] && name[0] == '.' then
      OtherError("the 'package' argument is required to perform a relative import for '" + name + "'")
    else if name == [] then OtherError("Empty module name")
    else if name in table then table[name]
    else ImportError("No module named '" + name + "'")
  }
}
