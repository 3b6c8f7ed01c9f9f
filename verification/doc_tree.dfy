/** The documentation tree: the shapes of the declarations in the generated JSON document
    (lib/docs.ts), and addresses of the packages nested inside a package.

    Optional JSON arrays are `Option<seq<..>>`, except a package's `modules` and `packages`:
    every reader of those treats an absent list exactly like an empty one, so they are plain
    sequences. Summaries, descriptions and signatures are carried as opaque strings. */
module DocTree {
  import opened Wrappers

  datatype Overload = Overload(name: string, signature: string, summary: string, description: string)

  datatype Function = Function(name: string, kind: string, overloads: Option<seq<Overload>>)

  datatype Field = Field(name: string, kind: string, fieldType: string, summary: string, description: string)

  datatype Struct = Struct(
    name: string,
    kind: string,
    summary: string,
    description: string,
    constraints: string,
    fields: Option<seq<Field>>,
    functions: Option<seq<Function>>,
    parentTraits: Option<seq<string>>,
    deprecated: Option<string>)

  datatype Trait = Trait(
    name: string,
    kind: string,
    summary: string,
    description: string,
    functions: Option<seq<Function>>,
    parentTraits: Option<seq<string>>,
    deprecated: Option<string>)

  /** A named binding; whether it is a constant or a variable is not recorded, only derived. */
  datatype Alias = Alias(
    name: string,
    kind: string,
    summary: string,
    description: string,
    value: Option<string>,
    deprecated: Option<string>)

  datatype Module = Module(
    name: string,
    kind: string,
    summary: string,
    description: string,
    deprecated: Option<string>,
    functions: Option<seq<Function>>,
    structs: Option<seq<Struct>>,
    aliases: Option<seq<Alias>>,
    traits: Option<seq<Trait>>)

  /** The names by which declarations are listed and linked. */
  function FunctionName(f: Function): string { f.name }
  function StructName(s: Struct): string { s.name }
  function AliasName(a: Alias): string { a.name }
  function ModuleName(m: Module): string { m.name }

  /** A package. The four declaration lists are not part of the declared type but are read
      from the untyped JSON by the package rollup, and their presence is what tells a
      package from a module. */
  datatype Package = Package(
    name: string,
    kind: string,
    summary: string,
    description: string,
    modules: seq<Module>,
    packages: seq<Package>,
    functions: Option<seq<Function>>,
    structs: Option<seq<Struct>>,
    aliases: Option<seq<Alias>>,
    traits: Option<seq<Trait>>)

  /** The `Package | Module` union handed to the sidebar. */
  datatype Entry = PackageEntry(pkg: Package) | ModuleEntry(mod: Module)

  /** A declaration stamped with the name of the module that declares it. */
  datatype Tagged<T> = Tagged(decl: T, moduleName: string)

  /** The five buckets of a module's declarations. */
  datatype ModuleItems = ModuleItems(
    functions: seq<Tagged<Function>>,
    types: seq<Tagged<Struct>>,
    constants: seq<Tagged<Alias>>,
    variables: seq<Tagged<Alias>>,
    traits: seq<Tagged<Trait>>)

  datatype IndexedPackage = IndexedPackage(pkg: Package, path: string)

  datatype IndexedModule = IndexedModule(mod: Module, path: string)

  /** `a` is a list of child positions leading from `p` to a package nested in it. */
  predicate ValidAddr(p: Package, a: seq<nat>)
    decreases |a|
  {
    a == [] || (a[0] < |p.packages| && ValidAddr(p.packages[a[0]], a[1..]))
  }

  /** The package that `a` leads to. */
  function At(p: Package, a: seq<nat>): Package
    requires ValidAddr(p, a)
    decreases |a|
  {
    if a == [] then p else At(p.packages[a[0]], a[1..])
  }

  /** The names of the packages passed through on the way along `a`, `p` itself excluded. */
  function NamesAlong(p: Package, a: seq<nat>): (names: seq<string>)
    requires ValidAddr(p, a)
    ensures |names| == |a|
    decreases |a|
  {
    if a == [] then [] else [p.packages[a[0]].name] + NamesAlong(p.packages[a[0]], a[1..])
  }

  /** A route: every segment preceded by a slash, as in `/a/b`. */
  function Route(segments: seq<string>): string
    decreases |segments|
  {
    if segments == [] then "" else "/" + segments[0] + Route(segments[1..])
  }
}
