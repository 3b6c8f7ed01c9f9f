/** The package rollup of lib/docs.ts (`collectAllItems`): for every listed package, a summary
    of its own declarations and, per module that declares anything, a summary of that module's
    declarations. Results are keyed by name in insertion-ordered maps (`OrderedMap`). */
module Rollup {
  import opened Wrappers
  import opened Seqs
  import opened DocTree
  import opened DocIndex
  import OrderedMap

  /** One listed declaration: its name, the module declaring it (absent for a package's own
      declarations), its kind tag and its description. */
  datatype ItemSummary = ItemSummary(name: string, moduleName: Option<string>, kind: string, description: string)

  /** The five buckets of summaries plus the owner's description. */
  datatype Buckets = Buckets(
    constants: seq<ItemSummary>,
    variables: seq<ItemSummary>,
    functions: seq<ItemSummary>,
    types: seq<ItemSummary>,
    traits: seq<ItemSummary>,
    description: string)

  /** What the rollup records for one package; `moduleItems` is absent when no module of the
      package declares anything. */
  datatype PackageItems = PackageItems(own: Buckets, moduleItems: Option<seq<(string, Buckets)>>)

  /** A function is described by its first overload's description, or by "" without one. */
  function FunctionDescription(f: Function): string {
    if f.overloads.Some? && |f.overloads.value| > 0 then f.overloads.value[0].description else ""
  }

  function FunctionItem(f: Function, owner: Option<string>): ItemSummary {
    ItemSummary(f.name, owner, "function", FunctionDescription(f))
  }

  function StructItem(s: Struct, owner: Option<string>): ItemSummary {
    ItemSummary(s.name, owner, "struct", s.description)
  }

  function AliasItem(a: Alias, owner: Option<string>): ItemSummary {
    ItemSummary(a.name, owner, if IsConstant(a) then "const" else "var", a.description)
  }

  function TraitItem(t: Trait, owner: Option<string>): ItemSummary {
    ItemSummary(t.name, owner, "trait", t.description)
  }

  /** The summaries of one set of declaration lists, each stamped with `owner`. */
  function SummarizeDecls(
    functions: Option<seq<Function>>,
    structs: Option<seq<Struct>>,
    aliases: Option<seq<Alias>>,
    traits: Option<seq<Trait>>,
    description: string,
    owner: Option<string>): Buckets
  {
    var als := OrEmpty(aliases);
    Buckets(
      Map(Filter(als, IsConstant), (a: Alias) => AliasItem(a, owner)),
      Map(Filter(als, IsVariable), (a: Alias) => AliasItem(a, owner)),
      Map(OrEmpty(functions), (f: Function) => FunctionItem(f, owner)),
      Map(OrEmpty(structs), (s: Struct) => StructItem(s, owner)),
      Map(OrEmpty(traits), (t: Trait) => TraitItem(t, owner)),
      description)
  }

  function SummarizeModule(m: Module): Buckets {
    SummarizeDecls(m.functions, m.structs, m.aliases, m.traits, m.description, Some(m.name))
  }

  /** The modules whose summary is kept: those with at least one item in some bucket. */
  predicate HasItems(b: Buckets) {
    |b.functions| > 0 || |b.types| > 0 || |b.constants| > 0 || |b.variables| > 0 || |b.traits| > 0
  }

  predicate Kept(m: Module) {
    HasItems(SummarizeModule(m))
  }

  /** The summaries are those of the declarations `collectModuleItems` sorts into the same
      buckets: the same declarations, in the same order, with the constant/variable split of
      aliases, every summary carrying `owner` and the kind of its bucket. */
  lemma SummarizeAgrees(
    functions: Option<seq<Function>>,
    structs: Option<seq<Struct>>,
    aliases: Option<seq<Alias>>,
    traits: Option<seq<Trait>>,
    description: string,
    owner: Option<string>,
    name: string)
    ensures var b := SummarizeDecls(functions, structs, aliases, traits, description, owner);
            var c := CollectModuleItems(Module(name, "", "", description, None, functions, structs, aliases, traits));
            && b.description == description
            && |b.functions| == |c.functions|
            && (forall i | 0 <= i < |c.functions| :: b.functions[i] == FunctionItem(c.functions[i].decl, owner))
            && |b.types| == |c.types|
            && (forall i | 0 <= i < |c.types| :: b.types[i] == StructItem(c.types[i].decl, owner))
            && |b.constants| == |c.constants|
            && (forall i | 0 <= i < |c.constants| ::
                  b.constants[i] == AliasItem(c.constants[i].decl, owner) && b.constants[i].kind == "const")
            && |b.variables| == |c.variables|
            && (forall i | 0 <= i < |c.variables| ::
                  b.variables[i] == AliasItem(c.variables[i].decl, owner) && b.variables[i].kind == "var")
            && |b.traits| == |c.traits|
            && (forall i | 0 <= i < |c.traits| :: b.traits[i] == TraitItem(c.traits[i].decl, owner))
  {
  }

  /** A module's summary is kept exactly when it declares at least one function, struct,
      alias or trait: every alias lands in exactly one of the two alias buckets. */
  lemma KeptIffDeclares(m: Module)
    ensures Kept(m) <==> ItemCount(CollectModuleItems(m)) > 0
    ensures Kept(m) <==>
              |OrEmpty(m.functions)| + |OrEmpty(m.structs)| + |OrEmpty(m.aliases)| + |OrEmpty(m.traits)| > 0
  {
    SummarizeAgrees(m.functions, m.structs, m.aliases, m.traits, m.description, Some(m.name), m.name);
    ClassifyAliases(m);
  }

  /** The `(name, summary)` pairs set into a package's module map, in module order. */
  function KeptModules(ms: seq<Module>): seq<(string, Buckets)> {
    OrderedMap.SelectPairs(ms, Kept, ModuleName, SummarizeModule)
  }

  /** `collectAllItems` for one package. */
  function RollupPackage(p: Package): PackageItems {
    var kept := OrderedMap.FromPairs(KeptModules(p.modules));
    PackageItems(
      SummarizeDecls(p.functions, p.structs, p.aliases, p.traits, p.description, None),
      if kept == [] then None else Some(kept))
  }

  /** The module map of a package: absent exactly when no module is kept; otherwise one entry
      per name of a kept module, no name twice, with names in the order in which they first
      appear among the kept modules. */
  lemma RollupPackageKeys(p: Package)
    ensures RollupPackage(p).moduleItems.None? <==> forall j | 0 <= j < |p.modules| :: !Kept(p.modules[j])
    ensures RollupPackage(p).moduleItems.Some? ==>
              var mi := RollupPackage(p).moduleItems.value;
              && Distinct(OrderedMap.Keys(mi))
              && (forall k :: k in OrderedMap.Keys(mi) <==>
                    exists j :: 0 <= j < |p.modules| && Kept(p.modules[j]) && p.modules[j].name == k)
              && (forall i | 0 <= i < |mi| - 1 ::
                    OrderedMap.FirstBefore(OrderedMap.Keys(KeptModules(p.modules)), mi[i].0, mi[i + 1].0))
  {
    var ms := p.modules;
    var K := KeptModules(ms);
    var mi := OrderedMap.FromPairs(K);
    OrderedMap.FromPairsKeys(K);
    OrderedMap.FromPairsOrder(K);
    forall k ensures k in OrderedMap.Keys(mi) <==> exists j :: 0 <= j < |ms| && Kept(ms[j]) && ModuleName(ms[j]) == k {
      OrderedMap.SelectPairsKeys(ms, Kept, ModuleName, SummarizeModule, k);
    }
    if mi == [] {
      forall j | 0 <= j < |ms| ensures !Kept(ms[j]) {
        assert ModuleName(ms[j]) !in OrderedMap.Keys(mi);
      }
    } else {
      assert mi[0].0 in OrderedMap.Keys(mi);
    }
  }

  /** Under a module name stands the summary of the LAST kept module of that name. */
  lemma RollupPackageLast(p: Package, k: string)
    requires RollupPackage(p).moduleItems.Some?
    requires OrderedMap.Get(RollupPackage(p).moduleItems.value, k).Some?
    ensures exists j :: OrderedMap.LastKeptAt(p.modules, Kept, ModuleName, k, j)
                        && OrderedMap.Get(RollupPackage(p).moduleItems.value, k).value == SummarizeModule(p.modules[j])
  {
    OrderedMap.FromPairsGet(KeptModules(p.modules), k);
    OrderedMap.SelectPairsLast(p.modules, Kept, ModuleName, SummarizeModule, k);
  }

  /** The pairs set into the result map: every listed package under its own name. */
  function PackagePairs(entries: seq<IndexedPackage>): (r: seq<(string, PackageItems)>)
  {
    Map(entries, (e: IndexedPackage) => (e.pkg.name, RollupPackage(e.pkg)))
  }

  function PackageNames(entries: seq<IndexedPackage>): (r: seq<string>)
  {
    Map(entries, (e: IndexedPackage) => e.pkg.name)
  }

  /** `collectAllItems`. */
  function CollectAllItems(entries: seq<IndexedPackage>): seq<(string, PackageItems)> {
    OrderedMap.FromPairs(PackagePairs(entries))
  }

  /** The result holds one entry per distinct package name, in the order in which the names
      first occur among the entries. */
  lemma CollectAllItemsKeys(entries: seq<IndexedPackage>)
    ensures Distinct(OrderedMap.Keys(CollectAllItems(entries)))
    ensures forall k :: k in OrderedMap.Keys(CollectAllItems(entries)) <==> k in PackageNames(entries)
    ensures forall i | 0 <= i < |CollectAllItems(entries)| - 1 ::
              OrderedMap.FirstBefore(PackageNames(entries), CollectAllItems(entries)[i].0, CollectAllItems(entries)[i + 1].0)
  {
    var P := PackagePairs(entries);
    assert OrderedMap.Keys(P) == PackageNames(entries);
    OrderedMap.FromPairsKeys(P);
    OrderedMap.FromPairsOrder(P);
  }

  /** A name shared by several packages (their paths differ) holds the rollup of the LAST of
      them. */
  lemma CollectAllItemsLast(entries: seq<IndexedPackage>, k: string)
    ensures OrderedMap.Get(CollectAllItems(entries), k).Some? ==>
              exists i :: 0 <= i < |entries| && entries[i].pkg.name == k
                          && OrderedMap.Get(CollectAllItems(entries), k).value == RollupPackage(entries[i].pkg)
                          && forall j | i < j < |entries| :: entries[j].pkg.name != k
  {
    var P := PackagePairs(entries);
    OrderedMap.FromPairsGet(P, k);
    var r := OrderedMap.LastValue(P, k);
    if r.Some? {
      var i :| 0 <= i < |P| && P[i] == (k, r.value) && forall j | i < j < |P| :: P[j].0 != k;
      assert entries[i].pkg.name == k && r.value == RollupPackage(entries[i].pkg);
      assert forall j | i < j < |entries| :: entries[j].pkg.name != k by {
        forall j | i < j < |entries| ensures entries[j].pkg.name != k {
          assert P[j].0 == entries[j].pkg.name;
        }
      }
    }
  }
}
