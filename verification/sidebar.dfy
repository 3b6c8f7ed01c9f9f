/** The sidebar of components/navigation/Sidebar/utils.ts: the sections listed beside a
    module page, a package page and the synthetic Default package page, the package path
    lookup and the flat item collection. */
module Sidebar {
  import opened Wrappers
  import opened Seqs
  import opened DocTree
  import opened DocIndex
  import OrderedMap
  import StableSort
  import opened Catalogue

  /** A sidebar link. `linkLabel` (the source's `label`) is only set for package and module
      links; `moduleName` is the module stamp of the listed declaration, when there is one. */
  datatype SidebarItem = SidebarItem(name: string, href: string, linkLabel: Option<string>, moduleName: Option<string>)

  datatype Section = Section(title: string, items: seq<SidebarItem>)

  function EntryName(e: Entry): string {
    match e
    case PackageEntry(p) => p.name
    case ModuleEntry(m) => m.name
  }

  /** How `collectModuleItems` sees an entry that `isModule` accepts: a package carrying its
      own declaration lists is read as a module with those lists. */
  function AsModule(e: Entry): Module {
    match e
    case PackageEntry(p) => Module(p.name, p.kind, p.summary, p.description, None, p.functions, p.structs, p.aliases, p.traits)
    case ModuleEntry(m) => m
  }

  /** A module-shaped entry has neither nested packages nor modules. */
  function EntryPackages(e: Entry): seq<Package> {
    match e
    case PackageEntry(p) => p.packages
    case ModuleEntry(_) => []
  }

  function EntryModules(e: Entry): seq<Module> {
    match e
    case PackageEntry(p) => p.modules
    case ModuleEntry(_) => []
  }

  /** Links `base#name` to the declarations of one bucket, stamped with `owner`. */
  function Anchors<T>(xs: seq<Tagged<T>>, nameOf: T -> string, base: string, owner: string): (r: seq<SidebarItem>)
    ensures |r| == |xs|
    ensures forall i | 0 <= i < |xs| ::
              r[i] == SidebarItem(nameOf(xs[i].decl), base + "#" + nameOf(xs[i].decl), None, Some(owner))
  {
    Map(xs, (t: Tagged<T>) => SidebarItem(nameOf(t.decl), base + "#" + nameOf(t.decl), None, Some(owner)))
  }

  /** The page a module's links point into: under its package when a non-empty package name
      is given, else the package-less module route. */
  function BaseHref(packageName: Option<string>, moduleName: string): (h: string)
    ensures exists prefix :: h == prefix + "/modules/" + moduleName
    ensures (packageName.Some? && packageName.value != "") <==> StartsWith(h, "/docs/packages/")
    ensures packageName.Some? && packageName.value != "" ==>
              h == "/docs/packages/" + packageName.value + "/modules/" + moduleName
    ensures !(packageName.Some? && packageName.value != "") ==> h == "/docs/modules/" + moduleName
  {
    if packageName.Some? && packageName.value != "" then
      var h := "/docs/packages/" + packageName.value + "/modules/" + moduleName;
      assert h == ("/docs/packages/" + packageName.value) + "/modules/" + moduleName;
      assert h[..|"/docs/packages/"|] == "/docs/packages/";
      h
    else
      var h := "/docs/modules/" + moduleName;
      assert h == "/docs" + "/modules/" + moduleName;
      assert h[6] == 'm';
      h
  }

  predicate StartsWith(s: string, prefix: string) {
    |prefix| <= |s| && s[..|prefix|] == prefix
  }

  /** The four sections of a module page; traits are not listed. */
  function ModuleSections(m: Module, base: string): seq<Section> {
    var items := CollectModuleItems(m);
    [
      Section("Functions", Anchors(items.functions, FunctionName, base, m.name)),
      Section("Types", Anchors(items.types, StructName, base, m.name)),
      Section("Constants", Anchors(items.constants, AliasName, base, m.name)),
      Section("Variables", Anchors(items.variables, AliasName, base, m.name))
    ]
  }

  function PackageLink(p: Package): SidebarItem {
    SidebarItem(p.name, "/docs/packages/" + p.name, Some(p.name), None)
  }

  function ModuleLink(owner: string, m: Module): SidebarItem {
    SidebarItem(m.name, "/docs/packages/" + owner + "/modules/" + m.name, Some(m.name), None)
  }

  /** The sections of an ordinary package page: its sub-packages, then its modules, each
      section present only when non-empty. */
  function PackageSections(name: string, packages: seq<Package>, modules: seq<Module>): seq<Section> {
    (if |packages| > 0 then [Section("Packages", Map(packages, PackageLink))] else [])
    + (if |modules| > 0 then [Section("Modules", Map(modules, (m: Module) => ModuleLink(name, m)))] else [])
  }

  /** `createSidebarSections(item, packageName)`. */
  function CreateSidebarSections(e: Entry, packageName: Option<string>): seq<Section> {
    if IsModule(e) then ModuleSections(AsModule(e), BaseHref(packageName, EntryName(e)))
    else if EntryName(e) == "Default" then DefaultPackageSections(EntryModules(e))
    else PackageSections(EntryName(e), EntryPackages(e), EntryModules(e))
  }

  /** A module page lists four sections, titled in this order, whose links are exactly the
      module's functions, structs, constants and variables as `collectModuleItems` buckets
      them, each pointing at `base#name` on the module's page. Traits are never listed. */
  lemma ModuleSidebar(e: Entry, packageName: Option<string>)
    requires IsModule(e)
    ensures var r := CreateSidebarSections(e, packageName);
            var c := CollectModuleItems(AsModule(e));
            var base := BaseHref(packageName, EntryName(e));
            && |r| == 4
            && r[0].title == "Functions" && r[1].title == "Types"
            && r[2].title == "Constants" && r[3].title == "Variables"
            && |r[0].items| == |c.functions| && |r[1].items| == |c.types|
            && |r[2].items| == |c.constants| && |r[3].items| == |c.variables|
            && |r[0].items| + |r[1].items| + |r[2].items| + |r[3].items| == ItemCount(c) - |c.traits|
            && (forall i | 0 <= i < |c.functions| ::
                  r[0].items[i].name == c.functions[i].decl.name
                  && r[0].items[i].href == base + "#" + c.functions[i].decl.name)
            && (forall i | 0 <= i < |c.types| ::
                  r[1].items[i].name == c.types[i].decl.name
                  && r[1].items[i].href == base + "#" + c.types[i].decl.name)
            && (forall i | 0 <= i < |c.constants| ::
                  r[2].items[i].name == c.constants[i].decl.name && IsConstant(c.constants[i].decl)
                  && r[2].items[i].href == base + "#" + c.constants[i].decl.name)
            && (forall i | 0 <= i < |c.variables| ::
                  r[3].items[i].name == c.variables[i].decl.name && !IsConstant(c.variables[i].decl)
                  && r[3].items[i].href == base + "#" + c.variables[i].decl.name)
  {
    var m := AsModule(e);
    var c := CollectModuleItems(m);
    assert forall i | 0 <= i < |c.constants| :: c.constants[i].decl in Filter(OrEmpty(m.aliases), IsConstant);
    assert forall i | 0 <= i < |c.variables| :: c.variables[i].decl in Filter(OrEmpty(m.aliases), IsVariable);
  }

  /** An ordinary package page lists a "Packages" section exactly when it has sub-packages and
      a "Modules" section exactly when it has modules, in that order; one link per package
      routed `/docs/packages/name`, one per module routed `/docs/packages/owner/modules/name`.
      A module-shaped entry without a `functions` field therefore gets no sections. */
  lemma PackageSidebar(e: Entry, packageName: Option<string>)
    requires !IsModule(e) && EntryName(e) != "Default"
    ensures var r := CreateSidebarSections(e, packageName);
            var ps := EntryPackages(e);
            var ms := EntryModules(e);
            && |r| == (if |ps| > 0 then 1 else 0) + (if |ms| > 0 then 1 else 0)
            && (|ps| > 0 ==>
                  (r[0].title == "Packages" && |r[0].items| == |ps|
                   && forall i | 0 <= i < |ps| ::
                        r[0].items[i].name == ps[i].name && r[0].items[i].href == "/docs/packages/" + ps[i].name))
            && (|ms| > 0 ==>
                  (r[|r| - 1].title == "Modules" && |r[|r| - 1].items| == |ms|
                   && forall i | 0 <= i < |ms| ::
                        r[|r| - 1].items[i].name == ms[i].name
                        && r[|r| - 1].items[i].href == "/docs/packages/" + EntryName(e) + "/modules/" + ms[i].name))
    ensures e.ModuleEntry? ==> CreateSidebarSections(e, packageName) == []
  {
  }

  /** The module map of the Default package page: every module under its name, a later
      module replacing an earlier one of the same name in place. */
  function ModulePairs(ms: seq<Module>): seq<(string, ModuleItems)> {
    Map(ms, (m: Module) => (m.name, CollectModuleItems(m)))
  }

  /** The Default page's comparator: `sortModuleItems` on the entries' items. */
  function CompareEntries(x: (string, ModuleItems), y: (string, ModuleItems)): int {
    SortModuleItems(x.1, y.1)
  }

  lemma CompareEntriesConsistent()
    ensures StableSort.Consistent(CompareEntries)
  {
  }

  function DefaultOrder(ms: seq<Module>): seq<(string, ModuleItems)> {
    CompareEntriesConsistent();
    StableSort.Sort(OrderedMap.FromPairs(ModulePairs(ms)), CompareEntries)
  }

  /** One section's links on the Default page: functions, types, constants, then variables,
      each linking `#name` on the same page. */
  function DefaultItems(name: string, items: ModuleItems): seq<SidebarItem> {
    Anchors(items.functions, FunctionName, "", name)
    + Anchors(items.types, StructName, "", name)
    + Anchors(items.constants, AliasName, "", name)
    + Anchors(items.variables, AliasName, "", name)
  }

  function DefaultSection(entry: (string, ModuleItems)): Section {
    Section(entry.0, DefaultItems(entry.0, entry.1))
  }

  /** `createDefaultPackageSections`. */
  function DefaultPackageSections(ms: seq<Module>): seq<Section> {
    Map(DefaultOrder(ms), DefaultSection)
  }

  function Titles(r: seq<Section>): seq<string> {
    Map(r, (x: Section) => x.title)
  }

  /** The Default page has one section per distinct module name, and no title twice. */
  lemma DefaultTitles(ms: seq<Module>)
    ensures forall k :: k in Titles(DefaultPackageSections(ms)) <==> k in Map(ms, ModuleName)
    ensures Distinct(Titles(DefaultPackageSections(ms)))
  {
    var P := ModulePairs(ms);
    var s := OrderedMap.FromPairs(P);
    var o := DefaultOrder(ms);
    CompareEntriesConsistent();
    assert multiset(o) == multiset(s);
    assert OrderedMap.Keys(P) == Map(ms, ModuleName);
    OrderedMap.FromPairsKeys(P);
    OrderedMap.KeysDistinctPermutation(s, o);
    assert Titles(DefaultPackageSections(ms)) == OrderedMap.Keys(o);
    forall k ensures k in OrderedMap.Keys(o) <==> k in OrderedMap.Keys(s) {
      OrderedMap.KeysPermutation(s, o, k);
    }
  }

  /** The sections stand in ascending `sortModuleItems` order of their modules' items. */
  lemma DefaultOrdered(ms: seq<Module>)
    ensures var o := DefaultOrder(ms);
            forall i | 0 <= i < |o| - 1 :: SortModuleItems(o[i].1, o[i + 1].1) <= 0
  {
    var o := DefaultOrder(ms);
    CompareEntriesConsistent();
    assert StableSort.Sorted(o, CompareEntries);
    forall i | 0 <= i < |o| - 1 ensures SortModuleItems(o[i].1, o[i + 1].1) <= 0 {
      assert CompareEntries(o[i], o[i + 1]) <= 0;
    }
  }

  /** Modules whose items compare equal keep the order of the module map: the sort is stable. */
  lemma DefaultStable(ms: seq<Module>)
    ensures forall c :: StableSort.Class(DefaultOrder(ms), CompareEntries, c)
                        == StableSort.Class(OrderedMap.FromPairs(ModulePairs(ms)), CompareEntries, c)
  {
    CompareEntriesConsistent();
  }

  /** A package entry named "Default" gets the Default page sections: one per distinct name
      among its modules, no title twice, in ascending `sortModuleItems` order. Section `i` is
      titled with the `i`-th module of that order and lists its items. */
  lemma DefaultSidebar(e: Entry, packageName: Option<string>)
    requires !IsModule(e) && EntryName(e) == "Default"
    ensures var r := CreateSidebarSections(e, packageName);
            && (forall k :: k in Titles(r) <==> k in Map(EntryModules(e), ModuleName))
            && Distinct(Titles(r))
            && |r| == |DefaultOrder(EntryModules(e))|
            && forall i | 0 <= i < |r| - 1 ::
                 SortModuleItems(DefaultOrder(EntryModules(e))[i].1, DefaultOrder(EntryModules(e))[i + 1].1) <= 0
    ensures CreateSidebarSections(e, packageName) == DefaultPackageSections(EntryModules(e))
    ensures var r := CreateSidebarSections(e, packageName);
            var o := DefaultOrder(EntryModules(e));
            forall i | 0 <= i < |r| :: r[i] == Section(o[i].0, DefaultItems(o[i].0, o[i].1))
  {
    DefaultTitles(EntryModules(e));
    DefaultOrdered(EntryModules(e));
  }

  /** The section titled `k` lists the items of the LAST module named `k`: functions, types,
      constants and variables, each linking `#name`. */
  lemma DefaultEntry(ms: seq<Module>, i: nat)
    requires i < |DefaultOrder(ms)|
    ensures |DefaultPackageSections(ms)| == |DefaultOrder(ms)|
    ensures exists j :: OrderedMap.LastKeptAt(ms, (m: Module) => true, ModuleName, DefaultOrder(ms)[i].0, j)
                        && DefaultOrder(ms)[i] == (ms[j].name, CollectModuleItems(ms[j]))
                        && DefaultPackageSections(ms)[i]
                           == Section(ms[j].name, DefaultItems(ms[j].name, CollectModuleItems(ms[j])))
  {
    var P := ModulePairs(ms);
    var s := OrderedMap.FromPairs(P);
    var o := DefaultOrder(ms);
    CompareEntriesConsistent();
    assert multiset(o) == multiset(s);
    assert o[i] in multiset(s);
    var a :| 0 <= a < |s| && s[a] == o[i];
    OrderedMap.FromPairsKeys(P);
    OrderedMap.GetDistinct(s, a);
    OrderedMap.FromPairsGet(P, o[i].0);
    assert P == OrderedMap.SelectPairs(ms, (m: Module) => true, ModuleName, (m: Module) => CollectModuleItems(m)) by {
      SelectAll(ms);
    }
    OrderedMap.SelectPairsLast(ms, (m: Module) => true, ModuleName, (m: Module) => CollectModuleItems(m), o[i].0);
  }

  lemma {:induction false} SelectAll(ms: seq<Module>)
    ensures ModulePairs(ms) == OrderedMap.SelectPairs(ms, (m: Module) => true, ModuleName, (m: Module) => CollectModuleItems(m))
    decreases |ms|
  {
    if ms != [] {
      var n := |ms| - 1;
      SelectAll(ms[..n]);
      assert ModulePairs(ms) == ModulePairs(ms[..n]) + [(ms[n].name, CollectModuleItems(ms[n]))];
    }
  }

  /** The first entry named `name` gives `/docs` + its path; no such entry gives "". */
  function FirstPath(entries: seq<IndexedPackage>, name: string): (r: string)
    ensures r == "" <==> forall k | 0 <= k < |entries| :: entries[k].pkg.name != name
    ensures r != "" ==> exists k :: 0 <= k < |entries| && entries[k].pkg.name == name
                                    && r == "/docs" + entries[k].path
                                    && forall j | 0 <= j < k :: entries[j].pkg.name != name
    decreases |entries|
  {
    if entries == [] then ""
    else if entries[0].pkg.name == name then "/docs" + entries[0].path
    else
      var r := FirstPath(entries[1..], name);
      assert r != "" ==> exists k :: 0 <= k < |entries| && entries[k].pkg.name == name
                                     && r == "/docs" + entries[k].path
                                     && forall j | 0 <= j < k :: entries[j].pkg.name != name by {
        if r != "" {
          var k :| 0 <= k < |entries[1..]| && entries[1..][k].pkg.name == name
                   && r == "/docs" + entries[1..][k].path
                   && forall j | 0 <= j < k :: entries[1..][j].pkg.name != name;
          assert entries[k + 1] == entries[1..][k];
          forall j | 0 <= j < k + 1 ensures entries[j].pkg.name != name {
            if j > 0 {
              assert entries[j] == entries[1..][j - 1];
            }
          }
        }
      }
      r
  }

  lemma FoundAt(entries: seq<IndexedPackage>, name: string) returns (k: nat)
    requires FirstPath(entries, name) != ""
    ensures k < |entries| && entries[k].pkg.name == name && FirstPath(entries, name) == "/docs" + entries[k].path
  {
    k :| 0 <= k < |entries| && entries[k].pkg.name == name && FirstPath(entries, name) == "/docs" + entries[k].path;
  }

  /** `findPackagePath(name)` over the catalogue of the tree `root`. */
  function FindPackagePath(root: Package, name: string): string {
    FirstPath(AllPackages(root), name)
  }

  /** Entry `k` of the catalogue is the package at the `k`-th pre-order address, routed by
      the names along it, or the trailing Default entry. */
  lemma CatalogueEntry(root: Package, k: nat)
    requires k < |AllPackages(root)|
    ensures var A := PreOrder(root.packages);
            k < |A| ==> A[k] != [] && ValidAddr(root, A[k])
                        && AllPackages(root)[k] == IndexedPackage(At(root, A[k]), Route(NamesAlong(root, A[k])))
    ensures k >= |PreOrder(root.packages)| ==>
              |root.modules| > 0 && AllPackages(root)[k] == IndexedPackage(DefaultPackage(root), "/Default")
  {
    var A := PreOrder(root.packages);
    Catalogue.PackagesUnderAt(root.packages, "");
    if k < |A| {
      Catalogue.RootForest(root, A[k]);
      assert AllPackages(root)[k] == PackagesUnder(root.packages, "")[k];
      assert "" + Route(NamesIn(root.packages, A[k])) == Route(NamesIn(root.packages, A[k]));
    }
  }

  /** Every package nested in the root has a catalogue entry. */
  lemma CatalogueHas(root: Package, a: seq<nat>)
    requires a != [] && ValidAddr(root, a)
    ensures exists k :: 0 <= k < |AllPackages(root)| && AllPackages(root)[k].pkg == At(root, a)
  {
    Catalogue.AllPackagesCatalogue(root);
    var A := PreOrder(root.packages);
    var k :| 0 <= k < |A| && A[k] == a;
    assert AllPackages(root)[k].pkg == At(root, a);
  }

  lemma CatalogueDefault(root: Package)
    requires |root.modules| > 0
    ensures exists k :: 0 <= k < |AllPackages(root)| && AllPackages(root)[k].pkg == DefaultPackage(root)
  {
    Catalogue.AllPackagesCatalogue(root);
    assert AllPackages(root)[|AllPackages(root)| - 1].pkg == DefaultPackage(root);
  }

  /** A found path is `/docs` followed by the route of a nested package of that name, or is
      `/docs/Default` for the name "Default" when the root has modules of its own. */
  lemma FindPackagePathFound(root: Package, name: string)
    ensures var r := FindPackagePath(root, name);
            r != "" ==>
              (exists a :: a != [] && ValidAddr(root, a) && At(root, a).name == name
                           && r == "/docs" + Route(NamesAlong(root, a)))
              || (name == "Default" && |root.modules| > 0 && r == "/docs/Default")
  {
    var all := AllPackages(root);
    var r := FirstPath(all, name);
    if r != "" {
      var k := FoundAt(all, name);
      CatalogueEntry(root, k);
      var A := PreOrder(root.packages);
      if k < |A| {
        var a := A[k];
        var e := all[k];
        assert e.pkg == At(root, a) && e.path == Route(NamesAlong(root, a));
        assert At(root, a).name == name;
        assert r == "/docs" + Route(NamesAlong(root, a));
        assert a != [] && ValidAddr(root, a);
      } else {
        DocsDefault();
      }
    }
  }

  lemma DocsDefault()
    ensures "/docs" + "/Default" == "/docs/Default"
  {
  }

  /** Nothing is found exactly when no nested package bears the name and the name is not a
      "Default" standing for the root's own modules. */
  lemma FindPackagePathMissing(root: Package, name: string)
    ensures FindPackagePath(root, name) == "" <==>
              (forall a | a != [] && ValidAddr(root, a) :: At(root, a).name != name)
              && !(name == "Default" && |root.modules| > 0)
  {
    var all := AllPackages(root);
    var r := FirstPath(all, name);
    if r == "" {
      forall a | a != [] && ValidAddr(root, a) ensures At(root, a).name != name {
        CatalogueHas(root, a);
      }
      if |root.modules| > 0 {
        CatalogueDefault(root);
      }
    } else {
      var k :| 0 <= k < |all| && all[k].pkg.name == name && r == "/docs" + all[k].path;
      CatalogueEntry(root, k);
    }
  }

  /** A declaration as the flat collection lists it: name, declaring module and kind tag. */
  datatype FlatItem = FlatItem(name: string, moduleName: string, kind: string)

  datatype FlatItems = FlatItems(
    constants: seq<FlatItem>,
    variables: seq<FlatItem>,
    functions: seq<FlatItem>,
    types: seq<FlatItem>)

  /** The local `collectAllItems(pkg)`: module by module, every function, struct and alias
      appended to its list, aliases split by the "const" rule; traits are not collected. */
  function CollectFlat(ms: seq<Module>): FlatItems
    decreases |ms|
  {
    if ms == [] then FlatItems([], [], [], [])
    else
      var n := |ms| - 1;
      var acc := CollectFlat(ms[..n]);
      var m := ms[n];
      var als := OrEmpty(m.aliases);
      FlatItems(
        acc.constants + FlatOf(Filter(als, IsConstant), AliasName, m.name, "const"),
        acc.variables + FlatOf(Filter(als, IsVariable), AliasName, m.name, "var"),
        acc.functions + FlatOf(OrEmpty(m.functions), FunctionName, m.name, "function"),
        acc.types + FlatOf(OrEmpty(m.structs), StructName, m.name, "struct"))
  }

  function FlatOf<T>(xs: seq<T>, nameOf: T -> string, owner: string, kind: string): seq<FlatItem> {
    Map(xs, (x: T) => FlatItem(nameOf(x), owner, kind))
  }

  /** The flat form of one `collectModuleItems` bucket. */
  function Flat<T>(xs: seq<Tagged<T>>, nameOf: T -> string, kind: string): seq<FlatItem> {
    Map(xs, (t: Tagged<T>) => FlatItem(nameOf(t.decl), t.moduleName, kind))
  }

  /** Each flat list is the concatenation, in module order, of the matching bucket of every
      module's `collectModuleItems`. */
  lemma {:induction false} CollectFlatAgrees(ms: seq<Module>)
    ensures CollectFlat(ms).functions
            == Flatten(Map(ms, (m: Module) => Flat(CollectModuleItems(m).functions, FunctionName, "function")))
    ensures CollectFlat(ms).types
            == Flatten(Map(ms, (m: Module) => Flat(CollectModuleItems(m).types, StructName, "struct")))
    ensures CollectFlat(ms).constants
            == Flatten(Map(ms, (m: Module) => Flat(CollectModuleItems(m).constants, AliasName, "const")))
    ensures CollectFlat(ms).variables
            == Flatten(Map(ms, (m: Module) => Flat(CollectModuleItems(m).variables, AliasName, "var")))
    decreases |ms|
  {
    if ms != [] {
      var n := |ms| - 1;
      var m := ms[n];
      CollectFlatAgrees(ms[..n]);
      FlatModule(m);
      FlatStep(ms, (m: Module) => Flat(CollectModuleItems(m).functions, FunctionName, "function"));
      FlatStep(ms, (m: Module) => Flat(CollectModuleItems(m).types, StructName, "struct"));
      FlatStep(ms, (m: Module) => Flat(CollectModuleItems(m).constants, AliasName, "const"));
      FlatStep(ms, (m: Module) => Flat(CollectModuleItems(m).variables, AliasName, "var"));
    }
  }

  lemma FlatStep(ms: seq<Module>, f: Module -> seq<FlatItem>)
    requires ms != []
    ensures Flatten(Map(ms, f)) == Flatten(Map(ms[..|ms| - 1], f)) + f(ms[|ms| - 1])
  {
    var n := |ms| - 1;
    assert Map(ms, f) == Map(ms[..n], f) + [f(ms[n])];
    FlattenAppend(Map(ms[..n], f), [f(ms[n])]);
    assert Flatten([f(ms[n])]) == f(ms[n]);
  }

  lemma FlatModule(m: Module)
    ensures Flat(CollectModuleItems(m).functions, FunctionName, "function")
            == FlatOf(OrEmpty(m.functions), FunctionName, m.name, "function")
    ensures Flat(CollectModuleItems(m).types, StructName, "struct")
            == FlatOf(OrEmpty(m.structs), StructName, m.name, "struct")
    ensures Flat(CollectModuleItems(m).constants, AliasName, "const")
            == FlatOf(Filter(OrEmpty(m.aliases), IsConstant), AliasName, m.name, "const")
    ensures Flat(CollectModuleItems(m).variables, AliasName, "var")
            == FlatOf(Filter(OrEmpty(m.aliases), IsVariable), AliasName, m.name, "var")
  {
    var c := CollectModuleItems(m);
    FlatTagged(c.functions, OrEmpty(m.functions), FunctionName, m.name, "function");
    FlatTagged(c.types, OrEmpty(m.structs), StructName, m.name, "struct");
    FlatTagged(c.constants, Filter(OrEmpty(m.aliases), IsConstant), AliasName, m.name, "const");
    FlatTagged(c.variables, Filter(OrEmpty(m.aliases), IsVariable), AliasName, m.name, "var");
  }

  lemma FlatTagged<T>(xs: seq<Tagged<T>>, ys: seq<T>, nameOf: T -> string, owner: string, kind: string)
    requires |xs| == |ys|
    requires forall i | 0 <= i < |xs| :: xs[i] == Tagged(ys[i], owner)
    ensures Flat(xs, nameOf, kind) == FlatOf(ys, nameOf, owner, kind)
  {
    assert forall i | 0 <= i < |xs| :: Flat(xs, nameOf, kind)[i] == FlatOf(ys, nameOf, owner, kind)[i];
  }
}
