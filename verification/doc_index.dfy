/** The documentation-tree indexer of lib/docs.ts: module-item classification, the sidebar
    comparator, package path resolution and the flat package and module catalogues.
    The loaded document is passed in as `root` instead of being read from a global. */
module DocIndex {
  import opened Wrappers
  import opened Seqs
  import opened Text
  import opened DocTree
  import StableSort

  /** `isModule`: an entry counts as a module exactly when it carries a `functions` field,
      whichever of the two shapes it really has. */
  predicate IsModule(e: Entry) {
    match e
    case PackageEntry(p) => p.functions.Some?
    case ModuleEntry(m) => m.functions.Some?
  }

  /** The test looks at the `functions` field alone: a package carrying one counts as a
      module, a module lacking one does not, and the two shapes are classified alike. */
  lemma IsModuleByFunctionsField(p: Package, m: Module)
    ensures IsModule(PackageEntry(p)) <==> p.functions.Some?
    ensures IsModule(ModuleEntry(m)) <==> m.functions.Some?
    ensures p.functions.Some? == m.functions.Some? ==> IsModule(PackageEntry(p)) == IsModule(ModuleEntry(m))
  {
  }

  /** The constant/variable policy: an alias is a constant when its rendered value contains
      the text "const" anywhere; an alias without a value is a variable. */
  predicate IsConstant(a: Alias)
    ensures IsConstant(a) <==> a.value.Some? && exists i :: OccursAt(a.value.value, "const", i)
  {
    a.value.Some? && Contains(a.value.value, "const")
  }

  predicate IsVariable(a: Alias) {
    !IsConstant(a)
  }

  /** Stamps every declaration with its module's name, keeping the order. */
  function TagAll<T>(xs: seq<T>, owner: string): (r: seq<Tagged<T>>)
    ensures |r| == |xs|
    ensures forall i | 0 <= i < |xs| :: r[i] == Tagged(xs[i], owner)
  {
    seq(|xs|, i requires 0 <= i < |xs| => Tagged(xs[i], owner))
  }

  /** The declarations with their module stamps removed. */
  function Untag<T>(xs: seq<Tagged<T>>): (r: seq<T>)
    ensures |r| == |xs|
    ensures forall i | 0 <= i < |xs| :: r[i] == xs[i].decl
  {
    seq(|xs|, i requires 0 <= i < |xs| => xs[i].decl)
  }

  /** `collectModuleItems`: functions, structs and traits go to their buckets unchanged in
      order, each stamped with the module's name; aliases are split by `IsConstant`. */
  function CollectModuleItems(m: Module): (r: ModuleItems)
    ensures |r.functions| == |OrEmpty(m.functions)|
    ensures |r.types| == |OrEmpty(m.structs)|
    ensures |r.traits| == |OrEmpty(m.traits)|
    ensures forall i | 0 <= i < |r.functions| :: r.functions[i] == Tagged(OrEmpty(m.functions)[i], m.name)
    ensures forall i | 0 <= i < |r.types| :: r.types[i] == Tagged(OrEmpty(m.structs)[i], m.name)
    ensures forall i | 0 <= i < |r.traits| :: r.traits[i] == Tagged(OrEmpty(m.traits)[i], m.name)
    ensures r.constants == TagAll(Filter(OrEmpty(m.aliases), IsConstant), m.name)
    ensures r.variables == TagAll(Filter(OrEmpty(m.aliases), IsVariable), m.name)
  {
    var aliases := OrEmpty(m.aliases);
    ModuleItems(
      TagAll(OrEmpty(m.functions), m.name),
      TagAll(OrEmpty(m.structs), m.name),
      TagAll(Filter(aliases, IsConstant), m.name),
      TagAll(Filter(aliases, IsVariable), m.name),
      TagAll(OrEmpty(m.traits), m.name))
  }

  /** Every alias of the module lands in exactly one of `constants` and `variables`: in
      `constants` exactly when its value contains "const". Both buckets keep source order. */
  lemma ClassifyAliases(m: Module)
    ensures var r := CollectModuleItems(m);
            |r.constants| + |r.variables| == |OrEmpty(m.aliases)|
    ensures var r := CollectModuleItems(m);
            forall i | 0 <= i < |OrEmpty(m.aliases)| ::
              var a := OrEmpty(m.aliases)[i];
              && (Tagged(a, m.name) in r.constants <==> IsConstant(a))
              && (Tagged(a, m.name) in r.variables <==> !IsConstant(a))
    ensures var r := CollectModuleItems(m);
            multiset(Untag(r.constants)) + multiset(Untag(r.variables)) == multiset(OrEmpty(m.aliases))
    ensures var r := CollectModuleItems(m);
            IsSubseq(Untag(r.constants), OrEmpty(m.aliases)) && IsSubseq(Untag(r.variables), OrEmpty(m.aliases))
  {
    var aliases := OrEmpty(m.aliases);
    var r := CollectModuleItems(m);
    FilterPartition(aliases, IsConstant, IsVariable);
    FilterIsSubseq(aliases, IsConstant);
    FilterIsSubseq(aliases, IsVariable);
    UntagTagAll(Filter(aliases, IsConstant), m.name);
    UntagTagAll(Filter(aliases, IsVariable), m.name);
    forall i | 0 <= i < |aliases|
      ensures Tagged(aliases[i], m.name) in r.constants <==> IsConstant(aliases[i])
      ensures Tagged(aliases[i], m.name) in r.variables <==> !IsConstant(aliases[i])
    {
      TaggedFilterMember(aliases, IsConstant, m.name, i);
      TaggedFilterMember(aliases, IsVariable, m.name, i);
    }
  }

  lemma UntagTagAll<T>(xs: seq<T>, owner: string)
    ensures Untag(TagAll(xs, owner)) == xs
  {
  }

  /** A declaration is stamped into the filtered bucket exactly when it passes the filter. */
  lemma TaggedFilterMember<T>(xs: seq<T>, keep: T -> bool, owner: string, i: nat)
    requires i < |xs|
    ensures Tagged(xs[i], owner) in TagAll(Filter(xs, keep), owner) <==> keep(xs[i])
  {
    var f := Filter(xs, keep);
    var t := TagAll(f, owner);
    if Tagged(xs[i], owner) in t {
      var k :| 0 <= k < |t| && t[k] == Tagged(xs[i], owner);
      assert f[k] == xs[i];
    }
    if keep(xs[i]) {
      var k :| 0 <= k < |f| && f[k] == xs[i];
      assert t[k] == Tagged(xs[i], owner);
    }
  }

  /** Sum of the lengths of the five buckets (`Object.values(items)` summed). */
  function ItemCount(items: ModuleItems): nat {
    |items.functions| + |items.types| + |items.constants| + |items.variables| + |items.traits|
  }

  /** `sortModuleItems`: fewer variables first; for equal variable counts, fewer items in all. */
  function SortModuleItems(a: ModuleItems, b: ModuleItems): (c: int)
    ensures c < 0 <==> |a.variables| < |b.variables|
                       || (|a.variables| == |b.variables| && ItemCount(a) < ItemCount(b))
    ensures c == 0 <==> |a.variables| == |b.variables| && ItemCount(a) == ItemCount(b)
    ensures c > 0 <==> |a.variables| > |b.variables|
                       || (|a.variables| == |b.variables| && ItemCount(a) > ItemCount(b))
  {
    if |a.variables| != |b.variables| then |a.variables| - |b.variables|
    else ItemCount(a) - ItemCount(b)
  }

  /** The comparator is a total preorder, so sorting with it is well defined. */
  lemma SortModuleItemsConsistent()
    ensures StableSort.Consistent(SortModuleItems)
  {
  }

  /** `packages.find(p => p.name === name)`, as a position. */
  function FindChild(ps: seq<Package>, name: string): (r: Option<nat>)
    ensures r.Some? ==> r.value < |ps| && ps[r.value].name == name
                        && forall j | 0 <= j < r.value :: ps[j].name != name
    ensures r.None? <==> forall j | 0 <= j < |ps| :: ps[j].name != name
    decreases |ps|
  {
    if ps == [] then None
    else if ps[0].name == name then Some(0)
    else
      match FindChild(ps[1..], name)
      case None => None
      case Some(i) => Some(i + 1)
  }

  const DefaultKind := "package"
  const DefaultDescription := "Default package containing top-level modules"
  const DefaultSummary := "Contains all modules not explicitly placed in a named package"

  /** The synthetic package standing for the root's own top-level modules. */
  function DefaultPackage(root: Package): (d: Package)
    ensures d.name == "Default" && d.modules == root.modules && d.packages == []
  {
    Package("Default", DefaultKind, DefaultSummary, DefaultDescription, root.modules, [], None, None, None, None)
  }

  /** `findPackage(segments, current)`. */
  function FindPackage(root: Package, segments: seq<string>, current: Package): (r: Option<Package>)
    ensures segments == [] ==> r == Some(current)
    ensures |segments| == 1 && (forall j | 0 <= j < |current.packages| :: current.packages[j].name != segments[0])
            ==> r == Some(DefaultPackage(root))
    ensures |segments| >= 2 && (forall j | 0 <= j < |current.packages| :: current.packages[j].name != segments[0])
            ==> r == None
    ensures r.None? ==> |segments| >= 2
    ensures r.Some? ==> r.value == DefaultPackage(root)
                        || exists a :: ValidAddr(current, a) && At(current, a) == r.value
                                       && NamesAlong(current, a) == segments
    decreases |segments|
  {
    if segments == [] then
      var here: seq<nat> := [];
      assert ValidAddr(current, here) && At(current, here) == current && NamesAlong(current, here) == segments;
      assert exists a :: ValidAddr(current, a) && At(current, a) == current && NamesAlong(current, a) == segments;
      Some(current)
    else if |segments| == 1 && FindChild(current.packages, segments[0]).None? then Some(DefaultPackage(root))
    else
      match FindChild(current.packages, segments[0])
      case None => None
      case Some(i) =>
        var r := FindPackage(root, segments[1..], current.packages[i]);
        assert r.Some? && r.value != DefaultPackage(root) ==>
                 exists a :: ValidAddr(current, a) && At(current, a) == r.value
                             && NamesAlong(current, a) == segments by {
          if r.Some? && r.value != DefaultPackage(root) {
            var b :| ValidAddr(current.packages[i], b) && At(current.packages[i], b) == r.value
                     && NamesAlong(current.packages[i], b) == segments[1..];
            var a := [i] + b;
            assert a[1..] == b;
            assert NamesAlong(current, a) == [segments[0]] + segments[1..];
          }
        }
        r
  }

  /** A first segment naming a child descends into the FIRST child of that name with the
      remaining segments; a lone segment naming a child therefore finds that child. */
  lemma FindPackageDescends(root: Package, segments: seq<string>, current: Package)
    requires |segments| >= 1 && FindChild(current.packages, segments[0]).Some?
    ensures var i := FindChild(current.packages, segments[0]).value;
            FindPackage(root, segments, current) == FindPackage(root, segments[1..], current.packages[i])
    ensures |segments| == 1 ==>
              FindPackage(root, segments, current) == Some(current.packages[FindChild(current.packages, segments[0]).value])
  {
  }

  /** The address takes, at every level, the first child bearing its name. */
  predicate FirstMatchPath(p: Package, a: seq<nat>)
    decreases |a|
  {
    a == []
    || (a[0] < |p.packages|
        && FindChild(p.packages, p.packages[a[0]].name) == Some(a[0])
        && FirstMatchPath(p.packages[a[0]], a[1..]))
  }

  /** Resolving the names along a first-match address finds the package at that address. */
  lemma {:induction false} FindPackageAlongPath(root: Package, current: Package, a: seq<nat>)
    requires FirstMatchPath(current, a)
    ensures ValidAddr(current, a)
    ensures FindPackage(root, NamesAlong(current, a), current) == Some(At(current, a))
    decreases |a|
  {
    if a != [] {
      FindPackageAlongPath(root, current.packages[a[0]], a[1..]);
      assert NamesAlong(current, a)[1..] == NamesAlong(current.packages[a[0]], a[1..]);
    }
  }

  /** When sibling names are unique, every address is a first-match address. */
  predicate UniqueSiblingNames(p: Package)
    decreases p
  {
    && (forall i, j | 0 <= i < j < |p.packages| :: p.packages[i].name != p.packages[j].name)
    && (forall i | 0 <= i < |p.packages| :: UniqueSiblingNames(p.packages[i]))
  }

  lemma {:induction false} UniqueNamesFirstMatch(p: Package, a: seq<nat>)
    requires UniqueSiblingNames(p)
    requires ValidAddr(p, a)
    ensures FirstMatchPath(p, a)
    decreases |a|
  {
    if a != [] {
      UniqueNamesFirstMatch(p.packages[a[0]], a[1..]);
    }
  }

  /** The packages nested in `ps` in depth-first pre-order, each with its route under `path`. */
  function PackagesUnder(ps: seq<Package>, path: string): seq<IndexedPackage>
    decreases ps
  {
    if ps == [] then []
    else
      var here := path + "/" + ps[0].name;
      [IndexedPackage(ps[0], here)] + PackagesUnder(ps[0].packages, here) + PackagesUnder(ps[1..], path)
  }

  /** `getAllPackages`: every package below the root, then the Default package last when the
      root has modules of its own. */
  function AllPackages(root: Package): seq<IndexedPackage> {
    PackagesUnder(root.packages, "")
      + (if |root.modules| > 0 then [IndexedPackage(DefaultPackage(root), "/Default")] else [])
  }

  /** The modules of one package, routed as `path#name`. */
  function ModuleEntries(ms: seq<Module>, path: string): (r: seq<IndexedModule>)
    ensures |r| == |ms|
    ensures forall i | 0 <= i < |ms| :: r[i] == IndexedModule(ms[i], path + "#" + ms[i].name)
  {
    seq(|ms|, i requires 0 <= i < |ms| => IndexedModule(ms[i], path + "#" + ms[i].name))
  }

  function ModulesUnder(ps: seq<Package>, path: string): seq<IndexedModule>
    decreases ps
  {
    if ps == [] then []
    else
      var here := path + "/" + ps[0].name;
      ModuleEntries(ps[0].modules, here) + ModulesUnder(ps[0].packages, here) + ModulesUnder(ps[1..], path)
  }

  /** `getAllModules`: the root's modules, then those of every nested package in pre-order. */
  function AllModules(root: Package): seq<IndexedModule> {
    ModuleEntries(root.modules, "") + ModulesUnder(root.packages, "")
  }
}
