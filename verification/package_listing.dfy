/** The package listing page of app/docs/packages/page.tsx: one card per rolled-up package,
    with its own items and, when it has any, its modules ordered small-first then by name. */
module PackageListing {
  import opened Wrappers
  import opened Seqs
  import opened Text
  import opened DocTree
  import opened DocIndex
  import opened Rollup
  import StableSort

  /** A module holds a large section when one of its function, type, constant or variable
      lists has more than 10 entries; traits do not count. */
  predicate HasLargeSection(b: Buckets) {
    |b.functions| > 10 || |b.types| > 10 || |b.constants| > 10 || |b.variables| > 10
  }

  /** The comparator of `sortModules`: modules without a large section first, then by name. */
  function CompareModules(x: (string, Buckets), y: (string, Buckets)): (c: int)
    ensures HasLargeSection(x.1) && !HasLargeSection(y.1) ==> c > 0
    ensures !HasLargeSection(x.1) && HasLargeSection(y.1) ==> c < 0
    ensures HasLargeSection(x.1) == HasLargeSection(y.1) ==> (c < 0 <==> CompareText(x.0, y.0) < 0)
    ensures c == 0 <==> HasLargeSection(x.1) == HasLargeSection(y.1) && x.0 == y.0
  {
    var largeX := HasLargeSection(x.1);
    var largeY := HasLargeSection(y.1);
    if largeX && !largeY then 1
    else if !largeX && largeY then -1
    else CompareText(x.0, y.0)
  }

  lemma CompareModulesConsistent()
    ensures StableSort.Consistent(CompareModules)
  {
    forall a, b ensures CompareModules(a, b) < 0 <==> CompareModules(b, a) > 0 {
      CompareTextAntisymmetric(a.0, b.0);
    }
    forall a, b, c | CompareModules(a, b) <= 0 && CompareModules(b, c) <= 0
      ensures CompareModules(a, c) <= 0
    {
      if HasLargeSection(a.1) == HasLargeSection(b.1) && HasLargeSection(b.1) == HasLargeSection(c.1) {
        CompareTextTransitive(a.0, b.0, c.0);
      }
    }
  }

  /** `sortModules(entries)`: the stable sort of the module entries with `CompareModules`. */
  function SortModules(entries: seq<(string, Buckets)>): (r: seq<(string, Buckets)>)
    ensures multiset(r) == multiset(entries)
    ensures forall i, j | 0 <= i < j < |r| :: !(HasLargeSection(r[i].1) && !HasLargeSection(r[j].1))
    ensures forall i, j | 0 <= i < j < |r| && HasLargeSection(r[i].1) == HasLargeSection(r[j].1) ::
              CompareText(r[i].0, r[j].0) <= 0
  {
    CompareModulesConsistent();
    var r := StableSort.Sort(entries, CompareModules);
    assert forall i, j | 0 <= i < j < |r| :: CompareModules(r[i], r[j]) <= 0;
    r
  }

  /** Modules that compare equal (same class, same name) keep their input order; with the
      distinct names of a module map this never happens, so the order is fully determined. */
  lemma SortModulesStable(entries: seq<(string, Buckets)>)
    ensures forall c :: StableSort.Class(SortModules(entries), CompareModules, c)
                        == StableSort.Class(entries, CompareModules, c)
  {
    CompareModulesConsistent();
  }

  /** The base path of a package card: the package route, except that "Default" is spelled
      in lower case. */
  function BasePath(name: string): string {
    "/docs/packages/" + (if name == "Default" then "default" else name)
  }

  /** Two packages share a base path exactly when they have the same name, or when one is the
      Default package and the other a package literally named "default". */
  lemma BasePathCollisions(a: string, b: string)
    ensures BasePath(a) == BasePath(b) <==>
              a == b || (a == "Default" && b == "default") || (a == "default" && b == "Default")
  {
    var pre := "/docs/packages/";
    var x := if a == "Default" then "default" else a;
    var y := if b == "Default" then "default" else b;
    if BasePath(a) == BasePath(b) {
      assert x == BasePath(a)[|pre|..] && y == BasePath(b)[|pre|..];
    }
  }

  /** The card's "View Details" link keeps the package name as it is, so for the Default
      package it differs from the base path its item and module links use. */
  lemma DetailsDiffersForDefault()
    ensures "/docs/packages/" + "Default" != BasePath("Default")
  {
    var details := "/docs/packages/" + "Default";
    assert details[15] == 'D' && BasePath("Default")[15] == 'd';
  }

  /** One card list of the item grid: a title, the item count and a `href#name` link per item. */
  datatype ItemListView = ItemListView(title: string, count: nat, links: seq<string>)

  /** `ItemList`: nothing for a missing or empty list. */
  function ItemList(items: Option<seq<ItemSummary>>, href: string, title: string): (r: Option<ItemListView>)
    ensures r.None? <==> items.None? || |items.value| == 0
    ensures r.Some? ==> r.value.title == title && r.value.count == |items.value| == |r.value.links|
                        && forall i | 0 <= i < |items.value| :: r.value.links[i] == href + "#" + items.value[i].name
  {
    if items.None? || |items.value| == 0 then None
    else Some(ItemListView(title, |items.value|, Map(items.value, (it: ItemSummary) => href + "#" + it.name)))
  }

  /** A value of `Object.values(moduleItems)`: one of the five arrays, or the description. */
  datatype JsValue = JsArray(elems: seq<ItemSummary>) | JsText(text: string)

  function ObjectValues(b: Buckets): seq<JsValue> {
    [JsArray(b.constants), JsArray(b.variables), JsArray(b.functions), JsArray(b.types), JsArray(b.traits),
     JsText(b.description)]
  }

  /** Length of `values.flat()`: an array contributes its elements, any other value itself. */
  function FlatLength(values: seq<JsValue>): nat
    decreases |values|
  {
    if values == [] then 0
    else (match values[0] case JsArray(xs) => |xs| case JsText(_) => 1) + FlatLength(values[1..])
  }

  /** The module card's "N items" as written: the flattened values of the rolled-up module,
      which include its description. */
  function ModuleItemCountAsWritten(b: Buckets): nat {
    FlatLength(ObjectValues(b))
  }

  /** The count the card evidently means: the number of listed declarations. */
  function ModuleItemCount(b: Buckets): nat {
    |b.constants| + |b.variables| + |b.functions| + |b.types| + |b.traits|
  }

  /** The written count is always one more than the number of declarations. */
  lemma ModuleItemCountOffByOne(b: Buckets)
    ensures ModuleItemCountAsWritten(b) == ModuleItemCount(b) + 1
  {
    var v := ObjectValues(b);
    assert v[5..][1..] == v[6..] == [];
    assert FlatLength(v[5..]) == 1;
    assert v[4..][1..] == v[5..];
    assert FlatLength(v[4..]) == |b.traits| + 1;
    assert v[3..][1..] == v[4..];
    assert FlatLength(v[3..]) == |b.types| + |b.traits| + 1;
    assert v[2..][1..] == v[3..];
    assert FlatLength(v[2..]) == |b.functions| + |b.types| + |b.traits| + 1;
    assert v[1..][1..] == v[2..];
    assert FlatLength(v[1..]) == |b.variables| + |b.functions| + |b.types| + |b.traits| + 1;
  }

  /** A module with a single function is shown as having 2 items. */
  lemma ModuleItemCountWitness()
    ensures var f := ItemSummary("f", Some("m"), "function", "");
            var b := Buckets([], [], [f], [], [], "");
            ModuleItemCountAsWritten(b) == 2 && ModuleItemCount(b) == 1
  {
    var f := ItemSummary("f", Some("m"), "function", "");
    ModuleItemCountOffByOne(Buckets([], [], [f], [], [], ""));
  }

  /** For a rolled-up module the corrected count is the number of declarations that
      `collectModuleItems` buckets for it. */
  lemma ModuleItemCountMatches(m: Module)
    ensures ModuleItemCount(SummarizeModule(m)) == ItemCount(CollectModuleItems(m))
  {
    SummarizeAgrees(m.functions, m.structs, m.aliases, m.traits, m.description, Some(m.name), m.name);
  }

  /** One entry of the module list: the module's name, its page link and its item count. */
  datatype ModuleCard = ModuleCard(name: string, href: string, count: nat)

  /** A module's entry links to its page under the package's base path. Its count is the
      corrected one: one less than the count the page as written shows. */
  function ModuleCardOf(basePath: string, entry: (string, Buckets)): (card: ModuleCard)
    ensures card.name == entry.0 && card.href == basePath + "/modules/" + entry.0
    ensures card.count + 1 == ModuleItemCountAsWritten(entry.1)
  {
    ModuleItemCountOffByOne(entry.1);
    ModuleCard(entry.0, basePath + "/modules/" + entry.0, ModuleItemCount(entry.1))
  }

  /** A package card: its name, its "View Details" link, description, the four item lists
      and the sorted module list, present when the package has a non-empty module map. */
  datatype PackageCard = PackageCard(
    name: string,
    details: string,
    description: string,
    lists: seq<Option<ItemListView>>,
    modules: Option<seq<ModuleCard>>)

  /** The list view `v` shows `items` under `title`: nothing when there are none, else their
      count and one `href#name` link per item, in order. */
  predicate ShowsList(v: Option<ItemListView>, items: seq<ItemSummary>, href: string, title: string) {
    && (v.None? <==> |items| == 0)
    && (v.Some? ==>
          v.value.title == title && v.value.count == |items| && |v.value.links| == |items|
          && forall i | 0 <= i < |items| :: v.value.links[i] == href + "#" + items[i].name)
  }

  /** `ItemGrid`: the package's functions, types, constants and variables, in that order. */
  function ItemGrid(own: Buckets, base: string): (lists: seq<Option<ItemListView>>)
    ensures |lists| == 4
    ensures ShowsList(lists[0], own.functions, base, "Functions")
    ensures ShowsList(lists[1], own.types, base, "Types")
    ensures ShowsList(lists[2], own.constants, base, "Constants")
    ensures ShowsList(lists[3], own.variables, base, "Variables")
  {
    [
      ItemList(Some(own.functions), base, "Functions"),
      ItemList(Some(own.types), base, "Types"),
      ItemList(Some(own.constants), base, "Constants"),
      ItemList(Some(own.variables), base, "Variables")
    ]
  }

  function PackageCardOf(name: string, items: PackageItems): (card: PackageCard)
    ensures card.name == name && card.description == items.own.description && |card.lists| == 4
    ensures card.details == "/docs/packages/" + name
    ensures ShowsList(card.lists[0], items.own.functions, BasePath(name), "Functions")
    ensures ShowsList(card.lists[1], items.own.types, BasePath(name), "Types")
    ensures ShowsList(card.lists[2], items.own.constants, BasePath(name), "Constants")
    ensures ShowsList(card.lists[3], items.own.variables, BasePath(name), "Variables")
    ensures card.modules.Some? <==> items.moduleItems.Some? && |items.moduleItems.value| > 0
    ensures card.modules.Some? ==>
              |card.modules.value| == |items.moduleItems.value|
              && multiset(Map(card.modules.value, (c: ModuleCard) => c.name))
                 == multiset(Map(items.moduleItems.value, (e: (string, Buckets)) => e.0))
    ensures card.modules.Some? ==>
              var sorted := SortModules(items.moduleItems.value);
              |card.modules.value| == |sorted|
              && forall i | 0 <= i < |sorted| :: card.modules.value[i] == ModuleCardOf(BasePath(name), sorted[i])
  {
    var base := BasePath(name);
    var details := "/docs/packages/" + name;
    var own := items.own;
    var lists := ItemGrid(own, base);
    if items.moduleItems.Some? && |items.moduleItems.value| > 0 then
      var sorted := SortModules(items.moduleItems.value);
      var cards := Map(sorted, (e: (string, Buckets)) => ModuleCardOf(base, e));
      MapNamesPermutation(items.moduleItems.value, sorted, base);
      PackageCard(name, details, own.description, lists, Some(cards))
    else
      PackageCard(name, details, own.description, lists, None)
  }

  lemma MapNamesPermutation(entries: seq<(string, Buckets)>, sorted: seq<(string, Buckets)>, base: string)
    requires multiset(sorted) == multiset(entries)
    ensures multiset(Map(Map(sorted, (e: (string, Buckets)) => ModuleCardOf(base, e)), (c: ModuleCard) => c.name))
            == multiset(Map(entries, (e: (string, Buckets)) => e.0))
  {
    var names := Map(Map(sorted, (e: (string, Buckets)) => ModuleCardOf(base, e)), (c: ModuleCard) => c.name);
    assert names == Map(sorted, (e: (string, Buckets)) => e.0);
    MapPermutation(sorted, entries, (e: (string, Buckets)) => e.0);
  }

  /** The page: one card per entry of the rollup, in its order. */
  function ListingPage(allItems: seq<(string, PackageItems)>): (cards: seq<PackageCard>)
    ensures |cards| == |allItems|
    ensures forall i | 0 <= i < |allItems| :: cards[i] == PackageCardOf(allItems[i].0, allItems[i].1)
  {
    Map(allItems, (e: (string, PackageItems)) => PackageCardOf(e.0, e.1))
  }
}
