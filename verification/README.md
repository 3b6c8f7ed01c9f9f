# Documentation-tree indexer of lightbug_docs, in Dafny

The lightbug_docs site renders the API documentation of a package tree that is loaded
from a generated JSON document. A root `Package` holds modules and nested packages.
Each `Module` holds functions, structs, aliases and traits. The indexer in `lib/docs.ts`
derives the views the site shows from that tree, and a few components add small pure
ordering and partitioning helpers on top. This project models those views and proves
what they contain. All models are pure functions over immutable datatypes, except two
methods for the greedy column layout.

| file | module | models |
|---|---|---|
| `wrappers.dfy` | `Wrappers` | `Option` |
| `seqs.dfy` | `Seqs` | filter, map, flatten, distinctness, first index |
| `text.dfy` | `Text` | `String.prototype.includes`; name comparison for `localeCompare` |
| `ordered_map.dfy` | `OrderedMap` | the insertion-ordered JavaScript `Map` (`set`, `get`, a `forEach` of `set`s) |
| `stable_sort.dfy` | `StableSort` | the stable `Array.prototype.sort` over a three-way comparator |
| `doc_tree.dfy` | `DocTree` | the document's datatypes; addresses of nested packages and `/a/b` routes |
| `doc_index.dfy` | `DocIndex` | `isModule`, `collectModuleItems`, `sortModuleItems`, `findPackage`, `getAllPackages`, `getAllModules` |
| `catalogue.dfy` | `Catalogue` | what the two flat catalogues contain, stated through pre-order addresses |
| `rollup.dfy` | `Rollup` | `collectAllItems` of `lib/docs.ts`, the per-package rollup |
| `sidebar.dfy` | `Sidebar` | `createSidebarSections`, `findPackagePath`, the local `collectAllItems`, `createDefaultPackageSections` |
| `package_listing.dfy` | `PackageListing` | the package listing page: `sortModules`, `basePath`, `ItemList`, the module card count |
| `table_of_contents.dfy` | `TableOfContents` | section filtering, the 10-entry cap, the column target and the greedy column distribution |
| `struct_card.dfy` | `StructCard` | `getFieldsPreview` and the "more fields" line |

The loaded document is not read from a global. Every operation that needs it takes the
root package as a parameter `root`.

A package nested in the root is named by an address: the list of child positions that
leads to it. Pre-order on addresses is the visiting order of the catalogue walks. The
catalogue lemmas say, for every position `k`, which package stands at position `k` and
under which route. They also say that every package appears and that the order is
pre-order.

## Model

| member | source | states |
|---|---|---|
| DocIndex.IsModuleByFunctionsField | lib/docs.ts:153-155 | `isModule` looks only at whether a `functions` field is present. A package carrying one counts as a module, a module lacking one does not, and both shapes are classified alike. |
| DocIndex.IsConstant | lib/docs.ts:264-270 | An alias is a constant exactly when it has a value and "const" occurs somewhere in it. An alias without a value is therefore a variable. |
| Text.Contains | lib/docs.ts:265 | `includes` is true exactly when the needle occurs at some position of the text. |
| DocIndex.CollectModuleItems | lib/docs.ts:249-276 | The functions, types and traits buckets have one entry per declaration, an absent list counting as none. Each entry is its declaration, in source order, stamped with the module's name. The aliases split into constants and variables by the "const" rule. |
| DocIndex.ClassifyAliases | lib/docs.ts:264-270 | Every alias lands in exactly one of constants and variables: constants exactly when its value contains "const". The two buckets together have as many entries as the module has aliases, and both keep source order. |
| DocIndex.SortModuleItems | lib/docs.ts:278-287 | Negative exactly when `a` has fewer variables, or as many and fewer items over all five buckets. Zero exactly when both counts are equal. Positive in the mirrored case. |
| DocIndex.SortModuleItemsConsistent | lib/docs.ts:278-287 | The comparator is antisymmetric and transitive, so a stable sort by it is well defined. |
| DocIndex.FindChild | lib/docs.ts:230 | `packages.find` by name gives the first child with that name, or nothing when no child has it. |
| DocIndex.DefaultPackage | lib/docs.ts:232-238 | The fallback package is named "Default", has no sub-packages and holds the root's modules. |
| DocIndex.FindPackage | lib/docs.ts:220-247 | An empty path gives the current package. A single segment that names no child gives the Default package with the root's modules, even below the root. Two or more segments whose first names no child give nothing. Nothing is only ever returned for two or more segments. Any other result is the package reached along a child address whose names are the segments. |
| DocIndex.FindPackageDescends | lib/docs.ts:241-246 | A first segment that names a child continues with the rest of the path in the first child of that name. A single such segment finds that child. |
| DocIndex.FindPackageAlongPath | lib/docs.ts:220-247 | Taking the names along an address that picks the first child of each name resolves to the package at that address. |
| DocIndex.UniqueNamesFirstMatch | lib/docs.ts:241 | When sibling names are unique, every address picks the first child of its name, so every nested package can be found by its names. |
| Catalogue.AllPackagesCatalogue | lib/docs.ts:157-196 | `getAllPackages` lists the packages below the root, without the root itself. Entry `k` is the package at the `k`-th pre-order address, routed `/a/b` by the names along that address. Every nested package has an address in the list, and consecutive addresses are in pre-order. When the root has modules, one Default entry routed `/Default` comes last. |
| Catalogue.PackagesUnderAt | lib/docs.ts:161-169 | The recursive walk puts, at position `k`, the package at the `k`-th pre-order address, with the path extended by `/name` once per level. |
| Catalogue.PreOrderComplete | lib/docs.ts:161-169 | Every address of a nested package is visited by the walk. |
| Catalogue.PreOrderSorted | lib/docs.ts:161-169 | A package is visited before its sub-packages, and siblings are visited in list order. |
| Catalogue.AllModulesCatalogue | lib/docs.ts:198-218 | `getAllModules` is the root's modules followed by those of each nested package in pre-order. Each package's modules are in declaration order, routed `route#name`; the route is empty for the root. So a package's modules precede those of its sub-packages. |
| Catalogue.ModulesUnderGroups | lib/docs.ts:201-213 | The module walk concatenates, package by package in pre-order, each package's module entries. |
| Catalogue.AllModulesLength | lib/docs.ts:198-218 | `getAllModules` has exactly one entry per module of the tree, at any depth. |
| Rollup.SummarizeAgrees | lib/docs.ts:336-431 | The summaries of a declaration list are those of the declarations `collectModuleItems` puts in the same bucket, in the same order. Each summary carries the owner and its bucket's kind: "function", "struct", "const", "var" or "trait". |
| Rollup.KeptIffDeclares | lib/docs.ts:433-442 | A module is kept in the package's module map exactly when it declares at least one function, struct, alias or trait. |
| Rollup.RollupPackageKeys | lib/docs.ts:377-448 | The module map is absent exactly when no module is kept. Otherwise it has one entry per name of a kept module, no name twice, in the order in which the names first occur. |
| Rollup.RollupPackageLast | lib/docs.ts:441 | Under a module name stands the summary of the last kept module of that name. |
| Rollup.CollectAllItemsKeys | lib/docs.ts:312-453 | The result has one entry per distinct package name, in the order in which the names first occur among the listed packages. |
| Rollup.CollectAllItemsLast | lib/docs.ts:450 | A name shared by several listed packages holds the rollup of the last of them. |
| OrderedMap.PutGet | lib/docs.ts:441 | After `set(k, v)`, `get(k)` gives `v` and every other key reads as before. |
| OrderedMap.FromPairsKeys | components/navigation/Sidebar/utils.ts:153-158 | A map built by a loop of `set` calls has one entry per distinct key set, and no key twice. |
| OrderedMap.FromPairsGet | components/navigation/Sidebar/utils.ts:153-158 | Each key of such a map holds the value of the last `set` with that key. |
| OrderedMap.FromPairsOrder | components/navigation/Sidebar/utils.ts:153-158 | The entries of such a map stand in the order of each key's first `set`. |
| Sidebar.BaseHref | components/navigation/Sidebar/utils.ts:27-29 | A module's links point into a page ending in `/modules/name`. It lies under `/docs/packages/` exactly when a non-empty package name is given, and is then `/docs/packages/pkg/modules/name`. Otherwise it is `/docs/modules/name`; an empty name counts as missing. |
| Sidebar.ModuleSidebar | components/navigation/Sidebar/utils.ts:24-60 | A module gets exactly four sections: Functions, Types, Constants and Variables, in that order. Their links are the module's functions, structs, constants and variables as `collectModuleItems` buckets them, each `base#name`. Traits are never listed. |
| Sidebar.DefaultSidebar | components/navigation/Sidebar/utils.ts:63-65 | A non-module entry named "Default" gets exactly the Default sections of its modules. Section `i` is titled with the `i`-th module name of the Default order and lists that module's items. The titles are the distinct module names, none twice, and the order is ascending by `sortModuleItems`. |
| Sidebar.PackageSidebar | components/navigation/Sidebar/utils.ts:68-93 | Any other package gets a "Packages" section exactly when it has sub-packages and a "Modules" section exactly when it has modules, Packages first. Sub-package links go to `/docs/packages/name` and module links to `/docs/packages/owner/modules/name`. A module-shaped entry without `functions` gets no sections. |
| Sidebar.DefaultTitles | components/navigation/Sidebar/utils.ts:153-158 | The Default page has one section per distinct module name, and no title twice. |
| Sidebar.DefaultOrdered | components/navigation/Sidebar/utils.ts:160-170 | The Default sections are in ascending order of variable count, then of total item count. |
| Sidebar.DefaultStable | components/navigation/Sidebar/utils.ts:160-170 | Modules whose items compare equal keep the order of the module map, because the sort is stable. |
| Sidebar.DefaultEntry | components/navigation/Sidebar/utils.ts:171-195 | The section titled with a module name lists the items of the last module of that name. They are its functions, then types, constants and variables, each linking `#name`. |
| Sidebar.FindPackagePathFound | components/navigation/Sidebar/utils.ts:96-105 | A non-empty result is `/docs` plus the `/a/b` route of a nested package of that name. The other possibility is `/docs/Default`, for the name "Default" when the root has modules. |
| Sidebar.FindPackagePathMissing | components/navigation/Sidebar/utils.ts:96-105 | The result is empty exactly when no nested package has the name and the name is not a "Default" that stands for the root's own modules. |
| Sidebar.CollectFlatAgrees | components/navigation/Sidebar/utils.ts:107-150 | Each of the four flat lists is, module by module, the matching `collectModuleItems` bucket, with the same "const" rule and no traits. |
| StableSort.Sort | app/docs/packages/page.tsx:183 | The sorted sequence is a permutation of the input and is ordered by the comparator. Within each class of equal elements, the input order is kept. |
| Text.CompareText | app/docs/packages/page.tsx:202 | Name comparison is zero exactly for equal names. |
| Text.CompareTextTransitive | app/docs/packages/page.tsx:202 | Name comparison is transitive, so it orders names totally. |
| PackageListing.CompareModules | app/docs/packages/page.tsx:183-203 | A module with a large section sorts after one without. Within the same class, modules compare by name. Zero only for the same class and the same name. |
| PackageListing.SortModules | app/docs/packages/page.tsx:182-204 | The result is a permutation of the entries. No module with a large section comes before one without, and within a class names ascend. |
| PackageListing.SortModulesStable | app/docs/packages/page.tsx:183 | Entries that compare equal keep their input order. |
| PackageListing.BasePathCollisions | app/docs/packages/page.tsx:56-59 | Two package names get the same base path exactly when they are equal, or when one is "Default" and the other "default". |
| PackageListing.ItemList | app/docs/packages/page.tsx:111-145 | A missing or empty list renders nothing. Otherwise the list shows its title, the number of items and one `href#name` link per item, in order. |
| PackageListing.PackageCardOf | app/docs/packages/page.tsx:49-92 | A card shows the package's name and description. Its "View Details" link is `/docs/packages/name`, with the name unchanged. It has four item lists: Functions, Types, Constants and Variables. Each list is absent exactly when it has no items; otherwise it has its title, the item count and one `basePath#name` link per item, in order. The module list is present exactly when the package's module map is present and non-empty. It holds the same module names, and its entry `i` is the card of the `i`-th module in `sortModules` order. |
| PackageListing.ItemGrid | app/docs/packages/page.tsx:94-109 | The grid shows the Functions, Types, Constants and Variables lists in that order, each as `ItemList` renders it against the base path. |
| PackageListing.DetailsDiffersForDefault | app/docs/packages/page.tsx:56-59 | For the Default package, the "View Details" link (`/docs/packages/Default`) differs from the base path (`/docs/packages/default`) that its item and module links use. |
| PackageListing.ModuleCardOf | app/docs/packages/page.tsx:156-176 | A module entry shows the module's name and links to `basePath/modules/name`. Its count is one less than the page's `Object.values(...).flat().length`, i.e. the corrected count (see Findings). |
| PackageListing.ListingPage | app/docs/packages/page.tsx:40-42 | The page shows one package card per rollup entry, in the rollup's order. |
| PackageListing.ModuleItemCountMatches | app/docs/packages/page.tsx:157 | The corrected module count equals the number of declarations `collectModuleItems` buckets for the module. |
| PackageListing.ModuleItemCountOffByOne | app/docs/packages/page.tsx:157 | The count as written is always one more than the number of declarations. |
| PackageListing.ModuleItemCountWitness | app/docs/packages/page.tsx:157 | A module with a single function is shown as having 2 items. |
| TableOfContents.SectionsOrdered | components/TableOfContents.tsx:19-52 | The sections stand in the order Functions, Types, Variables, Constants. Each present section has at least one entry. Its entries are the names of the declarations of its kind, in order, and its total is their number. |
| TableOfContents.SectionsPresent | components/TableOfContents.tsx:19-52 | A section of a kind is present exactly when that kind has declarations. |
| TableOfContents.ItemsPerColumn | components/TableOfContents.tsx:58 | The column target is the smallest number whose triple reaches the shown total: the total over three, rounded up. |
| TableOfContents.MoreCount | components/TableOfContents.tsx:103-107 | The "and N more..." line is present exactly when a section stands for more than 10 declarations, with N the number beyond 10. |
| TableOfContents.ShownPlusMore | components/TableOfContents.tsx:103-107 | The entries shown plus the "more" count equal the section's declarations. |
| TableOfContents.Distribute | components/TableOfContents.tsx:60-79 | The columns, read in order, give back every section capped to its first `min(len, 10)` entries; nothing is dropped or repeated. Only the first column can be empty. A new column starts only when the previous one was non-empty and the next section would take it past the target. A column of two or more sections stays within the target. No sections give one empty column. |
| TableOfContents.Layout | components/TableOfContents.tsx:17-79 | The whole table: the target is a third, rounded up, of all shown entries, and the non-empty sections are distributed greedily against it. |
| TableOfContents.GreedyUnique | components/TableOfContents.tsx:60-79 | Two greedy distributions of the same sections are equal. So the greedy rule, not the loop, fixes the layout. |
| StructCard.GetFieldsPreview | components/cards/StructCard.tsx:47-54 | The preview is the first `min(len, 10)` fields, in order. `remaining` is the field count minus 10, negative below 10 fields. |
| StructCard.StructFieldsPreview | components/cards/StructCard.tsx:57-60 | A struct without a field list or with an empty one has no preview. Otherwise its preview is `getFieldsPreview` of its fields. |
| StructCard.MoreFields | components/cards/StructCard.tsx:129-133 | The "+ N more fields..." line is shown exactly when `remaining` is positive, and N is `remaining`. |
| StructCard.PreviewAccountsForAll | components/cards/StructCard.tsx:47-54 | The preview followed by the hidden fields is the field list. The "more" line appears exactly when some field is hidden, and it counts the hidden fields. |
| StructCard.CardShowsEveryField | components/cards/StructCard.tsx:129-133 | Over a whole card, the field rows shown plus the "more" count equal the number of fields the struct declares. |

## Left out

- Rendering: JSX, React state, dialogs, tabs, accordions, scrolling, menu toggling, keyboard handling and router pushes. The model computes what is shown, not how.
- Loading the JSON document: the root package is a parameter.
- `localeCompare` is modelled as lexicographic order on character codes (`Text.CompareText`), without locale rules.
- Summaries, descriptions, signatures, deprecation notes and other display-only strings are opaque strings. The `|| ""` fallbacks for absent descriptions are not modelled, because descriptions are always present strings in the model.
- A package's `modules` and `packages` are plain sequences, absent meaning empty. Every reader in the core treats an absent list exactly like an empty one.
- Numbers are unbounded integers. All counts here are lengths of lists and far from any JavaScript number limit.
- Sidebar.ModuleSidebar: states names and links of the entries, not the other declaration fields copied in by the object spread, which are display-only.
- Sidebar.DefaultEntry: the same; the copied declaration fields other than name and module are not modelled.
- `label` of sidebar links and the `id` of table-of-contents entries are kept, but no property concerns them beyond being the name.
- PackageListing.ModuleCardOf: shows the corrected item count, the number of declarations. The page as written shows one more, because it also counts the module's description string; see Findings.
- TableOfContents.Layout: makes no claim of at most three columns. The source only aims for three; sections showing 1, 10, 1 and 10 entries get a target of 8 and four columns.
- The unused `hasMore` in `getFieldsPreview` has no effect and is not modelled.
- The search bar, views and cards other than the struct card only re-render the indexer's output and are not part of this model.

## Findings

| source | as written | input that shows it | evidently intended | confidence | as-written member | corrected member |
|---|---|---|---|---|---|---|
| app/docs/packages/page.tsx:157 | The module card counts `Object.values(moduleItems).flat().length`. The rollup stores the module's `description` string next to its five arrays, and `flat()` keeps that string as one element, so it is counted as an item. | A module whose only declaration is one function is shown as "2 items". | The number of declarations listed for the module: 1 in that example. | high, not executed | PackageListing.ModuleItemCountAsWritten (exhibited by PackageListing.ModuleItemCountOffByOne and PackageListing.ModuleItemCountWitness) | PackageListing.ModuleItemCount (proved by PackageListing.ModuleItemCountMatches; used by PackageListing.ModuleCardOf) |
