/** The table of contents of components/TableOfContents.tsx: up to four sections (functions,
    types, variables, constants), each showing at most 10 entries, spread greedily over
    columns of about a third of the shown entries each. */
module TableOfContents {
  import opened Seqs
  import opened DocTree

  const MaxItemsPerSection := 10

  datatype TocItem = TocItem(name: string, id: string)

  /** The four kinds of section, in the order the table lists them. */
  datatype Kind = Functions | Types | Variables | Constants

  /** A section: its kind, its entries and how many declarations it stands for. */
  datatype TocSection = TocSection(kind: Kind, items: seq<TocItem>, total: nat)

  function Min(a: nat, b: nat): nat {
    if a < b then a else b
  }

  function Entry(name: string): TocItem {
    TocItem(name, name)
  }

  function SectionOf(kind: Kind, names: seq<string>): TocSection {
    TocSection(kind, Map(names, Entry), |names|)
  }

  predicate NonEmpty(s: TocSection) {
    |s.items| > 0
  }

  function KindOf(s: TocSection): Kind {
    s.kind
  }

  function Names<T>(xs: seq<Tagged<T>>, nameOf: T -> string): seq<string> {
    Map(xs, (t: Tagged<T>) => nameOf(t.decl))
  }

  /** Position of a kind in the fixed order Functions, Types, Variables, Constants. */
  function Rank(k: Kind): nat {
    match k
    case Functions => 0
    case Types => 1
    case Variables => 2
    case Constants => 3
  }

  function AllSections(
    constants: seq<Tagged<Alias>>,
    variables: seq<Tagged<Alias>>,
    functions: seq<Tagged<Function>>,
    types: seq<Tagged<Struct>>): seq<TocSection>
  {
    [
      SectionOf(Functions, Names(functions, FunctionName)),
      SectionOf(Types, Names(types, StructName)),
      SectionOf(Variables, Names(variables, AliasName)),
      SectionOf(Constants, Names(constants, AliasName))
    ]
  }

  /** The sections of the table, empty ones dropped. */
  function Sections(
    constants: seq<Tagged<Alias>>,
    variables: seq<Tagged<Alias>>,
    functions: seq<Tagged<Function>>,
    types: seq<Tagged<Struct>>): seq<TocSection>
  {
    Filter(AllSections(constants, variables, functions, types), NonEmpty)
  }

  /** The names of the declarations of one kind. */
  function KindNames(
    kind: Kind,
    constants: seq<Tagged<Alias>>,
    variables: seq<Tagged<Alias>>,
    functions: seq<Tagged<Function>>,
    types: seq<Tagged<Struct>>): seq<string>
  {
    match kind
    case Functions => Names(functions, FunctionName)
    case Types => Names(types, StructName)
    case Variables => Names(variables, AliasName)
    case Constants => Names(constants, AliasName)
  }

  /** The sections stand in the order Functions, Types, Variables, Constants. Each has at
      least one entry, its entries are the names of the declarations of its kind, in order,
      and its total is the number of those declarations. */
  lemma SectionsOrdered(
    constants: seq<Tagged<Alias>>,
    variables: seq<Tagged<Alias>>,
    functions: seq<Tagged<Function>>,
    types: seq<Tagged<Struct>>)
    ensures var r := Sections(constants, variables, functions, types);
            && (forall i | 0 <= i < |r| :: |r[i].items| > 0 && r[i].total == |r[i].items|)
            && (forall i | 0 <= i < |r| ::
                  var names := KindNames(r[i].kind, constants, variables, functions, types);
                  r[i].items == Map(names, Entry) && r[i].total == |names|)
            && Ascending(r)
  {
    var all := AllSections(constants, variables, functions, types);
    assert forall i | 0 <= i < |all| :: Rank(all[i].kind) == i;
    FilterRanked(all, NonEmpty);
    SectionsContents(constants, variables, functions, types);
  }

  /** Each kept section is the section of its kind's declarations. */
  lemma SectionsContents(
    constants: seq<Tagged<Alias>>,
    variables: seq<Tagged<Alias>>,
    functions: seq<Tagged<Function>>,
    types: seq<Tagged<Struct>>)
    ensures var r := Sections(constants, variables, functions, types);
            forall i | 0 <= i < |r| ::
              r[i] == SectionOf(r[i].kind, KindNames(r[i].kind, constants, variables, functions, types))
  {
    var r := Sections(constants, variables, functions, types);
    forall i | 0 <= i < |r|
      ensures r[i] == SectionOf(r[i].kind, KindNames(r[i].kind, constants, variables, functions, types))
    {
      SectionAt(constants, variables, functions, types, r[i]);
    }
  }

  /** Every section the table keeps is the section of its kind's declarations. */
  lemma SectionAt(
    constants: seq<Tagged<Alias>>,
    variables: seq<Tagged<Alias>>,
    functions: seq<Tagged<Function>>,
    types: seq<Tagged<Struct>>,
    x: TocSection)
    requires x in AllSections(constants, variables, functions, types)
    ensures x == SectionOf(x.kind, KindNames(x.kind, constants, variables, functions, types))
  {
  }

  /** A section is present exactly when its kind has declarations. */
  lemma SectionsPresent(
    constants: seq<Tagged<Alias>>,
    variables: seq<Tagged<Alias>>,
    functions: seq<Tagged<Function>>,
    types: seq<Tagged<Struct>>)
    ensures var r := Sections(constants, variables, functions, types);
            && (Functions in Map(r, KindOf) <==> |functions| > 0)
            && (Types in Map(r, KindOf) <==> |types| > 0)
            && (Variables in Map(r, KindOf) <==> |variables| > 0)
            && (Constants in Map(r, KindOf) <==> |constants| > 0)
  {
    var all := AllSections(constants, variables, functions, types);
    assert forall i | 0 <= i < |all| :: Rank(all[i].kind) == i;
    assert NonEmpty(all[0]) <==> |functions| > 0;
    assert NonEmpty(all[1]) <==> |types| > 0;
    assert NonEmpty(all[2]) <==> |variables| > 0;
    assert NonEmpty(all[3]) <==> |constants| > 0;
    KindsPresent(all, Filter(all, NonEmpty));
  }

  /** Sections whose kinds strictly increase in rank. */
  predicate Ascending(s: seq<TocSection>) {
    forall i, j | 0 <= i < j < |s| :: Rank(s[i].kind) < Rank(s[j].kind)
  }

  /** Filtering an ascending list leaves it ascending. */
  lemma {:induction false} FilterRanked(s: seq<TocSection>, keep: TocSection -> bool)
    requires Ascending(s)
    ensures Ascending(Filter(s, keep))
    decreases |s|
  {
    if s != [] {
      var rest := Filter(s[1..], keep);
      assert Ascending(s[1..]) by {
        forall i, j | 0 <= i < j < |s[1..]| ensures Rank(s[1..][i].kind) < Rank(s[1..][j].kind) {
          assert s[1..][i] == s[i + 1] && s[1..][j] == s[j + 1];
        }
      }
      FilterRanked(s[1..], keep);
      if keep(s[0]) {
        HeadBelow(s, rest, keep);
        AscendingCons(s[0], rest);
        assert Filter(s, keep) == [s[0]] + rest;
      } else {
        assert Filter(s, keep) == rest;
      }
    }
  }

  /** Everything kept from the tail of an ascending list ranks above its head. */
  lemma HeadBelow(s: seq<TocSection>, rest: seq<TocSection>, keep: TocSection -> bool)
    requires s != [] && Ascending(s) && rest == Filter(s[1..], keep)
    ensures forall k | 0 <= k < |rest| :: Rank(s[0].kind) < Rank(rest[k].kind)
  {
    forall k | 0 <= k < |rest| ensures Rank(s[0].kind) < Rank(rest[k].kind) {
      assert rest[k] in s[1..];
      var j :| 0 <= j < |s[1..]| && s[1..][j] == rest[k];
      assert s[j + 1] == rest[k];
    }
  }

  lemma AscendingCons(x: TocSection, rest: seq<TocSection>)
    requires Ascending(rest)
    requires forall k | 0 <= k < |rest| :: Rank(x.kind) < Rank(rest[k].kind)
    ensures Ascending([x] + rest)
  {
    var r := [x] + rest;
    forall i, j | 0 <= i < j < |r| ensures Rank(r[i].kind) < Rank(r[j].kind) {
      assert r[j] == rest[j - 1];
      if i > 0 {
        assert r[i] == rest[i - 1];
      }
    }
  }

  /** Of sections of distinct kinds, a kind is kept exactly when its section is non-empty. */
  lemma KindsPresent(all: seq<TocSection>, r: seq<TocSection>)
    requires r == Filter(all, NonEmpty)
    requires forall i, j | 0 <= i < j < |all| :: all[i].kind != all[j].kind
    ensures forall i | 0 <= i < |all| :: all[i].kind in Map(r, KindOf) <==> NonEmpty(all[i])
  {
    forall i | 0 <= i < |all| ensures all[i].kind in Map(r, KindOf) <==> NonEmpty(all[i]) {
      if NonEmpty(all[i]) {
        KindKept(all, r, i);
      }
      if all[i].kind in Map(r, KindOf) {
        KindFound(all, r, i);
      }
    }
  }

  lemma KindKept(all: seq<TocSection>, r: seq<TocSection>, i: nat)
    requires r == Filter(all, NonEmpty)
    requires i < |all| && NonEmpty(all[i])
    ensures all[i].kind in Map(r, KindOf)
  {
    assert all[i] in r;
    var k :| 0 <= k < |r| && r[k] == all[i];
    assert Map(r, KindOf)[k] == all[i].kind;
  }

  lemma KindFound(all: seq<TocSection>, r: seq<TocSection>, i: nat)
    requires r == Filter(all, NonEmpty)
    requires forall i, j | 0 <= i < j < |all| :: all[i].kind != all[j].kind
    requires i < |all| && all[i].kind in Map(r, KindOf)
    ensures NonEmpty(all[i])
  {
    var k :| 0 <= k < |r| && Map(r, KindOf)[k] == all[i].kind;
    assert r[k] in all && NonEmpty(r[k]);
    var j :| 0 <= j < |all| && all[j] == r[k];
    assert all[j].kind == all[i].kind;
    assert j == i;
  }

  /** The number of entries a section shows. */
  function Visible(s: TocSection): nat {
    Min(|s.items|, MaxItemsPerSection)
  }

  function VisibleSum(ss: seq<TocSection>): nat
    decreases |ss|
  {
    if ss == [] then 0 else VisibleSum(ss[..|ss| - 1]) + Visible(ss[|ss| - 1])
  }

  /** A section as placed: its first `min(len, 10)` entries, title and total unchanged. */
  function Capped(s: TocSection): (c: TocSection)
    ensures c.kind == s.kind && c.total == s.total
    ensures |c.items| == Visible(s) && c.items == s.items[..Visible(s)]
  {
    TocSection(s.kind, s.items[..Visible(s)], s.total)
  }

  /** The target column height: a third of all shown entries, rounded up. */
  function ItemsPerColumn(total: nat): (n: nat)
    ensures 3 * n >= total
    ensures n > 0 ==> 3 * (n - 1) < total
  {
    (total + 2) / 3
  }

  /** The "and N more..." line of a section: present, with N hidden entries, exactly when
      the section stands for more than 10 declarations. */
  function MoreCount(s: TocSection): (n: nat)
    ensures n > 0 <==> s.total > MaxItemsPerSection
    ensures n > 0 ==> n == s.total - MaxItemsPerSection
  {
    if s.total > MaxItemsPerSection then s.total - MaxItemsPerSection else 0
  }

  /** Shown entries and the "more" count together account for every declaration. */
  lemma ShownPlusMore(s: TocSection)
    requires s.total == |s.items|
    ensures |Capped(s).items| + MoreCount(s) == s.total
  {
  }

  /** The shown entries of the first section of a column, if any. */
  function FirstVisible(column: seq<TocSection>): nat {
    if column == [] then 0 else Visible(column[0])
  }

  /** Every column after the first holds at least one section. */
  predicate TailsFilled(columns: seq<seq<TocSection>>) {
    forall c | 0 < c < |columns| :: columns[c] != []
  }

  /** Each new column was forced: the previous column was non-empty and the first section of
      the next one would have taken it past `perColumn`. */
  predicate Forced(columns: seq<seq<TocSection>>, perColumn: nat) {
    forall c | 0 <= c < |columns| - 1 ::
      columns[c] != [] && VisibleSum(columns[c]) + FirstVisible(columns[c + 1]) > perColumn
  }

  /** Every section after the first of a column fitted when it was added. */
  predicate Fitted(columns: seq<seq<TocSection>>, perColumn: nat) {
    forall c, k | 0 <= c < |columns| && 1 <= k < |columns[c]| ::
      VisibleSum(columns[c][..k]) + Visible(columns[c][k]) <= perColumn
  }

  /** The shape the greedy distribution leaves after any number of steps. */
  predicate Greedy(columns: seq<seq<TocSection>>, perColumn: nat) {
    |columns| >= 1 && TailsFilled(columns) && Forced(columns, perColumn) && Fitted(columns, perColumn)
  }

  /** The column distribution. Every section lands, capped, in the column being filled; a new
      column is opened first when the current one is non-empty and the section's shown entries
      would take it past `perColumn`. */
  method Distribute(sections: seq<TocSection>, perColumn: nat) returns (columns: seq<seq<TocSection>>)
    ensures Flatten(columns) == Map(sections, Capped)
    ensures Greedy(columns, perColumn)
    ensures forall c | 0 <= c < |columns| && |columns[c]| >= 2 :: VisibleSum(columns[c]) <= perColumn
    ensures sections == [] ==> columns == [[]]
  {
    var done: seq<seq<TocSection>> := [];
    var current: seq<TocSection> := [];
    var currentItems := 0;
    var i := 0;
    while i < |sections|
      invariant 0 <= i <= |sections|
      invariant currentItems == VisibleSum(current)
      invariant Flatten(done + [current]) == Map(sections[..i], Capped)
      invariant Greedy(done + [current], perColumn)
      invariant current == [] <==> i == 0
      invariant i == 0 ==> done == []
    {
      var s := Capped(sections[i]);
      var visible := Visible(sections[i]);
      PlacedPrefix(sections, i);
      if currentItems + visible > perColumn && |current| > 0 {
        ColumnOpened(done + [current], s, perColumn);
        done := done + [current];
        current := [s];
        currentItems := visible;
      } else {
        ColumnExtended(done, current, s, perColumn);
        current := current + [s];
        currentItems := currentItems + visible;
      }
      i := i + 1;
    }
    columns := done + [current];
    assert sections[..i] == sections;
    forall c | 0 <= c < |columns| && |columns[c]| >= 2 ensures VisibleSum(columns[c]) <= perColumn {
      GreedyColumnSum(columns, perColumn, c);
    }
  }

  /** The whole table: the non-empty sections, spread over columns whose target height is
      a third, rounded up, of all shown entries. */
  method Layout(
    constants: seq<Tagged<Alias>>,
    variables: seq<Tagged<Alias>>,
    functions: seq<Tagged<Function>>,
    types: seq<Tagged<Struct>>) returns (columns: seq<seq<TocSection>>, perColumn: nat)
    ensures var sections := Sections(constants, variables, functions, types);
            && 3 * perColumn >= VisibleSum(sections)
            && (perColumn > 0 ==> 3 * (perColumn - 1) < VisibleSum(sections))
            && Flatten(columns) == Map(sections, Capped)
            && Greedy(columns, perColumn)
  {
    var sections := Sections(constants, variables, functions, types);
    perColumn := ItemsPerColumn(VisibleSum(sections));
    columns := Distribute(sections, perColumn);
  }

  lemma PlacedPrefix(sections: seq<TocSection>, i: nat)
    requires i < |sections|
    ensures Map(sections[..i + 1], Capped) == Map(sections[..i], Capped) + [Capped(sections[i])]
    ensures Visible(Capped(sections[i])) == Visible(sections[i])
  {
    assert sections[..i + 1] == sections[..i] + [sections[i]];
    MapAppend(sections[..i], [sections[i]], Capped);
  }

  /** Opening a new column for `s` after a full non-empty column keeps the greedy shape. */
  lemma ColumnOpened(cols: seq<seq<TocSection>>, s: TocSection, perColumn: nat)
    requires Greedy(cols, perColumn)
    requires cols[|cols| - 1] != []
    requires VisibleSum(cols[|cols| - 1]) + Visible(s) > perColumn
    ensures Greedy(cols + [[s]], perColumn)
    ensures Flatten(cols + [[s]]) == Flatten(cols) + [s]
    ensures VisibleSum([s]) == Visible(s)
  {
    OpenedTails(cols, s);
    OpenedForced(cols, s, perColumn);
    OpenedFitted(cols, s, perColumn);
    FlattenColumn(cols, s);
  }

  lemma FlattenColumn(cols: seq<seq<TocSection>>, s: TocSection)
    ensures Flatten(cols + [[s]]) == Flatten(cols) + [s]
    ensures VisibleSum([s]) == Visible(s)
  {
    FlattenAppend(cols, [[s]]);
    assert Flatten([[s]]) == [s] + Flatten([]);
    assert VisibleSum([s]) == VisibleSum([]) + Visible(s);
  }

  lemma OpenedTails(cols: seq<seq<TocSection>>, s: TocSection)
    requires TailsFilled(cols)
    ensures TailsFilled(cols + [[s]])
  {
    var cs := cols + [[s]];
    forall c | 0 < c < |cs| ensures cs[c] != [] {
      if c < |cols| {
        assert cs[c] == cols[c];
      }
    }
  }

  lemma OpenedForced(cols: seq<seq<TocSection>>, s: TocSection, perColumn: nat)
    requires cols != [] && Forced(cols, perColumn)
    requires cols[|cols| - 1] != []
    requires VisibleSum(cols[|cols| - 1]) + Visible(s) > perColumn
    ensures Forced(cols + [[s]], perColumn)
  {
    var cs := cols + [[s]];
    forall c | 0 <= c < |cs| - 1
      ensures cs[c] != [] && VisibleSum(cs[c]) + FirstVisible(cs[c + 1]) > perColumn
    {
      assert cs[c] == cols[c];
      if c == |cols| - 1 {
        assert cs[c + 1][0] == s;
      } else {
        assert cs[c + 1] == cols[c + 1];
      }
    }
  }

  lemma OpenedFitted(cols: seq<seq<TocSection>>, s: TocSection, perColumn: nat)
    requires Fitted(cols, perColumn)
    ensures Fitted(cols + [[s]], perColumn)
  {
    var cs := cols + [[s]];
    forall c, k | 0 <= c < |cs| && 1 <= k < |cs[c]|
      ensures VisibleSum(cs[c][..k]) + Visible(cs[c][k]) <= perColumn
    {
      assert c < |cols|;
      assert cs[c] == cols[c];
    }
  }

  /** Adding `s` to the current column, which is empty or has room for it, keeps the greedy
      shape. */
  lemma ColumnExtended(done: seq<seq<TocSection>>, current: seq<TocSection>, s: TocSection, perColumn: nat)
    requires Greedy(done + [current], perColumn)
    requires current == [] || VisibleSum(current) + Visible(s) <= perColumn
    requires current == [] ==> done == []
    ensures Greedy(done + [current + [s]], perColumn)
    ensures Flatten(done + [current + [s]]) == Flatten(done + [current]) + [s]
    ensures VisibleSum(current + [s]) == VisibleSum(current) + Visible(s)
  {
    FlattenSnoc(done, current, s);
    assert (current + [s])[..|current|] == current;
    ExtendedTails(done, current, s);
    ExtendedForced(done, current, s, perColumn);
    ExtendedFitted(done, current, s, perColumn);
  }

  lemma ExtendedTails(done: seq<seq<TocSection>>, current: seq<TocSection>, s: TocSection)
    requires TailsFilled(done + [current])
    ensures TailsFilled(done + [current + [s]])
  {
    var cols := done + [current + [s]];
    forall c | 0 < c < |cols| ensures cols[c] != [] {
      if c < |done| {
        assert cols[c] == (done + [current])[c];
      }
    }
  }

  lemma ExtendedForced(done: seq<seq<TocSection>>, current: seq<TocSection>, s: TocSection, perColumn: nat)
    requires Forced(done + [current], perColumn)
    requires done != [] ==> current != []
    ensures Forced(done + [current + [s]], perColumn)
  {
    var cols := done + [current + [s]];
    var old_ := done + [current];
    forall c | 0 <= c < |cols| - 1
      ensures cols[c] != [] && VisibleSum(cols[c]) + FirstVisible(cols[c + 1]) > perColumn
    {
      assert cols[c] == old_[c];
      if c + 1 < |done| {
        assert cols[c + 1] == old_[c + 1];
      } else {
        assert cols[c + 1] == current + [s] && old_[c + 1] == current;
        assert (current + [s])[0] == current[0];
      }
    }
  }

  lemma ExtendedFitted(done: seq<seq<TocSection>>, current: seq<TocSection>, s: TocSection, perColumn: nat)
    requires Fitted(done + [current], perColumn)
    requires current == [] || VisibleSum(current) + Visible(s) <= perColumn
    ensures Fitted(done + [current + [s]], perColumn)
  {
    var cols := done + [current + [s]];
    var old_ := done + [current];
    var last := |done|;
    forall c, k | 0 <= c < |cols| && 1 <= k < |cols[c]|
      ensures VisibleSum(cols[c][..k]) + Visible(cols[c][k]) <= perColumn
    {
      if c == last {
        var col := current + [s];
        assert old_[last] == current && cols[last] == col;
        if k < |current| {
          assert col[..k] == current[..k] && col[k] == current[k];
        } else {
          assert col[..k] == current && col[k] == s;
        }
      } else {
        assert cols[c] == old_[c];
      }
    }
  }

  lemma FlattenSnoc(done: seq<seq<TocSection>>, current: seq<TocSection>, s: TocSection)
    ensures Flatten(done + [current + [s]]) == Flatten(done + [current]) + [s]
  {
    FlattenAppend(done, [current + [s]]);
    FlattenAppend(done, [current]);
    assert Flatten([current + [s]]) == current + [s] + Flatten([]);
    assert Flatten([current]) == current + Flatten([]);
  }

  lemma GreedyColumnSum(columns: seq<seq<TocSection>>, perColumn: nat, c: nat)
    requires Greedy(columns, perColumn)
    requires c < |columns| && |columns[c]| >= 2
    ensures VisibleSum(columns[c]) <= perColumn
  {
    var col := columns[c];
    var k := |col| - 1;
    assert col[..k + 1] == col;
    assert VisibleSum(col) == VisibleSum(col[..k]) + Visible(col[k]);
  }

  /** Where the first column of a greedy layout of `flat` ends, searching from position `k`:
      at the first section that no longer fits, or at the end. */
  function Cut(flat: seq<TocSection>, perColumn: nat, k: nat): (n: nat)
    requires 1 <= k <= |flat|
    ensures k <= n <= |flat|
    decreases |flat| - k
  {
    if k == |flat| then k
    else if VisibleSum(flat[..k]) + Visible(flat[k]) > perColumn then k
    else Cut(flat, perColumn, k + 1)
  }

  /** The length of the first column of any greedy layout of `flat`. */
  function FirstCut(flat: seq<TocSection>, perColumn: nat): nat {
    if flat == [] then 0 else Cut(flat, perColumn, 1)
  }

  lemma {:induction false} CutAt(flat: seq<TocSection>, perColumn: nat, k: nat, n: nat)
    requires 1 <= k <= n <= |flat|
    requires forall j | k <= j < n :: VisibleSum(flat[..j]) + Visible(flat[j]) <= perColumn
    requires n == |flat| || VisibleSum(flat[..n]) + Visible(flat[n]) > perColumn
    ensures Cut(flat, perColumn, k) == n
    decreases n - k
  {
    if k < n {
      CutAt(flat, perColumn, k + 1, n);
    }
  }

  /** A greedy layout's first column is the first `FirstCut` sections of its flattening. */
  lemma FirstColumn(cols: seq<seq<TocSection>>, perColumn: nat)
    requires Greedy(cols, perColumn)
    ensures |cols[0]| == FirstCut(Flatten(cols), perColumn)
    ensures cols[0] == Flatten(cols)[..|cols[0]|]
  {
    var flat := Flatten(cols);
    var c0 := cols[0];
    var n := |c0|;
    assert cols == [c0] + cols[1..];
    FlattenAppend([c0], cols[1..]);
    assert Flatten([c0]) == c0 + Flatten([]);
    assert flat == c0 + Flatten(cols[1..]);
    assert flat[..n] == c0;
    forall j | 1 <= j < n ensures VisibleSum(flat[..j]) + Visible(flat[j]) <= perColumn {
      assert flat[..j] == c0[..j] && flat[j] == c0[j];
    }
    if |cols| > 1 {
      var rest := cols[1..];
      assert rest == [cols[1]] + rest[1..];
      FlattenAppend([cols[1]], rest[1..]);
      assert Flatten([cols[1]]) == cols[1] + Flatten([]);
      assert flat[n] == cols[1][0];
      assert VisibleSum(c0) + FirstVisible(cols[1]) > perColumn;
      CutAt(flat, perColumn, 1, n);
    } else if n > 0 {
      assert Flatten(cols[1..]) == [];
      CutAt(flat, perColumn, 1, n);
    } else {
      assert Flatten(cols[1..]) == [];
    }
  }

  /** What follows the first column of a greedy layout is again a greedy layout. */
  lemma GreedyRest(cols: seq<seq<TocSection>>, perColumn: nat)
    requires Greedy(cols, perColumn) && |cols| > 1
    ensures Greedy(cols[1..], perColumn)
  {
    var rest := cols[1..];
    forall c | 0 <= c < |rest| - 1
      ensures rest[c] != [] && VisibleSum(rest[c]) + FirstVisible(rest[c + 1]) > perColumn
    {
      assert rest[c] == cols[c + 1] && rest[c + 1] == cols[c + 2];
    }
    forall c, k | 0 <= c < |rest| && 1 <= k < |rest[c]|
      ensures VisibleSum(rest[c][..k]) + Visible(rest[c][k]) <= perColumn
    {
      assert rest[c] == cols[c + 1];
    }
  }

  /** A sequence of non-empty columns flattens to nothing only when it is empty. */
  lemma FlattenFilled(cols: seq<seq<TocSection>>)
    requires forall c | 0 <= c < |cols| :: cols[c] != []
    ensures cols != [] ==> |Flatten(cols)| >= |cols[0]| > 0
  {
    if cols != [] {
      assert cols == [cols[0]] + cols[1..];
      FlattenAppend([cols[0]], cols[1..]);
      assert Flatten([cols[0]]) == cols[0] + Flatten([]);
    }
  }

  /** The greedy shape determines the layout: two greedy layouts of the same sections are
      the same, so `Distribute` computes the only one. */
  lemma {:induction false} GreedyUnique(a: seq<seq<TocSection>>, b: seq<seq<TocSection>>, perColumn: nat)
    requires Greedy(a, perColumn) && Greedy(b, perColumn)
    requires Flatten(a) == Flatten(b)
    ensures a == b
    decreases |a|
  {
    var flat := Flatten(a);
    FirstColumn(a, perColumn);
    FirstColumn(b, perColumn);
    var n := |a[0]|;
    assert a[0] == b[0];
    assert a == [a[0]] + a[1..] && b == [b[0]] + b[1..];
    FlattenAppend([a[0]], a[1..]);
    FlattenAppend([b[0]], b[1..]);
    assert Flatten([a[0]]) == a[0] + Flatten([]);
    assert Flatten([b[0]]) == b[0] + Flatten([]);
    assert Flatten(a[1..]) == flat[n..] == Flatten(b[1..]);
    assert forall c | 0 <= c < |a[1..]| :: a[1..][c] == a[c + 1];
    assert forall c | 0 <= c < |b[1..]| :: b[1..][c] == b[c + 1];
    FlattenFilled(a[1..]);
    FlattenFilled(b[1..]);
    if |a| > 1 && |b| > 1 {
      GreedyRest(a, perColumn);
      GreedyRest(b, perColumn);
      GreedyUnique(a[1..], b[1..], perColumn);
    } else {
      assert |Flatten(a[1..])| == 0 ==> a[1..] == [];
      assert |Flatten(b[1..])| == 0 ==> b[1..] == [];
    }
  }
}
