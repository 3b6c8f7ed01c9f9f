/** What the flat catalogues of lib/docs.ts contain, stated through addresses: a package
    nested in the root is named by the list of child positions leading to it, and pre-order
    is the order in which an address comes before its extensions and, at the first position
    where two addresses differ, the smaller position comes first. */
module Catalogue {
  import opened Seqs
  import opened DocTree
  import opened DocIndex

  /** Pre-order on addresses. */
  predicate PreOrderBefore(a: seq<nat>, b: seq<nat>)
    decreases |a|
  {
    if a == [] then b != []
    else b != [] && (a[0] < b[0] || (a[0] == b[0] && PreOrderBefore(a[1..], b[1..])))
  }

  /** `a` leads to a package inside the forest `ps` (`a[0]` picks the tree). */
  predicate ValidIn(ps: seq<Package>, a: seq<nat>) {
    |a| > 0 && a[0] < |ps| && ValidAddr(ps[a[0]], a[1..])
  }

  function NodeIn(ps: seq<Package>, a: seq<nat>): Package
    requires ValidIn(ps, a)
  {
    At(ps[a[0]], a[1..])
  }

  function NamesIn(ps: seq<Package>, a: seq<nat>): seq<string>
    requires ValidIn(ps, a)
  {
    [ps[a[0]].name] + NamesAlong(ps[a[0]], a[1..])
  }

  /** Puts `i` in front of every address. */
  function Cons(i: nat, addrs: seq<seq<nat>>): (r: seq<seq<nat>>)
    ensures |r| == |addrs|
    ensures forall k | 0 <= k < |addrs| :: r[k] == [i] + addrs[k]
  {
    seq(|addrs|, k requires 0 <= k < |addrs| => [i] + addrs[k])
  }

  /** Moves every address one tree to the right. */
  function Shift(addrs: seq<seq<nat>>): (r: seq<seq<nat>>)
    ensures |r| == |addrs|
    ensures forall k | 0 <= k < |addrs| && addrs[k] != [] :: r[k] == [addrs[k][0] + 1] + addrs[k][1..]
  {
    seq(|addrs|, k requires 0 <= k < |addrs| =>
          if addrs[k] == [] then [] else [addrs[k][0] + 1] + addrs[k][1..])
  }

  /** The addresses of all packages of the forest `ps`, listed in pre-order. */
  function PreOrder(ps: seq<Package>): seq<seq<nat>>
    decreases ps
  {
    if ps == [] then []
    else [[0]] + Cons(0, PreOrder(ps[0].packages)) + Shift(PreOrder(ps[1..]))
  }

  /** The pre-order of a non-empty forest: the first tree's root, its subtree (addresses
      prefixed with 0), then the other trees (first position shifted). */
  lemma PreOrderSize(ps: seq<Package>)
    requires ps != []
    ensures |PreOrder(ps)| == 1 + |PreOrder(ps[0].packages)| + |PreOrder(ps[1..])|
    ensures PreOrder(ps)[0] == [0]
  {
  }

  lemma PreOrderSub(ps: seq<Package>, k: nat)
    requires ps != [] && k < |PreOrder(ps[0].packages)|
    ensures 1 + k < |PreOrder(ps)|
    ensures PreOrder(ps)[1 + k] == [0] + PreOrder(ps[0].packages)[k]
  {
    var c := Cons(0, PreOrder(ps[0].packages));
    var A := [[0]] + c + Shift(PreOrder(ps[1..]));
    assert PreOrder(ps) == A;
    assert A[1 + k] == c[k];
  }

  lemma PreOrderRest(ps: seq<Package>, j: nat)
    requires ps != [] && j < |PreOrder(ps[1..])|
    ensures 1 + |PreOrder(ps[0].packages)| + j < |PreOrder(ps)|
    ensures var b := PreOrder(ps[1..])[j];
            b != [] && PreOrder(ps)[1 + |PreOrder(ps[0].packages)| + j] == [b[0] + 1] + b[1..]
  {
    var A1 := PreOrder(ps[1..]);
    var front := [[0]] + Cons(0, PreOrder(ps[0].packages));
    IndexAfter(front, Shift(A1), j);
    PreOrderValid(ps[1..]);
    ShiftAt(A1, j);
  }

  lemma ShiftAt(addrs: seq<seq<nat>>, j: nat)
    requires j < |addrs| && addrs[j] != []
    ensures Shift(addrs)[j] == [addrs[j][0] + 1] + addrs[j][1..]
  {
  }

  lemma IndexAfter<T>(front: seq<T>, back: seq<T>, j: nat)
    requires j < |back|
    ensures (front + back)[|front| + j] == back[j]
  {
  }

  /** An address in the first tree's subtree, seen from the whole forest. */
  lemma ConsAddr(ps: seq<Package>, b: seq<nat>)
    requires ps != [] && ValidIn(ps[0].packages, b)
    ensures ValidIn(ps, [0] + b)
    ensures NodeIn(ps, [0] + b) == NodeIn(ps[0].packages, b)
    ensures NamesIn(ps, [0] + b) == [ps[0].name] + NamesIn(ps[0].packages, b)
  {
    assert ([0] + b)[1..] == b;
  }

  /** An address in the other trees, seen from the whole forest. */
  lemma ShiftAddr(ps: seq<Package>, b: seq<nat>)
    requires ps != [] && ValidIn(ps[1..], b)
    ensures ValidIn(ps, [b[0] + 1] + b[1..])
    ensures NodeIn(ps, [b[0] + 1] + b[1..]) == NodeIn(ps[1..], b)
    ensures NamesIn(ps, [b[0] + 1] + b[1..]) == NamesIn(ps[1..], b)
  {
    var a := [b[0] + 1] + b[1..];
    assert a[0] == b[0] + 1 && a[1..] == b[1..];
    assert ps[1..][b[0]] == ps[b[0] + 1];
  }

  lemma {:induction false} PreOrderValid(ps: seq<Package>)
    ensures forall k | 0 <= k < |PreOrder(ps)| :: ValidIn(ps, PreOrder(ps)[k])
    decreases ps
  {
    if ps != [] {
      PreOrderValid(ps[0].packages);
      PreOrderValid(ps[1..]);
      PreOrderSize(ps);
      var A0 := PreOrder(ps[0].packages);
      var A1 := PreOrder(ps[1..]);
      var A := PreOrder(ps);
      forall k | 0 <= k < |A| ensures ValidIn(ps, A[k]) {
        if k == 0 {
        } else if k <= |A0| {
          PreOrderSub(ps, k - 1);
          ConsAddr(ps, A0[k - 1]);
        } else {
          PreOrderRest(ps, k - 1 - |A0|);
          ShiftAddr(ps, A1[k - 1 - |A0|]);
        }
      }
    }
  }

  /** Every address of the forest is listed by its pre-order, at the returned position. */
  lemma {:induction false} PreOrderIndex(ps: seq<Package>, a: seq<nat>) returns (k: nat)
    requires ValidIn(ps, a)
    ensures k < |PreOrder(ps)| && PreOrder(ps)[k] == a
    decreases ps
  {
    if a[0] == 0 {
      if |a| == 1 {
        PreOrderSize(ps);
        assert a == [0];
        k := 0;
      } else {
        var k0 := PreOrderIndex(ps[0].packages, a[1..]);
        PreOrderSub(ps, k0);
        assert [0] + a[1..] == a;
        k := 1 + k0;
      }
    } else {
      var b := [a[0] - 1] + a[1..];
      assert ValidIn(ps[1..], b) by {
        assert ps[1..][b[0]] == ps[a[0]];
        assert b[1..] == a[1..];
      }
      var j := PreOrderIndex(ps[1..], b);
      PreOrderRest(ps, j);
      assert [b[0] + 1] + b[1..] == a;
      k := 1 + |PreOrder(ps[0].packages)| + j;
    }
  }

  lemma PreOrderComplete(ps: seq<Package>, a: seq<nat>)
    requires ValidIn(ps, a)
    ensures a in PreOrder(ps)
  {
    var k := PreOrderIndex(ps, a);
    InAt(PreOrder(ps), k, a);
  }

  lemma InAt<T>(s: seq<T>, i: nat, x: T)
    requires i < |s| && s[i] == x
    ensures x in s
  {
  }

  lemma ConsBefore(i: nat, a: seq<nat>, b: seq<nat>)
    requires PreOrderBefore(a, b)
    ensures PreOrderBefore([i] + a, [i] + b)
  {
    assert ([i] + a)[1..] == a && ([i] + b)[1..] == b;
  }

  lemma ShiftBefore(a: seq<nat>, b: seq<nat>)
    requires a != [] && b != [] && PreOrderBefore(a, b)
    ensures PreOrderBefore([a[0] + 1] + a[1..], [b[0] + 1] + b[1..])
  {
    assert ([a[0] + 1] + a[1..])[1..] == a[1..];
    assert ([b[0] + 1] + b[1..])[1..] == b[1..];
  }

  lemma {:induction false} PreOrderSorted(ps: seq<Package>)
    ensures forall k | 0 <= k < |PreOrder(ps)| - 1 :: PreOrderBefore(PreOrder(ps)[k], PreOrder(ps)[k + 1])
    decreases ps
  {
    if ps != [] {
      PreOrderSorted(ps[0].packages);
      PreOrderSorted(ps[1..]);
      PreOrderSize(ps);
      var A0 := PreOrder(ps[0].packages);
      var A1 := PreOrder(ps[1..]);
      var A := PreOrder(ps);
      forall k | 0 <= k < |A| - 1 ensures PreOrderBefore(A[k], A[k + 1]) {
        if k == 0 {
          if |A0| > 0 {
            PreOrderSub(ps, 0);
          } else {
            PreOrderRest(ps, 0);
          }
        } else if k < |A0| {
          PreOrderSub(ps, k - 1);
          PreOrderSub(ps, k);
          ConsBefore(0, A0[k - 1], A0[k]);
        } else if k == |A0| {
          PreOrderSub(ps, k - 1);
          PreOrderRest(ps, 0);
        } else {
          var j := k - 1 - |A0|;
          PreOrderRest(ps, j);
          PreOrderRest(ps, j + 1);
          ShiftBefore(A1[j], A1[j + 1]);
        }
      }
    }
  }

  /** The package walk of a non-empty forest, in the same three parts as its pre-order. */
  lemma PackagesUnderSize(ps: seq<Package>, path: string)
    requires ps != []
    ensures var here := path + "/" + ps[0].name;
            && |PackagesUnder(ps, path)|
               == 1 + |PackagesUnder(ps[0].packages, here)| + |PackagesUnder(ps[1..], path)|
            && PackagesUnder(ps, path)[0] == IndexedPackage(ps[0], here)
  {
  }

  lemma PackagesUnderSub(ps: seq<Package>, path: string, k: nat)
    requires ps != [] && k < |PackagesUnder(ps[0].packages, path + "/" + ps[0].name)|
    ensures var W0 := PackagesUnder(ps[0].packages, path + "/" + ps[0].name);
            1 + k < |PackagesUnder(ps, path)| && PackagesUnder(ps, path)[1 + k] == W0[k]
  {
    var here := path + "/" + ps[0].name;
    var W0 := PackagesUnder(ps[0].packages, here);
    var W := [IndexedPackage(ps[0], here)] + W0 + PackagesUnder(ps[1..], path);
    assert PackagesUnder(ps, path) == W;
    assert W[1 + k] == W0[k];
  }

  lemma PackagesUnderRest(ps: seq<Package>, path: string, j: nat)
    requires ps != [] && j < |PackagesUnder(ps[1..], path)|
    ensures var n0 := |PackagesUnder(ps[0].packages, path + "/" + ps[0].name)|;
            1 + n0 + j < |PackagesUnder(ps, path)|
            && PackagesUnder(ps, path)[1 + n0 + j] == PackagesUnder(ps[1..], path)[j]
  {
    var here := path + "/" + ps[0].name;
    var front := [IndexedPackage(ps[0], here)] + PackagesUnder(ps[0].packages, here);
    IndexAfter(front, PackagesUnder(ps[1..], path), j);
  }

  /** Entry `k` of the walk over `ps` is the package at the `k`-th pre-order address, routed
      by the names along that address. */
  lemma {:induction false} PackagesUnderAt(ps: seq<Package>, path: string)
    ensures |PackagesUnder(ps, path)| == |PreOrder(ps)|
    ensures forall k | 0 <= k < |PreOrder(ps)| ::
              ValidIn(ps, PreOrder(ps)[k])
              && PackagesUnder(ps, path)[k]
                 == IndexedPackage(NodeIn(ps, PreOrder(ps)[k]), path + Route(NamesIn(ps, PreOrder(ps)[k])))
    decreases ps
  {
    PreOrderValid(ps);
    if ps != [] {
      var here := path + "/" + ps[0].name;
      PackagesUnderAt(ps[0].packages, here);
      PackagesUnderAt(ps[1..], path);
      PreOrderSize(ps);
      PackagesUnderSize(ps, path);
      var A0 := PreOrder(ps[0].packages);
      var A1 := PreOrder(ps[1..]);
      var A := PreOrder(ps);
      var W := PackagesUnder(ps, path);
      forall k | 0 <= k < |A|
        ensures W[k] == IndexedPackage(NodeIn(ps, A[k]), path + Route(NamesIn(ps, A[k])))
      {
        if k == 0 {
          FirstAddr(ps, path);
        } else if k <= |A0| {
          var b := A0[k - 1];
          PreOrderSub(ps, k - 1);
          PackagesUnderSub(ps, path, k - 1);
          ConsAddr(ps, b);
          RouteCons(path, ps[0].name, NamesIn(ps[0].packages, b));
        } else {
          var j := k - 1 - |A0|;
          PreOrderRest(ps, j);
          PackagesUnderRest(ps, path, j);
          ShiftAddr(ps, A1[j]);
        }
      }
    }
  }

  lemma FirstAddr(ps: seq<Package>, path: string)
    requires ps != []
    ensures ValidIn(ps, [0]) && NodeIn(ps, [0]) == ps[0]
    ensures path + Route(NamesIn(ps, [0])) == path + "/" + ps[0].name
  {
    var a: seq<nat> := [0];
    assert a[1..] == [];
    assert NamesIn(ps, a) == [ps[0].name] + [];
    RouteCons(path, ps[0].name, []);
    assert (path + "/" + ps[0].name) + Route([]) == path + "/" + ps[0].name;
  }

  lemma RootForest(root: Package, a: seq<nat>)
    ensures ValidIn(root.packages, a) <==> a != [] && ValidAddr(root, a)
    ensures ValidIn(root.packages, a) ==> NodeIn(root.packages, a) == At(root, a)
    ensures ValidIn(root.packages, a) ==> NamesIn(root.packages, a) == NamesAlong(root, a)
  {
  }

  /** `getAllPackages` lists exactly the packages nested in the root (the root itself has the
      empty address and is not listed), in pre-order, each routed `/a/b` by the names along
      its address; when the root has modules of its own, one `/Default` entry follows last. */
  lemma AllPackagesCatalogue(root: Package)
    ensures var A := PreOrder(root.packages);
            |AllPackages(root)| == |A| + (if |root.modules| > 0 then 1 else 0)
    ensures var A := PreOrder(root.packages);
            forall k | 0 <= k < |A| ::
              A[k] != [] && ValidAddr(root, A[k])
              && AllPackages(root)[k] == IndexedPackage(At(root, A[k]), Route(NamesAlong(root, A[k])))
    ensures forall a: seq<nat> | a != [] && ValidAddr(root, a) :: a in PreOrder(root.packages)
    ensures var A := PreOrder(root.packages);
            forall k | 0 <= k < |A| - 1 :: PreOrderBefore(A[k], A[k + 1])
    ensures |root.modules| > 0 ==>
              AllPackages(root)[|AllPackages(root)| - 1] == IndexedPackage(DefaultPackage(root), "/Default")
  {
    var A := PreOrder(root.packages);
    PackagesUnderAt(root.packages, "");
    PreOrderSorted(root.packages);
    forall k | 0 <= k < |A|
      ensures A[k] != [] && ValidAddr(root, A[k])
      ensures AllPackages(root)[k] == IndexedPackage(At(root, A[k]), Route(NamesAlong(root, A[k])))
    {
      RootForest(root, A[k]);
      assert AllPackages(root)[k] == PackagesUnder(root.packages, "")[k];
      assert "" + Route(NamesIn(root.packages, A[k])) == Route(NamesIn(root.packages, A[k]));
    }
    forall a: seq<nat> | a != [] && ValidAddr(root, a) ensures a in A {
      RootForest(root, a);
      PreOrderComplete(root.packages, a);
    }
  }

  /** The module entries of the packages at `addrs` of the forest `ps`, one group per package. */
  function GroupsAt(ps: seq<Package>, addrs: seq<seq<nat>>, path: string): (g: seq<seq<IndexedModule>>)
    ensures |g| == |addrs|
    ensures forall k | 0 <= k < |addrs| && ValidIn(ps, addrs[k]) ::
              g[k] == ModuleEntries(NodeIn(ps, addrs[k]).modules, path + Route(NamesIn(ps, addrs[k])))
  {
    seq(|addrs|, k requires 0 <= k < |addrs| =>
          if ValidIn(ps, addrs[k])
          then ModuleEntries(NodeIn(ps, addrs[k]).modules, path + Route(NamesIn(ps, addrs[k])))
          else [])
  }

  /** The module walk under `ps` is the concatenation, in pre-order of their packages, of each
      package's module entries. */
  lemma {:induction false} ModulesUnderGroups(ps: seq<Package>, path: string)
    ensures forall k | 0 <= k < |PreOrder(ps)| :: ValidIn(ps, PreOrder(ps)[k])
    ensures ModulesUnder(ps, path) == Flatten(GroupsAt(ps, PreOrder(ps), path))
    decreases ps
  {
    PreOrderValid(ps);
    if ps != [] {
      var here := path + "/" + ps[0].name;
      ModulesUnderGroups(ps[0].packages, here);
      ModulesUnderGroups(ps[1..], path);
      var A0 := PreOrder(ps[0].packages);
      var A1 := PreOrder(ps[1..]);
      var first: seq<seq<nat>> := [[0]];
      var c := Cons(0, A0);
      var sh := Shift(A1);
      assert PreOrder(ps) == first + c + sh;
      GroupsFirst(ps, path);
      GroupsCons(ps, A0, path);
      GroupsShift(ps, A1, path);
      var g0 := ModuleEntries(ps[0].modules, here);
      var Gc := GroupsAt(ps[0].packages, A0, here);
      var Gs := GroupsAt(ps[1..], A1, path);
      GroupsAppend(ps, first + c, sh, path);
      GroupsAppend(ps, first, c, path);
      assert GroupsAt(ps, PreOrder(ps), path) == [g0] + Gc + Gs;
      FlattenAppend([g0] + Gc, Gs);
      FlattenAppend([g0], Gc);
      assert Flatten([g0]) == g0;
    }
  }

  lemma GroupsFirst(ps: seq<Package>, path: string)
    requires ps != []
    ensures ValidIn(ps, [0])
    ensures GroupsAt(ps, [[0]], path) == [ModuleEntries(ps[0].modules, path + "/" + ps[0].name)]
  {
    var a: seq<nat> := [0];
    assert a[1..] == [];
    assert NamesIn(ps, a) == [ps[0].name];
    RouteCons(path, ps[0].name, []);
    assert [ps[0].name] + [] == [ps[0].name];
    assert NodeIn(ps, a) == ps[0];
    assert (path + "/" + ps[0].name) + Route([]) == path + "/" + ps[0].name;
    assert GroupsAt(ps, [a], path)[0] == ModuleEntries(ps[0].modules, path + "/" + ps[0].name);
  }

  /** Appending the route of `[n] + rest` to `path` is appending `/n`, then the route of `rest`. */
  lemma RouteCons(path: string, n: string, rest: seq<string>)
    ensures path + Route([n] + rest) == (path + "/" + n) + Route(rest)
  {
    assert ([n] + rest)[1..] == rest;
  }

  lemma GroupsCons(ps: seq<Package>, addrs: seq<seq<nat>>, path: string)
    requires ps != []
    requires forall k | 0 <= k < |addrs| :: ValidIn(ps[0].packages, addrs[k])
    ensures forall k | 0 <= k < |addrs| :: ValidIn(ps, Cons(0, addrs)[k])
    ensures GroupsAt(ps, Cons(0, addrs), path) == GroupsAt(ps[0].packages, addrs, path + "/" + ps[0].name)
  {
    var c := Cons(0, addrs);
    forall k | 0 <= k < |addrs| ensures ValidIn(ps, c[k]) {
      assert c[k][1..] == addrs[k];
    }
    forall k | 0 <= k < |addrs|
      ensures GroupsAt(ps, c, path)[k] == GroupsAt(ps[0].packages, addrs, path + "/" + ps[0].name)[k]
    {
      var b := addrs[k];
      assert c[k][1..] == b;
      assert NodeIn(ps, c[k]) == NodeIn(ps[0].packages, b);
      assert NamesIn(ps, c[k]) == [ps[0].name] + NamesIn(ps[0].packages, b);
      RouteCons(path, ps[0].name, NamesIn(ps[0].packages, b));
    }
  }

  lemma GroupsShift(ps: seq<Package>, addrs: seq<seq<nat>>, path: string)
    requires ps != []
    requires forall k | 0 <= k < |addrs| :: addrs[k] != [] && ValidIn(ps[1..], addrs[k])
    ensures forall k | 0 <= k < |addrs| :: ValidIn(ps, Shift(addrs)[k])
    ensures GroupsAt(ps, Shift(addrs), path) == GroupsAt(ps[1..], addrs, path)
  {
    var sh := Shift(addrs);
    forall k | 0 <= k < |addrs| ensures ValidIn(ps, sh[k]) {
      assert ps[1..][addrs[k][0]] == ps[addrs[k][0] + 1];
    }
    forall k | 0 <= k < |addrs| ensures GroupsAt(ps, sh, path)[k] == GroupsAt(ps[1..], addrs, path)[k] {
      var b := addrs[k];
      assert ps[1..][b[0]] == ps[b[0] + 1];
      assert NodeIn(ps, sh[k]) == NodeIn(ps[1..], b);
      assert NamesIn(ps, sh[k]) == NamesIn(ps[1..], b);
    }
  }

  lemma GroupsAppend(ps: seq<Package>, x: seq<seq<nat>>, y: seq<seq<nat>>, path: string)
    requires forall k | 0 <= k < |x| :: ValidIn(ps, x[k])
    requires forall k | 0 <= k < |y| :: ValidIn(ps, y[k])
    ensures forall k | 0 <= k < |x + y| :: ValidIn(ps, (x + y)[k])
    ensures GroupsAt(ps, x + y, path) == GroupsAt(ps, x, path) + GroupsAt(ps, y, path)
  {
    assert forall k | 0 <= k < |x + y| :: (x + y)[k] == if k < |x| then x[k] else y[k - |x|];
  }

  /** The module entries of the packages at the root addresses `addrs`, one group each. */
  function ModulesOfNodes(root: Package, addrs: seq<seq<nat>>): (g: seq<seq<IndexedModule>>)
    ensures |g| == |addrs|
    ensures forall k | 0 <= k < |addrs| && ValidAddr(root, addrs[k]) ::
              g[k] == ModuleEntries(At(root, addrs[k]).modules, Route(NamesAlong(root, addrs[k])))
  {
    seq(|addrs|, k requires 0 <= k < |addrs| =>
          if ValidAddr(root, addrs[k])
          then ModuleEntries(At(root, addrs[k]).modules, Route(NamesAlong(root, addrs[k])))
          else [])
  }

  /** `getAllModules` visits the packages in the same pre-order as `getAllPackages`, starting
      with the root (empty address), and for each lists its modules in declaration order, each
      routed `route#name` where `route` is the package's `/a/b` route (empty for the root).
      So a package's modules precede the modules of the packages nested in it. */
  lemma AllModulesCatalogue(root: Package)
    ensures forall k | 0 <= k < |PreOrder(root.packages)| :: ValidAddr(root, PreOrder(root.packages)[k])
    ensures AllModules(root) == Flatten(ModulesOfNodes(root, [[]] + PreOrder(root.packages)))
  {
    var A := PreOrder(root.packages);
    ModulesUnderGroups(root.packages, "");
    forall k | 0 <= k < |A| ensures ValidAddr(root, A[k]) {
      RootForest(root, A[k]);
    }
    RootGroups(root);
    var F := GroupsAt(root.packages, A, "");
    FlattenAppend([ModuleEntries(root.modules, "")], F);
    assert Flatten([ModuleEntries(root.modules, "")]) == ModuleEntries(root.modules, "");
  }

  lemma RootGroups(root: Package)
    requires forall k | 0 <= k < |PreOrder(root.packages)| :: ValidIn(root.packages, PreOrder(root.packages)[k])
    requires forall k | 0 <= k < |PreOrder(root.packages)| :: ValidAddr(root, PreOrder(root.packages)[k])
    ensures ModulesOfNodes(root, [[]] + PreOrder(root.packages))
            == [ModuleEntries(root.modules, "")] + GroupsAt(root.packages, PreOrder(root.packages), "")
  {
    var A := PreOrder(root.packages);
    var empty: seq<nat> := [];
    var addrs := [empty] + A;
    var G := ModulesOfNodes(root, addrs);
    var F := GroupsAt(root.packages, A, "");
    assert G[0] == ModuleEntries(root.modules, "") by {
      assert addrs[0] == empty;
      assert NamesAlong(root, empty) == [];
    }
    forall k | 0 <= k < |A| ensures G[k + 1] == F[k] {
      RootGroupAt(root, A, k);
    }
    assert G == [G[0]] + G[1..];
  }

  lemma RootGroupAt(root: Package, A: seq<seq<nat>>, k: nat)
    requires k < |A| && ValidIn(root.packages, A[k])
    ensures ModulesOfNodes(root, [[]] + A)[k + 1] == GroupsAt(root.packages, A, "")[k]
  {
    var empty: seq<nat> := [];
    var addrs := [empty] + A;
    assert addrs[k + 1] == A[k];
    RootForest(root, A[k]);
    assert "" + Route(NamesIn(root.packages, A[k])) == Route(NamesIn(root.packages, A[k]));
  }

  /** Number of modules in the forest `ps`, all depths. */
  function ForestModuleCount(ps: seq<Package>): nat
    decreases ps
  {
    if ps == [] then 0 else |ps[0].modules| + ForestModuleCount(ps[0].packages) + ForestModuleCount(ps[1..])
  }

  /** Number of modules in the whole tree: the root's own and every nested package's. */
  function TotalModules(root: Package): nat {
    |root.modules| + ForestModuleCount(root.packages)
  }

  lemma {:induction false} ModulesUnderLength(ps: seq<Package>, path: string)
    ensures |ModulesUnder(ps, path)| == ForestModuleCount(ps)
    decreases ps
  {
    if ps != [] {
      ModulesUnderLength(ps[0].packages, path + "/" + ps[0].name);
      ModulesUnderLength(ps[1..], path);
    }
  }

  /** `getAllModules` has one entry per module of the tree: none dropped, none repeated. */
  lemma AllModulesLength(root: Package)
    ensures |AllModules(root)| == TotalModules(root)
  {
    ModulesUnderLength(root.packages, "");
  }
}
