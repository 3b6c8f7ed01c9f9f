/** The insertion-ordered JavaScript `Map` used by the indexer, as a list of key/value
    entries. `Put` is `map.set(k, v)`: a new key is appended at the end, an existing key keeps
    its position and has its value replaced. `FromPairs` is a `forEach` loop of `set` calls. */
module OrderedMap {
  import opened Wrappers
  import opened Seqs

  function Keys<K, V>(m: seq<(K, V)>): (ks: seq<K>)
    ensures |ks| == |m|
    ensures forall i | 0 <= i < |m| :: ks[i] == m[i].0
    decreases |m|
  {
    if m == [] then [] else [m[0].0] + Keys(m[1..])
  }

  /** `map.get(k)`: the value of the first entry with key `k`. */
  function Get<K(==), V>(m: seq<(K, V)>, k: K): (r: Option<V>)
    ensures r.None? <==> k !in Keys(m)
    ensures r.Some? ==> exists i :: 0 <= i < |m| && m[i] == (k, r.value)
    decreases |m|
  {
    if m == [] then None
    else if m[0].0 == k then Some(m[0].1)
    else
      var r := Get(m[1..], k);
      assert Keys(m) == [m[0].0] + Keys(m[1..]);
      assert r.Some? ==> exists i :: 0 <= i < |m| && m[i] == (k, r.value) by {
        if r.Some? {
          var i :| 0 <= i < |m[1..]| && m[1..][i] == (k, r.value);
          assert m[i + 1] == (k, r.value);
        }
      }
      r
  }

  /** `map.set(k, v)`. */
  function Put<K(==), V>(m: seq<(K, V)>, k: K, v: V): (r: seq<(K, V)>)
    ensures Keys(r) == if k in Keys(m) then Keys(m) else Keys(m) + [k]
    ensures forall i | 0 <= i < |m| && m[i].0 != k :: r[i] == m[i]
    decreases |m|
  {
    if m == [] then [(k, v)]
    else if m[0].0 == k then
      var r := [(k, v)] + m[1..];
      assert Keys(r) == Keys(m);
      r
    else
      var tail := Put(m[1..], k, v);
      assert Keys(m) == [m[0].0] + Keys(m[1..]);
      assert Keys([m[0]] + tail) == [m[0].0] + Keys(tail);
      [m[0]] + tail
  }

  lemma PutDistinct<K, V>(m: seq<(K, V)>, k: K, v: V)
    requires Distinct(Keys(m))
    ensures Distinct(Keys(Put(m, k, v)))
  {
    var ks := Keys(m);
    if k !in ks {
      var r := ks + [k];
      assert Keys(Put(m, k, v)) == r;
      forall i, j | 0 <= i < j < |r| ensures r[i] != r[j] {
        assert r[i] == ks[i];
        if j < |ks| {
          assert r[j] == ks[j];
        }
      }
    }
  }

  lemma PutKeys<K, V>(m: seq<(K, V)>, k: K, v: V, x: K)
    ensures x in Keys(Put(m, k, v)) <==> x in Keys(m) || x == k
  {
    if k !in Keys(m) {
      assert Keys(Put(m, k, v)) == Keys(m) + [k];
    }
  }

  /** The value of the last entry of `ps` whose key is `k`. */
  function LastValue<K(==), V>(ps: seq<(K, V)>, k: K): (r: Option<V>)
    ensures r.None? <==> k !in Keys(ps)
    ensures r.Some? ==> exists i :: 0 <= i < |ps| && ps[i] == (k, r.value)
                                   && forall j | i < j < |ps| :: ps[j].0 != k
    decreases |ps|
  {
    if ps == [] then None
    else
      var n := |ps| - 1;
      KeysSnoc(ps);
      if ps[n].0 == k then
        assert ps[n] == (k, ps[n].1);
        Some(ps[n].1)
      else
        var r := LastValue(ps[..n], k);
        assert r.Some? ==> exists i :: 0 <= i < |ps| && ps[i] == (k, r.value)
                                       && forall j | i < j < |ps| :: ps[j].0 != k by {
          if r.Some? {
            var i :| 0 <= i < n && ps[..n][i] == (k, r.value)
                     && forall j | i < j < n :: ps[..n][j].0 != k;
            forall j | i < j < |ps| ensures ps[j].0 != k {
              if j < n {
                assert ps[j] == ps[..n][j];
              }
            }
            assert ps[i] == (k, r.value);
          }
        }
        r
  }

  lemma LastValueSnoc<K, V>(ps: seq<(K, V)>, p: (K, V), k: K)
    ensures LastValue(ps + [p], k) == if p.0 == k then Some(p.1) else LastValue(ps, k)
  {
    assert (ps + [p])[..|ps|] == ps;
  }

  /** The pairs `(key(x), val(x))` of the elements `x` of `xs` that satisfy `keep`, in order. */
  function SelectPairs<T, K, V>(xs: seq<T>, keep: T -> bool, key: T -> K, val: T -> V): (r: seq<(K, V)>)
    decreases |xs|
  {
    if xs == [] then []
    else
      var n := |xs| - 1;
      SelectPairs(xs[..n], keep, key, val) + (if keep(xs[n]) then [(key(xs[n]), val(xs[n]))] else [])
  }

  /** `xs[j]` is the last element of `xs` that is kept and has key `k`. */
  predicate LastKeptAt<T, K(==)>(xs: seq<T>, keep: T -> bool, key: T -> K, k: K, j: int) {
    0 <= j < |xs| && keep(xs[j]) && key(xs[j]) == k
    && forall j' | j < j' < |xs| :: !(keep(xs[j']) && key(xs[j']) == k)
  }

  /** Key `k` occurs among the selected pairs iff some kept element has that key. */
  lemma {:induction false} SelectPairsKeys<T, K, V>(xs: seq<T>, keep: T -> bool, key: T -> K, val: T -> V, k: K)
    ensures k in Keys(SelectPairs(xs, keep, key, val)) <==>
              exists j :: 0 <= j < |xs| && keep(xs[j]) && key(xs[j]) == k
    decreases |xs|
  {
    if xs != [] {
      var n := |xs| - 1;
      var pre := xs[..n];
      SelectPairsKeys(pre, keep, key, val, k);
      var S := SelectPairs(pre, keep, key, val);
      var last := if keep(xs[n]) then [(key(xs[n]), val(xs[n]))] else [];
      assert Keys(S + last) == Keys(S) + Keys(last);
      if exists j :: 0 <= j < |pre| && keep(pre[j]) && key(pre[j]) == k {
        var j :| 0 <= j < |pre| && keep(pre[j]) && key(pre[j]) == k;
        assert xs[j] == pre[j];
      }
      if exists j :: 0 <= j < |xs| && keep(xs[j]) && key(xs[j]) == k {
        var j :| 0 <= j < |xs| && keep(xs[j]) && key(xs[j]) == k;
        if j < n {
          assert xs[j] == pre[j];
        }
      }
    }
  }

  /** The last pair with key `k` among the selected pairs comes from the LAST kept element with
      that key. */
  lemma {:induction false} SelectPairsLast<T, K, V>(xs: seq<T>, keep: T -> bool, key: T -> K, val: T -> V, k: K)
    requires LastValue(SelectPairs(xs, keep, key, val), k).Some?
    ensures exists j :: LastKeptAt(xs, keep, key, k, j)
                        && LastValue(SelectPairs(xs, keep, key, val), k).value == val(xs[j])
    decreases |xs|
  {
    var n := |xs| - 1;
    var pre := xs[..n];
    var S := SelectPairs(pre, keep, key, val);
    if keep(xs[n]) {
      LastValueSnoc(S, (key(xs[n]), val(xs[n])), k);
    } else {
      assert SelectPairs(xs, keep, key, val) == S;
    }
    if keep(xs[n]) && key(xs[n]) == k {
      assert LastKeptAt(xs, keep, key, k, n);
    } else {
      SelectPairsLast(pre, keep, key, val, k);
      var j :| LastKeptAt(pre, keep, key, k, j) && LastValue(S, k).value == val(pre[j]);
      assert xs[j] == pre[j];
      forall j' | j < j' < |xs| ensures !(keep(xs[j']) && key(xs[j']) == k) {
        if j' < n {
          assert xs[j'] == pre[j'];
        }
      }
      assert LastKeptAt(xs, keep, key, k, j);
    }
  }

  /** A `forEach` over `ps` that calls `map.set` on an initially empty map. */
  function FromPairs<K(==), V>(ps: seq<(K, V)>): (m: seq<(K, V)>)
    decreases |ps|
  {
    if ps == [] then []
    else
      var n := |ps| - 1;
      Put(FromPairs(ps[..n]), ps[n].0, ps[n].1)
  }

  /** The map built from `ps` has one entry per distinct key of `ps`. */
  lemma {:induction false} FromPairsKeys<K, V>(ps: seq<(K, V)>)
    ensures Distinct(Keys(FromPairs(ps)))
    ensures forall k :: k in Keys(FromPairs(ps)) <==> k in Keys(ps)
    decreases |ps|
  {
    if ps != [] {
      var n := |ps| - 1;
      var m := FromPairs(ps[..n]);
      FromPairsKeys(ps[..n]);
      KeysSnoc(ps);
      PutDistinct(m, ps[n].0, ps[n].1);
      forall x ensures x in Keys(FromPairs(ps)) <==> x in Keys(ps) {
        PutKeys(m, ps[n].0, ps[n].1, x);
      }
    }
  }

  /** Each key holds the value of the LAST pair of `ps` with that key. */
  lemma {:induction false} FromPairsGet<K, V>(ps: seq<(K, V)>, k: K)
    ensures Get(FromPairs(ps), k) == LastValue(ps, k)
    decreases |ps|
  {
    if ps != [] {
      var n := |ps| - 1;
      FromPairsGet(ps[..n], k);
      PutGet(FromPairs(ps[..n]), ps[n].0, ps[n].1, k);
    }
  }

  /** Keys stand in the order of their FIRST occurrence in `ps`. */
  lemma {:induction false} FromPairsOrder<K, V>(ps: seq<(K, V)>)
    ensures forall i | 0 <= i < |FromPairs(ps)| - 1 ::
              FirstBefore(Keys(ps), FromPairs(ps)[i].0, FromPairs(ps)[i + 1].0)
    decreases |ps|
  {
    if ps != [] {
      var n := |ps| - 1;
      var pre := ps[..n];
      var m := FromPairs(pre);
      assert forall i | 0 <= i < |m| - 1 :: FirstBefore(Keys(pre), m[i].0, m[i + 1].0) by {
        FromPairsOrder(pre);
      }
      assert forall x :: x in Keys(m) <==> x in Keys(pre) by {
        FromPairsKeys(pre);
      }
      KeysSnoc(ps);
      PutOrder(m, Keys(pre), ps[n].0, ps[n].1, FromPairs(ps), Keys(ps));
    }
  }

  lemma KeysSnoc<K, V>(ps: seq<(K, V)>)
    requires ps != []
    ensures Keys(ps) == Keys(ps[..|ps| - 1]) + [ps[|ps| - 1].0]
  {
  }

  /** `set` keeps adjacent keys in first-occurrence order. */
  lemma PutOrder<K, V>(m: seq<(K, V)>, ks: seq<K>, k: K, v: V, r: seq<(K, V)>, ks': seq<K>)
    requires forall i | 0 <= i < |m| - 1 :: FirstBefore(ks, m[i].0, m[i + 1].0)
    requires forall x :: x in Keys(m) <==> x in ks
    requires r == Put(m, k, v) && ks' == ks + [k]
    ensures forall i | 0 <= i < |r| - 1 :: FirstBefore(ks', r[i].0, r[i + 1].0)
  {
    forall i | 0 <= i < |r| - 1 ensures FirstBefore(ks', r[i].0, r[i + 1].0) {
      PutOrderAt(m, ks, k, v, i);
    }
  }

  lemma PutOrderAt<K, V>(m: seq<(K, V)>, ks: seq<K>, k: K, v: V, i: nat)
    requires forall i | 0 <= i < |m| - 1 :: FirstBefore(ks, m[i].0, m[i + 1].0)
    requires forall x :: x in Keys(m) <==> x in ks
    requires i + 1 < |Put(m, k, v)|
    ensures FirstBefore(ks + [k], Put(m, k, v)[i].0, Put(m, k, v)[i + 1].0)
  {
    PutKeyAt(m, k, v, i);
    PutKeyAt(m, k, v, i + 1);
    if i + 1 < |m| {
      FirstBeforeAppend(ks, [k], m[i].0, m[i + 1].0);
    } else {
      assert |Keys(Put(m, k, v))| == |Keys(m)| + 1;
      assert Keys(m)[i] == m[i].0;
      FirstBeforeNew(ks, m[i].0, k);
    }
  }

  lemma FirstBeforeAppend<T>(s: seq<T>, t: seq<T>, x: T, y: T)
    requires FirstBefore(s, x, y)
    ensures FirstBefore(s + t, x, y)
  {
    FirstIndexAppend(s, t, x);
    FirstIndexAppend(s, t, y);
  }

  lemma FirstBeforeNew<T>(s: seq<T>, x: T, y: T)
    requires x in s && y !in s
    ensures FirstBefore(s + [y], x, y)
  {
    FirstIndexAppend(s, [y], x);
    assert (s + [y])[|s|] == y;
  }

  lemma {:induction false} PutKeyAt<K, V>(m: seq<(K, V)>, k: K, v: V, i: nat)
    requires i < |Put(m, k, v)|
    ensures Put(m, k, v)[i].0 == if i < |m| then m[i].0 else k
    decreases |m|
  {
    if m != [] && m[0].0 != k && i > 0 {
      PutKeyAt(m[1..], k, v, i - 1);
    }
  }

  /** Both occur in `s`, and the first occurrence of `x` precedes that of `y`. */
  predicate FirstBefore<T(==)>(s: seq<T>, x: T, y: T) {
    x in s && y in s && FirstIndex(s, x) < FirstIndex(s, y)
  }

  /** After `map.set(k, v)`, `get(k)` yields `v` and every other key reads as before. */
  lemma {:induction false} PutGet<K, V>(m: seq<(K, V)>, k: K, v: V, k': K)
    ensures Get(Put(m, k, v), k') == if k' == k then Some(v) else Get(m, k')
    decreases |m|
  {
    if m != [] && m[0].0 != k {
      PutGet(m[1..], k, v, k');
    }
  }

  lemma {:induction false} FirstIndexAppend<T>(s: seq<T>, t: seq<T>, x: T)
    requires x in s
    ensures FirstIndex(s + t, x) == FirstIndex(s, x)
    decreases |s|
  {
    if s[0] != x {
      assert (s + t)[1..] == s[1..] + t;
      FirstIndexAppend(s[1..], t, x);
    }
  }

  /** With no key twice, every entry is what `get` finds under its key. */
  lemma {:induction false} GetDistinct<K, V>(m: seq<(K, V)>, i: nat)
    requires i < |m|
    requires Distinct(Keys(m))
    ensures Get(m, m[i].0) == Some(m[i].1)
    decreases |m|
  {
    if i > 0 {
      assert Keys(m)[0] != Keys(m)[i];
      assert Keys(m[1..]) == Keys(m)[1..];
      GetDistinct(m[1..], i - 1);
    }
  }

  /** Reordering the entries of a map keeps its keys distinct. */
  lemma KeysDistinctPermutation<K, V>(m: seq<(K, V)>, r: seq<(K, V)>)
    requires Distinct(Keys(m))
    requires multiset(m) == multiset(r)
    ensures Distinct(Keys(r))
  {
    assert Distinct(m) by {
      forall i, j | 0 <= i < j < |m| ensures m[i] != m[j] {
        assert Keys(m)[i] != Keys(m)[j];
      }
    }
    DistinctPermutation(m, r);
    forall i, j | 0 <= i < j < |r| ensures Keys(r)[i] != Keys(r)[j] {
      assert r[i] in multiset(m) && r[j] in multiset(m);
      var a :| 0 <= a < |m| && m[a] == r[i];
      var b :| 0 <= b < |m| && m[b] == r[j];
      assert r[i] != r[j];
      assert a != b;
      assert Keys(m)[a] != Keys(m)[b];
    }
  }

  /** Reordering the entries of a map keeps its set of keys. */
  lemma KeysPermutation<K, V>(m: seq<(K, V)>, r: seq<(K, V)>, k: K)
    requires multiset(m) == multiset(r)
    ensures k in Keys(r) <==> k in Keys(m)
  {
    if k in Keys(m) {
      var a :| 0 <= a < |m| && Keys(m)[a] == k;
      assert m[a] in multiset(r);
      var i :| 0 <= i < |r| && r[i] == m[a];
      assert Keys(r)[i] == k;
    }
    if k in Keys(r) {
      var i :| 0 <= i < |r| && Keys(r)[i] == k;
      assert r[i] in multiset(m);
      var a :| 0 <= a < |m| && m[a] == r[i];
      assert Keys(m)[a] == k;
    }
  }
}
