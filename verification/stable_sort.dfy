/** `Array.prototype.sort(compare)`: the result is a permutation of the input, ordered by the
    comparator, and elements the comparator considers equal keep their input order
    (the sort is stable). Modelled as an insertion sort. */
module StableSort {

  /** A comparator that behaves like a total preorder: swapping the arguments flips the sign,
      and "sorts no later than" is transitive. */
  ghost predicate Consistent<T(!new)>(cmp: (T, T) -> int) {
    && (forall a, b :: cmp(a, b) < 0 <==> cmp(b, a) > 0)
    && (forall a, b, c {:trigger Le(cmp, a, b), Le(cmp, b, c)} :: Le(cmp, a, b) && Le(cmp, b, c) ==> Le(cmp, a, c))
  }

  /** `a` sorts no later than `b`. Transitivity is stated over this predicate, so that it is
      only used where a proof names the chain it needs. */
  predicate Le<T>(cmp: (T, T) -> int, a: T, b: T) {
    cmp(a, b) <= 0
  }

  ghost predicate Sorted<T>(s: seq<T>, cmp: (T, T) -> int) {
    forall i, j | 0 <= i < j < |s| :: cmp(s[i], s[j]) <= 0
  }

  /** The elements of `s` the comparator ranks equal to `c`, in their order in `s`. */
  function Class<T>(s: seq<T>, cmp: (T, T) -> int, c: T): (r: seq<T>)
    decreases |s|
  {
    if s == [] then []
    else (if cmp(c, s[0]) == 0 then [s[0]] else []) + Class(s[1..], cmp, c)
  }

  /** Places `x` after every element of `s` that does not sort strictly after it. */
  function Insert<T>(s: seq<T>, x: T, cmp: (T, T) -> int): seq<T>
    decreases |s|
  {
    if s == [] then [x]
    else if cmp(x, s[0]) < 0 then [x] + s
    else [s[0]] + Insert(s[1..], x, cmp)
  }

  /** Insertion sort: each element is inserted after the ones that came before it. */
  function InsertionSort<T>(s: seq<T>, cmp: (T, T) -> int): seq<T>
    decreases |s|
  {
    if s == [] then []
    else Insert(InsertionSort(s[..|s| - 1], cmp), s[|s| - 1], cmp)
  }

  lemma {:induction false} InsertPermutes<T>(s: seq<T>, x: T, cmp: (T, T) -> int)
    ensures multiset(Insert(s, x, cmp)) == multiset(s) + multiset{x}
    decreases |s|
  {
    if s != [] && cmp(x, s[0]) >= 0 {
      InsertPermutes(s[1..], x, cmp);
      assert s == [s[0]] + s[1..];
    }
  }

  lemma {:induction false} InsertionSortPermutes<T>(s: seq<T>, cmp: (T, T) -> int)
    ensures multiset(InsertionSort(s, cmp)) == multiset(s)
    decreases |s|
  {
    if s != [] {
      var n := |s| - 1;
      SplitLast(s);
      InsertionSortPermutes(s[..n], cmp);
      InsertPermutes(InsertionSort(s[..n], cmp), s[n], cmp);
    }
  }

  /** `array.sort(cmp)` for a consistent comparator. */
  function Sort<T(!new)>(s: seq<T>, cmp: (T, T) -> int): (r: seq<T>)
    requires Consistent(cmp)
    ensures multiset(r) == multiset(s)
    ensures Sorted(r, cmp)
    ensures forall c :: Class(r, cmp, c) == Class(s, cmp, c)
  {
    InsertionSortPermutes(s, cmp);
    InsertionSortSorted(s, cmp);
    InsertionSortStable(s, cmp);
    InsertionSort(s, cmp)
  }

  lemma {:induction false} InsertionSortSorted<T(!new)>(s: seq<T>, cmp: (T, T) -> int)
    requires Consistent(cmp)
    ensures Sorted(InsertionSort(s, cmp), cmp)
    decreases |s|
  {
    if s != [] {
      var n := |s| - 1;
      InsertionSortSorted(s[..n], cmp);
      InsertSorted(InsertionSort(s[..n], cmp), s[n], cmp);
    }
  }

  lemma InsertionSortStable<T(!new)>(s: seq<T>, cmp: (T, T) -> int)
    requires Consistent(cmp)
    ensures forall c :: Class(InsertionSort(s, cmp), cmp, c) == Class(s, cmp, c)
  {
    forall c ensures Class(InsertionSort(s, cmp), cmp, c) == Class(s, cmp, c) {
      InsertionSortStableAt(s, cmp, c);
    }
  }

  lemma {:induction false} InsertionSortStableAt<T(!new)>(s: seq<T>, cmp: (T, T) -> int, c: T)
    requires Consistent(cmp)
    ensures Class(InsertionSort(s, cmp), cmp, c) == Class(s, cmp, c)
    decreases |s|
  {
    if s != [] {
      var n := |s| - 1;
      SplitLast(s);
      var sorted := InsertionSort(s[..n], cmp);
      InsertionSortStableAt(s[..n], cmp, c);
      InsertionSortSorted(s[..n], cmp);
      InsertClass(sorted, s[n], cmp, c);
      ClassAppend(s[..n], [s[n]], cmp, c);
      assert Class([s[n]], cmp, c) == (if cmp(c, s[n]) == 0 then [s[n]] else []) + Class([], cmp, c);
      assert InsertionSort(s, cmp) == Insert(sorted, s[n], cmp);
      assert Class(s, cmp, c) == Class(s[..n], cmp, c) + Class([s[n]], cmp, c);
    }
  }

  lemma SplitLast<T>(s: seq<T>)
    requires s != []
    ensures s == s[..|s| - 1] + [s[|s| - 1]]
  {
  }

  lemma {:induction false} InsertSorted<T(!new)>(s: seq<T>, x: T, cmp: (T, T) -> int)
    requires Consistent(cmp)
    requires Sorted(s, cmp)
    ensures Sorted(Insert(s, x, cmp), cmp)
    decreases |s|
  {
    if s == [] {
    } else if cmp(x, s[0]) < 0 {
      forall j | 0 <= j < |s| ensures cmp(x, s[j]) <= 0 {
        assert Le(cmp, x, s[0]) && Le(cmp, s[0], s[j]);
      }
      SortedCons(x, s, cmp);
    } else {
      var tail := Insert(s[1..], x, cmp);
      InsertSorted(s[1..], x, cmp);
      InsertPermutes(s[1..], x, cmp);
      forall j | 0 <= j < |tail| ensures cmp(s[0], tail[j]) <= 0 {
        assert tail[j] in multiset(tail);
        if tail[j] != x {
          assert tail[j] in multiset(s[1..]);
          var k :| 0 <= k < |s[1..]| && s[1..][k] == tail[j];
          assert s[k + 1] == tail[j];
        }
      }
      SortedCons(s[0], tail, cmp);
    }
  }

  lemma SortedCons<T>(h: T, t: seq<T>, cmp: (T, T) -> int)
    requires Sorted(t, cmp)
    requires forall j | 0 <= j < |t| :: cmp(h, t[j]) <= 0
    ensures Sorted([h] + t, cmp)
  {
    var s := [h] + t;
    forall i, j | 0 <= i < j < |s| ensures cmp(s[i], s[j]) <= 0 {
      assert s[j] == t[j - 1];
      if i > 0 {
        assert s[i] == t[i - 1];
      }
    }
  }

  lemma {:induction false} ClassAppend<T>(a: seq<T>, b: seq<T>, cmp: (T, T) -> int, c: T)
    ensures Class(a + b, cmp, c) == Class(a, cmp, c) + Class(b, cmp, c)
    decreases |a|
  {
    if a == [] {
      assert a + b == b;
    } else {
      var h := if cmp(c, a[0]) == 0 then [a[0]] else [];
      assert (a + b)[1..] == a[1..] + b;
      ClassHead(a + b, cmp, c);
      ClassHead(a, cmp, c);
      ClassAppend(a[1..], b, cmp, c);
      assert h + (Class(a[1..], cmp, c) + Class(b, cmp, c)) == (h + Class(a[1..], cmp, c)) + Class(b, cmp, c);
    }
  }

  lemma {:induction false} ClassNone<T>(s: seq<T>, cmp: (T, T) -> int, c: T)
    requires forall i | 0 <= i < |s| :: cmp(c, s[i]) != 0
    ensures Class(s, cmp, c) == []
    decreases |s|
  {
    if s != [] {
      ClassNone(s[1..], cmp, c);
    }
  }

  /** Inserting `x` into a sorted sequence appends it to the end of its own class. */
  lemma {:induction false} InsertClass<T(!new)>(s: seq<T>, x: T, cmp: (T, T) -> int, c: T)
    requires Consistent(cmp)
    requires Sorted(s, cmp)
    ensures Class(Insert(s, x, cmp), cmp, c)
         == Class(s, cmp, c) + (if cmp(c, x) == 0 then [x] else [])
    decreases |s|
  {
    if s == [] {
      assert Class([x], cmp, c) == (if cmp(c, x) == 0 then [x] else []) + Class([], cmp, c);
    } else if cmp(x, s[0]) < 0 {
      InsertFrontClass(s, x, cmp, c);
    } else {
      SortedTail(s, cmp);
      InsertClass(s[1..], x, cmp, c);
      InsertLaterClass(s, x, cmp, c);
    }
  }

  lemma SortedTail<T>(s: seq<T>, cmp: (T, T) -> int)
    requires Sorted(s, cmp) && s != []
    ensures Sorted(s[1..], cmp)
  {
    forall i, j | 0 <= i < j < |s[1..]| ensures cmp(s[1..][i], s[1..][j]) <= 0 {
      assert s[1..][i] == s[i + 1] && s[1..][j] == s[j + 1];
    }
  }

  /** `x` goes after the head of `s`: the head's class membership is unchanged. */
  lemma InsertLaterClass<T>(s: seq<T>, x: T, cmp: (T, T) -> int, c: T)
    requires s != [] && cmp(x, s[0]) >= 0
    requires Class(Insert(s[1..], x, cmp), cmp, c)
             == Class(s[1..], cmp, c) + (if cmp(c, x) == 0 then [x] else [])
    ensures Class(Insert(s, x, cmp), cmp, c)
            == Class(s, cmp, c) + (if cmp(c, x) == 0 then [x] else [])
  {
    var t := Insert(s[1..], x, cmp);
    var h := if cmp(c, s[0]) == 0 then [s[0]] else [];
    var own := if cmp(c, x) == 0 then [x] else [];
    var rest := Class(s[1..], cmp, c);
    InsertSkip(s, x, cmp);
    ClassCons(s[0], t, cmp, c);
    ClassHead(s, cmp, c);
    assert h + (rest + own) == (h + rest) + own;
  }

  lemma InsertSkip<T>(s: seq<T>, x: T, cmp: (T, T) -> int)
    requires s != [] && cmp(x, s[0]) >= 0
    ensures Insert(s, x, cmp) == [s[0]] + Insert(s[1..], x, cmp)
  {
  }

  lemma ClassHead<T>(s: seq<T>, cmp: (T, T) -> int, c: T)
    requires s != []
    ensures Class(s, cmp, c) == (if cmp(c, s[0]) == 0 then [s[0]] else []) + Class(s[1..], cmp, c)
  {
  }

  lemma ClassCons<T>(h: T, t: seq<T>, cmp: (T, T) -> int, c: T)
    ensures Class([h] + t, cmp, c) == (if cmp(c, h) == 0 then [h] else []) + Class(t, cmp, c)
  {
    assert ([h] + t)[1..] == t;
  }

  /** `x` sorts before the whole of `s`: nothing of its class is in `s`. */
  lemma InsertFrontClass<T(!new)>(s: seq<T>, x: T, cmp: (T, T) -> int, c: T)
    requires Consistent(cmp)
    requires Sorted(s, cmp) && s != [] && cmp(x, s[0]) < 0
    ensures Class([x] + s, cmp, c) == Class(s, cmp, c) + (if cmp(c, x) == 0 then [x] else [])
  {
    if cmp(c, x) == 0 {
      forall i | 0 <= i < |s| ensures cmp(c, s[i]) != 0 {
        assert Le(cmp, s[0], s[i]) && Le(cmp, c, x);
        assert Le(cmp, s[i], c) ==> Le(cmp, s[0], c) && Le(cmp, s[0], x);
      }
      ClassNone(s, cmp, c);
    }
    ClassAppend([x], s, cmp, c);
    assert Class([x], cmp, c) == (if cmp(c, x) == 0 then [x] else []) + Class([], cmp, c);
  }
}
