/**
 * Generic sequence vocabulary shared by the build scripts and the search page:
 * the stable sort that `Array.prototype.sort` performs with a numeric
 * comparator, "first occurrence per key" (the insertion order of a JavaScript
 * `Map` or object, and the `seen` filter of the search merge), and
 * per-key selections with the sums over them.
 */
module Sequences {

  predicate Distinct<K(==)>(ks: seq<K>)
  {
    forall i, j :: 0 <= i < j < |ks| ==> ks[i] != ks[j]
  }

  /**
   * `Array.from(m.values())` for a JavaScript `Map` whose keys were created
   * in the order `order`: the values, in that order.
   */
  function MapValues<K, V>(m: map<K, V>, order: seq<K>): (r: seq<V>)
    requires forall i :: 0 <= i < |order| ==> order[i] in m
    ensures |r| == |order| && forall i :: 0 <= i < |order| ==> r[i] == m[order[i]]
  {
    seq(|order|, i requires 0 <= i < |order| => m[order[i]])
  }

  /** The key of every element, in order. */
  function KeysOf<T, K>(s: seq<T>, key: T -> K): (r: seq<K>)
    ensures |r| == |s| && forall i :: 0 <= i < |s| ==> r[i] == key(s[i])
  {
    if |s| == 0 then [] else KeysOf(s[..|s| - 1], key) + [key(s[|s| - 1])]
  }

  /** A non-empty sequence is its front followed by its last element. */
  lemma LastSplit<T>(s: seq<T>)
    requires |s| > 0
    ensures s == s[..|s| - 1] + [s[|s| - 1]]
  {
  }

  lemma TakeSnoc<T>(s: seq<T>, j: nat)
    requires j < |s|
    ensures s[..j + 1] == s[..j] + [s[j]]
  {
  }

  // ---------------------------------------------------------------------------
  // Stable sort by an integer key
  // ---------------------------------------------------------------------------

  predicate SortedByKey<T>(s: seq<T>, key: T -> int)
  {
    forall i, j :: 0 <= i < j < |s| ==> key(s[i]) <= key(s[j])
  }

  /** The elements whose key is `k`, in their order in `s`. */
  function WithKey<T>(s: seq<T>, key: T -> int, k: int): (r: seq<T>)
    ensures |r| <= |s|
  {
    if |s| == 0 then []
    else WithKey(s[..|s| - 1], key, k) + (if key(s[|s| - 1]) == k then [s[|s| - 1]] else [])
  }

  /** Inserts `x` after every element whose key is at most `key(x)`. */
  function InsertByKey<T>(sorted: seq<T>, x: T, key: T -> int): (r: seq<T>)
    ensures multiset(r) == multiset(sorted) + multiset{x}
  {
    if |sorted| == 0 || key(sorted[|sorted| - 1]) <= key(x) then sorted + [x]
    else
      var init, last := sorted[..|sorted| - 1], sorted[|sorted| - 1];
      assert sorted == init + [last];
      InsertByKey(init, x, key) + [last]
  }

  /** A stable sort: insertion sort that never moves an element past an equal key. */
  function StableSort<T>(s: seq<T>, key: T -> int): (r: seq<T>)
    ensures multiset(r) == multiset(s)
  {
    if |s| == 0 then []
    else
      assert s == s[..|s| - 1] + [s[|s| - 1]];
      InsertByKey(StableSort(s[..|s| - 1], key), s[|s| - 1], key)
  }

  lemma {:induction false} InsertByKeySorted<T>(sorted: seq<T>, x: T, key: T -> int)
    requires SortedByKey(sorted, key)
    ensures SortedByKey(InsertByKey(sorted, x, key), key)
  {
    if |sorted| > 0 && key(sorted[|sorted| - 1]) > key(x) {
      var init, last := sorted[..|sorted| - 1], sorted[|sorted| - 1];
      var r' := InsertByKey(init, x, key);
      InsertByKeySorted(init, x, key);
      forall i | 0 <= i < |r'| ensures key(r'[i]) <= key(last) {
        assert r'[i] in multiset(r');
        if r'[i] != x {
          assert r'[i] in multiset(init);
          var j :| 0 <= j < |init| && init[j] == r'[i];
        }
      }
    }
  }

  lemma {:induction false} StableSortSorted<T>(s: seq<T>, key: T -> int)
    ensures SortedByKey(StableSort(s, key), key)
  {
    if |s| > 0 {
      StableSortSorted(s[..|s| - 1], key);
      InsertByKeySorted(StableSort(s[..|s| - 1], key), s[|s| - 1], key);
    }
  }

  lemma {:induction false} WithKeyAppend<T>(a: seq<T>, b: seq<T>, key: T -> int, k: int)
    ensures WithKey(a + b, key, k) == WithKey(a, key, k) + WithKey(b, key, k)
  {
    if |b| > 0 {
      var b', y := b[..|b| - 1], b[|b| - 1];
      assert (a + b)[..|a + b| - 1] == a + b';
      WithKeyAppend(a, b', key, k);
    } else {
      assert a + b == a;
    }
  }

  lemma {:induction false} InsertByKeyStable<T>(sorted: seq<T>, x: T, key: T -> int, k: int)
    ensures WithKey(InsertByKey(sorted, x, key), key, k)
         == WithKey(sorted, key, k) + WithKey([x], key, k)
  {
    if |sorted| == 0 || key(sorted[|sorted| - 1]) <= key(x) {
      WithKeyAppend(sorted, [x], key, k);
    } else {
      var init, last := sorted[..|sorted| - 1], sorted[|sorted| - 1];
      InsertByKeyStable(init, x, key, k);
      WithKeyAppend(InsertByKey(init, x, key), [last], key, k);
      WithKeyAppend(init, [last], key, k);
      LastSplit(sorted);
      WithKeyOne(x, key, k);
      WithKeyOne(last, key, k);
    }
  }

  lemma WithKeyOne<T>(x: T, key: T -> int, k: int)
    ensures WithKey([x], key, k) == if key(x) == k then [x] else []
  {
    assert [x][..0] == [];
  }

  /** Sorting never reorders two elements with the same key. */
  lemma {:induction false} StableSortStable<T>(s: seq<T>, key: T -> int, k: int)
    ensures WithKey(StableSort(s, key), key, k) == WithKey(s, key, k)
  {
    if |s| > 0 {
      var init, last := s[..|s| - 1], s[|s| - 1];
      var sorted := StableSort(init, key);
      assert StableSort(s, key) == InsertByKey(sorted, last, key);
      StableSortStable(init, key, k);
      InsertByKeyStable(sorted, last, key, k);
      WithKeyOne(last, key, k);
    }
  }

  // ---------------------------------------------------------------------------
  // First occurrence per key
  // ---------------------------------------------------------------------------

  /** Position of the first element of `s` whose key is `k`. */
  function FirstIndex<T, K(==)>(s: seq<T>, key: T -> K, k: K): (i: nat)
    requires k in KeysOf(s, key)
    ensures i < |s| && key(s[i]) == k
    ensures forall j :: 0 <= j < i ==> key(s[j]) != k
  {
    if key(s[0]) == k then 0
    else
      var ks := KeysOf(s, key);
      var m :| 0 <= m < |ks| && ks[m] == k;
      assert KeysOf(s[1..], key)[m - 1] == k;
      1 + FirstIndex(s[1..], key, k)
  }

  /**
   * The elements of `s` whose key has not been seen before, in order: the
   * first occurrence of each key.
   */
  function FirstByKey<T, K(==)>(s: seq<T>, key: T -> K): (r: seq<T>)
    ensures |r| <= |s|
  {
    if |s| == 0 then []
    else
      var init, last := s[..|s| - 1], s[|s| - 1];
      if key(last) in KeysOf(init, key) then FirstByKey(init, key)
      else FirstByKey(init, key) + [last]
  }

  lemma KeysOfSnoc<T, K>(s: seq<T>, x: T, key: T -> K)
    ensures KeysOf(s + [x], key) == KeysOf(s, key) + [key(x)]
  {
    assert (s + [x])[..|s|] == s;
  }

  lemma FirstIndexSnoc<T, K>(s: seq<T>, x: T, key: T -> K, k: K)
    requires k in KeysOf(s + [x], key)
    ensures k in KeysOf(s, key) ==> FirstIndex(s + [x], key, k) == FirstIndex(s, key, k)
    ensures k !in KeysOf(s, key) ==> FirstIndex(s + [x], key, k) == |s|
  {
    KeysOfSnoc(s, x, key);
    if k in KeysOf(s, key) {
      var i0 := FirstIndex(s, key, k);
      assert (s + [x])[i0] == s[i0];
    }
  }

  /** No two elements of the result share a key. */
  lemma {:induction false} FirstByKeyDistinct<T, K>(s: seq<T>, key: T -> K)
    ensures Distinct(KeysOf(FirstByKey(s, key), key))
  {
    if |s| > 0 {
      var init, last := s[..|s| - 1], s[|s| - 1];
      FirstByKeyDistinct(init, key);
      FirstByKeyKeys(init, key);
      var r := FirstByKey(init, key);
      if key(last) !in KeysOf(init, key) {
        KeysOfSnoc(r, last, key);
        forall i | 0 <= i < |r| ensures key(r[i]) != key(last) {
          assert key(r[i]) in KeysOf(init, key);
        }
      }
    }
  }

  /** The result has the same keys as the input: no key is lost. */
  lemma FirstByKeyKeys<T, K>(s: seq<T>, key: T -> K)
    ensures forall i :: 0 <= i < |FirstByKey(s, key)| ==> key(FirstByKey(s, key)[i]) in KeysOf(s, key)
    ensures forall i :: 0 <= i < |s| ==> key(s[i]) in KeysOf(FirstByKey(s, key), key)
  {
    FirstByKeyKeysSound(s, key);
    FirstByKeyKeysComplete(s, key);
  }

  lemma {:induction false} FirstByKeyKeysSound<T, K>(s: seq<T>, key: T -> K)
    ensures forall i :: 0 <= i < |FirstByKey(s, key)| ==> key(FirstByKey(s, key)[i]) in KeysOf(s, key)
  {
    if |s| > 0 {
      var init, last := s[..|s| - 1], s[|s| - 1];
      FirstByKeyKeysSound(init, key);
      KeysOfSnoc(init, last, key);
      LastSplit(s);
      var r, r' := FirstByKey(init, key), FirstByKey(s, key);
      forall i | 0 <= i < |r'| ensures key(r'[i]) in KeysOf(s, key) {
        if i < |r| {
          assert r'[i] == r[i];
          assert key(r[i]) in KeysOf(init, key);
        }
      }
    }
  }

  lemma {:induction false} FirstByKeyKeysComplete<T, K>(s: seq<T>, key: T -> K)
    ensures forall i :: 0 <= i < |s| ==> key(s[i]) in KeysOf(FirstByKey(s, key), key)
  {
    if |s| > 0 {
      var init, last := s[..|s| - 1], s[|s| - 1];
      FirstByKeyKeysComplete(init, key);
      LastSplit(s);
      var r, r' := FirstByKey(init, key), FirstByKey(s, key);
      KeysOfSnoc(r, last, key);
      forall i | 0 <= i < |s| ensures key(s[i]) in KeysOf(r', key) {
        if i < |init| {
          assert s[i] == init[i];
          assert key(init[i]) in KeysOf(r, key);
        } else if key(last) in KeysOf(init, key) {
          var j :| 0 <= j < |init| && KeysOf(init, key)[j] == key(last);
          assert key(init[j]) in KeysOf(r, key);
        }
      }
    }
  }

  /** Position `p` holds the first occurrence of its key. */
  predicate FirstAt<T, K(==)>(s: seq<T>, key: T -> K, p: nat)
    requires p < |s|
  {
    forall q :: 0 <= q < p ==> key(s[q]) != key(s[p])
  }

  /** A first occurrence is kept. */
  lemma {:induction false} FirstAtKept<T, K>(s: seq<T>, key: T -> K, p: nat)
    requires p < |s| && FirstAt(s, key, p)
    ensures exists a :: 0 <= a < |FirstByKey(s, key)| && FirstByKey(s, key)[a] == s[p]
  {
    var init, last := s[..|s| - 1], s[|s| - 1];
    if p < |s| - 1 {
      assert init[p] == s[p];
      assert FirstAt(init, key, p);
      FirstAtKept(init, key, p);
      var a :| 0 <= a < |FirstByKey(init, key)| && FirstByKey(init, key)[a] == s[p];
      assert FirstByKey(s, key)[a] == s[p];
    } else {
      assert key(last) !in KeysOf(init, key);
      assert FirstByKey(s, key)[|FirstByKey(init, key)|] == s[p];
    }
  }

  /** Every kept element is a first occurrence: nothing else is kept. */
  lemma {:induction false} FirstByKeySound<T, K>(s: seq<T>, key: T -> K, a: nat) returns (p: nat)
    requires a < |FirstByKey(s, key)|
    ensures p < |s| && FirstAt(s, key, p) && FirstByKey(s, key)[a] == s[p]
  {
    var init, last := s[..|s| - 1], s[|s| - 1];
    var r := FirstByKey(init, key);
    if a < |r| {
      assert FirstByKey(s, key)[a] == r[a];
      p := FirstByKeySound(init, key, a);
      assert init[p] == s[p];
      assert forall q :: 0 <= q < p ==> init[q] == s[q];
    } else {
      p := |s| - 1;
      assert key(last) !in KeysOf(init, key);
      forall q | 0 <= q < p ensures key(s[q]) != key(s[p]) {
        assert KeysOf(init, key)[q] == key(s[q]);
      }
    }
  }

  /** Two first occurrences are kept in the order they occur. */
  lemma {:induction false} FirstAtOrdered<T, K>(s: seq<T>, key: T -> K, p: nat, q: nat)
    requires p < q < |s| && FirstAt(s, key, p) && FirstAt(s, key, q)
    ensures exists a, b :: 0 <= a < b < |FirstByKey(s, key)| && FirstByKey(s, key)[a] == s[p] && FirstByKey(s, key)[b] == s[q]
  {
    var init, last := s[..|s| - 1], s[|s| - 1];
    assert init[p] == s[p];
    assert FirstAt(init, key, p);
    if q < |s| - 1 {
      assert init[q] == s[q];
      assert FirstAt(init, key, q);
      FirstAtOrdered(init, key, p, q);
      var a, b :| 0 <= a < b < |FirstByKey(init, key)| && FirstByKey(init, key)[a] == s[p] && FirstByKey(init, key)[b] == s[q];
      assert FirstByKey(s, key)[a] == s[p] && FirstByKey(s, key)[b] == s[q];
    } else {
      FirstAtKept(init, key, p);
      var a :| 0 <= a < |FirstByKey(init, key)| && FirstByKey(init, key)[a] == s[p];
      assert key(last) !in KeysOf(init, key);
      assert FirstByKey(s, key)[a] == s[p];
      assert FirstByKey(s, key)[|FirstByKey(init, key)|] == s[q];
    }
  }

  // ---------------------------------------------------------------------------
  // Selections by key and sums over them
  // ---------------------------------------------------------------------------

  /** The elements of `s` whose key is `k`, in order. */
  function Select<T, K(==)>(s: seq<T>, key: T -> K, k: K): (r: seq<T>)
    ensures |r| <= |s|
    ensures forall i :: 0 <= i < |r| ==> key(r[i]) == k && r[i] in s
  {
    if |s| == 0 then []
    else Select(s[..|s| - 1], key, k) + (if key(s[|s| - 1]) == k then [s[|s| - 1]] else [])
  }

  /** A key that occurs selects at least one element. */
  lemma {:induction false} SelectMember<T, K>(s: seq<T>, key: T -> K, k: K)
    requires k in KeysOf(s, key)
    ensures |Select(s, key, k)| > 0
  {
    var init := s[..|s| - 1];
    if key(s[|s| - 1]) != k {
      assert KeysOf(s, key) == KeysOf(init, key) + [key(s[|s| - 1])];
      SelectMember(init, key, k);
    }
  }

  /** Every element is in the selection of its own key. */
  lemma {:induction false} SelectComplete<T, K>(s: seq<T>, key: T -> K, i: nat)
    requires i < |s|
    ensures s[i] in Select(s, key, key(s[i]))
  {
    if i < |s| - 1 {
      SelectComplete(s[..|s| - 1], key, i);
    }
  }

  function Total<T>(s: seq<T>, w: T -> nat): nat
  {
    if |s| == 0 then 0 else Total(s[..|s| - 1], w) + w(s[|s| - 1])
  }

  /** The sum, over the keys `ks`, of the total weight of each key's selection. */
  function TotalOver<T, K(==)>(ks: seq<K>, s: seq<T>, key: T -> K, w: T -> nat): nat
  {
    if |ks| == 0 then 0 else Total(Select(s, key, ks[0]), w) + TotalOver(ks[1..], s, key, w)
  }

  /** A position of a key that occurs. */
  lemma KeyIndex<T, K>(s: seq<T>, key: T -> K, k: K) returns (i: nat)
    requires k in KeysOf(s, key)
    ensures i < |s| && key(s[i]) == k
  {
    i :| 0 <= i < |KeysOf(s, key)| && KeysOf(s, key)[i] == k;
  }

  /** In a list without repeats, equal entries sit at one position. */
  lemma DistinctAt<K>(ks: seq<K>, i: nat, j: nat)
    requires Distinct(ks) && i < |ks| && j < |ks| && ks[i] == ks[j]
    ensures i == j
  {
  }

  /** Two positions holding the same key both survive the selection of that key. */
  lemma {:induction false} SelectTwo<T, K>(s: seq<T>, key: T -> K, i: nat, j: nat)
    requires i < j < |s| && key(s[i]) == key(s[j])
    ensures |Select(s, key, key(s[i]))| >= 2
  {
    var init := s[..|s| - 1];
    if j == |s| - 1 {
      SelectComplete(init, key, i);
    } else {
      SelectTwo(init, key, i, j);
    }
  }

  lemma SelectSnoc<T, K>(s: seq<T>, x: T, key: T -> K, k: K)
    ensures Select(s + [x], key, k) == Select(s, key, k) + (if key(x) == k then [x] else [])
  {
    assert (s + [x])[..|s|] == s;
  }

  lemma TotalSnoc<T>(s: seq<T>, x: T, w: T -> nat)
    ensures Total(s + [x], w) == Total(s, w) + w(x)
  {
    assert (s + [x])[..|s|] == s;
  }

  lemma {:induction false} TotalOverSnoc<T, K>(ks: seq<K>, s: seq<T>, x: T, key: T -> K, w: T -> nat)
    requires Distinct(ks)
    ensures TotalOver(ks, s + [x], key, w) == TotalOver(ks, s, key, w) + (if key(x) in ks then w(x) else 0)
  {
    if |ks| > 0 {
      TotalOverSnoc(ks[1..], s, x, key, w);
      SelectSnoc(s, x, key, ks[0]);
      if key(x) == ks[0] {
        TotalSnoc(Select(s, key, ks[0]), x, w);
        assert key(x) !in ks[1..];
      } else {
        assert Select(s + [x], key, ks[0]) == Select(s, key, ks[0]);
        assert key(x) in ks <==> key(x) in ks[1..];
      }
    }
  }

  /**
   * When every element's key is listed exactly once in `ks`, the per-key
   * totals add up to the total of `s`: the selections partition `s`.
   */
  lemma {:induction false} PartitionTotal<T, K>(ks: seq<K>, s: seq<T>, key: T -> K, w: T -> nat)
    requires Distinct(ks)
    requires forall i :: 0 <= i < |s| ==> key(s[i]) in ks
    ensures TotalOver(ks, s, key, w) == Total(s, w)
  {
    if |s| == 0 {
      EmptyTotalOver(ks, key, w);
    } else {
      var init, last := s[..|s| - 1], s[|s| - 1];
      LastSplit(s);
      PartitionTotal(ks, init, key, w);
      TotalOverSnoc(ks, init, last, key, w);
    }
  }

  lemma {:induction false} EmptyTotalOver<T, K>(ks: seq<K>, key: T -> K, w: T -> nat)
    ensures TotalOver(ks, [], key, w) == 0
  {
    if |ks| > 0 {
      EmptyTotalOver(ks[1..], key, w);
    }
  }

  lemma {:induction false} SelectNotIn<T, K>(s: seq<T>, key: T -> K, k: K)
    requires k !in KeysOf(s, key)
    ensures Select(s, key, k) == []
  {
    if |s| > 0 {
      var init, last := s[..|s| - 1], s[|s| - 1];
      KeysOfSnoc(init, last, key);
      LastSplit(s);
      SelectNotIn(init, key, k);
    }
  }

  lemma {:induction false} TotalAppend<T>(a: seq<T>, b: seq<T>, w: T -> nat)
    ensures Total(a + b, w) == Total(a, w) + Total(b, w)
  {
    if |b| == 0 {
      assert a + b == a;
    } else {
      var b', y := b[..|b| - 1], b[|b| - 1];
      assert a + b == (a + b') + [y];
      TotalSnoc(a + b', y, w);
      TotalAppend(a, b', w);
    }
  }

  lemma TotalRemove<T>(b: seq<T>, i: nat, w: T -> nat)
    requires i < |b|
    ensures Total(b, w) == Total(b[..i] + b[i + 1..], w) + w(b[i])
  {
    var front, x, back := b[..i], b[i], b[i + 1..];
    assert b == front + ([x] + back);
    TotalAppend(front, [x] + back, w);
    TotalAppend([x], back, w);
    TotalAppend(front, back, w);
    assert Total([x], w) == w(x) by { assert [x][..0] == []; }
  }

  lemma MultisetRemove<T>(b: seq<T>, i: nat)
    requires i < |b|
    ensures multiset(b[..i] + b[i + 1..]) == multiset(b) - multiset{b[i]}
  {
    assert b == b[..i] + [b[i]] + b[i + 1..];
  }

  /** Reordering a sequence does not change its total. */
  lemma {:induction false} TotalPermutation<T>(a: seq<T>, b: seq<T>, w: T -> nat)
    requires multiset(a) == multiset(b)
    ensures Total(a, w) == Total(b, w)
  {
    if |a| > 0 {
      var a', x := a[..|a| - 1], a[|a| - 1];
      assert a == a' + [x];
      assert multiset(a') == multiset(a) - multiset{x};
      assert x in multiset(b);
      var i :| 0 <= i < |b| && b[i] == x;
      TotalRemove(b, i, w);
      MultisetRemove(b, i);
      TotalPermutation(a', b[..i] + b[i + 1..], w);
    }
  }

  lemma TotalOfOnes<T>(s: seq<T>, w: T -> nat)
    requires forall i :: 0 <= i < |s| ==> w(s[i]) == 1
    ensures Total(s, w) == |s|
  {
    if |s| > 0 {
      TotalOfOnes(s[..|s| - 1], w);
    }
  }

  /** Summing per-key totals listed in any sequence gives the same as `TotalOver`. */
  lemma {:induction false} TotalOverAsTotal<T, K, U>(ks: seq<K>, s: seq<T>, key: T -> K, w: T -> nat, f: seq<U>, v: U -> nat)
    requires |f| == |ks|
    requires forall i :: 0 <= i < |f| ==> v(f[i]) == Total(Select(s, key, ks[i]), w)
    ensures Total(f, v) == TotalOver(ks, s, key, w)
  {
    if |f| > 0 {
      assert f == [f[0]] + f[1..];
      TotalAppend([f[0]], f[1..], v);
      assert Total([f[0]], v) == v(f[0]) by { assert [f[0]][..0] == []; }
      TotalOverAsTotal(ks[1..], s, key, w, f[1..], v);
    }
  }

  lemma KeysOfRemove<T, K>(b: seq<T>, i: nat, key: T -> K)
    requires i < |b|
    ensures KeysOf(b[..i] + b[i + 1..], key) == KeysOf(b, key)[..i] + KeysOf(b, key)[i + 1..]
  {
    var l, r := KeysOf(b[..i] + b[i + 1..], key), KeysOf(b, key)[..i] + KeysOf(b, key)[i + 1..];
    assert |l| == |r|;
    forall j | 0 <= j < |l| ensures l[j] == r[j] {
      if j < i { assert r[j] == key(b[j]); } else { assert r[j] == key(b[j + 1]); }
    }
  }

  /** Reordering a sequence reorders its keys the same way. */
  lemma {:induction false} MultisetKeys<T, K>(a: seq<T>, b: seq<T>, key: T -> K)
    requires multiset(a) == multiset(b)
    ensures multiset(KeysOf(a, key)) == multiset(KeysOf(b, key))
  {
    if |a| > 0 {
      var a', x := a[..|a| - 1], a[|a| - 1];
      LastSplit(a);
      assert multiset(a') == multiset(a) - multiset{x};
      assert x in multiset(b);
      var i :| 0 <= i < |b| && b[i] == x;
      MultisetRemove(b, i);
      MultisetKeys(a', b[..i] + b[i + 1..], key);
      KeysOfSnoc(a', x, key);
      KeysRemoved(b, i, key);
    }
  }

  /** Taking one element out of a sequence takes its key out of the keys. */
  lemma KeysRemoved<T, K>(b: seq<T>, i: nat, key: T -> K)
    requires i < |b|
    ensures multiset(KeysOf(b, key)) == multiset(KeysOf(b[..i] + b[i + 1..], key)) + multiset{key(b[i])}
  {
    KeysOfRemove(b, i, key);
    MultisetRemove(KeysOf(b, key), i);
    assert KeysOf(b, key)[i] == key(b[i]);
  }

  lemma MultisetInit<T>(s: seq<T>)
    requires |s| > 0
    ensures multiset(s[..|s| - 1]) == multiset(s) - multiset{s[|s| - 1]}
  {
    assert s == s[..|s| - 1] + [s[|s| - 1]];
  }

  /** A permutation of a list without repetitions has none either. */
  lemma DistinctPermutation<K>(a: seq<K>, b: seq<K>)
    requires multiset(a) == multiset(b) && Distinct(b)
    ensures Distinct(a)
  {
    forall i, j | 0 <= i < j < |a| ensures a[i] != a[j] {
      if a[i] == a[j] {
        var x := a[i];
        assert multiset(a)[x] >= 2 by {
          assert a == a[..j] + [x] + a[j + 1..];
          assert x in multiset(a[..j]) by { assert a[..j][i] == x; }
        }
        MultiplicityOne(b, x);
      }
    }
  }

  lemma MultiplicityOne<K>(b: seq<K>, x: K)
    requires Distinct(b)
    ensures multiset(b)[x] <= 1
  {
    if |b| > 0 {
      var init, last := b[..|b| - 1], b[|b| - 1];
      assert b == init + [last];
      MultiplicityOne(init, x);
      if last == x {
        assert x !in init;
      }
    }
  }
}
