/** `Array.prototype.sort` with a comparator `(a, b) => key(b) - key(a)`: a stable sort into
    non-increasing key order (the language has required the sort to be stable since ES2019).
    The sort is modelled as an insertion sort; the lemmas show that it is sorted, a
    permutation, keeps equal keys in input order, and that these three facts pin the
    result down completely. */
module Sorting {
  import opened Grouping

  /** Keys never increase from left to right. */
  predicate SortedDesc<T>(s: seq<T>, key: T -> int) {
    forall i, j | 0 <= i < j < |s| :: key(s[i]) >= key(s[j])
  }

  /** Keys strictly decrease from left to right. */
  predicate StrictlyDesc<T>(s: seq<T>, key: T -> int) {
    forall i, j | 0 <= i < j < |s| :: key(s[i]) > key(s[j])
  }

  /** Put `x` in front of the first element whose key is not greater than its own. */
  function Insert<T>(x: T, s: seq<T>, key: T -> int): (r: seq<T>)
    ensures |r| == |s| + 1
  {
    if s == [] || key(s[0]) <= key(x) then [x] + s else [s[0]] + Insert(x, s[1..], key)
  }

  /** The stable descending sort: earlier elements are inserted in front of later ones with
      the same key. */
  function SortDesc<T>(s: seq<T>, key: T -> int): (r: seq<T>)
    ensures |r| == |s|
  {
    if s == [] then [] else Insert(s[0], SortDesc(s[1..], key), key)
  }

  // ----- insertion -----

  lemma {:induction false} InsertPermutation<T>(x: T, s: seq<T>, key: T -> int)
    ensures multiset(Insert(x, s, key)) == multiset(s) + multiset{x}
  {
    if s != [] && key(s[0]) > key(x) {
      InsertPermutation(x, s[1..], key);
      assert s == [s[0]] + s[1..];
    }
  }

  lemma {:induction false} InsertSorted<T>(x: T, s: seq<T>, key: T -> int)
    requires SortedDesc(s, key)
    ensures SortedDesc(Insert(x, s, key), key)
  {
    if s != [] && key(s[0]) > key(x) {
      var t := s[1..];
      assert forall k | 0 <= k < |t| :: t[k] == s[k + 1];
      InsertSorted(x, t, key);
      InsertBounded(x, t, key, key(s[0]));
    }
  }

  /** Inserting under a bound keeps every key under it. */
  lemma {:induction false} InsertBounded<T>(x: T, s: seq<T>, key: T -> int, m: int)
    requires key(x) <= m && forall k | 0 <= k < |s| :: key(s[k]) <= m
    ensures forall k | 0 <= k < |s| + 1 :: key(Insert(x, s, key)[k]) <= m
  {
    if s != [] && key(s[0]) > key(x) {
      var t := s[1..];
      assert forall k | 0 <= k < |t| :: t[k] == s[k + 1];
      InsertBounded(x, t, key, m);
      var r := Insert(x, s, key);
      assert forall k | 1 <= k < |r| :: r[k] == Insert(x, t, key)[k - 1];
    }
  }

  /** Inserting `x` adds it at the front of its own key's bucket and leaves the other buckets alone. */
  lemma {:induction false} InsertSelect<T>(x: T, s: seq<T>, key: T -> int, v: int)
    ensures Select(Insert(x, s, key), key, v) == (if key(x) == v then [x] else []) + Select(s, key, v)
  {
    if s == [] || key(s[0]) <= key(x) {
      assert ([x] + s)[0] == x && ([x] + s)[1..] == s;
    } else {
      InsertSelect(x, s[1..], key, v);
      var r := [s[0]] + Insert(x, s[1..], key);
      assert r[0] == s[0] && r[1..] == Insert(x, s[1..], key);
      var head := if key(s[0]) == v then [s[0]] else [];
      var mine := if key(x) == v then [x] else [];
      assert key(x) == v ==> head == [];
      calc {
        Select(r, key, v);
        head + Select(Insert(x, s[1..], key), key, v);
        head + (mine + Select(s[1..], key, v));
        mine + (head + Select(s[1..], key, v));
        mine + Select(s, key, v);
      }
    }
  }

  // ----- the sort -----

  /** The sort only reorders. */
  lemma {:induction false} SortDescPermutation<T>(s: seq<T>, key: T -> int)
    ensures multiset(SortDesc(s, key)) == multiset(s)
  {
    if s != [] {
      SortDescPermutation(s[1..], key);
      InsertPermutation(s[0], SortDesc(s[1..], key), key);
      assert s == [s[0]] + s[1..];
    }
  }

  /** The result is in non-increasing key order. */
  lemma {:induction false} SortDescSorted<T>(s: seq<T>, key: T -> int)
    ensures SortedDesc(SortDesc(s, key), key)
  {
    if s != [] {
      SortDescSorted(s[1..], key);
      InsertSorted(s[0], SortDesc(s[1..], key), key);
    }
  }

  /** Stability: the elements with any one key come out in the order they went in. */
  lemma {:induction false} SortDescStable<T>(s: seq<T>, key: T -> int, v: int)
    ensures Select(SortDesc(s, key), key, v) == Select(s, key, v)
  {
    if s != [] {
      SortDescStable(s[1..], key, v);
      InsertSelect(s[0], SortDesc(s[1..], key), key, v);
    }
  }

  /** Sorted and stable determine the order: any sequence that is in non-increasing key order
      and lists each key's elements as `s` does is the sort of `s`. */
  lemma StableSortIsUnique<T>(s: seq<T>, t: seq<T>, key: T -> int)
    requires SortedDesc(t, key)
    requires forall v :: Select(t, key, v) == Select(s, key, v)
    ensures t == SortDesc(s, key)
  {
    SortDescSorted(s, key);
    forall v ensures Select(t, key, v) == Select(SortDesc(s, key), key, v) {
      SortDescStable(s, key, v);
    }
    SortedDetermined(t, SortDesc(s, key), key);
  }

  /** Two sequences in non-increasing key order with the same buckets are equal. */
  lemma {:induction false} SortedDetermined<T>(t: seq<T>, u: seq<T>, key: T -> int)
    requires SortedDesc(t, key) && SortedDesc(u, key)
    requires forall v :: Select(t, key, v) == Select(u, key, v)
    ensures t == u
  {
    if t == [] || u == [] {
      var w := t + u;
      if w != [] {
        var x := w[0];
        SelectMembership(t, key, key(x), x);
        SelectMembership(u, key, key(x), x);
      }
    } else {
      SortedHead(t, u, key);
      forall v ensures Select(t[1..], key, v) == Select(u[1..], key, v) {
        TailBucket(t, u, key, v);
      }
      assert SortedDesc(t[1..], key) && SortedDesc(u[1..], key);
      SortedDetermined(t[1..], u[1..], key);
      assert t == [t[0]] + t[1..] && u == [u[0]] + u[1..];
    }
  }

  /** Sorted sequences with the same buckets start with the same element: the largest key
      opens both, and its bucket starts with the same element in both. */
  lemma SortedHead<T>(t: seq<T>, u: seq<T>, key: T -> int)
    requires t != [] && u != []
    requires SortedDesc(t, key) && SortedDesc(u, key)
    requires forall v :: Select(t, key, v) == Select(u, key, v)
    ensures t[0] == u[0]
  {
    var a, b := key(t[0]), key(u[0]);
    assert Select(t, key, a) == [t[0]] + Select(t[1..], key, a);
    assert Select(u, key, b) == [u[0]] + Select(u[1..], key, b);
    if a < b {
      BelowHead(t, key, b);
      assert false;
    } else if b < a {
      BelowHead(u, key, a);
      assert false;
    }
    assert t[0] == Select(t, key, a)[0] == Select(u, key, b)[0] == u[0];
  }

  /** A key above the first key of a sorted sequence has an empty bucket. */
  lemma BelowHead<T>(t: seq<T>, key: T -> int, v: int)
    requires t != [] && SortedDesc(t, key) && v > key(t[0])
    ensures Select(t, key, v) == []
  {
    forall i | 0 <= i < |t| ensures key(t[i]) != v {
      if i > 0 {
        assert key(t[0]) >= key(t[i]);
      }
    }
    SelectEmpty(t, key, v);
  }

  /** Taking the same first element off both sides keeps the buckets equal. */
  lemma TailBucket<T>(t: seq<T>, u: seq<T>, key: T -> int, v: int)
    requires t != [] && u != [] && t[0] == u[0]
    requires Select(t, key, v) == Select(u, key, v)
    ensures Select(t[1..], key, v) == Select(u[1..], key, v)
  {
    var h := if key(t[0]) == v then [t[0]] else [];
    assert Select(t, key, v) == h + Select(t[1..], key, v);
    assert Select(u, key, v) == h + Select(u[1..], key, v);
    assert Select(t[1..], key, v) == Select(t, key, v)[|h|..];
  }

  /** When no two elements share a key, the sorted keys strictly decrease. */
  lemma {:induction false} SortDescStrict<T>(s: seq<T>, key: T -> int)
    requires forall i, j | 0 <= i < j < |s| :: key(s[i]) != key(s[j])
    ensures StrictlyDesc(SortDesc(s, key), key)
  {
    SortDescSorted(s, key);
    var r := SortDesc(s, key);
    forall i, j | 0 <= i < j < |r| ensures key(r[i]) > key(r[j]) {
      if key(r[i]) == key(r[j]) {
        SortDescStable(s, key, key(r[i]));
        SelectPositions(r, key, i, j);
        SelectAtMostOne(s, key, key(r[i]));
        assert false;
      }
    }
  }

  /** Two positions with the same key put at least two elements in that key's bucket. */
  lemma {:induction false} SelectPositions<T, K>(s: seq<T>, key: T -> K, i: nat, j: nat)
    requires i < j < |s| && key(s[i]) == key(s[j])
    ensures |Select(s, key, key(s[i]))| >= 2
  {
    var k := key(s[i]);
    if i == 0 {
      SelectEmpty(s[1..], key, k);
      assert s[1..][j - 1] == s[j];
    } else {
      SelectPositions(s[1..], key, i - 1, j - 1);
    }
  }

  /** With pairwise distinct keys, every bucket holds at most one element. */
  lemma {:induction false} SelectAtMostOne<T, K>(s: seq<T>, key: T -> K, k: K)
    requires forall i, j | 0 <= i < j < |s| :: key(s[i]) != key(s[j])
    ensures |Select(s, key, k)| <= 1
  {
    if s != [] {
      SelectAtMostOne(s[1..], key, k);
      if key(s[0]) == k {
        SelectEmpty(s[1..], key, k);
      }
    }
  }

  // ----- sorting every bucket of a dictionary -----

  /** `Object.keys(groups).forEach(k => groups[k].sort(...))`: every listed bucket is sorted in
      place; unlisted buckets are left alone. */
  method SortBuckets<K, T>(keys: seq<K>, groups: map<K, seq<T>>, key: T -> int) returns (sorted: map<K, seq<T>>)
    requires Distinct(keys)
    requires forall k | k in keys :: k in groups
    ensures sorted.Keys == groups.Keys
    ensures forall k | k in sorted :: sorted[k] == if k in keys then SortDesc(groups[k], key) else groups[k]
  {
    sorted := groups;
    for i := 0 to |keys|
      invariant sorted.Keys == groups.Keys
      invariant forall k | k in sorted :: sorted[k] == if k in keys[..i] then SortDesc(groups[k], key) else groups[k]
    {
      var k := keys[i];
      assert k !in keys[..i];
      sorted := sorted[k := SortDesc(sorted[k], key)];
      assert keys[..i + 1] == keys[..i] + [k];
    }
    assert keys[..|keys|] == keys;
  }
}
