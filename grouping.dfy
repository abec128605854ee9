/** Bucketing a list by a key, the way the JavaScript builds `{ key: [items...] }` dictionaries:
    walk the list in order, create a bucket the first time a key is seen, push the item into
    its bucket. Buckets come out in first-seen key order and each keeps input order.
    Used for the report groups, the history year buckets, the comprehensive-table categories
    and the navigation menu's specialized groups. */
module Grouping {

  /** No value occurs twice. */
  predicate Distinct<K(==)>(ks: seq<K>) {
    forall i, j | 0 <= i < j < |ks| :: ks[i] != ks[j]
  }

  /** The bucket of key `k`: the elements of `s` whose key is `k`, in input order. */
  function Select<T, K(==)>(s: seq<T>, key: T -> K, k: K): seq<T>
  {
    if s == [] then [] else (if key(s[0]) == k then [s[0]] else []) + Select(s[1..], key, k)
  }

  /** The elements of `s` that `keep` accepts, in order. */
  function Filter<T>(s: seq<T>, keep: T -> bool): seq<T>
  {
    if s == [] then []
    else
      var v := Filter(s[..|s| - 1], keep);
      if keep(s[|s| - 1]) then v + [s[|s| - 1]] else v
  }

  /** A filter that accepts every element keeps the whole sequence. */
  lemma {:induction false} FilterAll<T>(s: seq<T>, keep: T -> bool)
    requires forall i | 0 <= i < |s| :: keep(s[i])
    ensures Filter(s, keep) == s
  {
    if s != [] {
      var n := |s| - 1;
      var p := s[..n];
      assert forall i | 0 <= i < n :: p[i] == s[i];
      FilterAll(p, keep);
      assert p + [s[n]] == s;
    }
  }

  /** The keys of `s` in the order they are first seen. */
  function Keys<T, K(==)>(s: seq<T>, key: T -> K): seq<K>
  {
    if s == [] then []
    else
      var ks := Keys(s[..|s| - 1], key);
      if key(s[|s| - 1]) in ks then ks else ks + [key(s[|s| - 1])]
  }

  /** The buckets of the keys `ks`, one after the other. */
  function Gather<T, K(==)>(ks: seq<K>, s: seq<T>, key: T -> K): seq<T>
  {
    if ks == [] then [] else Select(s, key, ks[0]) + Gather(ks[1..], s, key)
  }

  /** Some element of `s` has key `k`. */
  predicate HasKey<T, K(==)>(s: seq<T>, key: T -> K, k: K) {
    exists i | 0 <= i < |s| :: key(s[i]) == k
  }

  /** The index at which key `k` is first seen in `s`. */
  function FirstIndex<T, K(==)>(s: seq<T>, key: T -> K, k: K): (i: nat)
    requires HasKey(s, key, k)
    ensures i < |s| && key(s[i]) == k
    ensures forall j | 0 <= j < i :: key(s[j]) != k
  {
    if key(s[0]) == k then 0
    else
      assert HasKey(s[1..], key, k) by {
        var j :| 0 <= j < |s| && key(s[j]) == k;
        assert s[1..][j - 1] == s[j];
      }
      1 + FirstIndex(s[1..], key, k)
  }

  // ----- buckets -----

  /** Bucketing a concatenation buckets each part. */
  lemma {:induction false} SelectAppend<T, K>(a: seq<T>, b: seq<T>, key: T -> K, k: K)
    ensures Select(a + b, key, k) == Select(a, key, k) + Select(b, key, k)
  {
    if a == [] {
      assert a + b == b;
    } else {
      assert (a + b)[0] == a[0];
      assert (a + b)[1..] == a[1..] + b;
      SelectAppend(a[1..], b, key, k);
      var head := if key(a[0]) == k then [a[0]] else [];
      calc {
        Select(a + b, key, k);
        head + Select(a[1..] + b, key, k);
        head + (Select(a[1..], key, k) + Select(b, key, k));
        (head + Select(a[1..], key, k)) + Select(b, key, k);
      }
    }
  }

  /** Every element lands in the bucket of its own key, as often as it occurs in `s`, and in no other. */
  lemma {:induction false} SelectCount<T, K>(s: seq<T>, key: T -> K, k: K, x: T)
    ensures multiset(Select(s, key, k))[x] == if key(x) == k then multiset(s)[x] else 0
  {
    if s != [] {
      SelectCount(s[1..], key, k, x);
      assert s == [s[0]] + s[1..];
    }
  }

  /** A bucket holds exactly the elements of `s` with its key. */
  lemma SelectMembership<T, K>(s: seq<T>, key: T -> K, k: K, x: T)
    ensures x in Select(s, key, k) <==> x in s && key(x) == k
  {
    SelectCount(s, key, k, x);
  }

  /** Every element of a bucket carries the bucket's key. */
  lemma SelectKeys<T, K>(s: seq<T>, key: T -> K, k: K)
    ensures forall i | 0 <= i < |Select(s, key, k)| :: key(Select(s, key, k)[i]) == k
  {
    forall i | 0 <= i < |Select(s, key, k)| ensures key(Select(s, key, k)[i]) == k {
      SelectMembership(s, key, k, Select(s, key, k)[i]);
    }
  }

  /** A bucket is empty exactly when no element has its key. */
  lemma SelectEmpty<T, K>(s: seq<T>, key: T -> K, k: K)
    ensures Select(s, key, k) == [] <==> forall i | 0 <= i < |s| :: key(s[i]) != k
  {
    if Select(s, key, k) == [] {
      forall i | 0 <= i < |s| ensures key(s[i]) != k {
        SelectMembership(s, key, k, s[i]);
      }
    } else {
      var x := Select(s, key, k)[0];
      SelectMembership(s, key, k, x);
    }
  }

  // ----- first-seen keys -----

  /** The first-seen keys are pairwise distinct and are exactly the keys that occur. */
  lemma {:induction false} KeysProperties<T, K>(s: seq<T>, key: T -> K)
    ensures Distinct(Keys(s, key))
    ensures forall k | k in Keys(s, key) :: HasKey(s, key, k)
    ensures forall i | 0 <= i < |s| :: key(s[i]) in Keys(s, key)
  {
    if s != [] {
      var p := s[..|s| - 1];
      KeysProperties(p, key);
      forall k | k in Keys(s, key) ensures HasKey(s, key, k) {
        if k in Keys(p, key) {
          var i :| 0 <= i < |p| && key(p[i]) == k;
          assert key(s[i]) == k;
        } else {
          assert key(s[|s| - 1]) == k;
        }
      }
      forall i | 0 <= i < |s| ensures key(s[i]) in Keys(s, key) {
        if i < |s| - 1 {
          assert s[i] == p[i];
        }
      }
    }
  }

  /** A listed key occurs in `s`. */
  lemma KeyOccurs<T, K>(s: seq<T>, key: T -> K, k: K)
    requires k in Keys(s, key)
    ensures HasKey(s, key, k)
  {
    KeysProperties(s, key);
  }

  /** The key of every element is listed. */
  lemma KeyListed<T, K>(s: seq<T>, key: T -> K, i: nat)
    requires i < |s|
    ensures key(s[i]) in Keys(s, key)
  {
    KeysProperties(s, key);
  }

  /** Every first-seen key has a non-empty bucket. */
  lemma KeysHaveBuckets<T, K>(s: seq<T>, key: T -> K)
    ensures forall k | k in Keys(s, key) :: Select(s, key, k) != []
  {
    forall k | k in Keys(s, key) ensures Select(s, key, k) != [] {
      KeyOccurs(s, key, k);
      SelectEmpty(s, key, k);
    }
  }

  /** The key of the element at position `i` is first seen no later than `i`. */
  lemma FirstIndexAtMost<T, K>(s: seq<T>, key: T -> K, i: nat)
    requires i < |s|
    ensures FirstIndex(s, key, key(s[i])) <= i
  {
  }

  /** Keys are listed in the order of their first occurrence. */
  lemma {:induction false} KeysInFirstSeenOrder<T, K>(s: seq<T>, key: T -> K, a: nat, b: nat)
    requires a < b < |Keys(s, key)|
    ensures KeysOccur(s, key, a, b)
    ensures FirstIndex(s, key, Keys(s, key)[a]) < FirstIndex(s, key, Keys(s, key)[b])
  {
    var p := s[..|s| - 1];
    var x := s[|s| - 1];
    assert s == p + [x];
    var ks := Keys(p, key);
    KeyOccurs(s, key, Keys(s, key)[a]);
    KeyOccurs(s, key, Keys(s, key)[b]);
    if key(x) in ks || b < |ks| {
      assert Keys(s, key)[a] == ks[a] && Keys(s, key)[b] == ks[b];
      KeysInFirstSeenOrder(p, key, a, b);
      FirstIndexOfPrefix(p, x, key, ks[a]);
      FirstIndexOfPrefix(p, x, key, ks[b]);
    } else {
      assert Keys(s, key) == ks + [key(x)];
      assert Keys(s, key)[b] == key(x);
      KeyOccurs(p, key, ks[a]);
      FirstIndexOfPrefix(p, x, key, ks[a]);
      forall j | 0 <= j < |p| ensures key(s[j]) != key(x) {
        assert s[j] == p[j];
        KeyListed(p, key, j);
      }
    }
  }

  /** Both keys at positions `a` and `b` occur in `s` (so their first indices exist). */
  predicate KeysOccur<T, K(==)>(s: seq<T>, key: T -> K, a: nat, b: nat)
    requires a < b < |Keys(s, key)|
  {
    HasKey(s, key, Keys(s, key)[a]) && HasKey(s, key, Keys(s, key)[b])
  }

  /** Appending an element does not move the first occurrence of a key already present. */
  lemma FirstIndexOfPrefix<T, K>(p: seq<T>, x: T, key: T -> K, k: K)
    requires HasKey(p, key, k)
    ensures HasKey(p + [x], key, k)
    ensures FirstIndex(p + [x], key, k) == FirstIndex(p, key, k)
  {
    var j :| 0 <= j < |p| && key(p[j]) == k;
    assert (p + [x])[j] == p[j];
    var i := FirstIndex(p, key, k);
    assert (p + [x])[i] == p[i];
  }

  /** In a duplicate-free list no element occurs before its own position. */
  lemma DistinctPrefix<K>(ks: seq<K>, a: nat)
    requires Distinct(ks) && a < |ks|
    ensures ks[a] !in ks[..a]
  {
    forall m | 0 <= m < a ensures ks[..a][m] != ks[a] {
      assert ks[..a][m] == ks[m];
    }
  }

  /** No two elements of `s` share a key. */
  predicate UniqueKeys<T, K(==)>(s: seq<T>, key: T -> K) {
    forall i, j | 0 <= i < j < |s| :: key(s[i]) != key(s[j])
  }

  /** When no two elements share a key, the keys are listed one per element, in order. */
  lemma {:induction false} KeysOfUnique<T, K>(s: seq<T>, key: T -> K)
    requires UniqueKeys(s, key)
    ensures |Keys(s, key)| == |s|
    ensures forall i | 0 <= i < |s| :: Keys(s, key)[i] == key(s[i])
  {
    if s != [] {
      var n := |s| - 1;
      var p := s[..n];
      assert UniqueKeys(p, key) by {
        forall i | 0 <= i < n ensures p[i] == s[i] { }
      }
      KeysOfUnique(p, key);
      forall i | 0 <= i < n ensures Keys(p, key)[i] != key(s[n]) {
        assert p[i] == s[i];
      }
    }
  }

  /** When no two elements share a key, each element's bucket holds just that element. */
  lemma {:induction false} SelectOfUnique<T, K>(s: seq<T>, key: T -> K, j: nat)
    requires UniqueKeys(s, key) && j < |s|
    ensures Select(s, key, key(s[j])) == [s[j]]
  {
    var t := s[1..];
    assert forall i | 0 <= i < |t| :: t[i] == s[i + 1];
    if j == 0 {
      SelectEmpty(t, key, key(s[0]));
    } else {
      assert UniqueKeys(t, key);
      SelectOfUnique(t, key, j - 1);
    }
  }

  /** A rearrangement of a duplicate-free list is duplicate-free. */
  lemma DistinctPermutation<K>(a: seq<K>, b: seq<K>)
    requires Distinct(a) && multiset(a) == multiset(b)
    ensures Distinct(b)
  {
    forall i, j | 0 <= i < j < |b| ensures b[i] != b[j] {
      DistinctCount(a, b[i]);
      if b[i] == b[j] {
        DuplicateCount(b, i, j);
      }
    }
  }

  /** A value at two positions occurs at least twice. */
  lemma DuplicateCount<K>(b: seq<K>, i: nat, j: nat)
    requires i < j < |b| && b[i] == b[j]
    ensures multiset(b)[b[i]] >= 2
  {
    assert b == b[..j] + b[j..];
    assert b[..j][i] == b[i] && b[j..][0] == b[j];
    assert multiset(b[..j])[b[i]] >= 1 && multiset(b[j..])[b[i]] >= 1;
  }

  /** In a duplicate-free list every value occurs at most once. */
  lemma {:induction false} DistinctCount<K>(a: seq<K>, x: K)
    requires Distinct(a)
    ensures multiset(a)[x] <= 1
  {
    if a != [] {
      assert Distinct(a[1..]);
      DistinctCount(a[1..], x);
      assert a == [a[0]] + a[1..];
      if a[0] == x {
        assert x !in a[1..];
      }
    }
  }

  // ----- the buckets put back together -----

  lemma {:induction false} GatherOfEmpty<T, K>(ks: seq<K>, key: T -> K)
    ensures Gather(ks, [], key) == []
  {
    if ks != [] {
      GatherOfEmpty(ks[1..], key);
    }
  }

  /** Adding one element in front of `s` adds it to the gathered buckets once if its key is listed. */
  lemma {:induction false} GatherCons<T, K>(ks: seq<K>, x: T, s: seq<T>, key: T -> K)
    requires Distinct(ks)
    ensures multiset(Gather(ks, [x] + s, key))
         == multiset(Gather(ks, s, key)) + (if key(x) in ks then multiset{x} else multiset{})
  {
    if ks != [] {
      assert ([x] + s)[0] == x && ([x] + s)[1..] == s;
      assert Distinct(ks[1..]);
      GatherCons(ks[1..], x, s, key);
      if key(x) == ks[0] {
        assert key(x) !in ks[1..];
      }
    }
  }

  /** Gathering the buckets of a duplicate-free key list that covers every key gives back a
      permutation of the input: every element is in exactly one bucket. */
  lemma {:induction false} GatherIsPermutation<T, K>(ks: seq<K>, s: seq<T>, key: T -> K)
    requires Distinct(ks)
    requires forall i | 0 <= i < |s| :: key(s[i]) in ks
    ensures multiset(Gather(ks, s, key)) == multiset(s)
  {
    if s == [] {
      GatherOfEmpty(ks, key);
    } else {
      GatherIsPermutation(ks, s[1..], key);
      GatherCons(ks, s[0], s[1..], key);
      assert [s[0]] + s[1..] == s;
    }
  }

  /** The buckets in first-seen key order are a permutation of the input. */
  lemma KeysGatherIsPermutation<T, K>(s: seq<T>, key: T -> K)
    ensures multiset(Gather(Keys(s, key), s, key)) == multiset(s)
  {
    KeysProperties(s, key);
    GatherIsPermutation(Keys(s, key), s, key);
  }

  /** The buckets of `groups` listed in `ks`, one after the other. */
  function Concat<K, T>(ks: seq<K>, groups: map<K, seq<T>>): seq<T>
    requires forall k | k in ks :: k in groups
  {
    if ks == [] then [] else groups[ks[0]] + Concat(ks[1..], groups)
  }

  /** Concatenating buckets that are rearrangements of the true buckets rearranges `Gather`. */
  lemma {:induction false} ConcatIsGather<K, T>(ks: seq<K>, groups: map<K, seq<T>>, s: seq<T>, key: T -> K)
    requires forall k | k in ks :: k in groups && multiset(groups[k]) == multiset(Select(s, key, k))
    ensures multiset(Concat(ks, groups)) == multiset(Gather(ks, s, key))
  {
    if ks != [] {
      ConcatIsGather(ks[1..], groups, s, key);
    }
  }

  /** `ks.forEach(k => out.push(...groups[k]))`. */
  method ConcatInOrder<K, T>(ks: seq<K>, groups: map<K, seq<T>>) returns (out: seq<T>)
    requires forall k | k in ks :: k in groups
    ensures out == Concat(ks, groups)
  {
    out := [];
    assert ks[0..] == ks;
    for a := 0 to |ks|
      invariant out + Concat(ks[a..], groups) == Concat(ks, groups)
    {
      var rest := Concat(ks[a + 1..], groups);
      assert ks[a..][1..] == ks[a + 1..];
      assert Concat(ks[a..], groups) == groups[ks[a]] + rest;
      assert (out + groups[ks[a]]) + rest == out + (groups[ks[a]] + rest);
      out := out + groups[ks[a]];
    }
    assert ks[|ks|..] == [];
  }

  // ----- the dictionary-building loop -----

  /** `for (item of s) { if (!groups[k]) groups[k] = []; groups[k].push(item) }`, remembering the
      order in which keys were created (the order `Object.keys` reports them in). */
  method GroupBy<T, K(==)>(s: seq<T>, key: T -> K) returns (keys: seq<K>, groups: map<K, seq<T>>)
    ensures keys == Keys(s, key)
    ensures forall k :: k in groups <==> k in keys
    ensures forall k | k in groups :: groups[k] == Select(s, key, k) && groups[k] != []
  {
    keys, groups := [], map[];
    for i := 0 to |s|
      invariant keys == Keys(s[..i], key)
      invariant forall k :: k in groups <==> k in keys
      invariant forall k | k in groups :: groups[k] == Select(s[..i], key, k)
    {
      var k := key(s[i]);
      assert s[..i + 1][..i] == s[..i];
      forall k' ensures Select(s[..i + 1], key, k') == Select(s[..i], key, k') + (if k == k' then [s[i]] else []) {
        assert s[..i + 1] == s[..i] + [s[i]];
        SelectAppend(s[..i], [s[i]], key, k');
        assert Select([s[i]], key, k') == (if k == k' then [s[i]] else []) + Select([], key, k');
      }
      if k !in groups {
        forall j | 0 <= j < i ensures key(s[..i][j]) != k {
          KeyListed(s[..i], key, j);
        }
        SelectEmpty(s[..i], key, k);
        keys := keys + [k];
        groups := groups[k := []];
      }
      ghost var before := groups;
      groups := groups[k := groups[k] + [s[i]]];
      forall k' | k' in groups ensures groups[k'] == Select(s[..i + 1], key, k') {
        assert Select(s[..i + 1], key, k') == Select(s[..i], key, k') + (if k == k' then [s[i]] else []);
        if k' != k {
          assert groups[k'] == before[k'];
        } else {
          assert before[k] == Select(s[..i], key, k);
        }
      }
    }
    assert s[..|s|] == s;
    KeysHaveBuckets(s, key);
  }
}
