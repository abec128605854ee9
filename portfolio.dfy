/** The asset list of the portfolio page (`src/view/fund/index.js`): entries with a name, a
    percentage, a description and a colour, merged by name, edited through a modal form, and
    written out as a `fund_data_list.js` text. Percentages are whole numbers here; an entry
    whose percentage is not a number carries `None`. */
module Portfolio {
  import opened Wrappers
  import opened Text
  import opened Grouping

  const DefaultColor: string := "#999999"

  /** An entry as it arrives from a data file, local storage or the form. A missing name,
      description or colour is the empty string; `percentage` is `None` where `Number(...)`
      would give NaN. */
  datatype RawAsset = RawAsset(name: string, percentage: Option<int>, description: string, color: string)

  /** An entry of the merged list. */
  datatype Asset = Asset(name: string, percentage: int, description: string, color: string)

  /** `(raw.name || '').trim()`: the name an entry is merged under. */
  function Key(raw: RawAsset): string {
    Trim(raw.name)
  }

  /** `Number(raw.percentage) || 0`. */
  function Pct(raw: RawAsset): int {
    raw.percentage.GetOr(0)
  }

  function Max0(x: int): (r: int)
    ensures r >= 0 && r >= x && (x >= 0 ==> r == x)
  {
    if x >= 0 then x else 0
  }

  // ----- dedupeByName -----

  /** The merged entry created the first time a name is seen: trimmed name, percentage clamped
      at 0, colour defaulting to `#999999`. */
  function Start(raw: RawAsset): Asset {
    Asset(Key(raw), Max0(Pct(raw)), raw.description, if raw.color == "" then DefaultColor else raw.color)
  }

  /** A later entry with the same name: its percentage is added (and the sum clamped at 0), its
      description fills a missing one, and the colour stays. */
  function Absorb(a: Asset, raw: RawAsset): Asset {
    a.(percentage := Max0(a.percentage + Pct(raw)),
       description := if a.description == "" && raw.description != "" then raw.description else a.description)
  }

  /** The entry one name's occurrences merge into, in input order. */
  function Merge(g: seq<RawAsset>): Asset
    requires g != []
  {
    if |g| == 1 then Start(g[0]) else Absorb(Merge(g[..|g| - 1]), g[|g| - 1])
  }

  /** The entries whose trimmed name is not empty, in order. */
  function Valid(list: seq<RawAsset>): seq<RawAsset>
  {
    Filter(list, Named)
  }

  predicate Named(raw: RawAsset) {
    Key(raw) != ""
  }

  /** The merged list: one entry per trimmed name, in the order the names are first seen. */
  function DedupeSpec(list: seq<RawAsset>): (out: seq<Asset>)
    ensures |out| == |Keys(Valid(list), Key)|
  {
    var v := Valid(list);
    var ks := Keys(v, Key);
    KeysHaveBuckets(v, Key);
    seq(|ks|, j requires 0 <= j < |ks| => Merge(Select(v, Key, ks[j])))
  }

  lemma DedupeSpecAt(list: seq<RawAsset>, j: nat)
    requires j < |DedupeSpec(list)|
    ensures Select(Valid(list), Key, Keys(Valid(list), Key)[j]) != []
    ensures DedupeSpec(list)[j] == Merge(Select(Valid(list), Key, Keys(Valid(list), Key)[j]))
  {
    KeysHaveBuckets(Valid(list), Key);
  }

  /** `dedupeByName`: entries with an empty name are skipped, the rest are merged into a `Map`
      from trimmed name to merged entry, and the result is the map's values in insertion order. */
  method DedupeByName(list: seq<RawAsset>) returns (out: seq<Asset>)
    ensures out == DedupeSpec(list)
  {
    var names, merged := MergeByName(list);
    out := seq(|names|, j requires 0 <= j < |names| => merged[names[j]]);
    forall j | 0 <= j < |out| ensures out[j] == DedupeSpec(list)[j] {
      DedupeSpecAt(list, j);
    }
  }

  /** The pass of `dedupeByName` over the list: `names` is the map's insertion order and every
      map entry is the merge of its name's occurrences. */
  method MergeByName(list: seq<RawAsset>) returns (names: seq<string>, merged: map<string, Asset>)
    ensures names == Keys(Valid(list), Key)
    ensures forall k :: k in merged <==> k in names
    ensures forall k | k in merged :: Select(Valid(list), Key, k) != []
              && merged[k] == Merge(Select(Valid(list), Key, k))
  {
    names := [];
    merged := map[];
    for i := 0 to |list|
      invariant names == Keys(Valid(list[..i]), Key)
      invariant forall k :: k in merged <==> k in names
      invariant forall k | k in merged :: Select(Valid(list[..i]), Key, k) != []
                  && merged[k] == Merge(Select(Valid(list[..i]), Key, k))
    {
      var raw := list[i];
      var key := Trim(raw.name);
      assert list[..i + 1][..i] == list[..i];
      ghost var v := Valid(list[..i]);
      if key == "" {
        assert Valid(list[..i + 1]) == v;
        continue;
      }
      assert Valid(list[..i + 1]) == v + [raw];
      KeysSnoc(v, raw);
      ghost var before := merged;
      if key in merged {
        merged := merged[key := Absorb(merged[key], raw)];
      } else {
        forall j | 0 <= j < |v| ensures Key(v[j]) != key {
          KeyListed(v, Key, j);
        }
        SelectEmpty(v, Key, key);
        merged := merged[key := Start(raw)];
        names := names + [key];
      }
      MergedAfter(v, raw, before, merged);
    }
    assert list[..|list|] == list;
  }

  /** The names after one more entry: its name is appended unless already present. */
  lemma KeysSnoc(v: seq<RawAsset>, raw: RawAsset)
    ensures Keys(v + [raw], Key) == if Key(raw) in Keys(v, Key) then Keys(v, Key) else Keys(v, Key) + [Key(raw)]
  {
    assert (v + [raw])[..|v|] == v;
  }

  /** One step of the pass: the map entry of the entry's name is created or absorbs it, and
      every map entry is again the merge of its name's occurrences so far. */
  lemma MergedAfter(v: seq<RawAsset>, raw: RawAsset, before: map<string, Asset>, after: map<string, Asset>)
    requires Key(raw) != ""
    requires forall k | k in before :: Select(v, Key, k) != [] && before[k] == Merge(Select(v, Key, k))
    requires Key(raw) !in before ==> Select(v, Key, Key(raw)) == []
    requires after == before[Key(raw) := if Key(raw) in before then Absorb(before[Key(raw)], raw) else Start(raw)]
    ensures forall k | k in after :: Select(v + [raw], Key, k) != [] && after[k] == Merge(Select(v + [raw], Key, k))
  {
    forall k | k in after ensures Select(v + [raw], Key, k) != [] && after[k] == Merge(Select(v + [raw], Key, k)) {
      MergedAt(v, raw, before, after, k);
    }
  }

  lemma MergedAt(v: seq<RawAsset>, raw: RawAsset, before: map<string, Asset>, after: map<string, Asset>, k: string)
    requires k in after
    requires k in before ==> Select(v, Key, k) != [] && before[k] == Merge(Select(v, Key, k))
    requires Key(raw) !in before ==> Select(v, Key, Key(raw)) == []
    requires after == before[Key(raw) := if Key(raw) in before then Absorb(before[Key(raw)], raw) else Start(raw)]
    ensures Select(v + [raw], Key, k) != [] && after[k] == Merge(Select(v + [raw], Key, k))
  {
    SelectSnoc(v, raw, k);
    if k != Key(raw) {
      assert Select(v + [raw], Key, k) == Select(v, Key, k);
    } else if k in before {
      MergeSnoc(Select(v, Key, k), raw);
    } else {
      assert Select(v + [raw], Key, k) == [raw];
    }
  }

  /** The buckets after one more entry: only its own name's bucket grows, by that entry. */
  lemma SelectSnoc(v: seq<RawAsset>, raw: RawAsset, k: string)
    ensures Select(v + [raw], Key, k) == Select(v, Key, k) + (if Key(raw) == k then [raw] else [])
  {
    SelectAppend(v, [raw], Key, k);
    assert Select([raw], Key, k) == (if Key(raw) == k then [raw] else []) + Select([], Key, k);
  }

  /** Merging one more occurrence absorbs it into the merged entry. */
  lemma MergeSnoc(g: seq<RawAsset>, raw: RawAsset)
    requires g != []
    ensures Merge(g + [raw]) == Absorb(Merge(g), raw)
  {
    assert (g + [raw])[..|g|] == g;
  }

  // ----- what a merged entry holds -----

  /** The first non-empty description, or the empty string. */
  function FirstDescription(g: seq<RawAsset>): string {
    if g == [] then "" else if g[0].description != "" then g[0].description else FirstDescription(g[1..])
  }

  /** Sum of the percentages, with NaN read as 0. */
  function Total(g: seq<RawAsset>): int {
    if g == [] then 0 else Pct(g[0]) + Total(g[1..])
  }

  predicate NonNegative(g: seq<RawAsset>) {
    forall i | 0 <= i < |g| :: Pct(g[i]) >= 0
  }

  lemma {:induction false} TotalAppend(a: seq<RawAsset>, b: seq<RawAsset>)
    ensures Total(a + b) == Total(a) + Total(b)
  {
    if a == [] {
      assert a + b == b;
    } else {
      assert (a + b)[0] == a[0] && (a + b)[1..] == a[1..] + b;
      TotalAppend(a[1..], b);
    }
  }

  lemma {:induction false} FirstDescriptionAppend(g: seq<RawAsset>, raw: RawAsset)
    ensures FirstDescription(g + [raw]) == if FirstDescription(g) != "" then FirstDescription(g) else raw.description
  {
    if g != [] {
      assert (g + [raw])[0] == g[0] && (g + [raw])[1..] == g[1..] + [raw];
      FirstDescriptionAppend(g[1..], raw);
    } else {
      assert [] + [raw] == [raw];
      assert [raw][1..] == [];
    }
  }

  /** A merged entry keeps the first occurrence's colour (or the default), takes the first
      non-empty description, never has a negative percentage, and, when no percentage is negative,
      has the sum of the percentages. */
  lemma MergeSpec(g: seq<RawAsset>)
    requires g != []
    ensures Merge(g).name == Key(g[0])
    ensures Merge(g).color == if g[0].color == "" then DefaultColor else g[0].color
    ensures Merge(g).description == FirstDescription(g)
    ensures Merge(g).percentage >= 0
    ensures NonNegative(g) ==> Merge(g).percentage == Total(g)
  {
    MergeFirst(g);
    MergeDescription(g);
    MergePercentage(g);
  }

  /** Name and colour come from the first occurrence. */
  lemma {:induction false} MergeFirst(g: seq<RawAsset>)
    requires g != []
    ensures Merge(g).name == Key(g[0])
    ensures Merge(g).color == if g[0].color == "" then DefaultColor else g[0].color
    decreases |g|
  {
    if |g| > 1 {
      var p := g[..|g| - 1];
      MergeFirst(p);
      assert p[0] == g[0];
    }
  }

  lemma {:induction false} MergeDescription(g: seq<RawAsset>)
    requires g != []
    ensures Merge(g).description == FirstDescription(g)
    decreases |g|
  {
    if |g| == 1 {
      assert g[1..] == [];
    } else {
      var p := g[..|g| - 1];
      var x := g[|g| - 1];
      assert g == p + [x];
      MergeDescription(p);
      FirstDescriptionAppend(p, x);
    }
  }

  /** The percentage is clamped at 0 at every step, so it is never negative, and without negative
      inputs the clamp never bites: it is the sum. */
  lemma {:induction false} MergePercentage(g: seq<RawAsset>)
    requires g != []
    ensures Merge(g).percentage >= 0
    ensures NonNegative(g) ==> Merge(g).percentage == Total(g)
    decreases |g|
  {
    if |g| == 1 {
      assert g[1..] == [];
    } else {
      var p := g[..|g| - 1];
      var x := g[|g| - 1];
      assert g == p + [x];
      MergePercentage(p);
      if NonNegative(g) {
        assert NonNegative(p) by {
          forall i | 0 <= i < |p| ensures Pct(p[i]) >= 0 {
            assert p[i] == g[i];
          }
        }
        TotalAppend(p, [x]);
        assert Total([x]) == Pct(x) + Total([]);
      }
    }
  }

  /** The names of the merged list: each is a trimmed, non-empty name of some input entry; every
      input entry with a non-empty trimmed name is represented; no name occurs twice; and the
      names appear in the order they are first seen. */
  lemma DedupeNames(list: seq<RawAsset>)
    ensures forall i | 0 <= i < |DedupeSpec(list)| ::
              DedupeSpec(list)[i].name != "" && Trim(DedupeSpec(list)[i].name) == DedupeSpec(list)[i].name
              && DedupeSpec(list)[i].name == Keys(Valid(list), Key)[i]
    ensures forall i, j | 0 <= i < j < |DedupeSpec(list)| :: DedupeSpec(list)[i].name != DedupeSpec(list)[j].name
    ensures forall i | 0 <= i < |list| && Key(list[i]) != "" :: Key(list[i]) in Keys(Valid(list), Key)
    ensures forall k | k in Keys(Valid(list), Key) :: exists i | 0 <= i < |list| :: Key(list[i]) == k
  {
    var v := Valid(list);
    var ks := Keys(v, Key);
    var out := DedupeSpec(list);
    KeysProperties(v, Key);
    forall i | 0 <= i < |out| ensures out[i].name == ks[i] && out[i].name != "" && Trim(out[i].name) == out[i].name {
      DedupeSpecAt(list, i);
      var g := Select(v, Key, ks[i]);
      MergeSpec(g);
      SelectKeys(v, Key, ks[i]);
      assert Key(g[0]) == ks[i];
      TrimIdempotent(g[0].name);
      assert g[0] in g;
      SelectMembership(v, Key, ks[i], g[0]);
      var m :| 0 <= m < |v| && v[m] == g[0];
      ValidNamed(list, m);
    }
    forall i | 0 <= i < |list| && Key(list[i]) != "" ensures Key(list[i]) in ks {
      ValidKeeps(list, i);
    }
    forall k | k in ks ensures exists i | 0 <= i < |list| :: Key(list[i]) == k {
      KeyOccurs(v, Key, k);
      var j :| 0 <= j < |v| && Key(v[j]) == k;
      ValidFrom(list, j);
    }
  }

  /** Only entries with a non-empty trimmed name survive the filter. */
  lemma {:induction false} ValidNamed(list: seq<RawAsset>, j: nat)
    requires j < |Valid(list)|
    ensures Key(Valid(list)[j]) != ""
  {
    var n := |list| - 1;
    var v := Valid(list[..n]);
    if j < |v| {
      ValidNamed(list[..n], j);
    }
  }

  /** Every entry with a non-empty trimmed name survives the filter. */
  lemma {:induction false} ValidKeeps(list: seq<RawAsset>, i: nat)
    requires i < |list| && Key(list[i]) != ""
    ensures list[i] in Valid(list)
    ensures Key(list[i]) in Keys(Valid(list), Key)
  {
    var n := |list| - 1;
    var v := Valid(list[..n]);
    assert Valid(list) == v + [list[n]] || Valid(list) == v;
    if i < n {
      assert list[..n][i] == list[i];
      ValidKeeps(list[..n], i);
      assert list[i] in v;
    } else {
      assert Valid(list) == v + [list[n]];
    }
    assert list[i] in Valid(list);
    var j :| 0 <= j < |Valid(list)| && Valid(list)[j] == list[i];
    KeyListed(Valid(list), Key, j);
  }

  /** Every entry that survives the filter is an input entry. */
  lemma {:induction false} ValidFrom(list: seq<RawAsset>, j: nat)
    requires j < |Valid(list)|
    ensures exists i | 0 <= i < |list| :: list[i] == Valid(list)[j]
  {
    var n := |list| - 1;
    if j < |Valid(list[..n])| {
      ValidFrom(list[..n], j);
      var i :| 0 <= i < n && list[..n][i] == Valid(list[..n])[j];
      assert list[i] == list[..n][i];
    } else {
      assert Valid(list)[j] == list[n];
    }
  }

  /** Each merged entry holds its name's first-occurrence colour, first non-empty description
      and a percentage that is never negative. */
  lemma DedupeFields(list: seq<RawAsset>, j: nat)
    requires j < |DedupeSpec(list)|
    ensures Select(Valid(list), Key, Keys(Valid(list), Key)[j]) != []
    ensures var g := Select(Valid(list), Key, Keys(Valid(list), Key)[j]);
            DedupeSpec(list)[j].color == (if g[0].color == "" then DefaultColor else g[0].color)
            && DedupeSpec(list)[j].description == FirstDescription(g)
            && DedupeSpec(list)[j].percentage >= 0
  {
    DedupeSpecAt(list, j);
    MergeSpec(Select(Valid(list), Key, Keys(Valid(list), Key)[j]));
  }

  // ----- percentages are conserved -----

  /** The sum of the merged percentages. */
  function SumPercent(out: seq<Asset>): int {
    if out == [] then 0 else out[0].percentage + SumPercent(out[1..])
  }

  /** With no negative percentage anywhere, merging keeps the total: the merged percentages add
      up to the percentages of all entries with a non-empty name. */
  lemma DedupeConservesTotal(list: seq<RawAsset>)
    requires NonNegative(list)
    ensures SumPercent(DedupeSpec(list)) == Total(Valid(list))
  {
    var v := Valid(list);
    var ks := Keys(v, Key);
    var out := DedupeSpec(list);
    ValidNonNegative(list);
    forall j | 0 <= j < |out| ensures out[j].percentage == Total(Select(v, Key, ks[j])) {
      DedupeSpecAt(list, j);
      var g := Select(v, Key, ks[j]);
      SelectSubset(v, Key, ks[j]);
      MergeSpec(g);
    }
    SumOverGroups(out, v, ks);
    KeysGatherIsPermutation(v, Key);
    TotalPermutation(Gather(ks, v, Key), v);
  }

  lemma {:induction false} ValidNonNegative(list: seq<RawAsset>)
    requires NonNegative(list)
    ensures NonNegative(Valid(list))
  {
    if list != [] {
      var n := |list| - 1;
      assert NonNegative(list[..n]) by {
        forall i | 0 <= i < n ensures Pct(list[..n][i]) >= 0 {
          assert list[..n][i] == list[i];
        }
      }
      ValidNonNegative(list[..n]);
    }
  }

  lemma SelectSubset(v: seq<RawAsset>, key: RawAsset -> string, k: string)
    requires NonNegative(v)
    ensures NonNegative(Select(v, key, k))
  {
    var g := Select(v, key, k);
    forall i | 0 <= i < |g| ensures Pct(g[i]) >= 0 {
      assert g[i] in g;
      SelectMembership(v, key, k, g[i]);
      var m :| 0 <= m < |v| && v[m] == g[i];
    }
  }

  lemma {:induction false} SumOverGroups(out: seq<Asset>, v: seq<RawAsset>, ks: seq<string>)
    requires |out| == |ks|
    requires forall j | 0 <= j < |out| :: out[j].percentage == Total(Select(v, Key, ks[j]))
    ensures SumPercent(out) == Total(Gather(ks, v, Key))
  {
    if ks != [] {
      SumOverGroups(out[1..], v, ks[1..]);
      TotalAppend(Select(v, Key, ks[0]), Gather(ks[1..], v, Key));
    }
  }

  /** Reordering entries does not change their total. */
  lemma {:induction false} TotalPermutation(a: seq<RawAsset>, b: seq<RawAsset>)
    requires multiset(a) == multiset(b)
    ensures Total(a) == Total(b)
    decreases |a|
  {
    if a == [] {
      assert |b| == |multiset(b)| == 0;
    } else {
      var x := a[0];
      assert x in multiset(b);
      var i :| 0 <= i < |b| && b[i] == x;
      assert a == [x] + a[1..];
      assert multiset(a[1..]) == multiset(a) - multiset{x};
      RemoveOne(b, i);
      TotalPermutation(a[1..], b[..i] + b[i + 1..]);
      TotalRemoveOne(b, i);
    }
  }

  lemma RemoveOne(b: seq<RawAsset>, i: nat)
    requires i < |b|
    ensures multiset(b[..i] + b[i + 1..]) == multiset(b) - multiset{b[i]}
  {
    assert b == b[..i] + [b[i]] + b[i + 1..];
  }

  lemma {:induction false} TotalRemoveOne(b: seq<RawAsset>, i: nat)
    requires i < |b|
    ensures Total(b) == Pct(b[i]) + Total(b[..i] + b[i + 1..])
  {
    if i == 0 {
      assert b[..i] + b[i + 1..] == b[1..];
    } else {
      var t := b[1..];
      TotalRemoveOne(t, i - 1);
      var rest := b[..i] + b[i + 1..];
      assert rest[0] == b[0] && rest[1..] == t[..i - 1] + t[i..];
    }
  }

  // ----- merging an already merged list changes nothing -----

  function AsRaw(a: Asset): RawAsset {
    RawAsset(a.name, Some(a.percentage), a.description, a.color)
  }

  function AsRaws(s: seq<Asset>): (r: seq<RawAsset>)
    ensures |r| == |s| && forall i | 0 <= i < |s| :: r[i] == AsRaw(s[i])
  {
    seq(|s|, i requires 0 <= i < |s| => AsRaw(s[i]))
  }

  /** What a merged list looks like: trimmed non-empty distinct names, no negative percentage,
      a colour on every entry. */
  predicate Normalized(s: seq<Asset>) {
    (forall i | 0 <= i < |s| ::
       s[i].name != "" && Trimmed(s[i].name) && s[i].percentage >= 0 && s[i].color != "")
    && forall i, j | 0 <= i < j < |s| :: s[i].name != s[j].name
  }

  /** Entries with non-empty names that are pairwise different after trimming. */
  predicate DistinctNamed(list: seq<RawAsset>) {
    (forall i | 0 <= i < |list| :: Key(list[i]) != "") && UniqueKeys(list, Key)
  }

  function Starts(list: seq<RawAsset>): (r: seq<Asset>)
    ensures |r| == |list| && forall i | 0 <= i < |list| :: r[i] == Start(list[i])
  {
    seq(|list|, i requires 0 <= i < |list| => Start(list[i]))
  }

  /** When no two entries share a name, merging only normalises each entry in place. */
  lemma DedupeOfDistinct(list: seq<RawAsset>)
    requires DistinctNamed(list)
    ensures DedupeSpec(list) == Starts(list)
  {
    FilterAll(list, Named);
    KeysOfUnique(list, Key);
    var out := DedupeSpec(list);
    forall j | 0 <= j < |list| ensures out[j] == Start(list[j]) {
      DedupeSpecAt(list, j);
      SelectOfUnique(list, Key, j);
    }
  }

  lemma NormalizedRaws(s: seq<Asset>)
    requires Normalized(s)
    ensures DistinctNamed(AsRaws(s))
    ensures Starts(AsRaws(s)) == s
  {
    forall i | 0 <= i < |s| ensures Key(AsRaw(s[i])) == s[i].name {
      TrimOfTrimmed(s[i].name);
    }
  }

  /** Merging a merged list returns it unchanged: the second merge after an edit, and the merge of
      the list read back from local storage, never change anything. */
  lemma DedupeIdempotent(list: seq<RawAsset>)
    ensures Normalized(DedupeSpec(list))
    ensures DedupeSpec(AsRaws(DedupeSpec(list))) == DedupeSpec(list)
  {
    var out := DedupeSpec(list);
    DedupeNames(list);
    forall i | 0 <= i < |out| ensures out[i].percentage >= 0 && out[i].color != "" {
      DedupeFields(list, i);
    }
    NormalizedRaws(out);
    DedupeOfDistinct(AsRaws(out));
  }

  /** A merged list goes through another merge unchanged. */
  lemma DedupeOfNormalized(s: seq<Asset>)
    requires Normalized(s)
    ensures DedupeSpec(AsRaws(s)) == s
  {
    NormalizedRaws(s);
    DedupeOfDistinct(AsRaws(s));
  }

  // ----- saveAsset -----

  /** `assets.findIndex((a, i) => (a.name || '').trim() === key && i !== current)`: the first
      other entry whose trimmed name is `key`, or -1. */
  function FindOther(s: seq<Asset>, key: string, current: int): (r: int)
    ensures -1 <= r < |s|
    ensures r >= 0 ==> Trim(s[r].name) == key && r != current
    ensures r >= 0 ==> forall i | 0 <= i < r :: Trim(s[i].name) != key || i == current
    ensures r == -1 <==> forall i | 0 <= i < |s| :: Trim(s[i].name) != key || i == current
  {
    FindOtherFrom(s, key, current, 0)
  }

  function FindOtherFrom(s: seq<Asset>, key: string, current: int, from: nat): (r: int)
    requires from <= |s|
    ensures r == -1 || from <= r < |s|
    ensures r >= 0 ==> Trim(s[r].name) == key && r != current
    ensures r >= 0 ==> forall i | from <= i < r :: Trim(s[i].name) != key || i == current
    ensures r == -1 <==> forall i | from <= i < |s| :: Trim(s[i].name) != key || i == current
    decreases |s| - from
  {
    if from == |s| then -1
    else if Trim(s[from].name) == key && from != current then from
    else FindOtherFrom(s, key, current, from + 1)
  }

  /** What an array hole reads as: no name, so the merge skips it. */
  const Hole: RawAsset := RawAsset("", None, "", "")

  /** The `n` holes an assignment past the end of an array leaves before the new element. */
  function Holes(n: nat): (r: seq<RawAsset>)
    ensures |r| == n && forall i | 0 <= i < n :: Key(r[i]) == ""
  {
    seq(n, _ => Hole)
  }

  /** The list after `assets[current] = entry` (or a push when `current` is -1), before the
      merge: an index inside the list is replaced; an index at or past the end extends the
      array, leaving holes in between; any other negative index only sets a property that the
      list's iteration never visits. */
  function Edited(s: seq<Asset>, current: int, entry: RawAsset): (r: seq<RawAsset>)
    ensures current == -1 ==> r == AsRaws(s) + [entry]
    ensures 0 <= current < |s| ==>
              (|r| == |s| && r[current] == entry && forall i | 0 <= i < |s| && i != current :: r[i] == AsRaw(s[i]))
  {
    if current == -1 then AsRaws(s) + [entry]
    else if 0 <= current < |s| then AsRaws(s)[current := entry]
    else if current >= |s| then AsRaws(s) + Holes(current - |s|) + [entry]
    else AsRaws(s)
  }

  /** Saving a valid, unused name into a merged list merges nothing: the entry is appended or
      replaces exactly the edited index, normalised the way the merge normalises a first
      occurrence. */
  lemma SaveDistinct(s: seq<Asset>, current: int, entry: RawAsset)
    requires Normalized(s)
    requires current == -1 || 0 <= current < |s|
    requires Key(entry) != "" && FindOther(s, Key(entry), current) == -1
    ensures DedupeSpec(Edited(s, current, entry)) == if current == -1 then s + [Start(entry)] else s[current := Start(entry)]
  {
    var r := Edited(s, current, entry);
    EditedDistinct(s, current, entry);
    DedupeOfDistinct(r);
    var t := if current == -1 then s + [Start(entry)] else s[current := Start(entry)];
    StartsEdited(s, current, entry, r, t);
  }

  lemma StartsEdited(s: seq<Asset>, current: int, entry: RawAsset, r: seq<RawAsset>, t: seq<Asset>)
    requires forall i | 0 <= i < |s| :: s[i].name != "" && Trimmed(s[i].name) && s[i].percentage >= 0 && s[i].color != ""
    requires |r| == |t| && |t| == if current == -1 then |s| + 1 else |s|
    requires forall i | 0 <= i < |r| :: r[i] == if i == current || i == |s| then entry else AsRaw(s[i])
    requires forall i | 0 <= i < |t| :: t[i] == if i == current || i == |s| then Start(entry) else s[i]
    ensures Starts(r) == t
  {
    forall i | 0 <= i < |r| ensures Starts(r)[i] == t[i] {
      if i != current && i != |s| {
        StartAsRaw(s[i]);
      }
    }
  }

  /** A normalised entry comes back unchanged from a first-occurrence merge. */
  lemma StartAsRaw(a: Asset)
    requires a.name != "" && Trimmed(a.name) && a.percentage >= 0 && a.color != ""
    ensures Start(AsRaw(a)) == a
  {
    TrimOfTrimmed(a.name);
  }

  /** The edited list of a successful save has non-empty, pairwise different trimmed names. */
  lemma EditedDistinct(s: seq<Asset>, current: int, entry: RawAsset)
    requires Normalized(s)
    requires current == -1 || 0 <= current < |s|
    requires Key(entry) != "" && FindOther(s, Key(entry), current) == -1
    ensures DistinctNamed(Edited(s, current, entry))
    ensures |Edited(s, current, entry)| == if current == -1 then |s| + 1 else |s|
    ensures forall i | 0 <= i < |Edited(s, current, entry)| ::
              Edited(s, current, entry)[i] == if i == current || i == |s| then entry else AsRaw(s[i])
  {
    var r := Edited(s, current, entry);
    assert forall i | 0 <= i < |r| :: r[i] == if i == current || i == |s| then entry else AsRaw(s[i]);
    forall i | 0 <= i < |s| ensures Key(AsRaw(s[i])) == s[i].name {
      TrimOfTrimmed(s[i].name);
    }
    forall i, j | 0 <= i < j < |r| ensures Key(r[i]) != Key(r[j]) {
      if i != current && j != current && j != |s| {
        assert Key(r[i]) == s[i].name && Key(r[j]) == s[j].name;
      }
    }
  }

  /** Saving an entry that was opened for editing and not changed gives back the same list. */
  lemma SaveUnedited(s: seq<Asset>, index: nat)
    requires Normalized(s) && index < |s|
    ensures FindOther(s, Trim(s[index].name), index) == -1
    ensures DedupeSpec(Edited(s, index, RawAsset(Trim(s[index].name), Some(s[index].percentage), s[index].description, s[index].color))) == s
  {
    var e := s[index];
    TrimOfTrimmed(e.name);
    forall i | 0 <= i < |s| && i != index ensures Trim(s[i].name) != e.name {
      TrimOfTrimmed(s[i].name);
    }
    var entry := RawAsset(e.name, Some(e.percentage), e.description, e.color);
    SaveDistinct(s, index, entry);
    assert Start(entry) == e;
  }

  /** Removing one entry keeps the others in order, and a merged list stays merged. */
  lemma RemoveAtNormalized(s: seq<Asset>, index: nat)
    requires index < |s|
    ensures var r := s[..index] + s[index + 1..];
            |r| == |s| - 1
            && (forall j | 0 <= j < |r| :: r[j] == if j < index then s[j] else s[j + 1])
            && (Normalized(s) ==> Normalized(r))
  {
    var r := s[..index] + s[index + 1..];
    forall j | 0 <= j < |r| ensures r[j] == if j < index then s[j] else s[j + 1] {
      if j < index {
        assert r[j] == s[..index][j];
      } else {
        assert r[j] == s[index + 1..][j - index];
      }
    }
  }

  /** Removing one entry takes exactly its percentage out of the total. */
  lemma RemoveAtTotal(s: seq<Asset>, index: nat)
    requires index < |s|
    ensures SumPercent(s) == SumPercent(s[..index] + s[index + 1..]) + s[index].percentage
  {
    var a, b := s[..index], s[index + 1..];
    assert s == (a + [s[index]]) + b;
    SumPercentAppend(s[..index] + [s[index]], s[index + 1..]);
    SumPercentAppend(s[..index], [s[index]]);
    SumPercentAppend(s[..index], s[index + 1..]);
    assert SumPercent([s[index]]) == s[index].percentage + SumPercent([]);
  }

  lemma {:induction false} SumPercentAppend(a: seq<Asset>, b: seq<Asset>)
    ensures SumPercent(a + b) == SumPercent(a) + SumPercent(b)
  {
    if a == [] {
      assert a + b == b;
    } else {
      assert (a + b)[0] == a[0] && (a + b)[1..] == a[1..] + b;
      SumPercentAppend(a[1..], b);
    }
  }

  // ----- switchPreset -----

  /** The data file of a preset: 保守 (conservative) loads the small list, 激进 (aggressive) the
      big one, anything else the default file. */
  function PresetFile(preset: string): string {
    if preset == "保守" then "fund_data_list_small.js"
    else if preset == "激进" then "fund_data_list_big.js"
    else "fund_data_list.js"
  }

  /** One of the three data files; the small one exactly for "保守", the big one exactly for
      "激进". */
  lemma PresetFileChoice(preset: string)
    ensures PresetFile(preset) in {"fund_data_list_small.js", "fund_data_list_big.js", "fund_data_list.js"}
    ensures PresetFile(preset) == "fund_data_list_small.js" <==> preset == "保守"
    ensures PresetFile(preset) == "fund_data_list_big.js" <==> preset == "激进"
  {
  }

  /** The colour and description the default data file gives a name; a missing one is "". */
  datatype Defaults = Defaults(color: string, description: string)

  /** Expected return and drawdown (percent) as a data file gives them; NaN is `None`. */
  datatype Yuji = Yuji(shouyi: Option<int>, huiche: Option<int>)

  /** What a loaded preset script leaves in `window.fund_data_list`: its list, and its `yuji`
      block when it has one (a bare array has none). */
  datatype PresetData = PresetData(list: seq<RawAsset>, yuji: Option<Yuji>)

  /** `enrichWithDefaults` on one entry: trimmed name, NaN percentage read as 0, and a missing
      colour or description taken from the default file, a missing colour then from `random`. */
  function EnrichOne(raw: RawAsset, defaults: map<string, Defaults>, random: string): (r: RawAsset)
    ensures Key(r) == Key(raw) && r.name == Key(raw)
    ensures Pct(r) == Pct(raw) && r.percentage.Some?
    ensures raw.color != "" ==> r.color == raw.color
    ensures raw.description != "" ==> r.description == raw.description
    ensures random != "" ==> r.color != ""
  {
    var key := Trim(raw.name);
    var base := if key in defaults then defaults[key] else Defaults("", "");
    TrimIdempotent(raw.name);
    RawAsset(key, Some(Pct(raw)),
             if raw.description != "" then raw.description else base.description,
             if raw.color != "" then raw.color else if base.color != "" then base.color else random)
  }

  /** `enrichWithDefaults`: every entry enriched; `randomColor(i)` is what `getRandomColor` returns
      for the `i`-th entry. */
  function Enrich(list: seq<RawAsset>, defaults: map<string, Defaults>, randomColor: nat -> string): (r: seq<RawAsset>)
    ensures |r| == |list|
    ensures forall i | 0 <= i < |list| :: Key(r[i]) == Key(list[i]) && Pct(r[i]) == Pct(list[i])
  {
    var r := seq(|list|, i requires 0 <= i < |list| => EnrichOne(list[i], defaults, randomColor(i)));
    assert forall i | 0 <= i < |list| :: r[i] == EnrichOne(list[i], defaults, randomColor(i));
    r
  }

  /** `dedupeByName(enrichWithDefaults(rawList))`: a preset list as the page shows it. */
  method EnrichAndDedupe(list: seq<RawAsset>, defaults: map<string, Defaults>, randomColor: nat -> string)
    returns (deduped: seq<Asset>)
    ensures deduped == DedupeSpec(Enrich(list, defaults, randomColor))
    ensures Normalized(deduped)
  {
    var enriched := Enrich(list, defaults, randomColor);
    deduped := DedupeByName(enriched);
    DedupeIdempotent(enriched);
  }

  /** Two lists whose entries have the same trimmed names, position by position, merge into
      the same names. */
  lemma {:induction false} SameKeysSameNames(a: seq<RawAsset>, b: seq<RawAsset>)
    requires |a| == |b| && forall i | 0 <= i < |a| :: Key(a[i]) == Key(b[i])
    ensures Keys(Valid(a), Key) == Keys(Valid(b), Key)
  {
    if a != [] {
      var n := |a| - 1;
      SameKeysSameNames(a[..n], b[..n]);
      KeysSnoc(Valid(a[..n]), a[n]);
      KeysSnoc(Valid(b[..n]), b[n]);
    }
  }

  /** Switching preset lists exactly the names of the loaded file, in first-seen order, whatever
      colours and descriptions the defaults fill in. */
  lemma EnrichKeepsNames(list: seq<RawAsset>, defaults: map<string, Defaults>, randomColor: nat -> string)
    ensures |DedupeSpec(Enrich(list, defaults, randomColor))| == |DedupeSpec(list)|
    ensures forall j | 0 <= j < |DedupeSpec(list)| ::
              DedupeSpec(Enrich(list, defaults, randomColor))[j].name == DedupeSpec(list)[j].name
  {
    var e := Enrich(list, defaults, randomColor);
    SameKeysSameNames(e, list);
    DedupeNames(e);
    DedupeNames(list);
  }

  // ----- exportData -----

  /** `String(s).replace(/"/g, '\\"')`: a backslash before every double quote. Backslashes
      themselves are not escaped. */
  function Escape(s: string): string {
    if s == [] then [] else (if s[0] == '"' then "\\\"" else [s[0]]) + Escape(s[1..])
  }

  /** Every double quote of the escaped text follows a backslash (so none opens it), and a text
      without double quotes is left as it is. */
  lemma {:induction false} EscapeSpec(s: string)
    ensures |Escape(s)| >= |s|
    ensures forall i | 0 <= i < |Escape(s)| && Escape(s)[i] == '"' :: i > 0 && Escape(s)[i - 1] == '\\'
    ensures Escape(s) == [] || Escape(s)[0] != '"'
    ensures '"' !in s ==> Escape(s) == s
  {
    if s != [] {
      var rest := Escape(s[1..]);
      EscapeSpec(s[1..]);
      var h := if s[0] == '"' then "\\\"" else [s[0]];
      assert Escape(s) == h + rest;
      forall i | 0 <= i < |h + rest| && (h + rest)[i] == '"' ensures i > 0 && (h + rest)[i - 1] == '\\' {
        if i >= |h| {
          assert (h + rest)[i] == rest[i - |h|];
          if i > |h| {
            assert (h + rest)[i - 1] == rest[i - 1 - |h|];
          }
        }
      }
      if '"' !in s {
        assert s == [s[0]] + s[1..];
      }
    }
  }

  /** Reading an escaped text back: a backslash followed by a double quote stands for the quote;
      every other character stands for itself. */
  function Unescape(s: string): string {
    if s == [] then []
    else if |s| >= 2 && s[0] == '\\' && s[1] == '"' then "\"" + Unescape(s[2..])
    else [s[0]] + Unescape(s[1..])
  }

  /** Escaping loses nothing: the escaped text reads back as the original. */
  lemma {:induction false} UnescapeEscape(s: string)
    ensures Unescape(Escape(s)) == s
  {
    if s != [] {
      UnescapeEscape(s[1..]);
      EscapeSpec(s[1..]);
      var rest := Escape(s[1..]);
      if s[0] == '"' {
        assert ("\\\"" + rest)[2..] == rest;
      } else {
        var t := [s[0]] + rest;
        assert t[1..] == rest;
        assert |t| >= 2 ==> t[1] == rest[0];
      }
      assert s == [s[0]] + s[1..];
    }
  }

  /** The six lines before the list, with the expected return and drawdown. */
  function HeaderLines(shouyi: int, huiche: int): (r: seq<string>)
    ensures |r| == 6
  {
    ["var fund_data_list = {",
     "    yuji: {",
     "        shouyi: " + IntToString(shouyi) + ",//预计年化收益" + IntToString(shouyi) + "%,",
     "        huiche: " + IntToString(huiche) + ",//预计回撤" + IntToString(huiche) + "%",
     "    },",
     "    list: ["]
  }

  /** The line of one entry; `comma` for every entry but the last. */
  function AssetLine(item: Asset, comma: bool): string
  {
    "        { name: \"" + Escape(item.name) + "\", percentage: " + IntToString(item.percentage)
    + ", color: \"" + (if item.color == "" then DefaultColor else item.color)
    + "\", description: \"" + Escape(item.description) + "\" }" + (if comma then "," else "")
  }

  /** An entry line ends in a comma exactly when another entry follows; the last one ends with
      the closing brace of its object. */
  lemma AssetLineEnd(item: Asset, comma: bool)
    ensures AssetLine(item, comma) != []
    ensures AssetLine(item, comma)[|AssetLine(item, comma)| - 1] == ',' <==> comma
    ensures !comma ==> AssetLine(item, comma)[|AssetLine(item, comma)| - 1] == '}'
  {
  }

  /** The entry `saveAsset` builds from the form: the trimmed name, the percentage as `parseInt`
      read it, the description and the colour. */
  function FormEntry(name: string, percentage: Option<int>, description: string, color: string): (r: RawAsset)
    ensures Key(r) == Trim(name) && r.name == Trim(name)
  {
    TrimIdempotent(name);
    RawAsset(Trim(name), percentage, description, color)
  }

  /** What a successful save leaves: a merged list, which on a merged list is the old one with
      the entry appended or written at the edited index. */
  lemma SaveOutcome(s: seq<Asset>, current: int, entry: RawAsset)
    requires Key(entry) != "" && FindOther(s, Key(entry), current) == -1
    ensures Normalized(DedupeSpec(Edited(s, current, entry)))
    ensures Normalized(s) && current == -1 ==> DedupeSpec(Edited(s, current, entry)) == s + [Start(entry)]
    ensures Normalized(s) && 0 <= current < |s| ==> DedupeSpec(Edited(s, current, entry)) == s[current := Start(entry)]
  {
    DedupeIdempotent(Edited(s, current, entry));
    if Normalized(s) && (current == -1 || 0 <= current < |s|) {
      SaveDistinct(s, current, entry);
    }
  }

  /** The list handed to the merge by `saveAsset`: a push for a new entry, an assignment at the
      edited index otherwise. */
  method EditList(s: seq<Asset>, current: int, entry: RawAsset) returns (list: seq<RawAsset>)
    ensures list == Edited(s, current, entry)
  {
    list := AsRaws(s);
    if current == -1 {
      list := list + [entry];
    } else if 0 <= current < |list| {
      list := list[current := entry];
    } else if current >= |list| {
      list := list + Holes(current - |list|) + [entry];
    }
  }

  /** What `saveAsset` makes of the list: nothing (`None`) for an empty trimmed name or a name
      another entry already has, otherwise the merge of the list with the form's entry pushed or
      assigned. */
  function SavedList(s: seq<Asset>, current: int, name: string, percentage: Option<int>, description: string,
                     color: string): Option<seq<Asset>>
  {
    if Trim(name) == "" || FindOther(s, Trim(name), current) != -1 then None
    else Some(DedupeSpec(Edited(s, current, FormEntry(name, percentage, description, color))))
  }

  /** A save that goes through leaves a merged list; on a merged list it appends the entry or
      writes it at the edited index and changes nothing else. */
  lemma SavedListSpec(s: seq<Asset>, current: int, name: string, percentage: Option<int>, description: string,
                      color: string)
    ensures SavedList(s, current, name, percentage, description, color).Some? ==>
              Normalized(SavedList(s, current, name, percentage, description, color).value)
    ensures SavedList(s, current, name, percentage, description, color).Some? && Normalized(s) && current == -1 ==>
              SavedList(s, current, name, percentage, description, color).value
              == s + [Start(FormEntry(name, percentage, description, color))]
    ensures SavedList(s, current, name, percentage, description, color).Some? && Normalized(s) && 0 <= current < |s| ==>
              SavedList(s, current, name, percentage, description, color).value
              == s[current := Start(FormEntry(name, percentage, description, color))]
  {
    if SavedList(s, current, name, percentage, description, color).Some? {
      SaveOutcome(s, current, FormEntry(name, percentage, description, color));
    }
  }

  /** The list logic of `saveAsset`: the checks on the name, then the push or assignment and the
      second merge. */
  method SaveForm(s: seq<Asset>, current: int, name: string, percentage: Option<int>, description: string,
                  color: string) returns (saved: bool, r: seq<Asset>)
    ensures saved == SavedList(s, current, name, percentage, description, color).Some?
    ensures saved ==> r == SavedList(s, current, name, percentage, description, color).value && Normalized(r)
    ensures !saved ==> r == s
  {
    var nameKey := Trim(name);
    if nameKey == "" {
      return false, s;
    }
    var dupIndex := FindOther(s, nameKey, current);
    if dupIndex != -1 {
      return false, s;
    }
    var entry := FormEntry(name, percentage, description, color);
    var list := EditList(s, current, entry);
    r := DedupeByName(list);
    SaveOutcome(s, current, entry);
    saved := true;
  }

  /** The lines of the first `n` entries of `list`, each written by `line` with a comma unless
      it is the last entry of the whole list. */
  function EntryLines<T>(list: seq<T>, n: nat, line: (T, bool) -> string): (r: seq<string>)
    requires n <= |list|
    ensures |r| == n
  {
    if n == 0 then [] else EntryLines(list, n - 1, line) + [line(list[n - 1], n - 1 < |list| - 1)]
  }

  lemma {:induction false} EntryLinesAt<T>(list: seq<T>, n: nat, j: nat, line: (T, bool) -> string)
    requires j < n <= |list|
    ensures EntryLines(list, n, line)[j] == line(list[j], j < |list| - 1)
  {
    if j < n - 1 {
      EntryLinesAt(list, n - 1, j, line);
    }
  }

  /** The lines `exportData` pushes for an already merged list, in order. */
  method ExportLines(list: seq<Asset>, shouyi: int, huiche: int) returns (lines: seq<string>)
    ensures lines == HeaderLines(shouyi, huiche) + EntryLines(list, |list|, AssetLine) + ["    ]", "}"]
  {
    lines := HeaderLines(shouyi, huiche);
    var body: seq<string> := [];
    for idx := 0 to |list|
      invariant body == EntryLines(list, idx, AssetLine)
    {
      var comma := idx < |list| - 1;
      body := body + [AssetLine(list[idx], comma)];
    }
    lines := lines + body + ["    ]", "}"];
  }

  /** The exported text has the header, then one line per entry in list order, each but the
      last ending in a comma, then the two closing lines: `8 + n` lines for `n` entries. */
  lemma ExportShape<T>(header: seq<string>, list: seq<T>, line: (T, bool) -> string)
    requires |header| == 6
    ensures var lines := header + EntryLines(list, |list|, line) + ["    ]", "}"];
            |lines| == 8 + |list|
            && lines[..6] == header
            && (forall j | 0 <= j < |list| :: lines[6 + j] == line(list[j], j < |list| - 1))
            && lines[6 + |list|] == "    ]" && lines[7 + |list|] == "}"
  {
    var lines := header + EntryLines(list, |list|, line) + ["    ]", "}"];
    forall j | 0 <= j < |list| ensures lines[6 + j] == line(list[j], j < |list| - 1) {
      EntryLinesAt(list, |list|, j, line);
    }
  }

  // ----- the page -----

  /** The state of the portfolio page: the asset list, the modal form, the chosen preset and
      the expected return and drawdown (`yuji`). */
  class Page {
    var assets: seq<Asset>
    var isModalOpen: bool
    var currentIndex: int
    var modalTitle: string
    var formName: string
    var formPercentage: Option<int>
    var formDescription: string
    var formColor: string
    var currentPreset: string
    var shouyi: int
    var huiche: int

    /** The list is always a merged list. */
    predicate Valid()
      reads this
    {
      Normalized(assets)
    }

    /** The state `setup()` starts in: no assets, the modal closed, the aggressive preset. */
    constructor ()
      ensures Valid() && assets == [] && !isModalOpen && currentIndex == -1
      ensures modalTitle == "新增资产" && formName == "" && formPercentage == Some(10)
      ensures formDescription == "" && formColor == ""
      ensures currentPreset == "激进" && shouyi == 0 && huiche == 0
    {
      assets := [];
      isModalOpen := false;
      currentIndex := -1;
      modalTitle := "新增资产";
      formName := "";
      formPercentage := Some(10);
      formDescription := "";
      formColor := "";
      currentPreset := "激进";
      shouyi := 0;
      huiche := 0;
    }

    /** `openModal`: -1 opens an empty form with a random colour, an index of the list a form
        holding that entry. Any other index sets `currentIndex` and the edit title, then reads
        `item.name` of `undefined`, which throws: the form and the modal stay as they were. */
    method OpenModal(index: int, randomColor: string)
      modifies this`currentIndex, this`isModalOpen, this`modalTitle
      modifies this`formName, this`formPercentage, this`formDescription, this`formColor
      ensures currentIndex == index
      ensures index == -1 ==>
                (isModalOpen && modalTitle == "新增资产" && formName == "" && formPercentage == Some(10)
                 && formDescription == "" && formColor == randomColor)
      ensures 0 <= index < |assets| ==>
                (isModalOpen && modalTitle == "编辑资产"
                 && AsRaw(assets[index]) == RawAsset(formName, formPercentage, formDescription, formColor))
      ensures index != -1 && !(0 <= index < |assets|) ==>
                (isModalOpen == old(isModalOpen) && modalTitle == "编辑资产"
                 && formName == old(formName) && formPercentage == old(formPercentage)
                 && formDescription == old(formDescription) && formColor == old(formColor))
    {
      currentIndex := index;
      if index == -1 {
        modalTitle := "新增资产";
        formName := "";
        formPercentage := Some(10);
        formDescription := "";
        formColor := randomColor;
      } else {
        modalTitle := "编辑资产";
        if !(0 <= index < |assets|) {
          return;
        }
        var item := assets[index];
        formName := item.name;
        formPercentage := Some(item.percentage);
        formDescription := item.description;
        formColor := item.color;
      }
      isModalOpen := true;
    }

    /** `saveAsset`: an empty trimmed name, or one another entry already has, changes nothing;
        otherwise the form's entry is pushed (index -1) or written at the edited index, the
        list is merged again and the modal closes. On a merged list that second merge changes
        nothing: the entry is appended or replaces exactly the edited one. */
    method SaveAsset()
      modifies this`assets, this`isModalOpen
      ensures SavedList(old(assets), currentIndex, formName, formPercentage, formDescription, formColor).None? ==>
                assets == old(assets) && isModalOpen == old(isModalOpen)
      ensures SavedList(old(assets), currentIndex, formName, formPercentage, formDescription, formColor).Some? ==>
                assets == SavedList(old(assets), currentIndex, formName, formPercentage, formDescription, formColor).value
                && !isModalOpen && Valid()
      ensures old(Valid()) ==> Valid()
    {
      var saved, r := SaveForm(assets, currentIndex, formName, formPercentage, formDescription, formColor);
      if saved {
        assets := r;
        isModalOpen := false;
      }
    }

    /** `deleteAsset`: when the user confirms, exactly the entry at `index` is spliced out. An
        index outside the list reads `.name` of `undefined` while building the question, which
        throws before anything is asked or changed. */
    method DeleteAsset(index: int, confirmed: bool)
      modifies this`assets
      ensures 0 <= index < |old(assets)| && confirmed ==> assets == old(assets)[..index] + old(assets)[index + 1..]
      ensures !(0 <= index < |old(assets)|) || !confirmed ==> assets == old(assets)
      ensures old(Valid()) ==> Valid()
    {
      if 0 <= index < |assets| && confirmed {
        assets := assets[..index] + assets[index + 1..];
        RemoveAtNormalized(old(assets), index);
      }
    }

    /** `switchPreset`: the preset is recorded and its file chosen; a file that fails to load
        changes nothing else; a loaded list is enriched with the default colours and
        descriptions and merged, and its `yuji` block, if any, replaces the expected return and
        drawdown. */
    method SwitchPreset(preset: string, loaded: Option<PresetData>, defaults: map<string, Defaults>,
                        randomColor: nat -> string) returns (file: string)
      modifies this`currentPreset, this`assets, this`shouyi, this`huiche
      ensures currentPreset == preset && file == PresetFile(preset)
      ensures loaded.None? ==> assets == old(assets) && shouyi == old(shouyi) && huiche == old(huiche)
      ensures loaded.Some? ==> assets == DedupeSpec(Enrich(loaded.value.list, defaults, randomColor)) && Valid()
      ensures loaded.Some? && loaded.value.yuji.Some? ==>
                shouyi == loaded.value.yuji.value.shouyi.GetOr(0) && huiche == loaded.value.yuji.value.huiche.GetOr(0)
      ensures loaded.Some? && loaded.value.yuji.None? ==> shouyi == old(shouyi) && huiche == old(huiche)
      ensures old(Valid()) ==> Valid()
    {
      currentPreset := preset;
      file := "fund_data_list.js";
      if preset == "保守" {
        file := "fund_data_list_small.js";
      } else if preset == "激进" {
        file := "fund_data_list_big.js";
      } else {
        file := "fund_data_list.js";
      }
      if loaded.Some? {
        var raw := loaded.value;
        if raw.yuji.Some? {
          shouyi := raw.yuji.value.shouyi.GetOr(0);
          huiche := raw.yuji.value.huiche.GetOr(0);
        }
        assets := EnrichAndDedupe(raw.list, defaults, randomColor);
      }
    }

    /** `exportData`: the merged list written out as `fund_data_list.js`, one string per line:
        six header lines, one line per entry (each but the last ending in a comma), then the
        two closing lines. On a merged list the lines list exactly the page's entries. */
    method ExportData() returns (lines: seq<string>)
      ensures lines == HeaderLines(shouyi, huiche) + EntryLines(DedupeSpec(AsRaws(assets)), |DedupeSpec(AsRaws(assets))|, AssetLine) + ["    ]", "}"]
      ensures Valid() ==> DedupeSpec(AsRaws(assets)) == assets
    {
      var list := DedupeByName(AsRaws(assets));
      lines := ExportLines(list, shouyi, huiche);
      if Valid() {
        DedupeOfNormalized(assets);
      }
    }
  }
}
