/** The navigation menu of the health-report page (`health/check/navigation.js`,
    `renderDataBasedNavigation`): which loaded tests become menu items, how they split into
    the "reports" and "specialized" menus, in which order they are listed, and which items
    scroll to their card and which open a history entry instead. Also `hexToRgb`.
    The menu repeats some of the page's rules with differences of its own; the lemmas at the
    end of the module state those differences. */
module Navigation {
  import opened Wrappers
  import opened Text
  import opened Grouping
  import opened Sorting
  import opened TestTypes
  import Report

  // ----- data -----

  /** The `availableTests` entry of an identifier: its display name and icon, when present. */
  datatype TestConfig = TestConfig(name: Option<string>, icon: Option<string>)

  /** A menu item's `onclick`: scroll to a card, or open a history entry of a base type. */
  datatype Action = ScrollTo(target: string) | OpenHistory(baseType: string, testType: string)

  datatype MenuItem = MenuItem(name: string, url: string, icon: string, action: Action, testType: string)

  /** `value || fallback` for an optional string: missing and empty both fall back. */
  function OrElse(value: Option<string>, fallback: string): (r: string)
    ensures value.Some? && value.value != "" ==> r == value.value
    ensures value.None? || value.value == "" ==> r == fallback
  {
    if value.Some? && value.value != "" then value.value else fallback
  }

  /** The item built for identifier `t`: it scrolls to the card `test-<t>`. */
  function MakeItem(t: string, config: TestConfig): MenuItem
  {
    MenuItem(OrElse(config.name, t), "#test-" + t, OrElse(config.icon, "📋"), ScrollTo("test-" + t), t)
  }

  /** The item belongs to the reports menu: its identifier contains `checkup`. */
  function IsReport(item: MenuItem): bool
  {
    Includes(item.testType, "checkup")
  }

  function ItemBase(item: MenuItem): string { BaseType(item.testType) }

  /** The menu's own `getYear`: the first four-digit run, or 0 when there is none. */
  function NavYear(item: MenuItem): int
  {
    match YearIn(item.testType)
    case Some(y) => y
    case None => 0
  }

  /** The item after its `onclick` has been replaced by a history navigation. */
  function WithHistory(item: MenuItem): MenuItem
  {
    item.(action := OpenHistory(ItemBase(item), item.testType))
  }

  // ----- which identifiers become items -----

  /** The items of the identifiers in `dataKeys` that have a present record (`loaded`) and a
      configuration, in `dataKeys` order. */
  function MenuItems(dataKeys: seq<string>, loaded: set<string>, available: map<string, TestConfig>): seq<MenuItem>
  {
    if dataKeys == [] then []
    else
      var t := dataKeys[|dataKeys| - 1];
      MenuItems(dataKeys[..|dataKeys| - 1], loaded, available)
        + (if t in loaded && t in available then [MakeItem(t, available[t])] else [])
  }

  /** Exactly the identifiers with both a record and a configuration get an item, built from
      that configuration. */
  lemma {:induction false} MenuItemsSpec(dataKeys: seq<string>, loaded: set<string>, available: map<string, TestConfig>)
    ensures forall i | 0 <= i < |dataKeys| && dataKeys[i] in loaded && dataKeys[i] in available
              :: MakeItem(dataKeys[i], available[dataKeys[i]]) in MenuItems(dataKeys, loaded, available)
    ensures forall x | x in MenuItems(dataKeys, loaded, available)
              :: x.testType in dataKeys && x.testType in loaded && x.testType in available
                 && x == MakeItem(x.testType, available[x.testType])
  {
    if dataKeys != [] {
      var p := dataKeys[..|dataKeys| - 1];
      MenuItemsSpec(p, loaded, available);
      forall i | 0 <= i < |dataKeys| && dataKeys[i] in loaded && dataKeys[i] in available
        ensures MakeItem(dataKeys[i], available[dataKeys[i]]) in MenuItems(dataKeys, loaded, available)
      {
        if i < |p| {
          assert dataKeys[i] == p[i];
        }
      }
    }
  }

  /** Every menu item takes its configuration's name and icon, falling back to the identifier
      and to "📋" when they are missing or empty, and links and scrolls to `test-<identifier>`. */
  lemma MenuItemFallbacks(dataKeys: seq<string>, loaded: set<string>, available: map<string, TestConfig>)
    ensures forall x | x in MenuItems(dataKeys, loaded, available) ::
              && x.testType in available
              && x.url == "#test-" + x.testType
              && x.action == ScrollTo("test-" + x.testType)
              && (var c := available[x.testType];
                  && x.name == (if c.name.Some? && c.name.value != "" then c.name.value else x.testType)
                  && x.icon == (if c.icon.Some? && c.icon.value != "" then c.icon.value else "📋"))
  {
    MenuItemsSpec(dataKeys, loaded, available);
  }

  /** The `Object.keys(testsData).forEach` that builds the items and sorts them into the two menus. */
  method CollectItems(dataKeys: seq<string>, loaded: set<string>, available: map<string, TestConfig>)
    returns (reports: seq<MenuItem>, specialized: seq<MenuItem>)
    ensures reports == Select(MenuItems(dataKeys, loaded, available), IsReport, true)
    ensures specialized == Select(MenuItems(dataKeys, loaded, available), IsReport, false)
  {
    reports, specialized := [], [];
    for i := 0 to |dataKeys|
      invariant reports == Select(MenuItems(dataKeys[..i], loaded, available), IsReport, true)
      invariant specialized == Select(MenuItems(dataKeys[..i], loaded, available), IsReport, false)
    {
      var t := dataKeys[i];
      CollectStep(dataKeys, i, loaded, available, true);
      CollectStep(dataKeys, i, loaded, available, false);
      if t in loaded && t in available {
        var item := MakeItem(t, available[t]);
        if Includes(t, "checkup") {
          reports := reports + [item];
        } else {
          specialized := specialized + [item];
        }
      }
    }
    assert dataKeys[..|dataKeys|] == dataKeys;
  }

  /** One more identifier adds its item, if it has one, to the end of the menu it belongs to. */
  lemma CollectStep(dataKeys: seq<string>, i: nat, loaded: set<string>, available: map<string, TestConfig>, b: bool)
    requires i < |dataKeys|
    ensures var t := dataKeys[i];
            Select(MenuItems(dataKeys[..i + 1], loaded, available), IsReport, b)
            == Select(MenuItems(dataKeys[..i], loaded, available), IsReport, b)
               + (if t in loaded && t in available && IsReport(MakeItem(t, available[t])) == b
                  then [MakeItem(t, available[t])] else [])
  {
    var t := dataKeys[i];
    var before := MenuItems(dataKeys[..i], loaded, available);
    var extra := if t in loaded && t in available then [MakeItem(t, available[t])] else [];
    assert dataKeys[..i + 1][..i] == dataKeys[..i];
    assert MenuItems(dataKeys[..i + 1], loaded, available) == before + extra;
    SelectAppend(before, extra, IsReport, b);
    if extra != [] {
      assert Select(extra, IsReport, b) == (if IsReport(extra[0]) == b then [extra[0]] else []) + Select([], IsReport, b);
    }
  }

  /** Every item is in exactly one of the two menus. */
  lemma ItemsSplit(items: seq<MenuItem>, x: MenuItem)
    ensures x in items <==> x in Select(items, IsReport, true) || x in Select(items, IsReport, false)
    ensures !(x in Select(items, IsReport, true) && x in Select(items, IsReport, false))
    ensures x in Select(items, IsReport, true) <==> x in items && Includes(x.testType, "checkup")
  {
    SelectMembership(items, IsReport, true, x);
    SelectMembership(items, IsReport, false, x);
  }

  // ----- specialized tests: regrouped by base type -----

  /** The buckets of the listed base types, each sorted newest first, one after the other. */
  function RegroupFrom(ks: seq<string>, items: seq<MenuItem>): seq<MenuItem>
  {
    if ks == [] then [] else SortDesc(Select(items, ItemBase, ks[0]), NavYear) + RegroupFrom(ks[1..], items)
  }

  /** The rebuilt specialized list: grouped by base type in first-seen order, newest first
      inside each group. */
  function Regrouped(items: seq<MenuItem>): seq<MenuItem>
  {
    RegroupFrom(Keys(items, ItemBase), items)
  }

  lemma {:induction false} RegroupFromPermutation(ks: seq<string>, items: seq<MenuItem>)
    ensures multiset(RegroupFrom(ks, items)) == multiset(Gather(ks, items, ItemBase))
  {
    if ks != [] {
      RegroupFromPermutation(ks[1..], items);
      SortDescPermutation(Select(items, ItemBase, ks[0]), NavYear);
    }
  }

  /** Regrouping only reorders the specialized items. */
  lemma RegroupedPermutation(items: seq<MenuItem>)
    ensures multiset(Regrouped(items)) == multiset(items)
  {
    RegroupFromPermutation(Keys(items, ItemBase), items);
    KeysGatherIsPermutation(items, ItemBase);
  }

  /** The grouping, per-group sorting and flattening of the specialized items. */
  method RegroupSpecialized(items: seq<MenuItem>) returns (rebuilt: seq<MenuItem>)
    ensures rebuilt == Regrouped(items)
  {
    var keys, groups := GroupBy(items, ItemBase);
    KeysProperties(items, ItemBase);
    var sorted := SortBuckets(keys, groups, NavYear);
    rebuilt := ConcatInOrder(keys, sorted);
    ConcatIsRegroup(keys, sorted, items);
  }

  /** Concatenating the sorted buckets gives the regrouped list. */
  lemma {:induction false} ConcatIsRegroup(ks: seq<string>, sorted: map<string, seq<MenuItem>>, items: seq<MenuItem>)
    requires forall k | k in ks :: k in sorted && sorted[k] == SortDesc(Select(items, ItemBase, k), NavYear)
    ensures Concat(ks, sorted) == RegroupFrom(ks, items)
  {
    if ks != [] {
      ConcatIsRegroup(ks[1..], sorted, items);
    }
  }

  // ----- which items keep the scroll action -----

  /** An earlier item of the list has the same base type. */
  predicate HasEarlierSame(items: seq<MenuItem>, i: int)
    requires 0 <= i < |items|
  {
    exists j | 0 <= j < i :: ItemBase(items[j]) == ItemBase(items[i])
  }

  /** The base type of the item at a position, for grouping positions of a list. */
  function BaseAt(items: seq<MenuItem>): nat -> string
  {
    (i: nat) => if i < |items| then ItemBase(items[i]) else ""
  }

  /** The positions `0, 1, ..., n - 1` of a list of length `n`. */
  function Positions(n: nat): (s: seq<nat>)
    ensures |s| == n && forall j | 0 <= j < n :: s[j] == j
  {
    if n == 0 then [] else Positions(n - 1) + [n - 1]
  }

  predicate Increasing(s: seq<nat>) {
    forall i, j | 0 <= i < j < |s| :: s[i] < s[j]
  }

  /** A bucket of an increasing list of positions is increasing. */
  lemma {:induction false} SelectIncreasing<K>(s: seq<nat>, key: nat -> K, k: K)
    requires Increasing(s)
    ensures Increasing(Select(s, key, k))
  {
    if s != [] {
      SelectIncreasing(s[1..], key, k);
      var rest := Select(s[1..], key, k);
      forall j | 0 <= j < |rest| ensures s[0] < rest[j] {
        SelectMembership(s[1..], key, k, rest[j]);
        var m :| 0 <= m < |s[1..]| && s[1..][m] == rest[j];
        assert s[1..][m] == s[m + 1];
      }
    }
  }

  /** In the bucket of positions of base type `b`, the positions after the first are exactly
      the positions of base type `b` that have an earlier position of the same base type. */
  lemma GroupTail(items: seq<MenuItem>, b: string, i: nat)
    requires i < |items|
    ensures var g := Select(Positions(|items|), BaseAt(items), b);
            (|g| > 0 && i in g[1..]) <==> ItemBase(items[i]) == b && HasEarlierSame(items, i)
  {
    var g := Select(Positions(|items|), BaseAt(items), b);
    if |g| > 0 && i in g[1..] {
      GroupTailHasEarlier(items, b, i);
    }
    if ItemBase(items[i]) == b && HasEarlierSame(items, i) {
      GroupTailFromEarlier(items, b, i);
    }
  }

  /** A position after the head of its bucket has an earlier position of the same base type. */
  lemma GroupTailHasEarlier(items: seq<MenuItem>, b: string, i: nat)
    requires i < |items|
    requires var g := Select(Positions(|items|), BaseAt(items), b); |g| > 0 && i in g[1..]
    ensures ItemBase(items[i]) == b && HasEarlierSame(items, i)
  {
    var idx: seq<nat> := Positions(|items|);
    var g := Select(idx, BaseAt(items), b);
    SelectIncreasing(idx, BaseAt(items), b);
    SelectMembership(idx, BaseAt(items), b, i);
    var m :| 1 <= m < |g| && g[m] == i;
    assert g[0] < g[m];
    SelectMembership(idx, BaseAt(items), b, g[0]);
    assert BaseAt(items)(g[0]) == b;
  }

  /** A position with an earlier position of the same base type is not the head of its bucket. */
  lemma GroupTailFromEarlier(items: seq<MenuItem>, b: string, i: nat)
    requires i < |items| && ItemBase(items[i]) == b && HasEarlierSame(items, i)
    ensures var g := Select(Positions(|items|), BaseAt(items), b); |g| > 0 && i in g[1..]
  {
    var idx: seq<nat> := Positions(|items|);
    var g := Select(idx, BaseAt(items), b);
    SelectIncreasing(idx, BaseAt(items), b);
    assert idx[i] == i;
    SelectMembership(idx, BaseAt(items), b, i);
    var j: nat :| j < i && ItemBase(items[j]) == ItemBase(items[i]);
    assert idx[j] == j;
    SelectMembership(idx, BaseAt(items), b, j);
    var mi :| 0 <= mi < |g| && g[mi] == i;
    var mj :| 0 <= mj < |g| && g[mj] == j;
    assert g[0] <= g[mj];
    assert mi != 0;
    assert g[1..][mi - 1] == i;
  }

  /** The specialized menu's `onclick` pass: regroup the items by base type and give every
      item but the first of its group a history navigation. The objects in the groups are the
      list's own items, so the model groups positions. */
  method MarkSpecialized(items: seq<MenuItem>) returns (out: seq<MenuItem>)
    ensures |out| == |items|
    ensures forall i | 0 <= i < |items| :: out[i] == if HasEarlierSame(items, i) then WithHistory(items[i]) else items[i]
  {
    var keys, groups := GroupBy(Positions(|items|), BaseAt(items));
    KeysProperties(Positions(|items|), BaseAt(items));
    out := MarkGroups(items, keys, groups);
    forall i | 0 <= i < |items| ensures ItemBase(items[i]) in keys {
      PositionListed(items, i);
    }
  }

  /** `Object.keys(specializedGroupsForClick).forEach(...)`: the pass over every group. */
  method MarkGroups(items: seq<MenuItem>, keys: seq<string>, groups: map<string, seq<nat>>) returns (out: seq<MenuItem>)
    requires Distinct(keys)
    requires forall k | k in keys :: k in groups && groups[k] == Select(Positions(|items|), BaseAt(items), k)
    ensures |out| == |items|
    ensures forall i | 0 <= i < |items| ::
              out[i] == if ItemBase(items[i]) in keys && HasEarlierSame(items, i) then WithHistory(items[i]) else items[i]
  {
    out := items;
    for a := 0 to |keys|
      invariant |out| == |items|
      invariant forall i | 0 <= i < |items| ::
                  out[i] == if ItemBase(items[i]) in keys[..a] && HasEarlierSame(items, i) then WithHistory(items[i]) else items[i]
    {
      var b := keys[a];
      var g := groups[b];
      forall p | p in g ensures p < |items| {
        PositionInBucket(items, b, p);
      }
      DistinctPrefix(keys, a);
      assert keys[..a + 1] == keys[..a] + [b];
      ghost var prev := out;
      out := MarkGroup(out, g, b);
      MarkedAfterGroup(items, keys[..a], b, prev, out);
    }
    assert keys[..|keys|] == keys;
  }

  /** A bucket of positions holds positions of the list with the bucket's base type. */
  lemma PositionInBucket(items: seq<MenuItem>, b: string, p: nat)
    requires p in Select(Positions(|items|), BaseAt(items), b)
    ensures p < |items| && ItemBase(items[p]) == b
  {
    SelectMembership(Positions(|items|), BaseAt(items), b, p);
  }

  /** The base type of every position is a key of the grouping of positions. */
  lemma PositionListed(items: seq<MenuItem>, i: nat)
    requires i < |items|
    ensures ItemBase(items[i]) in Keys(Positions(|items|), BaseAt(items))
  {
    KeyListed(Positions(|items|), BaseAt(items), i);
  }

  /** After the pass over the group of base type `b`, the marked positions are those of the
      base types done so far and `b` that have an earlier position of the same base type. */
  lemma MarkedAfterGroup(items: seq<MenuItem>, done: seq<string>, b: string, prev: seq<MenuItem>, out: seq<MenuItem>)
    requires |items| == |prev| == |out|
    requires b !in done
    requires forall i | 0 <= i < |items| ::
               prev[i] == if ItemBase(items[i]) in done && HasEarlierSame(items, i) then WithHistory(items[i]) else items[i]
    requires var g := Select(Positions(|items|), BaseAt(items), b);
             forall i | 0 <= i < |items| ::
               out[i] == if |g| > 0 && i in g[1..] then prev[i].(action := OpenHistory(b, prev[i].testType)) else prev[i]
    ensures forall i | 0 <= i < |items| ::
              out[i] == if ItemBase(items[i]) in done + [b] && HasEarlierSame(items, i) then WithHistory(items[i]) else items[i]
  {
    forall i | 0 <= i < |items|
      ensures out[i] == if ItemBase(items[i]) in done + [b] && HasEarlierSame(items, i) then WithHistory(items[i]) else items[i]
    {
      MarkStep(items, done, b, prev, out, i);
    }
  }

  /** One group's pass marks exactly the positions of its base type that have an earlier
      position of the same base type. */
  lemma MarkStep(items: seq<MenuItem>, done: seq<string>, b: string, prev: seq<MenuItem>, out: seq<MenuItem>, i: nat)
    requires i < |items| == |prev| == |out|
    requires b !in done
    requires prev[i] == if ItemBase(items[i]) in done && HasEarlierSame(items, i) then WithHistory(items[i]) else items[i]
    requires var g := Select(Positions(|items|), BaseAt(items), b);
             out[i] == if |g| > 0 && i in g[1..] then prev[i].(action := OpenHistory(b, prev[i].testType)) else prev[i]
    ensures out[i] == if ItemBase(items[i]) in done + [b] && HasEarlierSame(items, i) then WithHistory(items[i]) else items[i]
  {
    GroupTail(items, b, i);
  }

  /** `group.forEach((item, index) => { if (index > 0) item.onclick = ... })` for one group of
      positions `g` with base type `b`. */
  method MarkGroup(items: seq<MenuItem>, g: seq<nat>, b: string) returns (out: seq<MenuItem>)
    requires forall p | p in g :: p < |items|
    ensures |out| == |items|
    ensures forall i | 0 <= i < |items| ::
              out[i] == if |g| > 0 && i in g[1..] then items[i].(action := OpenHistory(b, items[i].testType)) else items[i]
  {
    out := items;
    for index := 0 to |g|
      invariant |out| == |items|
      invariant forall i | 0 <= i < |items| ::
                  out[i] == if index > 0 && i in g[1..index] then items[i].(action := OpenHistory(b, items[i].testType)) else items[i]
    {
      var p := g[index];
      if index > 0 {
        assert p in g;
        out := out[p := out[p].(action := OpenHistory(b, out[p].testType))];
        assert g[1..index + 1] == g[1..index] + [p];
      }
    }
  }

  /** The reports menu's `onclick` pass: every item but the first of the whole list gets a
      history navigation. */
  method MarkReports(items: seq<MenuItem>) returns (out: seq<MenuItem>)
    ensures |out| == |items|
    ensures forall i | 0 <= i < |items| :: out[i] == if i > 0 then WithHistory(items[i]) else items[i]
  {
    out := items;
    for index := 0 to |items|
      invariant |out| == |items|
      invariant forall i | 0 <= i < |items| :: out[i] == if 0 < i < index then WithHistory(items[i]) else items[i]
    {
      if index > 0 {
        var baseType := BaseType(out[index].testType);
        out := out[index := out[index].(action := OpenHistory(baseType, out[index].testType))];
      }
    }
  }

  /** `renderDataBasedNavigation` up to the HTML: the two menus with their final actions. */
  method RenderDataBasedNavigation(dataKeys: seq<string>, loaded: set<string>, available: map<string, TestConfig>)
    returns (reports: seq<MenuItem>, specialized: seq<MenuItem>)
    ensures var r := SortDesc(Select(MenuItems(dataKeys, loaded, available), IsReport, true), NavYear);
            |reports| == |r| && forall i | 0 <= i < |r| :: reports[i] == if i > 0 then WithHistory(r[i]) else r[i]
    ensures var s := Regrouped(Select(MenuItems(dataKeys, loaded, available), IsReport, false));
            |specialized| == |s|
            && forall i | 0 <= i < |s| :: specialized[i] == if HasEarlierSame(s, i) then WithHistory(s[i]) else s[i]
  {
    var r, s := CollectItems(dataKeys, loaded, available);
    r := SortDesc(r, NavYear);
    s := RegroupSpecialized(s);
    reports := MarkReports(r);
    specialized := MarkSpecialized(s);
  }

  /** The reports menu is listed newest year first, and items of one year keep their order. */
  lemma ReportsOrder(reports: seq<MenuItem>, r: seq<MenuItem>)
    requires |reports| == |SortDesc(r, NavYear)|
    requires forall i | 0 <= i < |reports| :: reports[i] == if i > 0 then WithHistory(SortDesc(r, NavYear)[i]) else SortDesc(r, NavYear)[i]
    ensures SortedDesc(reports, NavYear)
    ensures forall y :: Select(SortDesc(r, NavYear), NavYear, y) == Select(r, NavYear, y)
  {
    SortDescSorted(r, NavYear);
    forall y ensures Select(SortDesc(r, NavYear), NavYear, y) == Select(r, NavYear, y) {
      SortDescStable(r, NavYear, y);
    }
  }

  /** In the specialized menu the first item of each base type scrolls to its own card and
      every later one opens a history entry of its base type. */
  lemma SpecializedActions(s: seq<MenuItem>, specialized: seq<MenuItem>, i: nat)
    requires |specialized| == |s| && i < |s|
    requires specialized[i] == if HasEarlierSame(s, i) then WithHistory(s[i]) else s[i]
    requires s[i].action == ScrollTo("test-" + s[i].testType)
    ensures !HasEarlierSame(s, i) ==> specialized[i].action == ScrollTo("test-" + s[i].testType)
    ensures HasEarlierSame(s, i) ==> specialized[i].action == OpenHistory(BaseType(s[i].testType), s[i].testType)
  {
  }

  // ----- where the menu differs from the page -----

  /** An identifier without a four-digit run counts as year 0 in the menu but as the current
      year on the page, so an undated record sorts after a dated one in the menu and before it
      on the page whenever the dated year lies between 0 and the current year. */
  lemma UndatedYearDiffers(undated: MenuItem, dated: MenuItem, currentYear: int, d: Report.TestRecord)
    requires forall i | 0 <= i <= |undated.testType| :: !FourDigitsAt(undated.testType, i)
    requires 0 < NavYear(dated) < currentYear
    ensures NavYear(undated) == 0
    ensures Report.ExtractYear(undated.testType, currentYear) == currentYear
    ensures Report.ExtractYear(dated.testType, currentYear) == NavYear(dated)
    ensures SortDesc([undated, dated], NavYear) == [dated, undated]
    ensures var eu := Report.MakeEntry(undated.testType, d, currentYear);
            var ed := Report.MakeEntry(dated.testType, d, currentYear);
            SortDesc([eu, ed], Report.EntryYear) == [eu, ed]
  {
    YearInSpec(undated.testType);
    assert NavYear(undated) == 0;
    var s := [undated, dated];
    assert s[1..] == [dated] && s[1..][1..] == [];
    assert SortDesc([dated], NavYear) == [dated];
    assert Insert(undated, [dated], NavYear) == [dated] + Insert(undated, [], NavYear);
    var eu := Report.MakeEntry(undated.testType, d, currentYear);
    var ed := Report.MakeEntry(dated.testType, d, currentYear);
    var e := [eu, ed];
    assert e[1..] == [ed] && e[1..][1..] == [];
  }

  /** In the reports menu the second item opens a history entry even when it is the first
      (newest) item of a different base type, which the page shows as a card of its own. */
  lemma ReportsMarkOtherBase(r: seq<MenuItem>, reports: seq<MenuItem>)
    requires |reports| == |r| >= 2
    requires forall i | 0 <= i < |r| :: reports[i] == if i > 0 then WithHistory(r[i]) else r[i]
    requires ItemBase(r[0]) != ItemBase(r[1])
    ensures !HasEarlierSame(r, 1)
    ensures reports[1].action == OpenHistory(ItemBase(r[1]), r[1].testType)
  {
  }

  /** Where an item's `onclick` scrolls first: its card id, or for a history navigation
      (`navigateToHistoryItem`) the id `test-<base type>`. */
  function ScrollTarget(a: Action): string
  {
    match a
    case ScrollTo(target) => target
    case OpenHistory(baseType, _) => "test-" + baseType
  }

  /** A specialized item that opens a history entry scrolls to `test-<base type>`, but the
      page's card of that base type, as `RenderCards` builds it, has the id
      `test-<identifier of its newest record>`: whenever that identifier carries a year suffix
      the history navigation targets no card. */
  lemma HistoryTargetMissesCard(s: seq<MenuItem>, specialized: seq<MenuItem>, i: nat,
                                group: seq<Report.Entry>, card: Report.Card)
    requires |specialized| == |s| && i < |s|
    requires specialized[i] == if HasEarlierSame(s, i) then WithHistory(s[i]) else s[i]
    requires HasEarlierSame(s, i)
    requires Report.CardOk(group, card)
    requires Report.EntryBase(group[0]) == ItemBase(s[i])
    requires HasYearSuffix(group[0].testType)
    ensures specialized[i].action.OpenHistory?
    ensures ScrollTarget(specialized[i].action) != card.id
  {
    var newest := group[0].testType;
    assert ScrollTarget(specialized[i].action) == "test-" + BaseType(newest);
    assert |"test-" + BaseType(newest)| != |"test-" + newest|;
  }

  // ----- colours -----

  /** The six hex digits of `#rrggbb` or `rrggbb`, as `/^#?([a-f\d]{2}){3}$/i` accepts them. */
  predicate IsHexColor(s: string) {
    (|s| == 6 && forall i | 0 <= i < 6 :: IsHexDigit(s[i]))
    || (|s| == 7 && s[0] == '#' && forall i | 1 <= i < 7 :: IsHexDigit(s[i]))
  }

  /** The value of the hex pair starting at `i`. */
  function PairValue(h: string, i: nat): (v: nat)
    requires i + 1 < |h| && IsHexDigit(h[i]) && IsHexDigit(h[i + 1])
    ensures v < 256
  {
    16 * HexValue(h[i]) + HexValue(h[i + 1])
  }

  /** The text `r, g, b`. */
  function RgbText(r: nat, g: nat, b: nat): string
  {
    NatToString(r) + ", " + NatToString(g) + ", " + NatToString(b)
  }

  /** `hexToRgb`: the three byte values of a hex colour, or the default `116, 185, 255`. */
  function HexToRgb(s: string): (r: string)
    ensures !IsHexColor(s) ==> r == "116, 185, 255"
    ensures IsHexColor(s) ==> exists red, green, blue | red < 256 && green < 256 && blue < 256 :: r == RgbText(red, green, blue)
  {
    if !IsHexColor(s) then "116, 185, 255"
    else
      var h := HexDigits(s);
      RgbText(PairValue(h, 0), PairValue(h, 2), PairValue(h, 4))
  }

  /** The six digits of a colour, without its optional `#`. */
  function HexDigits(s: string): string {
    if |s| == 7 then s[1..] else s
  }

  /** The lower-case hex digit of a value below 16. */
  function HexDigit(v: nat): (c: char)
    requires v < 16
    ensures IsHexDigit(c) && HexValue(c) == v
  {
    if v < 10 then DigitChar(v) else (('a' as int) + v - 10) as char
  }

  /** `#rrggbb` for three byte values. */
  function HexColor(r: nat, g: nat, b: nat): string
    requires r < 256 && g < 256 && b < 256
  {
    ['#', HexDigit(r / 16), HexDigit(r % 16), HexDigit(g / 16), HexDigit(g % 16), HexDigit(b / 16), HexDigit(b % 16)]
  }

  /** Reading back a written colour gives its three byte values. */
  lemma HexColorRoundTrip(r: nat, g: nat, b: nat)
    requires r < 256 && g < 256 && b < 256
    ensures IsHexColor(HexColor(r, g, b))
    ensures HexToRgb(HexColor(r, g, b)) == RgbText(r, g, b)
  {
    var s := HexColor(r, g, b);
    var h := s[1..];
    assert PairValue(h, 0) == r && PairValue(h, 2) == g && PairValue(h, 4) == b;
  }

  /** Writing the value of a hex digit gives the digit back in lower case. */
  lemma HexDigitOfValue(c: char)
    requires IsHexDigit(c)
    ensures HexDigit(HexValue(c)) == LowerChar(c)
  {
    if IsDigit(c) {
      assert DigitChar(DigitValue(c)) == c;
    }
  }

  /** A pair's value splits back into its two digits. */
  lemma PairSplit(h: string, i: nat)
    requires i + 1 < |h| && IsHexDigit(h[i]) && IsHexDigit(h[i + 1])
    ensures PairValue(h, i) / 16 == HexValue(h[i]) && PairValue(h, i) % 16 == HexValue(h[i + 1])
  {
  }

  /** Writing back the three pairs of six hex digits gives the digits in lower case. */
  lemma HexColorOfDigits(h: string)
    requires |h| == 6 && forall i | 0 <= i < 6 :: IsHexDigit(h[i])
    ensures HexColor(PairValue(h, 0), PairValue(h, 2), PairValue(h, 4)) == "#" + ToLower(h)
  {
    PairSplit(h, 0);
    PairSplit(h, 2);
    PairSplit(h, 4);
    HexDigitOfValue(h[0]);
    HexDigitOfValue(h[1]);
    HexDigitOfValue(h[2]);
    HexDigitOfValue(h[3]);
    HexDigitOfValue(h[4]);
    HexDigitOfValue(h[5]);
    var low := [LowerChar(h[0]), LowerChar(h[1]), LowerChar(h[2]), LowerChar(h[3]), LowerChar(h[4]), LowerChar(h[5])];
    assert ToLower(h) == low;
    assert HexColor(PairValue(h, 0), PairValue(h, 2), PairValue(h, 4)) == ['#'] + low;
  }

  /** Every accepted colour, in any mix of cases, reads as three byte values that written back
      give its six digits in lower case: reading loses nothing but the case. */
  lemma HexToRgbRoundTrip(s: string)
    requires IsHexColor(s)
    ensures exists red, green, blue | red < 256 && green < 256 && blue < 256 ::
              HexToRgb(s) == RgbText(red, green, blue) && HexColor(red, green, blue) == "#" + ToLower(HexDigits(s))
  {
    var h := HexDigits(s);
    assert |h| == 6 && forall i | 0 <= i < 6 :: IsHexDigit(h[i]);
    HexColorOfDigits(h);
    var red, green, blue := PairValue(h, 0), PairValue(h, 2), PairValue(h, 4);
    assert HexToRgb(s) == RgbText(red, green, blue);
  }

  /** `/i`: upper- and lower-case digits read the same. */
  lemma HexToRgbIgnoresCase(s: string)
    ensures HexToRgb(ToLower(s)) == HexToRgb(s)
  {
    var t := ToLower(s);
    forall i | 0 <= i < |s| ensures IsHexDigit(t[i]) <==> IsHexDigit(s[i]) {}
    if IsHexColor(s) {
      var h, g := HexDigits(s), HexDigits(t);
      assert |g| == 6 && forall i | 0 <= i < 6 :: g[i] == LowerChar(h[i]);
      forall i | 0 <= i < 6 ensures HexValue(g[i]) == HexValue(h[i]) {}
    } else {
      assert !IsHexColor(t);
    }
  }

  /** The leading `#` is optional: with or without it the same colour is read. */
  lemma HashOptional(s: string)
    requires |s| == 6
    ensures HexToRgb("#" + s) == HexToRgb(s)
  {
    assert ("#" + s)[1..] == s;
    if IsHexColor(s) {
      assert forall i | 1 <= i < 7 :: ("#" + s)[i] == s[i - 1];
    } else {
      assert !IsHexColor("#" + s) by {
        var i :| 0 <= i < 6 && !IsHexDigit(s[i]);
        assert ("#" + s)[i + 1] == s[i];
      }
    }
  }
}
