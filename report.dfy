/** The health-report page (`health/check/index.js`) once the HTML is stripped away:
    which test records are shown, how they are grouped into cards by base type, in which
    order the cards and the records inside them appear, how a card's older records are
    bucketed by year, which result table a record gets, and which cards a search hides. */
module Report {
  import opened Wrappers
  import opened Text
  import opened Grouping
  import opened Sorting
  import opened TestTypes

  // ----- data -----

  /** The `diagnosis` object of a record: its `sort` weight and its `type`, when present. */
  datatype Diagnosis = Diagnosis(sort: Option<int>, kind: Option<string>)

  /** One row of a record's `results` array; only `category` matters to the grouping. */
  datatype ResultRow = ResultRow(category: string, name: string)

  /** A loaded test record. `results` is None when the field is missing or not an array. */
  datatype TestRecord = TestRecord(diagnosis: Option<Diagnosis>, results: Option<seq<ResultRow>>)

  /** The object `renderTestSections` pushes for each shown identifier. */
  datatype Entry = Entry(testType: string, data: TestRecord, year: int, sort: int)

  /** A card's history section: the number of older records, their years newest first, and
      the records of each year. */
  datatype History = History(count: nat, years: seq<int>, buckets: map<int, seq<Entry>>)

  /** A test card: its element id, the record it shows, and its history section if it has one. */
  datatype Card = Card(id: string, latest: Entry, history: Option<History>)

  // ----- the fields of an entry -----

  /** `extractYear`: the first run of four digits in the identifier, else the current year
      (the clock is a parameter). */
  function ExtractYear(testType: string, currentYear: int): int
  {
    match YearIn(testType)
    case Some(y) => y
    case None => currentYear
  }

  /** `testData.diagnosis?.sort || 0`. */
  function SortWeight(d: TestRecord): int
  {
    match d.diagnosis
    case None => 0
    case Some(diag) => diag.sort.GetOr(0)
  }

  function MakeEntry(testType: string, d: TestRecord, currentYear: int): Entry
  {
    Entry(testType, d, ExtractYear(testType, currentYear), SortWeight(d))
  }

  function EntryBase(e: Entry): string { BaseType(e.testType) }

  function EntryYear(e: Entry): int { e.year }

  /** The comparator `b - a` on year keys, which JavaScript compares as numbers. */
  function AsNumber(y: int): int { y }

  /** `testGroups[k][0]?.sort || 0`: the weight of a group's first record. */
  function LeadWeight(groups: map<string, seq<Entry>>): string -> int
  {
    k => if k in groups && |groups[k]| > 0 then groups[k][0].sort else 0
  }

  /** An identifier without a four-digit run takes the current year; one with a run takes the
      value of the leftmost run. */
  lemma ExtractYearSpec(testType: string, currentYear: int)
    ensures (forall i | 0 <= i <= |testType| :: !FourDigitsAt(testType, i))
              ==> ExtractYear(testType, currentYear) == currentYear
    ensures forall i | 0 <= i <= |testType| && FourDigitsAt(testType, i)
                       && (forall j | 0 <= j < i :: !FourDigitsAt(testType, j))
              :: ExtractYear(testType, currentYear) == DecimalValue(testType[i..i + 4]) < 10000
  {
    YearInSpec(testType);
  }

  // ----- which records are shown -----

  /** The entries for the active identifiers that have loaded data, in `activeTests` order. */
  function Loaded(activeTests: seq<string>, testsData: map<string, TestRecord>, currentYear: int): seq<Entry>
  {
    if activeTests == [] then []
    else
      var t := activeTests[|activeTests| - 1];
      Loaded(activeTests[..|activeTests| - 1], testsData, currentYear)
        + (if t in testsData then [MakeEntry(t, testsData[t], currentYear)] else [])
  }

  /** An identifier with data yields its entry; nothing else yields one. */
  lemma {:induction false} LoadedSpec(activeTests: seq<string>, testsData: map<string, TestRecord>, currentYear: int)
    ensures forall i | 0 <= i < |activeTests| && activeTests[i] in testsData
              :: MakeEntry(activeTests[i], testsData[activeTests[i]], currentYear) in Loaded(activeTests, testsData, currentYear)
    ensures forall e | e in Loaded(activeTests, testsData, currentYear)
              :: e.testType in activeTests && e.testType in testsData
                 && e == MakeEntry(e.testType, testsData[e.testType], currentYear)
  {
    if activeTests != [] {
      var p := activeTests[..|activeTests| - 1];
      LoadedSpec(p, testsData, currentYear);
      forall i | 0 <= i < |activeTests| && activeTests[i] in testsData
        ensures MakeEntry(activeTests[i], testsData[activeTests[i]], currentYear) in Loaded(activeTests, testsData, currentYear)
      {
        if i < |p| {
          assert activeTests[i] == p[i];
        }
      }
    }
  }

  /** The `forEach` over `activeTests` that skips identifiers without data. */
  method LoadEntries(activeTests: seq<string>, testsData: map<string, TestRecord>, currentYear: int)
    returns (entries: seq<Entry>)
    ensures entries == Loaded(activeTests, testsData, currentYear)
  {
    entries := [];
    for i := 0 to |activeTests|
      invariant entries == Loaded(activeTests[..i], testsData, currentYear)
    {
      assert activeTests[..i + 1][..i] == activeTests[..i];
      var testType := activeTests[i];
      if testType in testsData {
        entries := entries + [MakeEntry(testType, testsData[testType], currentYear)];
      }
    }
    assert activeTests[..|activeTests|] == activeTests;
  }

  // ----- grouping and ordering -----

  /** What a group must look like: non-empty, newest year first, and the records of each year in
      the order `activeTests` lists them. */
  ghost predicate GroupOk(loaded: seq<Entry>, k: string, g: seq<Entry>)
  {
    && g != []
    && SortedDesc(g, EntryYear)
    && (forall y :: Select(g, EntryYear, y) == Select(Select(loaded, EntryBase, k), EntryYear, y))
    && multiset(g) == multiset(Select(loaded, EntryBase, k))
  }

  /** A sorted bucket is a valid group. */
  lemma SortedBucketIsGroup(loaded: seq<Entry>, k: string)
    requires Select(loaded, EntryBase, k) != []
    ensures GroupOk(loaded, k, SortDesc(Select(loaded, EntryBase, k), EntryYear))
  {
    var b := Select(loaded, EntryBase, k);
    SortDescSorted(b, EntryYear);
    SortDescPermutation(b, EntryYear);
    forall y ensures Select(SortDesc(b, EntryYear), EntryYear, y) == Select(b, EntryYear, y) {
      SortDescStable(b, EntryYear, y);
    }
  }

  /** Every shown record is in the group of its own base type. */
  lemma InOwnGroup(loaded: seq<Entry>, g: seq<Entry>, e: Entry)
    requires GroupOk(loaded, EntryBase(e), g)
    requires e in loaded
    ensures e in g
  {
    SelectMembership(loaded, EntryBase, EntryBase(e), e);
    assert e in multiset(g);
  }

  /** A group holds only shown records of its own base type. */
  lemma OnlyOwnBase(loaded: seq<Entry>, k: string, g: seq<Entry>, e: Entry)
    requires GroupOk(loaded, k, g)
    requires e in g
    ensures e in loaded && EntryBase(e) == k
  {
    assert e in multiset(Select(loaded, EntryBase, k));
    SelectMembership(loaded, EntryBase, k, e);
  }

  /** The grouping and ordering part of `renderTestSections`: the shown records bucketed by base
      type in first-seen order (`testGroups`), each bucket sorted newest first, and the base
      types ordered by their first record's weight, heaviest first (`sortedGroups`). */
  method GroupTests(activeTests: seq<string>, testsData: map<string, TestRecord>, currentYear: int)
    returns (order: seq<string>, groups: map<string, seq<Entry>>)
    ensures forall k | k in groups :: k in order
    ensures forall k | k in order :: k in groups
    ensures Distinct(order)
    ensures forall k | k in groups :: GroupOk(Loaded(activeTests, testsData, currentYear), k, groups[k])
    ensures SortedDesc(order, LeadWeight(groups))
    ensures forall w :: Select(order, LeadWeight(groups), w)
                     == Select(Keys(Loaded(activeTests, testsData, currentYear), EntryBase), LeadWeight(groups), w)
    ensures multiset(Concat(order, groups)) == multiset(Loaded(activeTests, testsData, currentYear))
  {
    var entries := LoadEntries(activeTests, testsData, currentYear);
    var keys, buckets := GroupBy(entries, EntryBase);
    KeysProperties(entries, EntryBase);
    groups := SortBuckets(keys, buckets, EntryYear);
    SortedGroupsOk(entries, buckets, groups);
    order := SortDesc(keys, LeadWeight(groups));
    OrderFacts(entries, keys, groups, order);
  }

  /** The lead record of a valid group is a loaded record, so its weight is `SortWeight` of its data. */
  lemma LeadWeightOfGroup(activeTests: seq<string>, testsData: map<string, TestRecord>, currentYear: int,
                          k: string, g: seq<Entry>)
    requires GroupOk(Loaded(activeTests, testsData, currentYear), k, g)
    ensures g[0].testType in testsData && g[0].data == testsData[g[0].testType]
    ensures g[0].sort == SortWeight(g[0].data)
  {
    var loaded := Loaded(activeTests, testsData, currentYear);
    assert g[0] in multiset(Select(loaded, EntryBase, k));
    SelectMembership(loaded, EntryBase, k, g[0]);
    LoadedSpec(activeTests, testsData, currentYear);
  }

  /** In the order of `GroupTests`, a group whose first record has no diagnosis, no `sort` or a
      zero `sort` (all weigh 0 under `|| 0`) comes after every group whose first record has a
      positive weight. */
  lemma UnweightedAfterWeighted(activeTests: seq<string>, testsData: map<string, TestRecord>, currentYear: int,
                                order: seq<string>, groups: map<string, seq<Entry>>, i: nat, j: nat)
    requires forall k | k in order :: k in groups
    requires forall k | k in groups :: GroupOk(Loaded(activeTests, testsData, currentYear), k, groups[k])
    requires SortedDesc(order, LeadWeight(groups))
    requires i < |order| && j < |order|
    requires groups[order[i]] != [] && groups[order[j]] != []
    requires var d := groups[order[i]][0].data; d.diagnosis.Some? && d.diagnosis.value.sort.GetOr(0) > 0
    requires var d := groups[order[j]][0].data;
             d.diagnosis.None? || d.diagnosis.value.sort.None? || d.diagnosis.value.sort.value == 0
    ensures i < j
  {
    LeadWeightOfGroup(activeTests, testsData, currentYear, order[i], groups[order[i]]);
    LeadWeightOfGroup(activeTests, testsData, currentYear, order[j], groups[order[j]]);
    assert LeadWeight(groups)(order[i]) > 0 == LeadWeight(groups)(order[j]);
  }

  /** After `SortBuckets`, every group is a valid group. */
  lemma SortedGroupsOk(entries: seq<Entry>, buckets: map<string, seq<Entry>>, groups: map<string, seq<Entry>>)
    requires forall k | k in buckets :: buckets[k] == Select(entries, EntryBase, k) && buckets[k] != []
    requires groups.Keys == buckets.Keys
    requires forall k | k in buckets :: groups[k] == SortDesc(buckets[k], EntryYear)
    ensures forall k | k in groups :: GroupOk(entries, k, groups[k])
  {
    forall k | k in groups ensures GroupOk(entries, k, groups[k]) {
      SortedBucketIsGroup(entries, k);
    }
  }

  /** The card order is a stable weight sort of the first-seen base types, and covers the groups. */
  lemma OrderFacts(entries: seq<Entry>, keys: seq<string>, groups: map<string, seq<Entry>>, order: seq<string>)
    requires keys == Keys(entries, EntryBase)
    requires forall k :: k in groups <==> k in keys
    requires forall k | k in groups :: GroupOk(entries, k, groups[k])
    requires order == SortDesc(keys, LeadWeight(groups))
    ensures forall k | k in groups :: k in order
    ensures forall k | k in order :: k in groups
    ensures Distinct(order)
    ensures SortedDesc(order, LeadWeight(groups))
    ensures forall w :: Select(order, LeadWeight(groups), w) == Select(keys, LeadWeight(groups), w)
    ensures multiset(Concat(order, groups)) == multiset(entries)
  {
    var weight := LeadWeight(groups);
    SortDescPermutation(keys, weight);
    KeysProperties(entries, EntryBase);
    DistinctPermutation(keys, order);
    forall k | k in order ensures k in groups {
      assert k in multiset(keys);
    }
    forall k | k in groups ensures k in order {
      assert k in multiset(order);
    }
    SortDescSorted(keys, weight);
    forall w ensures Select(order, weight, w) == Select(keys, weight, w) {
      SortDescStable(keys, weight, w);
    }
    forall k | k in order ensures multiset(groups[k]) == multiset(Select(entries, EntryBase, k)) {
      assert GroupOk(entries, k, groups[k]);
    }
    ConcatIsGather(order, groups, entries, EntryBase);
    forall i | 0 <= i < |entries| ensures EntryBase(entries[i]) in order {
      KeyListed(entries, EntryBase, i);
    }
    GatherIsPermutation(order, entries, EntryBase);
  }

  // ----- history -----

  /** A history section for the older records `older`: their count, their years strictly
      decreasing, one non-empty bucket per year holding that year's records in order, and the
      buckets together holding every older record exactly once. */
  ghost predicate IsHistoryOf(older: seq<Entry>, h: History)
  {
    && h.count == |older|
    && StrictlyDesc(h.years, AsNumber)
    && (forall y | y in h.buckets :: y in h.years)
    && (forall y | y in h.years :: y in h.buckets)
    && (forall y | y in h.buckets :: h.buckets[y] == Select(older, EntryYear, y) && h.buckets[y] != [])
    && (forall i | 0 <= i < |older| :: older[i].year in h.years)
    && multiset(Gather(h.years, older, EntryYear)) == multiset(older)
  }

  /** The records after the first: `group.slice(1)`. */
  function Older(group: seq<Entry>): (r: seq<Entry>)
    ensures |group| > 0 ==> |r| == |group| - 1 && r == group[1..]
    ensures |group| == 0 ==> r == []
  {
    if group == [] then [] else group[1..]
  }

  /** `addHistoryToggle`: bucket the older records by year (`yearGroups`) and list the years
      newest first. */
  method AddHistoryToggle(group: seq<Entry>) returns (h: History)
    ensures IsHistoryOf(Older(group), h)
  {
    var older := Older(group);
    var keys, buckets := GroupBy(older, EntryYear);
    KeysProperties(older, EntryYear);
    var years := SortDesc(keys, AsNumber);
    SortDescStrict(keys, AsNumber);
    SortDescPermutation(keys, AsNumber);
    forall y | y in buckets ensures y in years {
      assert y in multiset(keys);
    }
    forall y | y in years ensures y in buckets {
      assert y in multiset(years);
    }
    forall i | 0 <= i < |older| ensures older[i].year in years {
      KeyListed(older, EntryYear, i);
      assert older[i].year in multiset(keys);
    }
    DistinctPermutation(keys, years);
    GatherIsPermutation(years, older, EntryYear);
    h := History(|older|, years, buckets);
  }

  // ----- cards -----

  /** The card of base type `b`: it shows the group's first record under the id
      `test-<identifier>`, and has a history section exactly when the group has older records. */
  ghost predicate CardOk(group: seq<Entry>, c: Card)
  {
    && group != []
    && c.latest == group[0]
    && c.id == "test-" + group[0].testType
    && (c.history.Some? <==> |group| > 1)
    && (c.history.Some? ==> IsHistoryOf(group[1..], c.history.value))
  }

  /** The `sortedGroups.forEach` that builds one card per non-empty group, in order. */
  method RenderCards(order: seq<string>, groups: map<string, seq<Entry>>) returns (cards: seq<Card>)
    requires forall k | k in order :: k in groups
    ensures |cards| <= |order|
    ensures (forall k | k in order :: groups[k] != [])
              ==> |cards| == |order| && forall i | 0 <= i < |order| :: CardOk(groups[order[i]], cards[i])
  {
    cards := [];
    for i := 0 to |order|
      invariant |cards| <= i
      invariant (forall k | k in order :: groups[k] != [])
                  ==> |cards| == i && forall j | 0 <= j < i :: CardOk(groups[order[j]], cards[j])
    {
      var group := groups[order[i]];
      if |group| == 0 {
        continue;
      }
      var latest := group[0];
      var history := None;
      if |group| > 1 {
        var h := AddHistoryToggle(group);
        history := Some(h);
      }
      cards := cards + [Card("test-" + latest.testType, latest, history)];
    }
  }

  /** `renderTestSections` without the DOM: the cards in display order. */
  method RenderTestSections(activeTests: seq<string>, testsData: map<string, TestRecord>, currentYear: int)
    returns (order: seq<string>, groups: map<string, seq<Entry>>, cards: seq<Card>)
    ensures forall k | k in groups :: k in order
    ensures forall k | k in order :: k in groups
    ensures Distinct(order)
    ensures SortedDesc(order, LeadWeight(groups))
    ensures forall w :: Select(order, LeadWeight(groups), w)
                     == Select(Keys(Loaded(activeTests, testsData, currentYear), EntryBase), LeadWeight(groups), w)
    ensures multiset(Concat(order, groups)) == multiset(Loaded(activeTests, testsData, currentYear))
    ensures |cards| == |order|
    ensures forall i | 0 <= i < |order| :: CardOk(groups[order[i]], cards[i])
    ensures forall i | 0 <= i < |order| :: GroupOk(Loaded(activeTests, testsData, currentYear), order[i], groups[order[i]])
  {
    order, groups := GroupTests(activeTests, testsData, currentYear);
    cards := RenderCards(order, groups);
  }

  // ----- result tables -----

  /** Which table `renderTestCard` puts into a record's card. */
  datatype Table = FormatError | NoTable | AllergyTable | ComprehensiveTable | StandardTable

  /** `renderTestCard` / `renderStandardTable`: a record without a diagnosis is a format error;
      otherwise a non-empty results array gets the allergy table for the identifier `allergy`,
      the category table for a `comprehensive_checkup` diagnosis, and the plain table else. */
  function ChooseTable(testType: string, d: Option<TestRecord>): (t: Table)
    ensures t == FormatError <==> d.None? || d.value.diagnosis.None?
    ensures t == NoTable <==> d.Some? && d.value.diagnosis.Some? && (d.value.results.None? || d.value.results.value == [])
    ensures t == AllergyTable <==> t != FormatError && t != NoTable && testType == "allergy"
    ensures t == ComprehensiveTable <==>
              t != FormatError && t != NoTable && testType != "allergy"
              && d.value.diagnosis.value.kind == Some("comprehensive_checkup")
  {
    match d
    case None => FormatError
    case Some(r) =>
      if r.diagnosis.None? then FormatError
      else if r.results.None? || r.results.value == [] then NoTable
      else if testType == "allergy" then AllergyTable
      else if r.diagnosis.value.kind == Some("comprehensive_checkup") then ComprehensiveTable
      else StandardTable
  }

  datatype TableSection = TableSection(category: string, rows: seq<ResultRow>)

  function Category(r: ResultRow): string { r.category }

  /** The rows of the sections one after the other. */
  function SectionRows(sections: seq<TableSection>): seq<ResultRow>
  {
    if sections == [] then [] else sections[0].rows + SectionRows(sections[1..])
  }

  /** `renderComprehensiveTable`: one section per category, in first-seen category order, each
      holding that category's rows in input order. */
  method RenderComprehensiveTable(results: seq<ResultRow>) returns (sections: seq<TableSection>)
    ensures |sections| == |Keys(results, Category)|
    ensures forall i | 0 <= i < |sections| :: sections[i].category == Keys(results, Category)[i]
    ensures forall i | 0 <= i < |sections| :: sections[i].rows == Select(results, Category, sections[i].category)
    ensures forall i | 0 <= i < |sections| :: sections[i].rows != []
  {
    var keys, categories := GroupBy(results, Category);
    sections := [];
    for i := 0 to |keys|
      invariant |sections| == i
      invariant forall j | 0 <= j < i :: sections[j] == TableSection(keys[j], categories[keys[j]])
    {
      sections := sections + [TableSection(keys[i], categories[keys[i]])];
    }
  }

  /** The sections partition the rows: every row is in exactly one section, the one of its category. */
  lemma ComprehensiveTablePartition(results: seq<ResultRow>, sections: seq<TableSection>)
    requires |sections| == |Keys(results, Category)|
    requires forall i | 0 <= i < |sections| :: sections[i].category == Keys(results, Category)[i]
    requires forall i | 0 <= i < |sections| :: sections[i].rows == Select(results, Category, sections[i].category)
    ensures multiset(SectionRows(sections)) == multiset(results)
    ensures forall i, j | 0 <= i < j < |sections| :: sections[i].category != sections[j].category
  {
    KeysProperties(results, Category);
    SectionRowsIsGather(results, sections, Keys(results, Category));
    KeysGatherIsPermutation(results, Category);
  }

  lemma {:induction false} SectionRowsIsGather(results: seq<ResultRow>, sections: seq<TableSection>, ks: seq<string>)
    requires |sections| == |ks|
    requires forall i | 0 <= i < |sections| :: sections[i].category == ks[i]
    requires forall i | 0 <= i < |sections| :: sections[i].rows == Select(results, Category, sections[i].category)
    ensures SectionRows(sections) == Gather(ks, results, Category)
  {
    if sections != [] {
      SectionRowsIsGather(results, sections[1..], ks[1..]);
    }
  }

  // ----- search -----

  /** The query as `performSearch` normalises it: lower-cased, then trimmed. */
  function NormalizeQuery(input: string): string
  {
    Trim(ToLower(input))
  }

  /** Whether a card with text `text` stays visible for the raw query `input`. */
  predicate Visible(input: string, text: string)
  {
    NormalizeQuery(input) == [] || Includes(ToLower(text), NormalizeQuery(input))
  }

  /** `performSearch`: with an empty query every card is shown; otherwise a card is hidden
      exactly when its lower-cased text does not contain the query. */
  method PerformSearch(input: string, cardTexts: seq<string>) returns (hidden: seq<bool>)
    ensures |hidden| == |cardTexts|
    ensures NormalizeQuery(input) == [] ==> forall i | 0 <= i < |hidden| :: !hidden[i]
    ensures NormalizeQuery(input) != [] ==>
              forall i | 0 <= i < |hidden| :: hidden[i] <==> !Includes(ToLower(cardTexts[i]), NormalizeQuery(input))
  {
    var query := Trim(ToLower(input));
    if query == [] {
      hidden := seq(|cardTexts|, _ => false);
      return;
    }
    hidden := [];
    for i := 0 to |cardTexts|
      invariant |hidden| == i
      invariant forall j | 0 <= j < i :: hidden[j] <==> !Includes(ToLower(cardTexts[j]), query)
    {
      var text := ToLower(cardTexts[i]);
      hidden := hidden + [!Includes(text, query)];
    }
  }

  /** The empty-query shortcut agrees with the substring rule, since every text contains the
      empty string: a card is visible exactly when its text contains the normalised query. */
  lemma VisibleIsIncludes(input: string, text: string)
    ensures Visible(input, text) <==> Includes(ToLower(text), NormalizeQuery(input))
  {
    IncludesEmpty(ToLower(text));
  }

  /** Typing more narrows the result: a card visible for a query is visible for every piece of it. */
  lemma SearchNarrows(longer: string, shorter: string, text: string)
    requires Includes(NormalizeQuery(longer), NormalizeQuery(shorter))
    requires Visible(longer, text)
    ensures Visible(shorter, text)
  {
    VisibleIsIncludes(longer, text);
    VisibleIsIncludes(shorter, text);
    IncludesTransitive(ToLower(text), NormalizeQuery(longer), NormalizeQuery(shorter));
  }
}
