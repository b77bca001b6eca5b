/** The merge helpers of scripts/fetch-massive.ts: the splits already on
    record, the API splits that are new, their grouping by year, the entries
    appended to a year file, and the order a year file is saved in. */
module FetchMassive {
  import opened Common
  import opened Sorting
  import opened Records

  /** One split event as the splits API reports it. */
  datatype MassiveSplit = MassiveSplit(ticker: string, executionDate: string, splitFrom: int, splitTo: int)

  const YEAR_SCHEMA := "../schema/year-file.schema.json"
  const SOURCE := "massive"

  // ---------------------------------------------------------------------------
  // convertRatio

  /** `${splitTo}:${splitFrom}`. Whole, non-negative numbers give a ratio the
      validator accepts, which reads back as (splitTo, splitFrom). */
  function ConvertRatio(splitFrom: int, splitTo: int): (r: string)
    ensures IsRatio(r) <==> splitFrom >= 0 && splitTo >= 0
    ensures splitFrom >= 0 && splitTo >= 0 ==> ParseRatio(r) == Some((splitTo, splitFrom))
  {
    var a, b := IntToString(splitTo), IntToString(splitFrom);
    RatioOfParts(a, b);
    if splitFrom >= 0 && splitTo >= 0 then
      NatRatioRoundTrip(splitTo, splitFrom);
      a + ":" + b
    else a + ":" + b
  }

  lemma NatRatioRoundTrip(n: nat, m: nat)
    ensures ParseRatio(NatToString(n) + ":" + NatToString(m)) == Some((n, m))
  {
    IsRatioCharacterized(NatToString(n), NatToString(m));
    NatToStringRoundTrip(n);
    NatToStringRoundTrip(m);
  }

  // ---------------------------------------------------------------------------
  // loadExistingSplits

  /** Some entry of `es` has this symbol and date. */
  ghost predicate Recorded(es: seq<SplitEntry>, symbol: string, date: string) {
    exists k :: 0 <= k < |es| && es[k].symbol == symbol && es[k].date == date
  }

  ghost function DatesOf(es: seq<SplitEntry>, symbol: string): set<string> {
    set k | 0 <= k < |es| && es[k].symbol == symbol :: es[k].date
  }

  /** `existing` maps each symbol of `es` to the set of its dates. */
  ghost predicate Existing(es: seq<SplitEntry>, existing: map<string, set<string>>) {
    && existing.Keys == SymbolsOf(es)
    && forall s :: s in existing ==> existing[s] == DatesOf(es, s)
  }

  lemma DatesOfSnoc(es: seq<SplitEntry>, e: SplitEntry, s: string)
    ensures DatesOf(es + [e], s) == DatesOf(es, s) + (if e.symbol == s then {e.date} else {})
  {
    var t := es + [e];
    forall x ensures x in DatesOf(t, s) <==> x in DatesOf(es, s) || (e.symbol == s && x == e.date) {
      if x in DatesOf(t, s) && !(e.symbol == s && x == e.date) {
        var k :| 0 <= k < |t| && t[k].symbol == s && t[k].date == x;
        assert k < |es|;
        assert es[k] == t[k];
      }
      if x in DatesOf(es, s) {
        var k :| 0 <= k < |es| && es[k].symbol == s && es[k].date == x;
        assert t[k] == es[k];
      }
      if e.symbol == s && x == e.date {
        assert t[|es|] == e;
      }
    }
  }

  /** The body of the inner loop: add the split's date to its symbol's set. */
  method AddExisting(existing: map<string, set<string>>, split: SplitEntry, ghost done: seq<SplitEntry>)
    returns (existing': map<string, set<string>>)
    requires Existing(done, existing)
    ensures Existing(done + [split], existing')
  {
    existing' := existing;
    if split.symbol !in existing' {
      existing' := existing'[split.symbol := {}];
    }
    existing' := existing'[split.symbol := existing'[split.symbol] + {split.date}];
    SymbolsSnoc(done, split);
    forall s | s in existing' ensures existing'[s] == DatesOf(done + [split], s) {
      DatesOfSnoc(done, split, s);
    }
  }

  /** `loadExistingSplits` over the year files of a directory listing, in
      listing order: a symbol's set holds exactly the dates on record for it. */
  method LoadExistingSplits(listing: seq<string>, read: string -> YearFile)
    returns (existing: map<string, set<string>>)
    ensures Existing(Flatten(LoadAll(YearFileNames(listing), read)), existing)
  {
    var names := YearFileNames(listing);
    ghost var files := LoadAll(names, read);
    existing := map[];
    var i := 0;
    while i < |names|
      invariant 0 <= i <= |names|
      invariant Existing(Flatten(files[..i]), existing)
    {
      var yearData := read(names[i]);
      ghost var before := Flatten(files[..i]);
      var j := 0;
      WholePrefix(before, yearData.splits);
      while j < |yearData.splits|
        invariant 0 <= j <= |yearData.splits|
        invariant Existing(before + yearData.splits[..j], existing)
      {
        existing := AddExisting(existing, yearData.splits[j], before + yearData.splits[..j]);
        ExtendPrefix(before, yearData.splits, j);
        j := j + 1;
      }
      FlattenSnoc(files, i);
      i := i + 1;
    }
    WholePrefix([], files);
  }

  /** A date is in a symbol's set exactly when an entry on record has both. */
  lemma ExistingIsRecorded(es: seq<SplitEntry>, existing: map<string, set<string>>, symbol: string, date: string)
    requires Existing(es, existing)
    ensures (symbol in existing && date in existing[symbol]) <==> Recorded(es, symbol, date)
  {
    if Recorded(es, symbol, date) {
      var k :| 0 <= k < |es| && es[k].symbol == symbol && es[k].date == date;
      assert symbol in SymbolsOf(es);
      assert date in DatesOf(es, symbol);
    }
  }

  // ---------------------------------------------------------------------------
  // filterNewSplits

  /** The filter callback: no set for the ticker, or the date not in it. */
  predicate IsNew(split: MassiveSplit, existing: map<string, set<string>>) {
    split.ticker !in existing || split.executionDate !in existing[split.ticker]
  }

  /** `apiSplits.filter(...)`: the new splits in input order, every copy of
      a new split kept, every old one dropped. */
  function FilterNewSplits(apiSplits: seq<MassiveSplit>, existing: map<string, set<string>>): (r: seq<MassiveSplit>)
    ensures forall x :: x in r <==> x in apiSplits && IsNew(x, existing)
    decreases |apiSplits|
  {
    if apiSplits == [] then []
    else
      var init, x := apiSplits[..|apiSplits| - 1], apiSplits[|apiSplits| - 1];
      assert apiSplits == init + [x];
      FilterNewSplits(init, existing) + (if IsNew(x, existing) then [x] else [])
  }

  lemma FilterNewSplitsSnoc(s: seq<MassiveSplit>, x: MassiveSplit, existing: map<string, set<string>>)
    ensures FilterNewSplits(s + [x], existing) == FilterNewSplits(s, existing) + (if IsNew(x, existing) then [x] else [])
  {
    assert (s + [x])[..|s + [x]| - 1] == s;
  }

  /** Filtering works element by element, so it keeps the input order. */
  lemma {:induction false} FilterNewSplitsConcat(a: seq<MassiveSplit>, b: seq<MassiveSplit>, existing: map<string, set<string>>)
    ensures FilterNewSplits(a + b, existing) == FilterNewSplits(a, existing) + FilterNewSplits(b, existing)
    decreases |b|
  {
    if b == [] {
      assert a + b == a;
    } else {
      var c, x := b[..|b| - 1], b[|b| - 1];
      assert b == c + [x];
      assert a + b == (a + c) + [x];
      FilterNewSplitsConcat(a, c, existing);
      FilterNewSplitsSnoc(a + c, x, existing);
      FilterNewSplitsSnoc(c, x, existing);
      AppendAssoc(FilterNewSplits(a, existing), FilterNewSplits(c, existing), if IsNew(x, existing) then [x] else []);
    }
  }

  /** Every copy of a new split is kept, duplicates within the batch
      included, and no copy of an old one. */
  lemma {:induction false} FilterNewSplitsCopies(apiSplits: seq<MassiveSplit>, existing: map<string, set<string>>, x: MassiveSplit)
    ensures multiset(FilterNewSplits(apiSplits, existing))[x] == if IsNew(x, existing) then multiset(apiSplits)[x] else 0
    decreases |apiSplits|
  {
    if apiSplits != [] {
      var init, y := apiSplits[..|apiSplits| - 1], apiSplits[|apiSplits| - 1];
      assert apiSplits == init + [y];
      FilterNewSplitsCopies(init, existing, x);
    }
  }

  /** With the sets built from the files on record, a split is kept exactly
      when no entry on record has its ticker and execution date. */
  lemma FilterKeepsUnrecorded(es: seq<SplitEntry>, existing: map<string, set<string>>, apiSplits: seq<MassiveSplit>)
    requires Existing(es, existing)
    ensures forall x :: x in FilterNewSplits(apiSplits, existing) <==>
      x in apiSplits && !Recorded(es, x.ticker, x.executionDate)
  {
    forall x ensures IsNew(x, existing) <==> !Recorded(es, x.ticker, x.executionDate) {
      ExistingIsRecorded(es, existing, x.ticker, x.executionDate);
    }
  }

  // ---------------------------------------------------------------------------
  // groupByYear

  /** The group key `parseInt(execution_date.substring(0, 4), 10)`; `None`
      stands for NaN, which a Map treats as one key. */
  function YearKey(split: MassiveSplit): Option<nat> {
    YearOf(split.executionDate)
  }

  /** The splits of `s` whose key is `y`, in input order. */
  function InYear(s: seq<MassiveSplit>, y: Option<nat>): (r: seq<MassiveSplit>)
    ensures forall x :: x in r <==> x in s && YearKey(x) == y
    decreases |s|
  {
    if s == [] then []
    else
      var init, x := s[..|s| - 1], s[|s| - 1];
      assert s == init + [x];
      InYear(init, y) + (if YearKey(x) == y then [x] else [])
  }

  ghost function KeysOf(s: seq<MassiveSplit>): set<Option<nat>> {
    set k | 0 <= k < |s| :: YearKey(s[k])
  }

  lemma InYearSnoc(s: seq<MassiveSplit>, x: MassiveSplit, y: Option<nat>)
    ensures InYear(s + [x], y) == InYear(s, y) + (if YearKey(x) == y then [x] else [])
  {
    assert (s + [x])[..|s|] == s;
  }

  lemma KeysSnoc(s: seq<MassiveSplit>, x: MassiveSplit)
    ensures KeysOf(s + [x]) == KeysOf(s) + {YearKey(x)}
  {
    var t := s + [x];
    forall y ensures y in KeysOf(t) <==> y in KeysOf(s) || y == YearKey(x) {
      if y in KeysOf(t) && y != YearKey(x) {
        var k :| 0 <= k < |t| && YearKey(t[k]) == y;
        assert s[k] == t[k];
      }
      if y in KeysOf(s) {
        var k :| 0 <= k < |s| && YearKey(s[k]) == y;
        assert t[k] == s[k];
      }
      if y == YearKey(x) {
        assert t[|s|] == x;
      }
    }
  }

  lemma {:induction false} InYearAbsent(s: seq<MassiveSplit>, y: Option<nat>)
    requires y !in KeysOf(s)
    ensures InYear(s, y) == []
    decreases |s|
  {
    if s != [] {
      var init := s[..|s| - 1];
      assert s == init + [s[|s| - 1]];
      KeysSnoc(init, s[|s| - 1]);
      InYearAbsent(init, y);
    }
  }

  /** `byYear` holds exactly the groups of `p`: one per key met, each the
      splits of that key in input order. */
  ghost predicate Grouped(p: seq<MassiveSplit>, byYear: map<Option<nat>, seq<MassiveSplit>>) {
    && byYear.Keys == KeysOf(p)
    && forall y :: y in byYear ==> byYear[y] == InYear(p, y)
  }

  /** One step of the loop of `groupByYear`: create the group if missing,
      then push the split onto it. */
  function Push(byYear: map<Option<nat>, seq<MassiveSplit>>, x: MassiveSplit): (r: map<Option<nat>, seq<MassiveSplit>>)
    ensures r.Keys == byYear.Keys + {YearKey(x)}
    ensures r[YearKey(x)] == (if YearKey(x) in byYear then byYear[YearKey(x)] else []) + [x]
    ensures forall y :: y in byYear && y != YearKey(x) ==> r[y] == byYear[y]
  {
    var y := YearKey(x);
    var m := if y !in byYear then byYear[y := []] else byYear;
    m[y := m[y] + [x]]
  }

  /** The body of the loop of `groupByYear`. */
  method AddToGroup(byYear: map<Option<nat>, seq<MassiveSplit>>, split: MassiveSplit)
    returns (r: map<Option<nat>, seq<MassiveSplit>>)
    ensures r == Push(byYear, split)
  {
    var year := YearKey(split);
    r := byYear;
    if year !in r {
      r := r[year := []];
    }
    r := r[year := r[year] + [split]];
  }

  /** Pushing `splits[i]` onto the groups of the first `i` splits gives the
      groups of the first `i + 1` splits. */
  lemma GroupStep(splits: seq<MassiveSplit>, i: nat, before: map<Option<nat>, seq<MassiveSplit>>)
    requires i < |splits|
    requires Grouped(splits[..i], before)
    ensures Grouped(splits[..i + 1], Push(before, splits[i]))
  {
    var x, y := splits[i], YearKey(splits[i]);
    var p := splits[..i];
    var after := Push(before, x);
    TakeSnoc(splits, i);
    KeysSnoc(p, x);
    if y !in before {
      InYearAbsent(p, y);
    }
    forall z | z in after ensures after[z] == InYear(p + [x], z) {
      InYearSnoc(p, x, z);
    }
  }

  /** Each split can sit only in the group of its own key, so the copies of
      a split in that group are all its copies in the input. */
  lemma {:induction false} InYearCopies(s: seq<MassiveSplit>, y: Option<nat>, x: MassiveSplit)
    ensures multiset(InYear(s, y))[x] == if YearKey(x) == y then multiset(s)[x] else 0
    decreases |s|
  {
    if s != [] {
      var init, z := s[..|s| - 1], s[|s| - 1];
      assert s == init + [z];
      assert multiset(s) == multiset(init) + multiset{z};
      InYearCopies(init, y, x);
      if YearKey(z) == y {
        assert multiset(InYear(s, y)) == multiset(InYear(init, y)) + multiset{z};
      } else {
        assert InYear(s, y) == InYear(init, y) + [];
      }
    }
  }

  /** Taken together the groups are a permutation of the input: every split
      lies in the group of its key as often as in the input, and in no other
      group. */
  lemma GroupsPermute(splits: seq<MassiveSplit>, byYear: map<Option<nat>, seq<MassiveSplit>>)
    requires byYear.Keys == KeysOf(splits)
    requires forall y :: y in byYear ==> byYear[y] == InYear(splits, y)
    ensures forall x :: x in splits ==> YearKey(x) in byYear && multiset(byYear[YearKey(x)])[x] == multiset(splits)[x]
    ensures forall y, x :: y in byYear && x in byYear[y] ==> YearKey(x) == y
  {
    forall x | x in splits ensures YearKey(x) in byYear && multiset(byYear[YearKey(x)])[x] == multiset(splits)[x] {
      var k :| 0 <= k < |splits| && splits[k] == x;
      assert YearKey(splits[k]) in KeysOf(splits);
      InYearCopies(splits, YearKey(x), x);
    }
  }

  /** `groupByYear`: each key met maps to its splits in input order. */
  method GroupByYear(splits: seq<MassiveSplit>) returns (byYear: map<Option<nat>, seq<MassiveSplit>>)
    ensures byYear.Keys == KeysOf(splits)
    ensures forall y :: y in byYear ==> byYear[y] == InYear(splits, y)
  {
    byYear := map[];
    var i := 0;
    while i < |splits|
      invariant 0 <= i <= |splits|
      invariant Grouped(splits[..i], byYear)
    {
      GroupStep(splits, i, byYear);
      byYear := AddToGroup(byYear, splits[i]);
      i := i + 1;
    }
    WholePrefix([], splits);
  }

  // ---------------------------------------------------------------------------
  // loadOrCreateYearFile, the append loop of main, saveYearFile

  /** `loadOrCreateYearFile`: the stored file when there is one, otherwise an
      empty file for the year, dated `today` and without a `count`. */
  function LoadOrCreateYearFile(year: nat, stored: Option<YearFile>, today: string): (f: YearFile)
    ensures stored.Some? ==> f == stored.value
    ensures stored.None? ==> f.year == year && f.splits == [] && f.count.None? && f.updated == today
  {
    match stored
    case Some(file) => file
    case None => YearFile(YEAR_SCHEMA, year, today, None, [])
  }

  /** The entry `main` builds for an API split: the ticker stands in for the
      company name. */
  function EntryOf(split: MassiveSplit): (e: SplitEntry)
    ensures e.symbol == split.ticker && e.name == split.ticker && e.date == split.executionDate
    ensures e.ratio == ConvertRatio(split.splitFrom, split.splitTo) && e.source == Some(SOURCE)
    ensures e.isin.None? && e.exchange.None? && e.verified.None? && e.notes.None?
  {
    SplitEntry(split.ticker, split.ticker, split.executionDate,
               ConvertRatio(split.splitFrom, split.splitTo), None, None, Some(SOURCE), None, None)
  }

  /** The entries `main` builds for a group, in the group's order. */
  function Entries(group: seq<MassiveSplit>): (es: seq<SplitEntry>)
    ensures |es| == |group|
    ensures forall k :: 0 <= k < |group| ==> es[k] == EntryOf(group[k])
  {
    MapSeq(EntryOf, group)
  }

  lemma EntriesSnoc(group: seq<MassiveSplit>, i: nat)
    requires i < |group|
    ensures Entries(group[..i + 1]) == Entries(group[..i]) + [EntryOf(group[i])]
  {
    MapSeqSnoc(EntryOf, group, i);
  }

  /** The inner loop of `main`: one entry pushed per split of the group after
      the file's own entries; every other field stays as it was. */
  method AppendNew(yearFile: YearFile, group: seq<MassiveSplit>) returns (out: YearFile)
    ensures out == yearFile.(splits := yearFile.splits + Entries(group))
  {
    var splits := yearFile.splits;
    var i := 0;
    WholePrefix([], group);
    assert Entries(group[..0]) == [];
    while i < |group|
      invariant 0 <= i <= |group|
      invariant splits == yearFile.splits + Entries(group[..i])
    {
      var entry := EntryOf(group[i]);
      EntriesSnoc(group, i);
      AppendAssoc(yearFile.splits, Entries(group[..i]), [entry]);
      splits := splits + [entry];
      i := i + 1;
    }
    out := yearFile.(splits := splits);
  }

  /** What AppendNew leaves: the old entries untouched in front, then one
      entry per split of the group. */
  lemma AppendKeepsExisting(yearFile: YearFile, group: seq<MassiveSplit>)
    ensures var out := yearFile.(splits := yearFile.splits + Entries(group));
      && out.count == yearFile.count && out.year == yearFile.year
      && |out.splits| == |yearFile.splits| + |group|
      && out.splits[..|yearFile.splits|] == yearFile.splits
      && forall k :: 0 <= k < |group| ==> out.splits[|yearFile.splits| + k] == EntryOf(group[k])
  {
    var out := yearFile.(splits := yearFile.splits + Entries(group));
    assert out.splits[..|yearFile.splits|] == yearFile.splits;
  }

  /** The comparator of `saveYearFile`: by date, then by symbol. */
  predicate DateThenSymbol(a: SplitEntry, b: SplitEntry) {
    if a.date != b.date then StrLe(a.date, b.date) else StrLe(a.symbol, b.symbol)
  }

  lemma DateThenSymbolIsTotalPreorder()
    ensures TotalPreorder(DateThenSymbol)
  {
    forall a: SplitEntry, b: SplitEntry ensures DateThenSymbol(a, b) || DateThenSymbol(b, a) {
      StrLeTotal(a.date, b.date);
      StrLeTotal(a.symbol, b.symbol);
    }
    forall a: SplitEntry, b: SplitEntry, c: SplitEntry | DateThenSymbol(a, b) && DateThenSymbol(b, c)
      ensures DateThenSymbol(a, c)
    {
      if a.date == b.date && b.date == c.date {
        StrLeTransitive(a.symbol, b.symbol, c.symbol);
      } else {
        StrLeReflexive(a.date);
        StrLeReflexive(b.date);
        StrLeTransitive(a.date, b.date, c.date);
        if a.date == c.date {
          StrLeAntisymmetric(a.date, b.date);
        }
      }
    }
  }

  /** `saveYearFile` without the write: restamp the file and sort its splits
      ascending by date, then by symbol. The sort keeps every entry and the
      declared `count`. */
  function SaveYearFile(data: YearFile, today: string): (saved: YearFile)
    ensures saved == data.(updated := today, splits := saved.splits)
    ensures multiset(saved.splits) == multiset(data.splits) && |saved.splits| == |data.splits|
    ensures forall i, j :: 0 <= i < j < |saved.splits| ==>
      (StrLe(saved.splits[i].date, saved.splits[j].date)
       && (saved.splits[i].date == saved.splits[j].date ==> StrLe(saved.splits[i].symbol, saved.splits[j].symbol)))
    ensures saved.splits == Sort(data.splits, DateThenSymbol)
  {
    var sorted := Sort(data.splits, DateThenSymbol);
    SortPermutes(data.splits, DateThenSymbol);
    DateThenSymbolIsTotalPreorder();
    SortSorted(data.splits, DateThenSymbol);
    forall i, j | 0 <= i < j < |sorted|
      ensures StrLe(sorted[i].date, sorted[j].date)
      ensures sorted[i].date == sorted[j].date ==> StrLe(sorted[i].symbol, sorted[j].symbol)
    {
      assert DateThenSymbol(sorted[i], sorted[j]);
      if sorted[i].date == sorted[j].date {
        StrLeReflexive(sorted[i].date);
      }
    }
    data.(updated := today, splits := sorted)
  }

  /** The comparator ties exactly the entries of one date and one symbol. */
  lemma SameDateAndSymbolEquivalent(a: SplitEntry, b: SplitEntry)
    ensures Equivalent(a, b, DateThenSymbol) <==> a.date == b.date && a.symbol == b.symbol
  {
    if a.date == b.date {
      StrLeReflexive(a.symbol);
      if Equivalent(a, b, DateThenSymbol) {
        StrLeAntisymmetric(a.symbol, b.symbol);
      }
    } else if Equivalent(a, b, DateThenSymbol) {
      StrLeAntisymmetric(a.date, b.date);
    }
  }

  /** Saving keeps the entries of one date and symbol in the order the file
      held them: the sort is stable. */
  lemma SaveYearFileStable(data: YearFile, today: string, y: SplitEntry)
    ensures Class(SaveYearFile(data, today).splits, y, DateThenSymbol) == Class(data.splits, y, DateThenSymbol)
  {
    DateThenSymbolIsTotalPreorder();
    SortStable(data.splits, y, DateThenSymbol);
  }

  /** One iteration of the loop over the groups in `main`: load or create the
      year's file, append the group's entries, and save it. */
  method MergeYear(year: nat, group: seq<MassiveSplit>, stored: Option<YearFile>, today: string)
    returns (saved: YearFile)
    ensures var before := LoadOrCreateYearFile(year, stored, today);
      && saved.count == before.count && saved.year == before.year && saved.schemaRef == before.schemaRef
      && saved.updated == today
      && multiset(saved.splits) == multiset(before.splits + Entries(group))
      && saved.splits == Sort(before.splits + Entries(group), DateThenSymbol)
  {
    var yearFile := LoadOrCreateYearFile(year, stored, today);
    var appended := AppendNew(yearFile, group);
    saved := SaveYearFile(appended, today);
  }
}
