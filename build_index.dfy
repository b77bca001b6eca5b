/** The index builder of scripts/build-index.ts: one pass over the year files
    in sorted file-name order that collects the years, the number of splits,
    a per-symbol summary and an ISIN-to-symbol map, followed by sorting each
    symbol's splits newest first and the years ascending. */
module BuildIndex {
  import opened Common
  import opened Sorting
  import opened Records

  /** One split as the index lists it under its symbol. */
  datatype IndexItem = IndexItem(date: string, ratio: string, notes: Option<string>)

  /** What the index knows of one symbol. */
  datatype SymbolData = SymbolData(name: string, isin: Option<string>, exchange: Option<string>, splits: seq<IndexItem>)

  /** The contents of `data/index.json`. */
  datatype IndexFile = IndexFile(
    schemaRef: string,
    version: string,
    updated: string,
    totalSplits: nat,
    years: seq<int>,
    bySymbol: map<string, SymbolData>,
    byIsin: map<string, string>)

  const VERSION := "1.0.0"
  const INDEX_SCHEMA := "../schema/index.schema.json"

  /** `{date, ratio, ...(notes && {notes})}`: the notes are kept only when
      present and non-empty. */
  function ItemOf(e: SplitEntry): (item: IndexItem)
    ensures item.date == e.date && item.ratio == e.ratio
    ensures item.notes.Some? <==> Truthy(e.notes)
    ensures item.notes.Some? ==> item.notes == e.notes
  {
    IndexItem(e.date, e.ratio, if Truthy(e.notes) then e.notes else None)
  }

  /** The comparator `(a, b) => b.date.localeCompare(a.date)`: newest first. */
  predicate NewerOrSame(a: IndexItem, b: IndexItem) {
    StrLe(b.date, a.date)
  }

  /** The comparator `(a, b) => a - b`. */
  predicate IntLe(a: int, b: int) {
    a <= b
  }

  // ---------------------------------------------------------------------------
  // Reference definitions over the entries in processing order

  /** The non-empty ISINs that occur in `es`. */
  ghost function IsinsOf(es: seq<SplitEntry>): set<string> {
    set k | 0 <= k < |es| && Truthy(es[k].isin) :: es[k].isin.value
  }

  /** The first entry of `es` for symbol `s`. */
  function FirstWith(es: seq<SplitEntry>, s: string): Option<SplitEntry> {
    if es == [] then None
    else if es[0].symbol == s then Some(es[0])
    else FirstWith(es[1..], s)
  }

  /** The items of the entries of `es` for symbol `s`, in order. */
  function ItemsFor(es: seq<SplitEntry>, s: string): seq<IndexItem>
    decreases |es|
  {
    if es == [] then []
    else
      var e := es[|es| - 1];
      ItemsFor(es[..|es| - 1], s) + (if e.symbol == s then [ItemOf(e)] else [])
  }

  /** `split.isin` is truthy and equals `isin`. */
  predicate CarriesIsin(e: SplitEntry, isin: string) {
    Truthy(e.isin) && e.isin.value == isin
  }

  /** The symbol of the last entry of `es` whose non-empty ISIN is `isin`. */
  function LastOwner(es: seq<SplitEntry>, isin: string): Option<string>
    decreases |es|
  {
    if es == [] then None
    else
      var e := es[|es| - 1];
      if CarriesIsin(e, isin) then Some(e.symbol) else LastOwner(es[..|es| - 1], isin)
  }

  /** A symbol's summary: name, ISIN and exchange of its first entry, and
      the given items. */
  function Summary(first: SplitEntry, items: seq<IndexItem>): (d: SymbolData)
    ensures d.name == first.name && d.isin == first.isin && d.exchange == first.exchange
    ensures d.splits == items
  {
    SymbolData(first.name, first.isin, first.exchange, items)
  }

  /** The years of the files, in file order. */
  function YearsOf(files: seq<YearFile>): (ys: seq<int>)
    ensures |ys| == |files|
    ensures forall m :: 0 <= m < |files| ==> ys[m] == files[m].year
  {
    seq(|files|, m requires 0 <= m < |files| => files[m].year)
  }

  /** The number of items the lists of `bySymbol` hold together. */
  ghost function ListedSplits(bySymbol: map<string, SymbolData>): nat
    decreases |bySymbol.Keys|
  {
    if bySymbol == map[] then 0
    else
      var s :| s in bySymbol;
      |bySymbol[s].splits| + ListedSplits(bySymbol - {s})
  }

  /** `bySymbol` after the entries `done` have been visited: each symbol
      met, with its first entry's details and the items of all its entries. */
  ghost predicate SymbolsIndexed(done: seq<SplitEntry>, bySymbol: map<string, SymbolData>) {
    && bySymbol.Keys == SymbolsOf(done)
    && (forall s :: s in bySymbol ==>
          FirstWith(done, s).Some? && bySymbol[s] == Summary(FirstWith(done, s).value, ItemsFor(done, s)))
  }

  /** `byIsin` after the entries `done` have been visited: each non-empty
      ISIN met, with the symbol of the last entry that carried it. */
  ghost predicate IsinsIndexed(done: seq<SplitEntry>, byIsin: map<string, string>) {
    && byIsin.Keys == IsinsOf(done)
    && (forall i :: i in byIsin ==> LastOwner(done, i) == Some(byIsin[i]))
  }

  ghost predicate Indexed(done: seq<SplitEntry>, bySymbol: map<string, SymbolData>, byIsin: map<string, string>) {
    SymbolsIndexed(done, bySymbol) && IsinsIndexed(done, byIsin)
  }

  // ---------------------------------------------------------------------------
  // How one more entry changes the reference definitions

  lemma FirstWithSnoc(es: seq<SplitEntry>, e: SplitEntry, s: string)
    ensures FirstWith(es + [e], s)
      == if FirstWith(es, s).Some? then FirstWith(es, s) else if e.symbol == s then Some(e) else None
    decreases |es|
  {
    if es != [] {
      assert (es + [e])[1..] == es[1..] + [e];
      FirstWithSnoc(es[1..], e, s);
    }
  }

  lemma {:induction false} FirstWithPresent(es: seq<SplitEntry>, s: string)
    ensures FirstWith(es, s).Some? <==> s in SymbolsOf(es)
    ensures FirstWith(es, s).Some? ==> FirstWith(es, s).value.symbol == s
    decreases |es|
  {
    if es != [] {
      FirstWithPresent(es[1..], s);
      assert SymbolsOf(es) == {es[0].symbol} + SymbolsOf(es[1..]) by {
        forall x ensures x in SymbolsOf(es) <==> x == es[0].symbol || x in SymbolsOf(es[1..]) {
          if x in SymbolsOf(es) && x != es[0].symbol {
            var k :| 0 <= k < |es| && es[k].symbol == x;
            assert es[1..][k - 1].symbol == x;
          }
          if x in SymbolsOf(es[1..]) {
            var k :| 0 <= k < |es[1..]| && es[1..][k].symbol == x;
            assert es[k + 1].symbol == x;
          }
        }
      }
    }
  }

  lemma IsinsSnoc(es: seq<SplitEntry>, e: SplitEntry)
    ensures IsinsOf(es + [e]) == IsinsOf(es) + (if Truthy(e.isin) then {e.isin.value} else {})
  {
    var t := es + [e];
    forall x ensures x in IsinsOf(t) <==> x in IsinsOf(es) || (Truthy(e.isin) && x == e.isin.value) {
      if x in IsinsOf(t) && !(Truthy(e.isin) && x == e.isin.value) {
        var k :| 0 <= k < |t| && Truthy(t[k].isin) && t[k].isin.value == x;
        assert k < |es|;
        assert es[k] == t[k];
      }
      if x in IsinsOf(es) {
        var k :| 0 <= k < |es| && Truthy(es[k].isin) && es[k].isin.value == x;
        assert t[k] == es[k];
      }
      if Truthy(e.isin) && x == e.isin.value {
        assert t[|es|] == e;
      }
    }
  }

  lemma ItemsForSnoc(es: seq<SplitEntry>, e: SplitEntry, s: string)
    ensures ItemsFor(es + [e], s) == ItemsFor(es, s) + (if e.symbol == s then [ItemOf(e)] else [])
  {
    assert (es + [e])[..|es|] == es;
  }

  lemma LastOwnerSnoc(es: seq<SplitEntry>, e: SplitEntry, i: string)
    ensures LastOwner(es + [e], i)
      == if CarriesIsin(e, i) then Some(e.symbol) else LastOwner(es, i)
  {
    assert (es + [e])[..|es|] == es;
  }

  lemma YearsOfSnoc(files: seq<YearFile>, i: nat)
    requires i < |files|
    ensures YearsOf(files[..i + 1]) == YearsOf(files[..i]) + [files[i].year]
  {
    assert YearsOf(files[..i + 1])[..i] == YearsOf(files[..i]);
  }

  lemma {:induction false} ItemsForAbsent(es: seq<SplitEntry>, s: string)
    requires s !in SymbolsOf(es)
    ensures ItemsFor(es, s) == []
    decreases |es|
  {
    if es != [] {
      var init := es[..|es| - 1];
      assert es == init + [es[|es| - 1]];
      SymbolsSnoc(init, es[|es| - 1]);
      ItemsForAbsent(init, s);
    }
  }

  lemma RemoveShrinks(m: map<string, SymbolData>, s: string)
    requires s in m
    ensures |(m - {s}).Keys| == |m.Keys| - 1
  {
    assert m.Keys == (m - {s}).Keys + {s};
  }

  lemma RemoveCommutes(m: map<string, SymbolData>, s: string, t: string)
    ensures (m - {s}) - {t} == (m - {t}) - {s}
  {
  }

  /** ListedSplits sums over the keys in any order. */
  lemma {:induction false} ListedSplitsRemove(m: map<string, SymbolData>, s: string)
    requires s in m
    ensures ListedSplits(m) == |m[s].splits| + ListedSplits(m - {s})
    decreases |m.Keys|
  {
    var t :| t in m && ListedSplits(m) == |m[t].splits| + ListedSplits(m - {t});
    if t != s {
      RemoveShrinks(m, t);
      RemoveShrinks(m, s);
      ListedSplitsRemove(m - {t}, s);
      ListedSplitsRemove(m - {s}, t);
      RemoveCommutes(m, s, t);
    }
  }

  /** Two maps with the same keys and lists of the same lengths list the
      same number of items. */
  lemma {:induction false} ListedSplitsSameLengths(m: map<string, SymbolData>, n: map<string, SymbolData>)
    requires m.Keys == n.Keys
    requires forall s :: s in m ==> |m[s].splits| == |n[s].splits|
    ensures ListedSplits(m) == ListedSplits(n)
    decreases |m.Keys|
  {
    if m != map[] {
      var s :| s in m && ListedSplits(m) == |m[s].splits| + ListedSplits(m - {s});
      ListedSplitsRemove(n, s);
      assert |(m - {s}).Keys| < |m.Keys| by { assert m.Keys == (m - {s}).Keys + {s}; }
      ListedSplitsSameLengths(m - {s}, n - {s});
    } else {
      assert n == map[] by { assert n.Keys == {}; }
    }
  }

  /** Appending one item to one list, new or old, lists one item more. */
  lemma ListedSplitsAdd(m: map<string, SymbolData>, s: string, d: SymbolData)
    requires |d.splits| == (if s in m then |m[s].splits| else 0) + 1
    ensures ListedSplits(m[s := d]) == ListedSplits(m) + 1
  {
    var m' := m[s := d];
    ListedSplitsRemove(m', s);
    if s in m {
      ListedSplitsRemove(m, s);
      assert m' - {s} == m - {s};
    } else {
      assert m' - {s} == m;
    }
  }

  /** Creating the summary on first sight and appending the item keeps
      `bySymbol` in step with the entries visited. */
  lemma AddItemIndexed(done: seq<SplitEntry>, bySymbol: map<string, SymbolData>, split: SplitEntry)
    requires SymbolsIndexed(done, bySymbol)
    ensures var entry := if split.symbol in bySymbol then bySymbol[split.symbol]
                         else SymbolData(split.name, split.isin, split.exchange, []);
      SymbolsIndexed(done + [split], bySymbol[split.symbol := entry.(splits := entry.splits + [ItemOf(split)])])
  {
    var entry := if split.symbol in bySymbol then bySymbol[split.symbol]
                 else SymbolData(split.name, split.isin, split.exchange, []);
    var m := bySymbol[split.symbol := entry.(splits := entry.splits + [ItemOf(split)])];
    var t := done + [split];
    SymbolsSnoc(done, split);
    FirstWithPresent(done, split.symbol);
    if split.symbol !in bySymbol {
      ItemsForAbsent(done, split.symbol);
    }
    forall s | s in m
      ensures FirstWith(t, s).Some? && m[s] == Summary(FirstWith(t, s).value, ItemsFor(t, s))
    {
      FirstWithSnoc(done, split, s);
      ItemsForSnoc(done, split, s);
    }
  }

  /** Recording a non-empty ISIN keeps `byIsin` in step with the entries
      visited. */
  lemma AddIsinIndexed(done: seq<SplitEntry>, byIsin: map<string, string>, split: SplitEntry)
    requires IsinsIndexed(done, byIsin)
    ensures IsinsIndexed(done + [split], if Truthy(split.isin) then byIsin[split.isin.value := split.symbol] else byIsin)
  {
    var m := if Truthy(split.isin) then byIsin[split.isin.value := split.symbol] else byIsin;
    IsinsSnoc(done, split);
    forall i | i in m ensures LastOwner(done + [split], i) == Some(m[i]) {
      LastOwnerSnoc(done, split, i);
    }
  }

  // ---------------------------------------------------------------------------
  // The script

  /** The body of the inner loop for one split: create the symbol's summary
      on first sight, append the split's item, and record its ISIN. */
  method AddSplit(bySymbol: map<string, SymbolData>, byIsin: map<string, string>,
                  split: SplitEntry, ghost done: seq<SplitEntry>)
    returns (bySymbol': map<string, SymbolData>, byIsin': map<string, string>)
    requires Indexed(done, bySymbol, byIsin)
    ensures Indexed(done + [split], bySymbol', byIsin')
    ensures ListedSplits(bySymbol') == ListedSplits(bySymbol) + 1
  {
    var entry: SymbolData;
    if split.symbol !in bySymbol {
      entry := SymbolData(split.name, split.isin, split.exchange, []);
    } else {
      entry := bySymbol[split.symbol];
    }
    bySymbol' := bySymbol[split.symbol := entry.(splits := entry.splits + [ItemOf(split)])];
    byIsin' := byIsin;
    if Truthy(split.isin) {
      byIsin' := byIsin'[split.isin.value := split.symbol];
    }
    AddItemIndexed(done, bySymbol, split);
    ListedSplitsAdd(bySymbol, split.symbol, bySymbol'[split.symbol]);
    AddIsinIndexed(done, byIsin, split);
  }

  /** The inner loop over one year file's splits. */
  method AddFile(bySymbol: map<string, SymbolData>, byIsin: map<string, string>,
                 yearData: YearFile, ghost done: seq<SplitEntry>)
    returns (bySymbol': map<string, SymbolData>, byIsin': map<string, string>)
    requires Indexed(done, bySymbol, byIsin)
    ensures Indexed(done + yearData.splits, bySymbol', byIsin')
    ensures ListedSplits(bySymbol') == ListedSplits(bySymbol) + |yearData.splits|
  {
    bySymbol', byIsin' := bySymbol, byIsin;
    var j := 0;
    WholePrefix(done, yearData.splits);
    while j < |yearData.splits|
      invariant 0 <= j <= |yearData.splits|
      invariant Indexed(done + yearData.splits[..j], bySymbol', byIsin')
      invariant ListedSplits(bySymbol') == ListedSplits(bySymbol) + j
    {
      bySymbol', byIsin' := AddSplit(bySymbol', byIsin', yearData.splits[j], done + yearData.splits[..j]);
      ExtendPrefix(done, yearData.splits, j);
      j := j + 1;
    }
  }

  /** The loop over `Object.keys(bySymbol)`: each symbol's items sorted newest
      first. The keys are taken in an arbitrary order, since each list is
      sorted on its own. */
  method SortBySymbol(bySymbol: map<string, SymbolData>) returns (sorted: map<string, SymbolData>)
    ensures sorted.Keys == bySymbol.Keys
    ensures forall s :: s in sorted ==>
      sorted[s] == bySymbol[s].(splits := Sort(bySymbol[s].splits, NewerOrSame))
    ensures ListedSplits(sorted) == ListedSplits(bySymbol)
  {
    sorted := bySymbol;
    var keys := bySymbol.Keys;
    while keys != {}
      invariant keys <= bySymbol.Keys
      invariant sorted.Keys == bySymbol.Keys
      invariant forall s :: s in sorted && s !in keys ==>
        sorted[s] == bySymbol[s].(splits := Sort(bySymbol[s].splits, NewerOrSame))
      invariant forall s :: s in keys ==> sorted[s] == bySymbol[s]
      decreases keys
    {
      var symbol :| symbol in keys;
      sorted := sorted[symbol := sorted[symbol].(splits := Sort(sorted[symbol].splits, NewerOrSame))];
      keys := keys - {symbol};
    }
    forall s | s in sorted ensures |sorted[s].splits| == |bySymbol[s].splits| {
      SortPermutes(bySymbol[s].splits, NewerOrSame);
    }
    ListedSplitsSameLengths(sorted, bySymbol);
  }

  /** The loop over the year files: collect the years, the number of splits
      and the two maps. */
  method Collect(yearFiles: seq<string>, read: string -> YearFile)
    returns (years: seq<int>, totalSplits: nat, bySymbol: map<string, SymbolData>, byIsin: map<string, string>)
    ensures years == YearsOf(LoadAll(yearFiles, read))
    ensures totalSplits == TotalSplits(LoadAll(yearFiles, read))
    ensures Indexed(Flatten(LoadAll(yearFiles, read)), bySymbol, byIsin)
    ensures ListedSplits(bySymbol) == totalSplits
  {
    ghost var files := LoadAll(yearFiles, read);
    years, bySymbol, byIsin, totalSplits := [], map[], map[], 0;
    var i := 0;
    while i < |yearFiles|
      invariant 0 <= i <= |yearFiles|
      invariant years == YearsOf(files[..i])
      invariant totalSplits == TotalSplits(files[..i])
      invariant Indexed(Flatten(files[..i]), bySymbol, byIsin)
      invariant ListedSplits(bySymbol) == totalSplits
    {
      var yearData := read(yearFiles[i]);
      assert yearData == files[i];
      years := years + [yearData.year];
      totalSplits := totalSplits + |yearData.splits|;
      bySymbol, byIsin := AddFile(bySymbol, byIsin, yearData, Flatten(files[..i]));
      FlattenSnoc(files, i);
      YearsOfSnoc(files, i);
      i := i + 1;
    }
    WholePrefix([], files);
  }

  /** `buildIndex` over the year files the listing names; `updated` is the
      build date. */
  method BuildIndex(listing: seq<string>, read: string -> YearFile, updated: string)
    returns (index: IndexFile)
    ensures var files := LoadAll(GetYearFiles(listing), read);
      var es := Flatten(files);
      && index.schemaRef == INDEX_SCHEMA && index.version == VERSION && index.updated == updated
      && index.totalSplits == TotalSplits(files)
      && index.years == Sort(YearsOf(files), IntLe)
      && index.bySymbol.Keys == SymbolsOf(es)
      && (forall s :: s in index.bySymbol ==>
            FirstWith(es, s).Some?
            && index.bySymbol[s] == Summary(FirstWith(es, s).value, Sort(ItemsFor(es, s), NewerOrSame)))
      && ListedSplits(index.bySymbol) == index.totalSplits
      && IsinsIndexed(es, index.byIsin)
  {
    var yearFiles := GetYearFiles(listing);
    var years, totalSplits, bySymbol, byIsin := Collect(yearFiles, read);
    ghost var es := Flatten(LoadAll(yearFiles, read));
    var sorted := SortBySymbol(bySymbol);
    forall s | s in sorted
      ensures FirstWith(es, s).Some?
      ensures sorted[s] == Summary(FirstWith(es, s).value, Sort(ItemsFor(es, s), NewerOrSame))
    {
      assert s in bySymbol;
    }
    index := IndexFile(INDEX_SCHEMA, VERSION, updated, totalSplits, Sort(years, IntLe), sorted, byIsin);
  }
}
