/** The records the three scripts share: a split entry, a year file, and the
    directory listing they are loaded from. */
module Records {
  import opened Common
  import opened Sorting

  /** One corporate split event, as a year file stores it. */
  datatype SplitEntry = SplitEntry(
    symbol: string,
    name: string,
    date: string,
    ratio: string,
    isin: Option<string>,
    exchange: Option<string>,
    source: Option<string>,
    verified: Option<bool>,
    notes: Option<string>)

  /** The parsed contents of `data/YYYY.json`. `count` is absent in files the
      ingestion script creates. */
  datatype YearFile = YearFile(
    schemaRef: string,
    year: int,
    updated: string,
    count: Option<int>,
    splits: seq<SplitEntry>)

  /** The symbols that occur in `es`. */
  ghost function SymbolsOf(es: seq<SplitEntry>): set<string> {
    set k | 0 <= k < |es| :: es[k].symbol
  }

  /** One more entry adds its symbol. */
  lemma SymbolsSnoc(es: seq<SplitEntry>, e: SplitEntry)
    ensures SymbolsOf(es + [e]) == SymbolsOf(es) + {e.symbol}
  {
    var t := es + [e];
    forall x ensures x in SymbolsOf(t) <==> x in SymbolsOf(es) || x == e.symbol {
      if x in SymbolsOf(t) && x != e.symbol {
        var k :| 0 <= k < |t| && t[k].symbol == x;
        assert es[k].symbol == x;
      }
      if x in SymbolsOf(es) {
        var k :| 0 <= k < |es| && es[k].symbol == x;
        assert t[k].symbol == x;
      }
      if x == e.symbol {
        assert t[|es|].symbol == x;
      }
    }
  }

  ghost predicate Distinct<T>(s: seq<T>) {
    forall i, j :: 0 <= i < j < |s| ==> s[i] != s[j]
  }

  /** `/^\d{4}\.json$/` */
  predicate IsYearFileName(f: string) {
    |f| == 9 && AllDigits(f[..4]) && f[4..] == ".json"
  }

  /** The year a year-file name spells: `parseInt(f.replace('.json', ''), 10)`. */
  function FileNameYear(f: string): (y: nat)
    requires IsYearFileName(f)
    ensures y <= 9999
    ensures ParseInt(f[..4]) == Some(y)
  {
    DigitsValueBound(f[..4]);
    assert Pow10(4) == 10000 by {
      assert Pow10(1) == 10;
      assert Pow10(2) == 100;
      assert Pow10(3) == 1000;
    }
    DigitsValue(f[..4])
  }

  /** `files.filter(f => /^\d{4}\.json$/.test(f))`, keeping listing order. */
  function YearFileNames(listing: seq<string>): (r: seq<string>)
    ensures forall f :: f in r <==> f in listing && IsYearFileName(f)
    ensures Distinct(listing) ==> Distinct(r)
  {
    if listing == [] then []
    else
      var rest := YearFileNames(listing[1..]);
      assert forall f :: f in listing <==> f == listing[0] || f in listing[1..];
      if IsYearFileName(listing[0]) then
        assert Distinct(listing) ==> listing[0] !in listing[1..];
        [listing[0]] + rest
      else rest
  }

  /** `getYearFiles`: the year-file names of a directory listing, sorted by
      the default order of `Array.prototype.sort` (exact here: the names are ASCII). A listing names
      each file once, so the result is strictly increasing. */
  function GetYearFiles(listing: seq<string>): (r: seq<string>)
    ensures forall f :: f in r <==> f in listing && IsYearFileName(f)
    ensures multiset(r) == multiset(YearFileNames(listing))
    ensures Sorted(r, StrLe)
    ensures Distinct(listing) ==> Distinct(r) && forall i, j :: 0 <= i < j < |r| ==> StrLt(r[i], r[j])
  {
    var names := YearFileNames(listing);
    var r := Sort(names, StrLe);
    SortPermutes(names, StrLe);
    StrLeIsTotalPreorder();
    SortSorted(names, StrLe);
    assert forall f :: f in r <==> f in multiset(names);
    SortDistinct(names, StrLe);
    r
  }

  lemma StrLeIsTotalPreorder()
    ensures TotalPreorder(StrLe)
  {
    forall a, b ensures StrLe(a, b) || StrLe(b, a) {
      StrLeTotal(a, b);
    }
    forall a, b, c | StrLe(a, b) && StrLe(b, c) ensures StrLe(a, c) {
      StrLeTransitive(a, b, c);
    }
  }

  lemma {:induction false} InsertDistinct<T>(x: T, s: seq<T>, le: (T, T) -> bool)
    requires Distinct(s) && x !in s
    ensures Distinct(Insert(x, s, le))
  {
    if s != [] && !le(x, s[0]) {
      InsertDistinct(x, s[1..], le);
      InsertPermutes(x, s[1..], le);
      var t := Insert(x, s[1..], le);
      assert s[0] !in s[1..];
      assert s[0] !in multiset(t);
      forall i, j | 0 <= i < j < |[s[0]] + t| ensures ([s[0]] + t)[i] != ([s[0]] + t)[j] {
        if i == 0 {
          assert ([s[0]] + t)[j] == t[j - 1];
          assert t[j - 1] in multiset(t);
        }
      }
    }
  }

  lemma {:induction false} SortDistinct<T>(s: seq<T>, le: (T, T) -> bool)
    ensures Distinct(s) ==> Distinct(Sort(s, le))
  {
    if s != [] && Distinct(s) {
      SortDistinct(s[1..], le);
      SortPermutes(s[1..], le);
      assert s[0] !in s[1..];
      assert s[0] !in multiset(Sort(s[1..], le));
      InsertDistinct(s[0], Sort(s[1..], le), le);
    }
  }

  /** All split entries of a sequence of year files, in file order and then
      in order within each file: the order in which the scripts visit them. */
  function Flatten(files: seq<YearFile>): (es: seq<SplitEntry>)
    decreases |files|
  {
    if files == [] then [] else Flatten(files[..|files| - 1]) + files[|files| - 1].splits
  }

  lemma FlattenSnoc(files: seq<YearFile>, i: nat)
    requires i < |files|
    ensures Flatten(files[..i + 1]) == Flatten(files[..i]) + files[i].splits
    ensures TotalSplits(files[..i + 1]) == TotalSplits(files[..i]) + |files[i].splits|
  {
    assert files[..i + 1][..i] == files[..i];
  }

  /** The total number of split entries, summed file by file. */
  function TotalSplits(files: seq<YearFile>): (n: nat)
    ensures n == |Flatten(files)|
    decreases |files|
  {
    if files == [] then 0 else TotalSplits(files[..|files| - 1]) + |files[|files| - 1].splits|
  }

  /** The year files the names designate, read through `read`. */
  function LoadAll(names: seq<string>, read: string -> YearFile): (files: seq<YearFile>)
    ensures |files| == |names|
    ensures forall i :: 0 <= i < |names| ==> files[i] == read(names[i])
  {
    seq(|names|, i requires 0 <= i < |names| => read(names[i]))
  }
}
