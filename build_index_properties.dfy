/** What the index promises, proved about the reference definitions that
    BuildIndex.BuildIndex is tied to: first-seen symbol details, last-seen
    ISIN owners, the items of each symbol, and the order of the lists and
    of the years. */
module BuildIndexProperties {
  import opened Common
  import opened Sorting
  import opened Records
  import opened BuildIndex

  // ---------------------------------------------------------------------------
  // The comparators

  lemma NewerOrSameIsTotalPreorder()
    ensures TotalPreorder(NewerOrSame)
  {
    forall a: IndexItem, b: IndexItem ensures NewerOrSame(a, b) || NewerOrSame(b, a) {
      StrLeTotal(a.date, b.date);
    }
    forall a: IndexItem, b: IndexItem, c: IndexItem | NewerOrSame(a, b) && NewerOrSame(b, c)
      ensures NewerOrSame(a, c)
    {
      StrLeTransitive(c.date, b.date, a.date);
    }
  }

  /** The date comparator ties exactly the items of one date. */
  lemma SameDateEquivalent(a: IndexItem, b: IndexItem)
    ensures Equivalent(a, b, NewerOrSame) <==> a.date == b.date
  {
    if a.date == b.date {
      StrLeReflexive(a.date);
    }
    if Equivalent(a, b, NewerOrSame) {
      StrLeAntisymmetric(a.date, b.date);
    }
  }

  lemma IntLeIsTotalPreorder()
    ensures TotalPreorder(IntLe)
  {
  }

  // ---------------------------------------------------------------------------
  // The sort of each symbol's list

  /** A symbol's sorted list runs from the newest date to the oldest, holds
      the items appended, and keeps the items of one date in the order they
      were appended. */
  lemma SymbolSplitsSorted(items: seq<IndexItem>)
    ensures var r := Sort(items, NewerOrSame);
      && (forall i, j :: 0 <= i < j < |r| ==> StrLe(r[j].date, r[i].date))
      && multiset(r) == multiset(items) && |r| == |items|
      && (forall y :: Class(r, y, NewerOrSame) == Class(items, y, NewerOrSame))
  {
    NewerOrSameIsTotalPreorder();
    SortSorted(items, NewerOrSame);
    SortPermutes(items, NewerOrSame);
    forall y ensures Class(Sort(items, NewerOrSame), y, NewerOrSame) == Class(items, y, NewerOrSame) {
      SortStable(items, y, NewerOrSame);
    }
  }

  // ---------------------------------------------------------------------------
  // The years

  /** One year per file, in ascending order, with nothing dropped. */
  lemma YearsSorted(files: seq<YearFile>)
    ensures var r := Sort(YearsOf(files), IntLe);
      && |r| == |files|
      && Sorted(r, IntLe)
      && multiset(r) == multiset(YearsOf(files))
  {
    IntLeIsTotalPreorder();
    SortSorted(YearsOf(files), IntLe);
    SortPermutes(YearsOf(files), IntLe);
  }

  lemma FileNameYearInjective(f: string, g: string)
    requires IsYearFileName(f) && IsYearFileName(g)
    requires FileNameYear(f) == FileNameYear(g)
    ensures f == g
  {
    DigitsValueInjective(f[..4], g[..4]);
    assert f == f[..4] + f[4..] && g == g[..4] + g[4..];
  }

  /** When every file holds the year its name spells, no year repeats and
      the years strictly increase. */
  lemma YearsIncreasing(listing: seq<string>, read: string -> YearFile)
    requires Distinct(listing)
    requires forall f :: f in GetYearFiles(listing) ==> read(f).year == FileNameYear(f)
    ensures var r := Sort(YearsOf(LoadAll(GetYearFiles(listing), read)), IntLe);
      forall i, j :: 0 <= i < j < |r| ==> r[i] < r[j]
  {
    var names := GetYearFiles(listing);
    var ys := YearsOf(LoadAll(names, read));
    forall i, j | 0 <= i < j < |ys| ensures ys[i] != ys[j] {
      assert names[i] in names && names[j] in names;
      if ys[i] == ys[j] {
        FileNameYearInjective(names[i], names[j]);
      }
    }
    SortDistinct(ys, IntLe);
    YearsSorted(LoadAll(names, read));
  }

  // ---------------------------------------------------------------------------
  // First-seen symbol details

  /** A symbol has details exactly when some entry carries it, and they are
      those of its earliest entry. */
  lemma {:induction false} FirstWithEarliest(es: seq<SplitEntry>, s: string)
    ensures FirstWith(es, s).Some? <==> exists k :: 0 <= k < |es| && es[k].symbol == s
    ensures FirstWith(es, s).Some? ==>
      exists k :: 0 <= k < |es| && es[k] == FirstWith(es, s).value && es[k].symbol == s
        && forall j :: 0 <= j < k ==> es[j].symbol != s
    decreases |es|
  {
    if es != [] && es[0].symbol != s {
      FirstWithEarliest(es[1..], s);
      if FirstWith(es, s).Some? {
        var k :| 0 <= k < |es[1..]| && es[1..][k] == FirstWith(es, s).value && es[1..][k].symbol == s
          && forall j :: 0 <= j < k ==> es[1..][j].symbol != s;
        assert es[k + 1] == es[1..][k];
        assert forall j :: 1 <= j < k + 1 ==> es[j] == es[1..][j - 1];
      }
      if exists k :: 0 <= k < |es| && es[k].symbol == s {
        var k :| 0 <= k < |es| && es[k].symbol == s;
        assert es[1..][k - 1] == es[k];
      }
    } else if es != [] {
      assert es[0] == FirstWith(es, s).value;
    }
  }

  // ---------------------------------------------------------------------------
  // Last-seen ISIN owners

  /** An ISIN has an owner exactly when some entry carries it. */
  lemma {:induction false} LastOwnerPresent(es: seq<SplitEntry>, i: string)
    ensures LastOwner(es, i).Some? <==> exists k :: 0 <= k < |es| && CarriesIsin(es[k], i)
    decreases |es|
  {
    if es != [] {
      var n := |es| - 1;
      var init := es[..n];
      if !CarriesIsin(es[n], i) {
        LastOwnerPresent(init, i);
        if exists k :: 0 <= k < |es| && CarriesIsin(es[k], i) {
          var k :| 0 <= k < |es| && CarriesIsin(es[k], i);
          assert init[k] == es[k];
        }
        if exists k :: 0 <= k < |init| && CarriesIsin(init[k], i) {
          var k :| 0 <= k < |init| && CarriesIsin(init[k], i);
          assert init[k] == es[k];
        }
      }
    }
  }

  /** The owner of an ISIN is the symbol of the latest entry carrying it. */
  lemma {:induction false} LastOwnerLatest(es: seq<SplitEntry>, i: string)
    requires LastOwner(es, i).Some?
    ensures exists k :: (0 <= k < |es| && CarriesIsin(es[k], i) && es[k].symbol == LastOwner(es, i).value
      && forall j :: k < j < |es| ==> !CarriesIsin(es[j], i))
    decreases |es|
  {
    var n := |es| - 1;
    var init := es[..n];
    if !CarriesIsin(es[n], i) {
      LastOwnerLatest(init, i);
      var k :| 0 <= k < |init| && CarriesIsin(init[k], i) && init[k].symbol == LastOwner(init, i).value
        && forall j :: k < j < |init| ==> !CarriesIsin(init[j], i);
      assert init[k] == es[k];
      forall j | k < j < |es| ensures !CarriesIsin(es[j], i) {
        if j < n {
          assert init[j] == es[j];
        }
      }
    }
  }

  // ---------------------------------------------------------------------------
  // The items of a symbol

  /** Each entry of a symbol gives an item to its list, and every item of
      the list comes from an entry of that symbol. */
  lemma {:induction false} ItemsForMembers(es: seq<SplitEntry>, s: string)
    ensures forall k :: 0 <= k < |es| && es[k].symbol == s ==> ItemOf(es[k]) in ItemsFor(es, s)
    ensures forall item :: item in ItemsFor(es, s) ==>
      exists k :: 0 <= k < |es| && es[k].symbol == s && ItemOf(es[k]) == item
    decreases |es|
  {
    if es != [] {
      var n := |es| - 1;
      var init := es[..n];
      ItemsForMembers(init, s);
      assert forall j :: 0 <= j < n ==> init[j] == es[j];
    }
  }

  /** The items of a symbol over several files are the items file by file. */
  lemma {:induction false} ItemsForConcat(a: seq<SplitEntry>, b: seq<SplitEntry>, s: string)
    ensures ItemsFor(a + b, s) == ItemsFor(a, s) + ItemsFor(b, s)
    decreases |b|
  {
    if b == [] {
      assert a + b == a;
    } else {
      var c, e := b[..|b| - 1], b[|b| - 1];
      assert a + b == (a + c) + [e];
      assert b == c + [e];
      ItemsForSnoc(a + c, e, s);
      ItemsForSnoc(c, e, s);
      ItemsForConcat(a, c, s);
    }
  }

  // ---------------------------------------------------------------------------
  // The documented example: one symbol with a different ISIN in two years

  lemma FlattenTwo(f1: YearFile, f2: YearFile)
    ensures Flatten([f1, f2]) == f1.splits + f2.splits
  {
    var files := [f1, f2];
    FlattenSnoc(files, 0);
    FlattenSnoc(files, 1);
    assert files[..0] == [] && files[..1] == [f1] && files[..2] == files;
  }

  /** A symbol listed in two consecutive year files with two ISINs keeps the
      details of the earlier file, and both ISINs lead to it. */
  lemma TwoIsinsOneSymbol(e1: SplitEntry, e2: SplitEntry, y1: int, y2: int)
    requires e1.symbol == e2.symbol
    requires Truthy(e1.isin) && Truthy(e2.isin) && e1.isin != e2.isin
    ensures var es := Flatten([YearFile("", y1, "", None, [e1]), YearFile("", y2, "", None, [e2])]);
      && FirstWith(es, e1.symbol) == Some(e1)
      && LastOwner(es, e1.isin.value) == Some(e1.symbol)
      && LastOwner(es, e2.isin.value) == Some(e1.symbol)
      && |ItemsFor(es, e1.symbol)| == 2
  {
    FlattenTwo(YearFile("", y1, "", None, [e1]), YearFile("", y2, "", None, [e2]));
    assert [e1] + [e2] == [e1, e2];
    ItemsForSnoc([], e1, e1.symbol);
    ItemsForSnoc([e1], e2, e1.symbol);
    LastOwnerSnoc([], e1, e1.isin.value);
    LastOwnerSnoc([e1], e2, e1.isin.value);
    LastOwnerSnoc([e1], e2, e2.isin.value);
    assert [] + [e1] == [e1];
  }
}
