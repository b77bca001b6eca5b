/** What the report of scripts/validate.ts promises, proved about the
    specification functions of module Validate: which findings each check
    adds, in which order, and to which file a duplicate is charged. */
module ValidateProperties {
  import opened Common
  import opened Records
  import opened Validate

  // ---------------------------------------------------------------------------
  // Kinds of findings, and how many of each a list holds

  datatype Kind = ParseKind | SchemaKind | CountKind | YearKind | DateKind | IsinKind | RatioKind | DuplicateKind

  function KindOf(f: Finding): Kind {
    match f
    case InvalidJson(_) => ParseKind
    case SchemaViolation(_) => SchemaKind
    case CountMismatch(_, _) => CountKind
    case YearMismatch(_, _) => YearKind
    case DateYearMismatch(_, _, _) => DateKind
    case InvalidIsin(_, _) => IsinKind
    case InvalidRatio(_, _) => RatioKind
    case DuplicateSplit(_, _, _) => DuplicateKind
  }

  /** The kinds the three checks on a split produce. */
  predicate IsEntryKind(k: Kind) {
    k == DateKind || k == IsinKind || k == RatioKind
  }

  /** The number of findings of kind `k` in `s`. */
  function NumOf(s: seq<Finding>, k: Kind): (n: nat)
    ensures n <= |s|
    decreases |s|
  {
    if s == [] then 0 else NumOf(s[..|s| - 1], k) + (if KindOf(s[|s| - 1]) == k then 1 else 0)
  }

  lemma {:induction false} NumOfConcat(a: seq<Finding>, b: seq<Finding>, k: Kind)
    ensures NumOf(a + b, k) == NumOf(a, k) + NumOf(b, k)
    decreases |b|
  {
    if b != [] {
      var c, x := b[..|b| - 1], b[|b| - 1];
      NumOfConcat(a, c, k);
      assert (a + b)[..|a + b| - 1] == a + c;
      assert (a + b)[|a + b| - 1] == x;
    } else {
      assert a + b == a;
    }
  }

  lemma {:induction false} NumOfNone(s: seq<Finding>, k: Kind)
    requires forall j :: 0 <= j < |s| ==> KindOf(s[j]) != k
    ensures NumOf(s, k) == 0
    decreases |s|
  {
    if s != [] {
      NumOfNone(s[..|s| - 1], k);
    }
  }

  /** Whether the check of kind `k` fails on split `e` of a file for `year`. */
  predicate Fails(e: SplitEntry, year: int, k: Kind) {
    match k
    case DateKind => Misdated(e, year)
    case IsinKind => BadIsin(e)
    case RatioKind => BadRatio(e)
    case _ => false
  }

  /** The number of splits of `es` on which the check of kind `k` fails. */
  function NumFailing(es: seq<SplitEntry>, year: int, k: Kind): (n: nat)
    ensures n <= |es|
    decreases |es|
  {
    if es == [] then 0
    else NumFailing(es[..|es| - 1], year, k) + (if Fails(es[|es| - 1], year, k) then 1 else 0)
  }

  lemma {:induction false} NumFailingOther(es: seq<SplitEntry>, year: int, k: Kind)
    requires !IsEntryKind(k)
    ensures NumFailing(es, year, k) == 0
    decreases |es|
  {
    if es != [] {
      NumFailingOther(es[..|es| - 1], year, k);
    }
  }

  /** The position of a per-split finding among the three checks on a split. */
  function Rank(f: Finding): nat {
    if f.DateYearMismatch? then 0 else if f.InvalidIsin? then 1 else 2
  }

  // ---------------------------------------------------------------------------
  // The checks on one split

  /** A split gets one finding of each kind whose check fails on it, and no
      other finding. */
  lemma EntryFindingsCounts(e: SplitEntry, year: int)
    ensures forall k :: NumOf(EntryFindings(e, year), k) == (if Fails(e, year, k) then 1 else 0)
  {
    FlaggedCounts(e, year, Misdated(e, year), BadIsin(e), BadRatio(e));
  }

  lemma NumOfOptional(c: bool, f: Finding, k: Kind)
    ensures NumOf(if c then [f] else [], k) == (if c && KindOf(f) == k then 1 else 0)
  {
    if c {
      assert [f][..0] == [];
    }
  }

  lemma FlaggedCounts(e: SplitEntry, year: int, misdated: bool, badIsin: bool, badRatio: bool)
    requires badIsin ==> e.isin.Some?
    ensures forall k :: (NumOf(Flagged(e, year, misdated, badIsin, badRatio), k)
      == (if (k == DateKind && misdated) || (k == IsinKind && badIsin) || (k == RatioKind && badRatio) then 1 else 0))
  {
    forall k ensures NumOf(Flagged(e, year, misdated, badIsin, badRatio), k)
      == (if (k == DateKind && misdated) || (k == IsinKind && badIsin) || (k == RatioKind && badRatio) then 1 else 0)
    {
      FlaggedCountsOf(e, year, misdated, badIsin, badRatio, k);
    }
  }

  lemma FlaggedCountsOf(e: SplitEntry, year: int, misdated: bool, badIsin: bool, badRatio: bool, k: Kind)
    requires badIsin ==> e.isin.Some?
    ensures NumOf(Flagged(e, year, misdated, badIsin, badRatio), k)
      == (if misdated && k == DateKind then 1 else 0)
       + (if badIsin && k == IsinKind then 1 else 0)
       + (if badRatio && k == RatioKind then 1 else 0)
  {
    var fd, ft := DateYearMismatch(e.symbol, e.date, year), InvalidRatio(e.symbol, e.ratio);
    if badIsin {
      NumOfOptionals(Flagged(e, year, misdated, badIsin, badRatio), misdated, fd, true, InvalidIsin(e.symbol, e.isin.value), badRatio, ft, k);
    } else {
      NumOfOptionals(Flagged(e, year, misdated, badIsin, badRatio), misdated, fd, false, InvalidIsin(e.symbol, ""), badRatio, ft, k);
    }
  }

  /** Counting over three optional findings in a row. */
  lemma NumOfOptionals(s: seq<Finding>, c1: bool, f1: Finding, c2: bool, f2: Finding, c3: bool, f3: Finding, k: Kind)
    requires s == (if c1 then [f1] else []) + (if c2 then [f2] else []) + (if c3 then [f3] else [])
    ensures NumOf(s, k)
      == (if c1 && KindOf(f1) == k then 1 else 0)
       + (if c2 && KindOf(f2) == k then 1 else 0)
       + (if c3 && KindOf(f3) == k then 1 else 0)
  {
    var d, i, t := if c1 then [f1] else [], if c2 then [f2] else [], if c3 then [f3] else [];
    NumOfConcat(d + i, t, k);
    NumOfConcat(d, i, k);
    NumOfOptional(c1, f1, k);
    NumOfOptional(c2, f2, k);
    NumOfOptional(c3, f3, k);
  }

  /** The findings of a split name it, and come in the order date-year,
      ISIN, ratio. */
  lemma EntryFindingsOrder(e: SplitEntry, year: int)
    ensures var r := EntryFindings(e, year);
      && (DateYearMismatch(e.symbol, e.date, year) in r <==> Misdated(e, year))
      && (BadIsin(e) <==> e.isin.Some? && InvalidIsin(e.symbol, e.isin.value) in r)
      && (InvalidRatio(e.symbol, e.ratio) in r <==> BadRatio(e))
      && (forall i, j :: 0 <= i < j < |r| ==> Rank(r[i]) < Rank(r[j]))
  {
    FlaggedOrder(e, year, Misdated(e, year), BadIsin(e), BadRatio(e));
  }

  lemma FlaggedOrder(e: SplitEntry, year: int, misdated: bool, badIsin: bool, badRatio: bool)
    requires badIsin ==> e.isin.Some?
    ensures var r := Flagged(e, year, misdated, badIsin, badRatio);
      && (DateYearMismatch(e.symbol, e.date, year) in r <==> misdated)
      && (badIsin <==> e.isin.Some? && InvalidIsin(e.symbol, e.isin.value) in r)
      && (InvalidRatio(e.symbol, e.ratio) in r <==> badRatio)
      && (forall i, j :: 0 <= i < j < |r| ==> Rank(r[i]) < Rank(r[j]))
  {
    var d := if misdated then [DateYearMismatch(e.symbol, e.date, year)] else [];
    var i := if badIsin then [InvalidIsin(e.symbol, e.isin.value)] else [];
    var t := if badRatio then [InvalidRatio(e.symbol, e.ratio)] else [];
    RankedParts(d, i, t);
  }

  lemma RankedParts(d: seq<Finding>, i: seq<Finding>, t: seq<Finding>)
    requires |d| <= 1 && |i| <= 1 && |t| <= 1
    requires forall k :: 0 <= k < |d| ==> Rank(d[k]) == 0
    requires forall k :: 0 <= k < |i| ==> Rank(i[k]) == 1
    requires forall k :: 0 <= k < |t| ==> Rank(t[k]) == 2
    ensures forall a, b :: 0 <= a < b < |d + i + t| ==> Rank((d + i + t)[a]) < Rank((d + i + t)[b])
  {
    var r := d + i + t;
    forall a, b | 0 <= a < b < |r| ensures Rank(r[a]) < Rank(r[b]) {
      assert a < |d| + |i|;
      assert b >= |d|;
      if a < |d| {
        assert Rank(r[a]) == 0;
        assert Rank(r[b]) > 0 by {
          if b < |d| + |i| { assert r[b] == i[b - |d|]; } else { assert r[b] == t[b - |d| - |i|]; }
        }
      } else {
        assert r[a] == i[a - |d|];
        assert b >= |d| + |i|;
        assert r[b] == t[b - |d| - |i|];
      }
    }
  }

  /** "3-1" is not a ratio: an otherwise clean split with that ratio gets
      exactly one finding. */
  lemma WrongSeparatorRatio(symbol: string, name: string)
    ensures EntryFindings(SplitEntry(symbol, name, "2024-06-10", "3-1", None, None, None, None, None), 2024)
      == [InvalidRatio(symbol, "3-1")]
  {
    var e := SplitEntry(symbol, name, "2024-06-10", "3-1", None, None, None, None, None);
    assert e.date[..4] == "2024";
    assert DigitsValue("2024") == 2024 by {
      assert "2024"[..3] == "202";
      assert "202"[..2] == "20";
      assert "20"[..1] == "2";
      assert "2"[..0] == "";
    }
    assert !Misdated(e, 2024);
    WrongSeparatorIsNotRatio();
  }


  // ---------------------------------------------------------------------------
  // The checks on one file

  /** Over all splits of a file: one finding of each per-split kind per split
      that fails that check, and no finding of another kind. */
  lemma {:induction false} EntriesFindingsCounts(es: seq<SplitEntry>, year: int)
    ensures forall k :: NumOf(EntriesFindings(es, year), k) == NumFailing(es, year, k)
    decreases |es|
  {
    if es != [] {
      var p, e := es[..|es| - 1], es[|es| - 1];
      EntriesFindingsCounts(p, year);
      EntryFindingsCounts(e, year);
      forall k ensures NumOf(EntriesFindings(es, year), k) == NumFailing(es, year, k) {
        NumOfConcat(EntriesFindings(p, year), EntryFindings(e, year), k);
      }
    }
  }

  /** The file-level findings of a parsed file: one per schema error, one
      count finding exactly when `count` differs from the number of splits,
      one year finding exactly when the file name's year differs from
      `year`, and nothing else. */
  lemma HeaderFindingsCounts(name: string, data: YearFile, schema: YearFile -> seq<string>)
    requires IsYearFileName(name)
    ensures var h := HeaderFindings(name, data, schema);
      && NumOf(h, SchemaKind) == |schema(data)|
      && NumOf(h, CountKind) == (if data.count != Some(|data.splits|) then 1 else 0)
      && NumOf(h, YearKind) == (if data.year != FileNameYear(name) then 1 else 0)
      && (forall k :: k != SchemaKind && k != CountKind && k != YearKind ==> NumOf(h, k) == 0)
  {
    var s := SchemaFindings(schema(data));
    var cm, ym := data.count != Some(|data.splits|), data.year != FileNameYear(name);
    var fc, fy := CountMismatch(data.count, |data.splits|), YearMismatch(FileNameYear(name), data.year);
    var c := if cm then [fc] else [];
    var y := if ym then [fy] else [];
    assert HeaderFindings(name, data, schema) == s + c + y;
    SchemaFindingsCounts(schema(data));
    forall k ensures NumOf(s + c + y, k) == NumOf(s, k) + NumOf(c, k) + NumOf(y, k) {
      NumOfConcat(s + c, y, k);
      NumOfConcat(s, c, k);
    }
    forall k ensures NumOf(c, k) == (if cm && k == CountKind then 1 else 0)
      && NumOf(y, k) == (if ym && k == YearKind then 1 else 0)
    {
      NumOfOptional(cm, fc, k);
      NumOfOptional(ym, fy, k);
    }
  }

  lemma {:induction false} SchemaFindingsCounts(texts: seq<string>)
    ensures NumOf(SchemaFindings(texts), SchemaKind) == |texts|
    ensures forall k :: k != SchemaKind ==> NumOf(SchemaFindings(texts), k) == 0
    decreases |texts|
  {
    if texts != [] {
      var p := texts[..|texts| - 1];
      SchemaFindingsCounts(p);
      assert SchemaFindings(texts) == SchemaFindings(p) + [SchemaViolation(texts[|texts| - 1])];
      forall k ensures NumOf(SchemaFindings(texts), k) == NumOf(SchemaFindings(p), k) + (if k == SchemaKind then 1 else 0) {
        NumOfConcat(SchemaFindings(p), [SchemaViolation(texts[|texts| - 1])], k);
      }
    }
  }

  /** A parsed file's file-level findings are those of its header: one per
      schema error, one count finding exactly when `count` differs from the
      number of splits, one year finding exactly when the file name's year
      differs from `year`; and it has no duplicate or parse finding. */
  lemma JsonFindingsCounts(name: string, data: YearFile, schema: YearFile -> seq<string>)
    requires IsYearFileName(name)
    ensures var b := BaseFindings(name, Json(data), schema);
      && NumOf(b, SchemaKind) == |schema(data)|
      && NumOf(b, CountKind) == (if data.count != Some(|data.splits|) then 1 else 0)
      && NumOf(b, YearKind) == (if data.year != FileNameYear(name) then 1 else 0)
      && NumOf(b, DuplicateKind) == 0
      && NumOf(b, ParseKind) == 0
  {
    var h := HeaderFindings(name, data, schema);
    var r := EntriesFindings(data.splits, data.year);
    assert BaseFindings(name, Json(data), schema) == h + r;
    HeaderFindingsCounts(name, data, schema);
    forall k | !IsEntryKind(k) ensures NumOf(h + r, k) == NumOf(h, k) {
      NumOfConcat(h, r, k);
      assert NumOf(r, k) == 0 by {
        EntriesFindingsCounts(data.splits, data.year);
        NumFailingOther(data.splits, data.year, k);
      }
    }
  }

  /** A parsed file gets one finding of each per-split kind per split that
      fails that check. */
  lemma JsonEntryCounts(name: string, data: YearFile, schema: YearFile -> seq<string>)
    requires IsYearFileName(name)
    ensures forall k :: IsEntryKind(k) ==>
      NumOf(BaseFindings(name, Json(data), schema), k) == NumFailing(data.splits, data.year, k)
  {
    var h := HeaderFindings(name, data, schema);
    var r := EntriesFindings(data.splits, data.year);
    assert BaseFindings(name, Json(data), schema) == h + r;
    HeaderFindingsCounts(name, data, schema);
    EntriesFindingsCounts(data.splits, data.year);
    forall k | IsEntryKind(k) ensures NumOf(h + r, k) == NumOf(r, k) {
      NumOfConcat(h, r, k);
    }
  }

  /** A file that does not parse gets exactly one finding. */
  lemma MalformedFindings(name: string, message: string, schema: YearFile -> seq<string>)
    requires IsYearFileName(name)
    ensures BaseFindings(name, Malformed(message), schema) == [InvalidJson(message)]
  {
  }

  // ---------------------------------------------------------------------------
  // The duplicate pass

  /** The file of the first occurrence of `key` in `occ`, scanning from the
      front: the reference for the left-to-right `seen` map. */
  function FirstFile(occ: seq<Occurrence>, key: (string, string)): Option<string> {
    if occ == [] then None
    else if Key(occ[0]) == key then Some(occ[0].file)
    else FirstFile(occ[1..], key)
  }

  ghost predicate Occurs(occ: seq<Occurrence>, key: (string, string)) {
    exists j :: 0 <= j < |occ| && Key(occ[j]) == key
  }

  /** Occurrence `k` repeats the key of an earlier one. */
  ghost predicate IsRepeat(occ: seq<Occurrence>, k: nat)
    requires k < |occ|
  {
    exists j :: 0 <= j < k && Key(occ[j]) == Key(occ[k])
  }

  /** The positions of the repeated occurrences held by `file`. */
  ghost function RepeatsIn(occ: seq<Occurrence>, file: string): set<nat> {
    set k: nat | k < |occ| && occ[k].file == file && IsRepeat(occ, k)
  }

  /** A duplicate finding that `file` should carry: it repeats, in `file`, a
      key seen before, and names the file of that key's first occurrence. */
  ghost predicate Charged(occ: seq<Occurrence>, file: string, f: Finding) {
    && f.DuplicateSplit?
    && FirstFile(occ, (f.symbol, f.date)) == Some(f.firstFile)
    && exists k :: 0 <= k < |occ| && occ[k].file == file && Key(occ[k]) == (f.symbol, f.date) && IsRepeat(occ, k)
  }

  lemma {:induction false} FirstFileSnoc(a: seq<Occurrence>, o: Occurrence, key: (string, string))
    ensures FirstFile(a + [o], key)
      == if FirstFile(a, key).Some? then FirstFile(a, key) else if Key(o) == key then Some(o.file) else None
    decreases |a|
  {
    if a != [] {
      assert (a + [o])[1..] == a[1..] + [o];
      FirstFileSnoc(a[1..], o, key);
    }
  }

  lemma {:induction false} FirstFileOccurs(occ: seq<Occurrence>, key: (string, string))
    ensures FirstFile(occ, key).Some? <==> Occurs(occ, key)
    decreases |occ|
  {
    if occ != [] {
      FirstFileOccurs(occ[1..], key);
      if Occurs(occ[1..], key) {
        var j :| 0 <= j < |occ[1..]| && Key(occ[1..][j]) == key;
        assert Key(occ[j + 1]) == key;
      }
      if Occurs(occ, key) && Key(occ[0]) != key {
        var j :| 0 <= j < |occ| && Key(occ[j]) == key;
        assert Key(occ[1..][j - 1]) == key;
      }
    }
  }

  /** The first occurrence of a key gives its file. */
  lemma {:induction false} FirstFileEarliest(occ: seq<Occurrence>, k: nat)
    requires k < |occ|
    requires forall j :: 0 <= j < k ==> Key(occ[j]) != Key(occ[k])
    ensures FirstFile(occ, Key(occ[k])) == Some(occ[k].file)
    decreases k
  {
    if k > 0 {
      assert Key(occ[0]) != Key(occ[k]);
      assert occ[1..][k - 1] == occ[k];
      FirstFileEarliest(occ[1..], k - 1);
    }
  }

  /** The `seen` map holds exactly the keys met so far, each with the file of
      its first occurrence. */
  lemma {:induction false} FirstSeenIsFirstFile(occ: seq<Occurrence>)
    ensures forall key :: key in FirstSeen(occ) <==> FirstFile(occ, key).Some?
    ensures forall key :: key in FirstSeen(occ) ==> FirstFile(occ, key) == Some(FirstSeen(occ)[key])
    decreases |occ|
  {
    if occ != [] {
      var p, o := occ[..|occ| - 1], occ[|occ| - 1];
      FirstSeenIsFirstFile(p);
      assert occ == p + [o];
      forall key ensures FirstFile(occ, key)
        == if FirstFile(p, key).Some? then FirstFile(p, key) else if Key(o) == key then Some(o.file) else None
      {
        FirstFileSnoc(p, o, key);
      }
    }
  }

  lemma DuplicatesSnoc(p: seq<Occurrence>, o: Occurrence, file: string)
    ensures Duplicates(p + [o], file) == Duplicates(p, file)
      + (if Key(o) in FirstSeen(p) && o.file == file then [DuplicateSplit(o.symbol, o.date, FirstSeen(p)[Key(o)])] else [])
  {
    assert (p + [o])[..|p|] == p;
  }

  /** The last occurrence repeats a key exactly when `seen` already holds it. */
  lemma LastIsRepeat(p: seq<Occurrence>, o: Occurrence)
    ensures IsRepeat(p + [o], |p|) <==> Key(o) in FirstSeen(p)
    ensures forall k :: 0 <= k < |p| ==> (IsRepeat(p + [o], k) <==> IsRepeat(p, k))
  {
    var occ := p + [o];
    FirstSeenIsFirstFile(p);
    FirstFileOccurs(p, Key(o));
    if Occurs(p, Key(o)) {
      var j :| 0 <= j < |p| && Key(p[j]) == Key(o);
      assert Key(occ[j]) == Key(occ[|p|]);
    }
    if IsRepeat(occ, |p|) {
      var j :| 0 <= j < |p| && Key(occ[j]) == Key(occ[|p|]);
      assert Key(p[j]) == Key(o);
    }
    forall k | 0 <= k < |p| ensures IsRepeat(occ, k) <==> IsRepeat(p, k) {
      assert forall j :: 0 <= j <= k ==> occ[j] == p[j];
    }
  }

  /** One duplicate finding per repeated occurrence held by the file. */
  lemma {:induction false} DuplicatesCount(occ: seq<Occurrence>, file: string)
    ensures |Duplicates(occ, file)| == |RepeatsIn(occ, file)|
    decreases |occ|
  {
    if occ != [] {
      var p, o := occ[..|occ| - 1], occ[|occ| - 1];
      assert occ == p + [o];
      DuplicatesCount(p, file);
      DuplicatesSnoc(p, o, file);
      RepeatsSnoc(p, o, file);
    }
  }

  lemma RepeatsSnoc(p: seq<Occurrence>, o: Occurrence, file: string)
    ensures |RepeatsIn(p + [o], file)|
      == |RepeatsIn(p, file)| + (if o.file == file && Key(o) in FirstSeen(p) then 1 else 0)
  {
    RepeatsSnocMembers(p, o, file);
    if o.file == file && Key(o) in FirstSeen(p) {
      assert RepeatsIn(p + [o], file) == RepeatsIn(p, file) + {|p|};
      assert |p| !in RepeatsIn(p, file);
    } else {
      assert RepeatsIn(p + [o], file) == RepeatsIn(p, file);
    }
  }

  lemma RepeatsSnocMembers(p: seq<Occurrence>, o: Occurrence, file: string)
    ensures forall k: nat :: (k in RepeatsIn(p + [o], file)
      <==> k in RepeatsIn(p, file) || (k == |p| && o.file == file && Key(o) in FirstSeen(p)))
  {
    var occ := p + [o];
    LastIsRepeat(p, o);
    forall k: nat | k < |p| ensures occ[k] == p[k] {
    }
  }

  /** A finding charged before one more occurrence stays charged. */
  lemma ChargedSnocKeeps(p: seq<Occurrence>, o: Occurrence, file: string, f: Finding)
    requires Charged(p, file, f)
    ensures Charged(p + [o], file, f)
  {
    var occ := p + [o];
    FirstFileSnoc(p, o, (f.symbol, f.date));
    LastIsRepeat(p, o);
    var k :| 0 <= k < |p| && p[k].file == file && Key(p[k]) == (f.symbol, f.date) && IsRepeat(p, k);
    assert occ[k] == p[k];
  }

  /** A finding charged after one more occurrence was charged before, or is
      the one that occurrence adds. */
  lemma ChargedSnocSource(p: seq<Occurrence>, o: Occurrence, file: string, f: Finding)
    requires Charged(p + [o], file, f)
    ensures Charged(p, file, f)
      || (Key(o) in FirstSeen(p) && o.file == file && f == DuplicateSplit(o.symbol, o.date, FirstSeen(p)[Key(o)]))
  {
    var occ := p + [o];
    var key := (f.symbol, f.date);
    LastIsRepeat(p, o);
    FirstSeenIsFirstFile(p);
    var k :| 0 <= k < |occ| && occ[k].file == file && Key(occ[k]) == key && IsRepeat(occ, k);
    FirstFileSnoc(p, o, key);
    if k < |p| {
      assert occ[k] == p[k];
      var j :| 0 <= j < k && Key(occ[j]) == Key(occ[k]);
      assert Key(p[j]) == key;
      FirstFileOccurs(p, key);
    } else {
      assert Key(o) in FirstSeen(p);
    }
  }

  /** The finding a repeated occurrence adds is charged to its file. */
  lemma ChargedSnocNew(p: seq<Occurrence>, o: Occurrence, file: string)
    requires Key(o) in FirstSeen(p) && o.file == file
    ensures Charged(p + [o], file, DuplicateSplit(o.symbol, o.date, FirstSeen(p)[Key(o)]))
  {
    LastIsRepeat(p, o);
    FirstSeenIsFirstFile(p);
    FirstFileSnoc(p, o, Key(o));
    assert (p + [o])[|p|] == o;
  }

  /** The duplicate findings a file carries are exactly those charged to it. */
  lemma {:induction false} DuplicatesCharged(occ: seq<Occurrence>, file: string)
    ensures forall f :: f in Duplicates(occ, file) <==> Charged(occ, file, f)
    decreases |occ|
  {
    if occ != [] {
      var p, o := occ[..|occ| - 1], occ[|occ| - 1];
      assert occ == p + [o];
      DuplicatesCharged(p, file);
      DuplicatesSnoc(p, o, file);
      forall f ensures f in Duplicates(occ, file) <==> Charged(occ, file, f) {
        if Charged(p, file, f) {
          ChargedSnocKeeps(p, o, file, f);
        }
        if Charged(occ, file, f) {
          ChargedSnocSource(p, o, file, f);
        }
        if Key(o) in FirstSeen(p) && o.file == file {
          ChargedSnocNew(p, o, file);
        }
      }
    }
  }

  /** Two occurrences of a key in the same file: the later one is charged to
      that file and names it as the first file, when the earlier one is the
      key's first occurrence. */
  lemma SameFileRepeat(occ: seq<Occurrence>, j: nat, k: nat)
    requires j < k < |occ|
    requires Key(occ[j]) == Key(occ[k]) && occ[j].file == occ[k].file
    requires forall i :: 0 <= i < j ==> Key(occ[i]) != Key(occ[j])
    ensures DuplicateSplit(occ[k].symbol, occ[k].date, occ[k].file) in Duplicates(occ, occ[k].file)
  {
    FirstFileEarliest(occ, j);
    DuplicatesCharged(occ, occ[k].file);
    assert IsRepeat(occ, k);
    assert Charged(occ, occ[k].file, DuplicateSplit(occ[k].symbol, occ[k].date, occ[k].file));
  }

  /** A key that occurs once is never reported as a duplicate. */
  lemma UniqueKeyNotCharged(occ: seq<Occurrence>, key: (string, string), file: string)
    requires forall a, b :: 0 <= a < b < |occ| && Key(occ[a]) == key ==> Key(occ[b]) != key
    ensures forall f :: f in Duplicates(occ, file) ==> f.DuplicateSplit? && (f.symbol, f.date) != key
  {
    DuplicatesCharged(occ, file);
    forall f | f in Duplicates(occ, file) ensures f.DuplicateSplit? && (f.symbol, f.date) != key {
      var k :| 0 <= k < |occ| && occ[k].file == file && Key(occ[k]) == (f.symbol, f.date) && IsRepeat(occ, k);
      var j :| 0 <= j < k && Key(occ[j]) == Key(occ[k]);
    }
  }

  // ---------------------------------------------------------------------------
  // The report

  /** `allSplits` holds splits of parsed year files only. */
  lemma {:induction false} OccurrencesFiles(names: seq<string>, read: string -> Content)
    ensures forall o :: o in Occurrences(names, read) ==> o.file in names && read(o.file).Json?
    decreases |names|
  {
    if names != [] {
      var p, n := names[..|names| - 1], names[|names| - 1];
      OccurrencesFiles(p, read);
      assert forall f :: f in p ==> f in names;
    }
  }

  /** Without an occurrence in `file`, the file carries no duplicate finding. */
  lemma NoOccurrenceNoDuplicates(occ: seq<Occurrence>, file: string)
    requires forall o :: o in occ ==> o.file != file
    ensures Duplicates(occ, file) == []
  {
    DuplicatesCount(occ, file);
    forall k: nat | k < |occ| ensures occ[k].file != file {
      assert occ[k] in occ;
    }
    assert RepeatsIn(occ, file) == {};
  }

  /** A year file that does not parse gets exactly one finding, the parse
      error, and is invalid. */
  lemma MalformedResult(names: seq<string>, read: string -> Content, schema: YearFile -> seq<string>, i: nat)
    requires forall f :: f in names ==> IsYearFileName(f)
    requires i < |names| && read(names[i]).Malformed?
    ensures Expected(names, read, schema)[i] == ValidationResult(names[i], false, [InvalidJson(read(names[i]).message)])
  {
    OccurrencesFiles(names, read);
    NoOccurrenceNoDuplicates(Occurrences(names, read), names[i]);
  }

  lemma {:induction false} NumOfZero(s: seq<Finding>, k: Kind)
    requires NumOf(s, k) == 0
    ensures forall j :: 0 <= j < |s| ==> KindOf(s[j]) != k
    decreases |s|
  {
    if s != [] {
      var p := s[..|s| - 1];
      NumOfZero(p, k);
      assert forall j :: 0 <= j < |p| ==> s[j] == p[j];
    }
  }

  /** A file's own findings never include a duplicate finding. */
  lemma BaseHasNoDuplicates(name: string, content: Content, schema: YearFile -> seq<string>)
    requires IsYearFileName(name)
    ensures forall k :: 0 <= k < |BaseFindings(name, content, schema)| ==> !BaseFindings(name, content, schema)[k].DuplicateSplit?
  {
    var b := BaseFindings(name, content, schema);
    match content
    case Malformed(_) =>
    case Json(data) =>
      assert NumOf(b, DuplicateKind) == 0 by {
        JsonFindingsCounts(name, data, schema);
      }
      NumOfZero(b, DuplicateKind);
  }

  /** A file's findings: its own ones first, then the duplicate findings of
      the second pass, and nothing else. */
  lemma FindingsOrder(name: string, content: Content, schema: YearFile -> seq<string>, occ: seq<Occurrence>)
    requires IsYearFileName(name)
    ensures var errs := Final(name, content, schema, occ).errors;
      var n := |BaseFindings(name, content, schema)|;
      && n <= |errs|
      && errs[..n] == BaseFindings(name, content, schema)
      && (forall k :: 0 <= k < n ==> !errs[k].DuplicateSplit?)
      && (forall k :: n <= k < |errs| ==> errs[k].DuplicateSplit?)
  {
    var b := BaseFindings(name, content, schema);
    var d := Duplicates(occ, name);
    assert Final(name, content, schema, occ).errors == b + d;
    BaseHasNoDuplicates(name, content, schema);
    DuplicatesCharged(occ, name);
    var errs: seq<Finding> := b + d;
    forall k | |b| <= k < |errs| ensures errs[k].DuplicateSplit? {
      assert errs[k] == d[k - |b|];
      assert d[k - |b|] in d;
    }
    assert errs[..|b|] == b;
  }

  // ---------------------------------------------------------------------------
  // A clean dataset

  /** A split dated in its file's year, with a well-formed ISIN when it has
      one and a well-formed ratio. */
  predicate CleanSplit(e: SplitEntry, year: int) {
    !Misdated(e, year) && !BadIsin(e) && !BadRatio(e)
  }

  /** A parsed year file that the schema accepts, whose count and year are
      right and whose splits are all clean. */
  predicate CleanFile(name: string, content: Content, schema: YearFile -> seq<string>)
    requires IsYearFileName(name)
  {
    && content.Json?
    && schema(content.data) == []
    && content.data.count == Some(|content.data.splits|)
    && content.data.year == FileNameYear(name)
    && forall j :: 0 <= j < |content.data.splits| ==> CleanSplit(content.data.splits[j], content.data.year)
  }

  /** No (symbol, date) key occurs twice. */
  predicate NoRepeatedKey(occ: seq<Occurrence>) {
    forall a, b :: 0 <= a < b < |occ| ==> Key(occ[a]) != Key(occ[b])
  }

  /** A list with no finding of any kind is empty. */
  lemma AllZeroEmpty(s: seq<Finding>)
    requires forall k :: NumOf(s, k) == 0
    ensures s == []
  {
    if s != [] {
      NumOfZero(s, KindOf(s[0]));
    }
  }

  lemma {:induction false} NumFailingClean(es: seq<SplitEntry>, year: int, k: Kind)
    requires forall j :: 0 <= j < |es| ==> CleanSplit(es[j], year)
    ensures NumFailing(es, year, k) == 0
    decreases |es|
  {
    if es != [] {
      var p := es[..|es| - 1];
      assert forall j :: 0 <= j < |p| ==> p[j] == es[j];
      NumFailingClean(p, year, k);
      assert CleanSplit(es[|es| - 1], year);
    }
  }

  /** Without a repeated key the duplicate pass reports nothing. */
  lemma NoRepeatNoDuplicates(occ: seq<Occurrence>, file: string)
    requires NoRepeatedKey(occ)
    ensures Duplicates(occ, file) == []
  {
    DuplicatesCount(occ, file);
    forall k: nat | k < |occ| ensures !IsRepeat(occ, k) {
      forall j | 0 <= j < k ensures Key(occ[j]) != Key(occ[k]) {
      }
    }
    assert RepeatsIn(occ, file) == {};
  }

  /** A clean file has no finding of its own. */
  lemma CleanBaseEmpty(name: string, content: Content, schema: YearFile -> seq<string>)
    requires IsYearFileName(name) && CleanFile(name, content, schema)
    ensures BaseFindings(name, content, schema) == []
  {
    var data := content.data;
    var b := BaseFindings(name, content, schema);
    JsonFindingsCounts(name, data, schema);
    JsonEntryCounts(name, data, schema);
    forall k ensures NumOf(b, k) == 0 {
      if IsEntryKind(k) {
        NumFailingClean(data.splits, data.year, k);
      }
    }
    AllZeroEmpty(b);
  }

  /** A clean file in a dataset without repeated keys is reported valid,
      with no finding. */
  lemma CleanFileValid(names: seq<string>, read: string -> Content, schema: YearFile -> seq<string>, i: nat)
    requires forall f :: f in names ==> IsYearFileName(f)
    requires i < |names| && CleanFile(names[i], read(names[i]), schema)
    requires NoRepeatedKey(Occurrences(names, read))
    ensures Expected(names, read, schema)[i].valid && Expected(names, read, schema)[i].errors == []
  {
    var occ := Occurrences(names, read);
    CleanBaseEmpty(names[i], read(names[i]), schema);
    NoRepeatNoDuplicates(occ, names[i]);
    assert Expected(names, read, schema)[i] == Final(names[i], read(names[i]), schema, occ);
  }

  /** Every file of a clean dataset is reported valid: the validator raises
      no error on clean data. */
  lemma CleanDatasetValid(names: seq<string>, read: string -> Content, schema: YearFile -> seq<string>)
    requires forall f :: f in names ==> IsYearFileName(f)
    requires forall f :: f in names ==> CleanFile(f, read(f), schema)
    requires NoRepeatedKey(Occurrences(names, read))
    ensures forall i :: 0 <= i < |names| ==> Expected(names, read, schema)[i].valid
  {
    forall i | 0 <= i < |names| ensures Expected(names, read, schema)[i].valid {
      CleanFileValid(names, read, schema, i);
    }
  }
}
