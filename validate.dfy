/** The integrity checker of scripts/validate.ts: per-file checks of every year
    file, a dataset-wide duplicate pass, and the overall pass/fail flag. */
module Validate {
  import opened Common
  import opened Records

  /** What reading and `JSON.parse` make of a file: a parse failure with its
      message, or the parsed year file. */
  datatype Content = Malformed(message: string) | Json(data: YearFile)

  /** One finding; the script formats each as a line of text. */
  datatype Finding =
    | InvalidJson(message: string)
    | SchemaViolation(text: string)
    | CountMismatch(declared: Option<int>, actual: nat)
    | YearMismatch(fileNameYear: int, dataYear: int)
    | DateYearMismatch(symbol: string, date: string, year: int)
    | InvalidIsin(symbol: string, isin: string)
    | InvalidRatio(symbol: string, ratio: string)
    | DuplicateSplit(symbol: string, date: string, firstFile: string)

  datatype ValidationResult = ValidationResult(file: string, valid: bool, errors: seq<Finding>)

  /** An entry of `allSplits`: a split's key and the file that holds it. */
  datatype Occurrence = Occurrence(symbol: string, date: string, file: string)

  /** Duplicate detection key `${symbol}:${date}`, as a pair. */
  function Key(o: Occurrence): (string, string) {
    (o.symbol, o.date)
  }

  // ---------------------------------------------------------------------------
  // The per-file checks

  /** The ISIN check runs only on a present, non-empty isin. */
  predicate BadIsin(e: SplitEntry) {
    Truthy(e.isin) && !IsIsin(e.isin.value)
  }

  predicate Misdated(e: SplitEntry, year: int) {
    YearOf(e.date) != Some(year)
  }

  predicate BadRatio(e: SplitEntry) {
    !IsRatio(e.ratio)
  }

  /** The findings of one split, given which of its checks fail: its
      date-year, then its ISIN, then its ratio. */
  function Flagged(e: SplitEntry, year: int, misdated: bool, badIsin: bool, badRatio: bool): seq<Finding>
    requires badIsin ==> e.isin.Some?
  {
    (if misdated then [DateYearMismatch(e.symbol, e.date, year)] else [])
    + (if badIsin then [InvalidIsin(e.symbol, e.isin.value)] else [])
    + (if badRatio then [InvalidRatio(e.symbol, e.ratio)] else [])
  }

  /** The findings for one split. */
  function EntryFindings(e: SplitEntry, year: int): seq<Finding> {
    Flagged(e, year, Misdated(e, year), BadIsin(e), BadRatio(e))
  }

  function EntriesFindings(es: seq<SplitEntry>, year: int): seq<Finding>
    decreases |es|
  {
    if es == [] then []
    else EntriesFindings(es[..|es| - 1], year) + EntryFindings(es[|es| - 1], year)
  }

  function SchemaFindings(texts: seq<string>): (r: seq<Finding>)
    ensures |r| == |texts|
    ensures forall k :: 0 <= k < |texts| ==> r[k] == SchemaViolation(texts[k])
  {
    seq(|texts|, k requires 0 <= k < |texts| => SchemaViolation(texts[k]))
  }

  /** The file-level findings that precede the per-split ones. */
  function HeaderFindings(name: string, data: YearFile, schema: YearFile -> seq<string>): seq<Finding>
    requires IsYearFileName(name)
  {
    SchemaFindings(schema(data))
    + (if data.count != Some(|data.splits|) then [CountMismatch(data.count, |data.splits|)] else [])
    + (if data.year != FileNameYear(name) then [YearMismatch(FileNameYear(name), data.year)] else [])
  }

  /** All findings of the first pass for one file. */
  function BaseFindings(name: string, content: Content, schema: YearFile -> seq<string>): seq<Finding>
    requires IsYearFileName(name)
  {
    match content
    case Malformed(msg) => [InvalidJson(msg)]
    case Json(data) => HeaderFindings(name, data, schema) + EntriesFindings(data.splits, data.year)
  }

  // ---------------------------------------------------------------------------
  // The duplicate pass

  function FileOccurrences(name: string, data: YearFile): (r: seq<Occurrence>)
    ensures |r| == |data.splits|
    ensures forall j :: 0 <= j < |r| ==>
      r[j] == Occurrence(data.splits[j].symbol, data.splits[j].date, name)
  {
    seq(|data.splits|, j requires 0 <= j < |data.splits| =>
      Occurrence(data.splits[j].symbol, data.splits[j].date, name))
  }

  /** `allSplits`: every split of every parsed file, in processing order. */
  function Occurrences(names: seq<string>, read: string -> Content): seq<Occurrence>
    decreases |names|
  {
    if names == [] then []
    else
      var n := names[|names| - 1];
      Occurrences(names[..|names| - 1], read)
      + (match read(n) case Malformed(_) => [] case Json(data) => FileOccurrences(n, data))
  }

  /** The `seen` map after visiting `occ`: each key to the file it came from
      the first time. */
  function FirstSeen(occ: seq<Occurrence>): map<(string, string), string>
    decreases |occ|
  {
    if occ == [] then map[]
    else
      var m := FirstSeen(occ[..|occ| - 1]);
      var o := occ[|occ| - 1];
      if Key(o) in m then m else m[Key(o) := o.file]
  }

  /** The duplicate findings the pass appends to `file`'s result. */
  function Duplicates(occ: seq<Occurrence>, file: string): seq<Finding>
    decreases |occ|
  {
    if occ == [] then []
    else
      var prefix := occ[..|occ| - 1];
      var o := occ[|occ| - 1];
      var seen := FirstSeen(prefix);
      Duplicates(prefix, file)
      + (if Key(o) in seen && o.file == file then [DuplicateSplit(o.symbol, o.date, seen[Key(o)])] else [])
  }

  /** A file's result once the duplicates among `occ` have been reported. */
  function Final(name: string, content: Content, schema: YearFile -> seq<string>, occ: seq<Occurrence>): ValidationResult
    requires IsYearFileName(name)
  {
    var errors := BaseFindings(name, content, schema) + Duplicates(occ, name);
    ValidationResult(name, errors == [], errors)
  }

  /** The report over the year files `names`, in that order. */
  function Expected(names: seq<string>, read: string -> Content, schema: YearFile -> seq<string>): (r: seq<ValidationResult>)
    requires forall f :: f in names ==> IsYearFileName(f)
    ensures |r| == |names|
    ensures forall i :: 0 <= i < |names| ==> r[i].file == names[i] && r[i].valid == (r[i].errors == [])
  {
    var occ := Occurrences(names, read);
    seq(|names|, i requires 0 <= i < |names| => Final(names[i], read(names[i]), schema, occ))
  }

  // ---------------------------------------------------------------------------
  // The script

  /** `results.find(r => r.file === file)`, as an index. */
  method FindResult(results: seq<ValidationResult>, file: string) returns (r: Option<nat>)
    ensures r.Some? ==> r.value < |results| && results[r.value].file == file
    ensures r.Some? ==> forall j :: 0 <= j < r.value ==> results[j].file != file
    ensures r.None? ==> forall j :: 0 <= j < |results| ==> results[j].file != file
  {
    var j := 0;
    while j < |results|
      invariant 0 <= j <= |results|
      invariant forall k :: 0 <= k < j ==> results[k].file != file
    {
      if results[j].file == file {
        return Some(j);
      }
      j := j + 1;
    }
    return None;
  }

  lemma OccurrencesSnoc(names: seq<string>, read: string -> Content, i: nat)
    requires i < |names|
    ensures Occurrences(names[..i + 1], read) == Occurrences(names[..i], read)
      + (match read(names[i]) case Malformed(_) => [] case Json(data) => FileOccurrences(names[i], data))
  {
    assert names[..i + 1][..i] == names[..i];
  }

  lemma EntriesFindingsSnoc(es: seq<SplitEntry>, year: int, j: nat)
    requires j < |es|
    ensures EntriesFindings(es[..j + 1], year) == EntriesFindings(es[..j], year) + EntryFindings(es[j], year)
  {
    assert es[..j + 1][..j] == es[..j];
  }

  /** The checks on one split, appended to `errors` in the script's order. */
  method CheckSplit(split: SplitEntry, year: int, errors: seq<Finding>) returns (out: seq<Finding>)
    ensures out == errors + EntryFindings(split, year)
  {
    out := errors;
    var splitYear := YearOf(split.date);
    if splitYear != Some(year) {
      out := out + [DateYearMismatch(split.symbol, split.date, year)];
    }
    ghost var afterDate := out;
    if Truthy(split.isin) && !IsIsin(split.isin.value) {
      out := out + [InvalidIsin(split.symbol, split.isin.value)];
    }
    ghost var afterIsin := out;
    if !IsRatio(split.ratio) {
      out := out + [InvalidRatio(split.symbol, split.ratio)];
    }
    assert out == errors + EntryFindings(split, year) by {
      var dDate := if Misdated(split, year) then [DateYearMismatch(split.symbol, split.date, year)] else [];
      var dIsin := if BadIsin(split) then [InvalidIsin(split.symbol, split.isin.value)] else [];
      var dRatio := if BadRatio(split) then [InvalidRatio(split.symbol, split.ratio)] else [];
      assert afterDate == errors + dDate;
      assert afterIsin == afterDate + dIsin;
      assert out == afterIsin + dRatio;
      assert EntryFindings(split, year) == dDate + dIsin + dRatio;
    }
  }

  /** The loop over a parsed file's splits: their findings are appended to
      `errors`, and their keys collected for the duplicate pass. */
  method CheckSplits(filename: string, data: YearFile, errors: seq<Finding>)
    returns (out: seq<Finding>, fileSplits: seq<Occurrence>)
    ensures out == errors + EntriesFindings(data.splits, data.year)
    ensures fileSplits == FileOccurrences(filename, data)
  {
    out := errors;
    fileSplits := [];
    var j := 0;
    while j < |data.splits|
      invariant 0 <= j <= |data.splits|
      invariant out == errors + EntriesFindings(data.splits[..j], data.year)
      invariant fileSplits == FileOccurrences(filename, data)[..j]
    {
      var split := data.splits[j];
      EntriesFindingsSnoc(data.splits, data.year, j);
      AppendAssoc(errors, EntriesFindings(data.splits[..j], data.year), EntryFindings(split, data.year));
      TakeSnoc(FileOccurrences(filename, data), j);
      out := CheckSplit(split, data.year, out);
      fileSplits := fileSplits + [Occurrence(split.symbol, split.date, filename)];
      j := j + 1;
    }
    WholePrefix([], data.splits);
  }

  /** The first pass over one year file: its result before duplicates are
      reported, and the splits it adds to `allSplits`. */
  method CheckFile(filename: string, content: Content, schema: YearFile -> seq<string>)
    returns (result: ValidationResult, fileSplits: seq<Occurrence>)
    requires IsYearFileName(filename)
    ensures result == Final(filename, content, schema, [])
    ensures fileSplits == match content case Malformed(_) => [] case Json(data) => FileOccurrences(filename, data)
  {
    match content
    case Malformed(msg) =>
      result := ValidationResult(filename, false, [InvalidJson(msg)]);
      fileSplits := [];
    case Json(data) =>
      var errors := SchemaFindings(schema(data));
      if data.count != Some(|data.splits|) {
        errors := errors + [CountMismatch(data.count, |data.splits|)];
      }
      var filenameYear := FileNameYear(filename);
      if data.year != filenameYear {
        errors := errors + [YearMismatch(filenameYear, data.year)];
      }
      assert errors == HeaderFindings(filename, data, schema);
      errors, fileSplits := CheckSplits(filename, data, errors);
      assert errors == BaseFindings(filename, content, schema);
      result := ValidationResult(filename, |errors| == 0, errors);
  }

  /** A result with the duplicate findings among `occ` appended. */
  function WithDuplicates(r: ValidationResult, occ: seq<Occurrence>): ValidationResult {
    var errors := r.errors + Duplicates(occ, r.file);
    ValidationResult(r.file, errors == [], errors)
  }

  /** The duplicate pass: `seen` maps each key to the file of its first
      occurrence; every later occurrence gets a finding in its own file's
      result, found with `results.find`. */
  method ReportDuplicates(results: seq<ValidationResult>, allSplits: seq<Occurrence>)
    returns (out: seq<ValidationResult>)
    requires forall a, b :: 0 <= a < b < |results| ==> results[a].file != results[b].file
    requires forall m :: 0 <= m < |results| ==> results[m].valid == (results[m].errors == [])
    ensures |out| == |results|
    ensures forall m :: 0 <= m < |results| ==> out[m] == WithDuplicates(results[m], allSplits)
  {
    out := results;
    var seen: map<(string, string), string> := map[];
    var k := 0;
    while k < |allSplits|
      invariant 0 <= k <= |allSplits|
      invariant seen == FirstSeen(allSplits[..k])
      invariant |out| == |results|
      invariant forall m :: 0 <= m < |results| ==> out[m] == WithDuplicates(results[m], allSplits[..k])
    {
      var split := allSplits[k];
      var key := (split.symbol, split.date);
      PrefixSnoc(allSplits, k);
      if key in seen {
        var existingFile := seen[key];
        var found := FindResult(out, split.file);
        if found.Some? {
          var r := found.value;
          out := out[r := out[r].(valid := false,
            errors := out[r].errors + [DuplicateSplit(split.symbol, split.date, existingFile)])];
        }
      } else {
        seen := seen[key := split.file];
      }
      k := k + 1;
    }
    assert allSplits[..k] == allSplits;
  }

  lemma FinalWithDuplicates(name: string, content: Content, schema: YearFile -> seq<string>, occ: seq<Occurrence>)
    requires IsYearFileName(name)
    ensures WithDuplicates(Final(name, content, schema, []), occ) == Final(name, content, schema, occ)
  {
    var b := BaseFindings(name, content, schema);
    assert Duplicates([], name) == [];
    assert Final(name, content, schema, []).errors == b + [] == b;
  }

  /** The first loop of `validateYearFiles` over the sorted year files: each
      file's result before duplicates are reported, and `allSplits`. */
  method FirstPass(names: seq<string>, read: string -> Content, schema: YearFile -> seq<string>)
    returns (firstPass: seq<ValidationResult>, allSplits: seq<Occurrence>)
    requires forall f :: f in names ==> IsYearFileName(f)
    ensures firstPass == FirstResults(names, read, schema)
    ensures allSplits == Occurrences(names, read)
  {
    firstPass := [];
    allSplits := [];
    var i := 0;
    while i < |names|
      invariant 0 <= i <= |names|
      invariant firstPass == FirstResults(names[..i], read, schema)
      invariant allSplits == Occurrences(names[..i], read)
    {
      OccurrencesSnoc(names, read, i);
      FirstResultsSnoc(names, read, schema, i);
      var result, fileSplits := CheckFile(names[i], read(names[i]), schema);
      firstPass := firstPass + [result];
      allSplits := allSplits + fileSplits;
      i := i + 1;
    }
    assert names[..i] == names;
  }

  /** The first-pass results of `names`, in order. */
  function FirstResults(names: seq<string>, read: string -> Content, schema: YearFile -> seq<string>): (r: seq<ValidationResult>)
    requires forall f :: f in names ==> IsYearFileName(f)
    ensures |r| == |names|
    ensures forall m :: 0 <= m < |names| ==> r[m] == Final(names[m], read(names[m]), schema, [])
  {
    seq(|names|, m requires 0 <= m < |names| => Final(names[m], read(names[m]), schema, []))
  }

  lemma FirstResultsSnoc(names: seq<string>, read: string -> Content, schema: YearFile -> seq<string>, i: nat)
    requires forall f :: f in names ==> IsYearFileName(f)
    requires i < |names|
    ensures FirstResults(names[..i + 1], read, schema)
      == FirstResults(names[..i], read, schema) + [Final(names[i], read(names[i]), schema, [])]
  {
    PrefixSnoc(names, i);
  }

  /** A first-pass result names its file and is valid exactly when it has no
      findings. */
  lemma FirstPassShape(name: string, content: Content, schema: YearFile -> seq<string>)
    requires IsYearFileName(name)
    ensures Final(name, content, schema, []).file == name
    ensures Final(name, content, schema, []).valid == (Final(name, content, schema, []).errors == [])
  {
  }

  /** Reporting the duplicates of all files against the first-pass results
      gives the expected report. */
  lemma ReportIsExpected(names: seq<string>, read: string -> Content, schema: YearFile -> seq<string>,
                         firstPass: seq<ValidationResult>, results: seq<ValidationResult>)
    requires forall f :: f in names ==> IsYearFileName(f)
    requires firstPass == FirstResults(names, read, schema)
    requires |results| == |names|
    requires forall m :: 0 <= m < |names| ==> results[m] == WithDuplicates(firstPass[m], Occurrences(names, read))
    ensures results == Expected(names, read, schema)
  {
    var expected := Expected(names, read, schema);
    forall m | 0 <= m < |names|
      ensures results[m] == expected[m]
    {
      FinalWithDuplicates(names[m], read(names[m]), schema, Occurrences(names, read));
    }
  }

  /** Both passes of `validateYearFiles` over a given list of year files. */
  method ValidateFiles(names: seq<string>, read: string -> Content, schema: YearFile -> seq<string>)
    returns (results: seq<ValidationResult>)
    requires forall f :: f in names ==> IsYearFileName(f)
    requires Distinct(names)
    ensures results == Expected(names, read, schema)
  {
    var firstPass, allSplits := FirstPass(names, read, schema);
    forall m | 0 <= m < |names|
      ensures firstPass[m].file == names[m] && firstPass[m].valid == (firstPass[m].errors == [])
    {
      FirstPassShape(names[m], read(names[m]), schema);
    }
    results := ReportDuplicates(firstPass, allSplits);
    ReportIsExpected(names, read, schema, firstPass, results);
  }

  /** `validateYearFiles`: one result per year file, in sorted file-name order. */
  method ValidateYearFiles(listing: seq<string>, read: string -> Content, schema: YearFile -> seq<string>)
    returns (results: seq<ValidationResult>)
    requires Distinct(listing)
    ensures results == Expected(GetYearFiles(listing), read, schema)
  {
    var names := GetYearFiles(listing);
    results := ValidateFiles(names, read, schema);
  }

  /** The `hasErrors` flag of `main`: some year file, or the index file when
      there is one, failed. */
  method HasErrors(results: seq<ValidationResult>, indexResult: Option<ValidationResult>)
    returns (hasErrors: bool)
    ensures hasErrors <==>
      (exists i :: 0 <= i < |results| && !results[i].valid) || (indexResult.Some? && !indexResult.value.valid)
  {
    hasErrors := false;
    var i := 0;
    while i < |results|
      invariant 0 <= i <= |results|
      invariant hasErrors <==> exists m :: 0 <= m < i && !results[m].valid
    {
      if !results[i].valid {
        hasErrors := true;
      }
      i := i + 1;
    }
    if indexResult.Some? && !indexResult.value.valid {
      hasErrors := true;
    }
  }
}
