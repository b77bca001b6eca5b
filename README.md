# Stock splits data: validation, index building and merging

The repository keeps a dataset of stock splits as one JSON file per year
(`data/NNNN.json`, each a `YearFile` with a year, an update date, a declared
`count` and a list of `SplitEntry` records). Three scripts work on it, and
this project models their core logic:

- `scripts/validate.ts` finds the year files and checks each one. The checks
  are the schema, the declared count, the file-name year, each split's date
  year, its ISIN format and its ratio format. It then reports every split
  (symbol and date) that repeats one seen in an earlier or the same file. It
  sets the process's error flag when any result is invalid.
- `scripts/build-index.ts` folds all year files into one index. The index
  lists the years, the total number of splits, a per-symbol summary (taken
  from the symbol's first split, with all its splits newest first) and an
  ISIN-to-symbol map (the last split carrying an ISIN wins).
- `scripts/fetch-massive.ts` merges splits fetched from a provider. It
  collects the (symbol, date) pairs already stored, and keeps only fetched
  splits whose pair is new. It groups those by the year of their execution
  date and converts each provider split to an entry with a `"to:from"` ratio.
  Each group is appended to its year file, which is then sorted by date and
  then by symbol.

The directory is modelled as a listing of names (`listing`, without
repeats, as `readdirSync` returns it) and a function from a name to its
parsed content (`read`). The schema validator is a function from a parsed
year file to its list of messages (`schema`). The current date is a
parameter (`updated`, `today`). Every sort in the scripts is JavaScript's
stable `Array.prototype.sort`. Two of them take a comparator built on
`localeCompare` (`build-index.ts:112`, `fetch-massive.ts:166-170`), one takes
`(a, b) => a - b` (`build-index.ts:122`), and `getYearFiles` calls `.sort()`
with no comparator (`validate.ts:29`, `build-index.ts:61`), which compares
strings by their UTF-16 code units. All of them are modelled by one stable
insertion sort, `Sorting.Sort`, taking a "less or equal" predicate. It is
proved to order, permute and keep ties in input order. `Common.StrLe`
compares strings character by character. A Dafny `char` is a Unicode scalar
value, so this is code-point order. It equals the code-unit order on strings
without characters above U+FFFF, so it is exact for year-file names, which
are ASCII. It also stands in for `localeCompare` (see "## Left out").

Modules: `Common` (optional fields, numbers as the scripts parse and print
them, the ISIN and ratio formats, string order), `Sorting`, `Records` (the
shared records, year-file names, `getYearFiles`), `Validate` and
`ValidateProperties`, `BuildIndex` and `BuildIndexProperties`, and
`FetchMassive`.

Two facts about the index builder are easy to misread:

- `years` is never deduplicated. `build-index.ts:81` pushes one year per
  file, and `:122` sorts them without removing repeats. Year-file names are
  distinct and each names its own year. So `BuildIndexProperties.YearsIncreasing`
  shows that the years are strictly increasing whenever every file's `year`
  field matches its name.
- `totalSplits` adds up `splits.length` (`build-index.ts:82`), not the declared
  `count` fields. That is what `BuildIndex.BuildIndex` states.

## Model

| member | source | states |
|---|---|---|
| Records.IsYearFileName | scripts/validate.ts:29 | `/^\d{4}\.json$/`: four digits followed by `.json`; the same test is at `build-index.ts:60` and `fetch-massive.ts:101`. `Records.YearFileNames` proves the filter keeps exactly these names |
| Records.FileNameYear | scripts/validate.ts:78 | The year that a name `NNNN.json` stands for is the value `parseInt` reads from its four digits, so at most 9999 |
| Records.YearFileNames | scripts/fetch-massive.ts:101 | Exactly the listed names matching `/^\d{4}\.json$/` are kept, without repeats when the listing has none |
| Records.GetYearFiles | scripts/validate.ts:27-30 | The year-file names of the listing, and only those, rearranged into the default sort order (code-unit order, equal to `Common.StrLe` on these ASCII names); with a repeat-free listing each name is strictly before the next |
| Records.SortDistinct | scripts/build-index.ts:59-61 | Sorting a list without repeats gives a list without repeats |
| Records.TotalSplits | scripts/build-index.ts:82 | The running total of `splits.length` equals the number of entries across all files |
| Records.SymbolsOf | scripts/build-index.ts:88 | The set of symbols carried by a run of entries: the keys `bySymbol` ends with, and the keys `existing` ends with at `fetch-massive.ts:110-111`. `Records.SymbolsSnoc` proves one more entry adds exactly its symbol |
| Records.SymbolsSnoc | scripts/build-index.ts:88-95 | Visiting one more entry adds exactly its symbol to the set of symbols seen |
| Records.Flatten | scripts/build-index.ts:79-86 | The processing order of the two nested loops: the splits of each file in turn, each file's splits in stored order |
| Records.LoadAll | scripts/build-index.ts:79-80 | One loaded year file per name, in the order of the names: the `i`-th file is the content of the `i`-th name |
| Sorting.Sort | scripts/build-index.ts:112 | Stable insertion sort by a "less or equal" predicate, standing for every `Array.prototype.sort` in the scripts; the three lemmas below prove it ordered, a permutation and stable |
| Sorting.SortPermutes | scripts/build-index.ts:112 | The sort returns a rearrangement of its input: same elements, same multiplicities |
| Sorting.SortSorted | scripts/build-index.ts:122 | Under a total preorder the sorted list is ordered |
| Sorting.SortStable | scripts/fetch-massive.ts:166-170 | Elements the comparator ties keep their input order (sort stability) |
| Common.LeadingDigits | scripts/validate.ts:86 | The longest run of decimal digits at the start of a string; the next character is not a digit |
| Common.ParseInt | scripts/validate.ts:86 | On strings that do not start with a blank or a sign, `parseInt(s, 10)` is NaN exactly when `s` does not start with a digit; on a digit string it is the string's value |
| Common.YearOf | scripts/fetch-massive.ts:136 | A date starting with four digits yields their value as its year |
| Common.DigitsValueInjective | scripts/validate.ts:78 | Two digit strings of one length with one value are equal |
| Common.IntToString | scripts/fetch-massive.ts:121 | An integer printed in a template literal is all digits exactly when it is not negative, and never contains `:` |
| Common.NatToStringRoundTrip | scripts/fetch-massive.ts:121 | Reading back the decimal text of a number gives that number |
| Common.NatToString | scripts/fetch-massive.ts:121 | The decimal text of a natural number as a template literal prints it: non-empty and all digits; `Common.NatToStringRoundTrip` proves it reads back as the number |
| Common.Truthy | scripts/validate.ts:99 | JavaScript truthiness of an optional string field: present and not the empty string, as the tests `split.isin &&` (`validate.ts:99`), `split.notes &&` (`build-index.ts:100`) and `if (split.isin)` (`build-index.ts:104`) use it |
| Common.IsIsin | scripts/validate.ts:99 | `/^[A-Z]{2}[A-Z0-9]{10}$/`: twelve characters, two capital letters, then capitals or digits |
| Common.IsRatio | scripts/validate.ts:104 | `/^\d+:\d+$/`: a non-empty digit run, the first colon, and a non-empty digit run to the end. `Common.IsRatioCharacterized` and `Common.RatioOfParts` prove it means exactly that |
| Common.IsRatioCharacterized | scripts/validate.ts:104 | `/^\d+:\d+$/` accepts two digit runs around a colon exactly when both are non-empty, and they read back as the two numbers |
| Common.RatioOfParts | scripts/validate.ts:104-106 | A colon-free first part, a colon and a second part form a ratio exactly when both parts are non-empty digit runs |
| Common.WrongSeparatorIsNotRatio | scripts/validate.ts:104 | A ratio written with `-` as its separator (`3-1`) is rejected |
| Common.ParseRatio | scripts/validate.ts:104 | A string has two ratio numbers exactly when it is a well-formed ratio |
| Common.StrLeReflexive | scripts/fetch-massive.ts:167 | Every string compares equal-or-before itself |
| Common.StrLeTotal | scripts/fetch-massive.ts:167 | Any two strings are ordered one way or the other |
| Common.StrLeAntisymmetric | scripts/fetch-massive.ts:167-168 | Strings that the code-point order places each before the other are equal, so under this order only equal strings tie |
| Common.StrLeTransitive | scripts/fetch-massive.ts:167 | The string order is transitive |
| Common.StrLe | scripts/validate.ts:29 | Lexicographic order on strings by character: a prefix comes first, otherwise the first differing character decides. It is the order of `.sort()` without a comparator (also `build-index.ts:61`) on strings without characters above U+FFFF, and stands in for `localeCompare` (`build-index.ts:112`, `fetch-massive.ts:166-170`); the four lemmas above prove it a total order |
| Validate.EntryFindings | scripts/validate.ts:85-106 | The findings of one split: date-year, then ISIN, then ratio, each when its check fails. Proved by `ValidateProperties.EntryFindingsCounts` and `ValidateProperties.EntryFindingsOrder` |
| Validate.HeaderFindings | scripts/validate.ts:65-81 | A parsed file's schema messages, then its count and year findings. Counted by `ValidateProperties.HeaderFindingsCounts` |
| Validate.Misdated | scripts/validate.ts:86-87 | A split is misdated exactly when `parseInt` of its first four characters is not the file's `year` (NaN included) |
| Validate.BadIsin | scripts/validate.ts:99 | A split fails the ISIN check exactly when its `isin` is truthy and does not match `/^[A-Z]{2}[A-Z0-9]{10}$/`; an absent or empty ISIN passes |
| Validate.BadRatio | scripts/validate.ts:104 | A split fails the ratio check exactly when its `ratio` does not match `/^\d+:\d+$/` |
| Validate.EntriesFindings | scripts/validate.ts:84-108 | The per-split findings of a file's splits, split after split in stored order; `ValidateProperties.EntriesFindingsCounts` counts them |
| Validate.BaseFindings | scripts/validate.ts:53-108 | A file's first-pass findings: one parse finding for a file that does not parse; otherwise its header findings followed by its per-split findings |
| Validate.Occurrences | scripts/validate.ts:45 | `allSplits` after the file loop: for each parsed file in order, one record per split with its symbol, date and file (pushed at lines 92-96); an unparsable file adds none |
| Validate.Key | scripts/validate.ts:120 | The duplicate key of a record: its symbol and date, as a pair |
| Validate.Final | scripts/validate.ts:110-127 | A file's result after both passes: its first-pass findings followed by its duplicate findings, valid exactly when there are none |
| Validate.FirstResults | scripts/validate.ts:110-114 | One first-pass result per file, in file order: the `m`-th result is the `m`-th file's findings with no duplicates yet |
| Validate.WithDuplicates | scripts/validate.ts:123-127 | A first-pass result with the file's duplicate findings appended, and `valid` false once any finding is present |
| Validate.FirstSeen | scripts/validate.ts:118-130 | The `seen` map after scanning occurrences in order: each key to the file of its first occurrence. Proved equal to the front scan by `ValidateProperties.FirstSeenIsFirstFile` |
| Validate.Duplicates | scripts/validate.ts:119-127 | The duplicate findings the pass appends to one file, in scan order. Characterized by `ValidateProperties.DuplicatesCharged` and `ValidateProperties.DuplicatesCount` |
| Validate.SchemaFindings | scripts/validate.ts:65-70 | One schema finding per validator message, in the validator's order |
| Validate.FileOccurrences | scripts/validate.ts:91-96 | One tracked occurrence per split of the file, in order, carrying the split's symbol and date and the file's name |
| Validate.Expected | scripts/validate.ts:32-134 | The reference results: one per year file, in file order, each valid exactly when it has no finding |
| Validate.FindResult | scripts/validate.ts:123 | `results.find`: the earliest result for the file, or none when no result has that file |
| Validate.CheckSplit | scripts/validate.ts:85-106 | Exactly the split's own findings (date year, ISIN, ratio) are appended after the findings so far |
| Validate.CheckSplits | scripts/validate.ts:84-108 | The findings of every split are appended in order, and every split is tracked for the duplicate pass |
| Validate.CheckFile | scripts/validate.ts:47-115 | The first-pass result of one file is its final result without duplicate findings; an unparsable file tracks no split |
| Validate.ReportDuplicates | scripts/validate.ts:117-131 | Each result gets exactly the duplicate findings charged to its file, and becomes valid exactly when it has no finding left |
| Validate.FinalWithDuplicates | scripts/validate.ts:110-131 | Adding the duplicate pass to a file's first-pass result gives its final result |
| Validate.FirstPass | scripts/validate.ts:47-115 | The first loop gives each file's first-pass result in file order, and the occurrences of all parsed files in order |
| Validate.FirstResultsSnoc | scripts/validate.ts:110-114 | Checking one more file appends exactly that file's result |
| Validate.FirstPassShape | scripts/validate.ts:56-60 | A first-pass result names its file and is valid exactly when it has no finding |
| Validate.ReportIsExpected | scripts/validate.ts:117-133 | The duplicate pass over the first-pass results gives the reference results |
| Validate.ValidateFiles | scripts/validate.ts:43-134 | Validating a list of distinct year files gives the reference results |
| Validate.ValidateYearFiles | scripts/validate.ts:32-134 | `validateYearFiles` returns the reference results of the sorted year files of the directory |
| Validate.HasErrors | scripts/validate.ts:179-204 | The error flag is set exactly when some year-file result is invalid, or when the index result exists and is invalid |
| ValidateProperties.EntryFindingsCounts | scripts/validate.ts:85-106 | A split gets one finding of each kind whose check fails on it, and no finding of any other kind |
| ValidateProperties.EntryFindingsOrder | scripts/validate.ts:85-106 | A split's date, ISIN and ratio findings are each present exactly when that check fails, and come in that order |
| ValidateProperties.FlaggedCounts | scripts/validate.ts:87-106 | Whatever checks fail, each failing check contributes exactly one finding |
| ValidateProperties.WrongSeparatorRatio | scripts/validate.ts:99-106 | A dated split with ratio `3-1` and no ISIN gets exactly one finding, the invalid ratio |
| ValidateProperties.EntriesFindingsCounts | scripts/validate.ts:84-108 | Over a file's splits, the number of findings of each kind is the number of splits failing that check |
| ValidateProperties.SchemaFindingsCounts | scripts/validate.ts:65-70 | Schema messages produce only schema findings, one each |
| ValidateProperties.HeaderFindingsCounts | scripts/validate.ts:65-81 | schema findings = validator messages; one count finding iff the count differs from the number of splits; one year finding iff the year differs from the file name; nothing else |
| ValidateProperties.JsonFindingsCounts | scripts/validate.ts:64-108 | A parsed file's own findings have as many schema, count and year findings as those checks fail, and no parse or duplicate finding |
| ValidateProperties.JsonEntryCounts | scripts/validate.ts:84-108 | A parsed file has as many date, ISIN and ratio findings as it has splits failing each check |
| ValidateProperties.MalformedFindings | scripts/validate.ts:53-62 | An unparsable file gets exactly one finding, the JSON error |
| ValidateProperties.MalformedResult | scripts/validate.ts:53-62 | The final result of an unparsable file is invalid, with its JSON error as its only finding, whatever the other files hold |
| ValidateProperties.FirstFileOccurs | scripts/validate.ts:118-130 | A key has a first file exactly when some occurrence has that key |
| ValidateProperties.FirstFileEarliest | scripts/validate.ts:121-129 | The first file of a key is the file of its earliest occurrence |
| ValidateProperties.FirstSeenIsFirstFile | scripts/validate.ts:118-130 | The `seen` map holds exactly the keys met so far, each with the file of its first occurrence |
| ValidateProperties.LastIsRepeat | scripts/validate.ts:121 | A new last occurrence repeats exactly when its key is already in `seen`, and earlier occurrences keep their status |
| ValidateProperties.DuplicatesCount | scripts/validate.ts:117-131 | A file gets as many duplicate findings as it has occurrences repeating an earlier key |
| ValidateProperties.DuplicatesCharged | scripts/validate.ts:117-131 | A duplicate finding is in a file's result exactly when that file has a repeated occurrence of the key, and the finding names the key's first file |
| ValidateProperties.SameFileRepeat | scripts/validate.ts:119-127 | A key twice in one file, first met there, gives that file a duplicate finding naming itself |
| ValidateProperties.UniqueKeyNotCharged | scripts/validate.ts:119-130 | A key that occurs once is never reported as a duplicate |
| ValidateProperties.OccurrencesFiles | scripts/validate.ts:91-96 | Every tracked occurrence comes from a listed file that parsed |
| ValidateProperties.NoOccurrenceNoDuplicates | scripts/validate.ts:123-127 | A file without tracked occurrences gets no duplicate finding |
| ValidateProperties.BaseHasNoDuplicates | scripts/validate.ts:47-115 | The first loop never produces a duplicate finding |
| ValidateProperties.FindingsOrder | scripts/validate.ts:110-131 | A file's result lists its own findings first and its duplicate findings after them |
| BuildIndex.NewerOrSame | scripts/build-index.ts:112 | `(a, b) => b.date.localeCompare(a.date)` as a "less or equal": newest date first. A total preorder by `BuildIndexProperties.NewerOrSameIsTotalPreorder` |
| BuildIndex.IntLe | scripts/build-index.ts:122 | `(a, b) => a - b` as a "less or equal": ascending years |
| BuildIndex.FirstWith | scripts/build-index.ts:88-95 | The first split of a symbol in processing order, whose name, ISIN and exchange the summary keeps. Characterized by `BuildIndexProperties.FirstWithEarliest` |
| BuildIndex.ItemsFor | scripts/build-index.ts:97-101 | The items of a symbol's splits in processing order. Characterized by `BuildIndexProperties.ItemsForMembers` |
| BuildIndex.LastOwner | scripts/build-index.ts:104-106 | The symbol of the last split carrying a non-empty ISIN. Characterized by `BuildIndexProperties.LastOwnerPresent` and `BuildIndexProperties.LastOwnerLatest` |
| BuildIndex.CarriesIsin | scripts/build-index.ts:104 | An entry carries an ISIN when its `isin` is truthy and equal to it |
| BuildIndex.Summary | scripts/build-index.ts:89-94 | The `bySymbol` record created for a new symbol: name, ISIN and exchange of that entry, with the given items |
| BuildIndex.YearsOf | scripts/build-index.ts:81 | One year per file, in file order: the `m`-th is the `m`-th file's `year` field |
| ValidateProperties.CleanBaseEmpty | scripts/validate.ts:64-108 | A parsed file that the schema accepts, with the right count and year and only clean splits, gets no finding of its own |
| ValidateProperties.NoRepeatNoDuplicates | scripts/validate.ts:117-131 | When no (symbol, date) key occurs twice, the duplicate pass reports nothing |
| ValidateProperties.CleanFileValid | scripts/validate.ts:32-134 | A clean file in a dataset without repeated keys is reported valid, with no finding |
| ValidateProperties.CleanDatasetValid | scripts/validate.ts:32-134 | On a clean dataset every year file is reported valid |
| BuildIndex.ItemOf | scripts/build-index.ts:97-101 | A split's index item has its date and ratio, and carries its notes exactly when they are non-empty |
| BuildIndex.FirstWithPresent | scripts/build-index.ts:88-95 | A symbol has a first split exactly when it occurs, and that split is for the symbol |
| BuildIndex.ItemsForSnoc | scripts/build-index.ts:97-101 | One more split adds its item at the end of its own symbol's list, and changes no other list |
| BuildIndex.LastOwnerSnoc | scripts/build-index.ts:104-106 | One more split that carries an ISIN makes its symbol that ISIN's owner; other ISINs keep their owner |
| BuildIndex.AddItemIndexed | scripts/build-index.ts:88-101 | Creating the symbol's summary when it is missing, then appending the split's item, keeps `bySymbol` equal to the reference summaries |
| BuildIndex.AddIsinIndexed | scripts/build-index.ts:103-106 | Recording a non-empty ISIN keeps `byIsin` equal to the last owner of every ISIN seen |
| BuildIndex.AddSplit | scripts/build-index.ts:86-107 | Indexing one more split keeps both maps equal to their reference definitions and adds one listed item |
| BuildIndex.AddFile | scripts/build-index.ts:86-107 | Indexing a whole year file keeps both maps exact and adds as many listed items as the file has splits |
| BuildIndex.SortBySymbol | scripts/build-index.ts:110-113 | Every symbol's split list is replaced by its newest-first sort; symbols, other fields and the number of listed items stay |
| BuildIndex.Collect | scripts/build-index.ts:79-108 | The loop gathers each file's year in order, the total of the split lengths, and maps exact for all entries, listing as many items as the total |
| BuildIndex.BuildIndex | scripts/build-index.ts:70-125 | The index has the fixed schema and version, the build date, the split total, the sorted years, one summary per symbol from its first split with all its items newest first, a listed item per split, and each ISIN's last owner |
| BuildIndexProperties.NewerOrSameIsTotalPreorder | scripts/build-index.ts:112 | The newest-first comparator is a total preorder, so the per-symbol sort is well defined |
| BuildIndexProperties.SameDateEquivalent | scripts/build-index.ts:112 | The newest-first comparator ties two items exactly when their dates are equal |
| BuildIndexProperties.IntLeIsTotalPreorder | scripts/build-index.ts:122 | `(a, b) => a - b` orders the years as a total preorder |
| BuildIndexProperties.SymbolSplitsSorted | scripts/build-index.ts:111-113 | A symbol's sorted items have non-increasing dates, are a rearrangement of its items, and keep same-date items in file order |
| BuildIndexProperties.YearsSorted | scripts/build-index.ts:122 | The sorted years are one per file, ascending, and a rearrangement of the files' years |
| BuildIndexProperties.FileNameYearInjective | scripts/build-index.ts:60 | Two year-file names for one year are the same name |
| BuildIndexProperties.YearsIncreasing | scripts/build-index.ts:79-122 | When every file's year matches its name, the index years are strictly increasing, so they contain no repeat |
| BuildIndexProperties.FirstWithEarliest | scripts/build-index.ts:88-95 | A symbol's summary comes from its earliest split in file order, which exists exactly when the symbol occurs |
| BuildIndexProperties.LastOwnerPresent | scripts/build-index.ts:104-106 | An ISIN is in `byIsin` exactly when some split carries it |
| BuildIndexProperties.LastOwnerLatest | scripts/build-index.ts:104-106 | An ISIN maps to the symbol of the latest split carrying it; no later split carries it |
| BuildIndexProperties.ItemsForMembers | scripts/build-index.ts:97-101 | A symbol's items are exactly the items of its splits |
| BuildIndexProperties.ItemsForConcat | scripts/build-index.ts:79-108 | A symbol's items over two runs of splits are the first run's followed by the second run's |
| BuildIndexProperties.TwoIsinsOneSymbol | scripts/build-index.ts:88-106 | One symbol under two ISINs in successive years keeps the first split's summary, lists both items, and both ISINs point to it |
| FetchMassive.ConvertRatio | scripts/fetch-massive.ts:120-122 | `"to:from"` is a well-formed ratio exactly when both numbers are non-negative, and then it reads back as (to, from) |
| FetchMassive.NatRatioRoundTrip | scripts/fetch-massive.ts:121 | Printing two numbers around a colon and parsing the ratio gives the two numbers back |
| FetchMassive.AddExisting | scripts/fetch-massive.ts:108-114 | Recording one more split keeps the map equal to each seen symbol's set of dates |
| FetchMassive.LoadExistingSplits | scripts/fetch-massive.ts:98-117 | The map holds exactly the symbols of the stored year files, each with exactly its stored dates |
| FetchMassive.ExistingIsRecorded | scripts/fetch-massive.ts:98-117 | Looking a symbol and date up in the map succeeds exactly when some stored split has them |
| FetchMassive.IsNew | scripts/fetch-massive.ts:126-128 | A fetched split is new when its ticker has no dates, or its execution date is not one of them |
| FetchMassive.FilterNewSplits | scripts/fetch-massive.ts:124-130 | A fetched split is kept exactly when its ticker is unknown or its execution date is not among the ticker's dates |
| FetchMassive.FilterNewSplitsConcat | scripts/fetch-massive.ts:125 | Filtering a concatenation filters each part in order |
| FetchMassive.FilterNewSplitsCopies | scripts/fetch-massive.ts:124-130 | A new split keeps all its copies and a known one keeps none |
| FetchMassive.FilterKeepsUnrecorded | scripts/fetch-massive.ts:196-197 | Against the loaded map, a fetched split is kept exactly when no stored split has its ticker and date |
| FetchMassive.YearKey | scripts/fetch-massive.ts:136 | The group key of a split: `parseInt` of the first four characters of its execution date, `None` standing for NaN |
| FetchMassive.InYear | scripts/fetch-massive.ts:135-141 | A year's group holds exactly the splits whose execution date parses to that year |
| FetchMassive.InYearCopies | scripts/fetch-massive.ts:135-141 | A year's group holds every copy of each split of that year, and nothing of other years |
| FetchMassive.GroupsPermute | scripts/fetch-massive.ts:132-144 | Every split lands in its own year's group as often as it was fetched, and groups hold only their year's splits |
| FetchMassive.GroupByYear | scripts/fetch-massive.ts:132-144 | The map's keys are the years met (NaN included), each with its splits in input order |
| FetchMassive.Push | scripts/fetch-massive.ts:137-140 | One split added to the groups: its key is added to the keys; its group is the old one, or an empty one if the key was missing, with the split pushed at the end; every other group is unchanged |
| FetchMassive.AddToGroup | scripts/fetch-massive.ts:136-140 | The loop body (`has`, `set` to `[]`, `get`, `push`) leaves exactly the map `FetchMassive.Push` describes |
| FetchMassive.GroupStep | scripts/fetch-massive.ts:135-141 | Adding the next split to the groups of the splits before it gives the groups of the splits up to and including it |
| FetchMassive.LoadOrCreateYearFile | scripts/fetch-massive.ts:146-159 | A stored file is returned as stored; otherwise a new one for the year, dated today, with no splits and no count |
| FetchMassive.EntryOf | scripts/fetch-massive.ts:213-219 | A fetched split becomes an entry named after its ticker, with its date, the converted ratio and source `massive`, and no other field |
| FetchMassive.Entries | scripts/fetch-massive.ts:212-221 | The entries a group is converted to, one per split and in group order: the `k`-th is the `k`-th split's entry |
| FetchMassive.AppendNew | scripts/fetch-massive.ts:212-223 | The group's entries are pushed, in order, after the year file's splits; nothing else changes |
| FetchMassive.AppendKeepsExisting | scripts/fetch-massive.ts:212-223 | Appending keeps count, year and every earlier split in place, and puts the k-th split's entry at position k after them |
| FetchMassive.DateThenSymbolIsTotalPreorder | scripts/fetch-massive.ts:166-170 | Date, then symbol, is a total preorder, so the sort is well defined |
| FetchMassive.DateThenSymbol | scripts/fetch-massive.ts:166-170 | The `saveYearFile` comparator as a "less or equal": by date, then by symbol. A total preorder by `FetchMassive.DateThenSymbolIsTotalPreorder` |
| FetchMassive.SaveYearFile | scripts/fetch-massive.ts:161-173 | Saving stamps today's date, changes no other field, and rearranges the splits by the stable sort into date order, then symbol order within a date |
| FetchMassive.SameDateAndSymbolEquivalent | scripts/fetch-massive.ts:166-170 | The comparator ties two entries exactly when they have the same date and the same symbol |
| FetchMassive.SaveYearFileStable | scripts/fetch-massive.ts:166-170 | Entries of one date and one symbol keep, after saving, the order the file held them in |
| FetchMassive.MergeYear | scripts/fetch-massive.ts:209-227 | A year's merged file keeps the loaded count, year and schema and is dated today. Its splits are exactly the loaded splits plus the group's entries, in the save order |

## Left out

- Reading the directory and files (`readdirSync`, `readFileSync`, `existsSync`) and writing files (`writeFileSync`). The directory is a listing plus a `read` function, and the written file is the returned value.
- `JSON.parse`. In `Validate` its outcome is a parameter: parsed data, or a failure with its message.
- `BuildIndex.BuildIndex` and `FetchMassive.LoadExistingSplits`: they take `read` as already parsed year files. In the scripts a file that does not parse throws (`scripts/build-index.ts:67`, `scripts/fetch-massive.ts:106`). That aborts the script, through `main`'s `catch` in `scripts/fetch-massive.ts:232-235`. The abort is not modelled.
- The Ajv schema validator (`loadSchema`, `ajv.compile`). It is the `schema` parameter, returning the messages of a parsed file.
- `validateIndex` (`scripts/validate.ts:136-174`). It returns nothing when `index.json` is missing. Otherwise it parses the file, reporting a parse failure as one "Invalid JSON" finding, and runs a validator compiled from a different schema (`index.schema.json`). Its result enters `Validate.HasErrors` as an optional parameter.
- Console output, `process.exit`, and the exact text of every message. Findings are a datatype with the values each message interpolates.
- The clock (`new Date()`, `formatDate`). The date is the `updated`/`today` parameter.
- The provider: the HTTP request (`fetchSplits`), `getApiKey` and `parseArgs`. Only their result, a sequence of fetched splits, enters the model.
- JavaScript number semantics beyond integers: floating point, NaN as a year value, and fractional split counts. `parseInt`'s NaN is `None`.
- `Common.ParseInt`: leading white space and a leading `+` or `-` are not skipped, so such strings give `None`. JavaScript's `parseInt` skips them: `parseInt(" 999", 10)` is 999. The dates passed at `scripts/validate.ts:86` and `scripts/fetch-massive.ts:136` come from data files and the provider, so they may start that way. For such a date the model reports a `DateYearMismatch` (or groups it under the NaN key) where the script may not.
- A year file without a `splits` array (`data.splits?.length`). The model's year files always have one.
- A parsed year file without a `year` field. `YearFile.year` is an `int`, so the model has no such file. The script still checks one: it reports `Year mismatch ... data says undefined`, and every split fails `splitYear !== data.year` (`scripts/validate.ts:79-88`).
- Plain-object quirks in `build-index.ts`: prototype keys such as `constructor` in `bySymbol[split.symbol]`, and the key order of `Object.keys`. The maps are Dafny maps.
- `Validate.ReportDuplicates`: keys are (symbol, date) pairs. The source joins them as `` `${symbol}:${date}` ``, so a symbol containing `:` could collide with another pair. The model does not reproduce that collision.
- `FetchMassive.LoadExistingSplits`: the key it builds at `scripts/fetch-massive.ts:109` is never used. That line is dead code, and the model leaves it out.
- `FetchMassive.MergeYear`: it covers one numeric year of the outer loop of `main` (`scripts/fetch-massive.ts:209-227`). The loop runs it once per group, each on its own file. The group keyed NaN (a date not starting with digits) would be written to `NaN.json`; that group is not modelled.
- `Validate.ValidateYearFiles`: it requires a listing without repeated names, as a directory listing is.
- `BuildIndex.BuildIndex`: it requires nothing about file contents. Year values are taken as the files declare them, whether or not they match the file name.
- The in-place sorts (`splits.sort`, `years.sort`, `data.splits.sort`) are modelled on sequence values by `Sorting.Sort`, not as updates of an array.
- `localeCompare` is modelled as the order on characters (`Common.StrLe`). Locale collation rules are not modelled.
- `Common.StrLe`: it is code-point order. The comparator-free `.sort()` uses UTF-16 code-unit order. The two differ on strings with characters above U+FFFF, which year-file names never hold.
