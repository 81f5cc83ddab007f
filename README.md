# KnownSourceMatcher catalog and matcher, in Dafny

This project models the core of KnownSourceMatcher, a tool that checks
pulsar candidates against a catalog of known pulsars. The model has four
parts.

- **`KnownSourceRecord`** (`known_source.dfy`) models `KnownSource`.
  - The object holds a map from parameter key to a list of string
    sub-values, a name and an integer sort key.
  - A catalog line is stored under its first word.
  - An `RAJ` or `DECJ` value is padded to `H:M:S`.
  - The name rule: a `PSRJ` line names the source only while it is
    still `"Unknown"`, and a `PSRB` line always renames it.
  - The sort key is `toInt(RAJ) + toInt(DECJ)`. It is computed after
    every line while it is still 0, so once both coordinates are present;
    once it is non-zero it never changes.
- **`CatalogFormat`** (`catalog_format.dfy`) holds the rules of `parse`
  as functions over the file's lines. `KnownSourceCatalog`
  (`known_source_db.dfy`) is the in-place `KnownSourceDB` object proved
  against those rules. The parser handles:
  - the plain ATNF catalog, with `@` separators;
  - the ATNF web table, where header column `i` is read from token
    `(i-1)*2` when `i > 2`.

  Both reuse one scratch `KnownSource`. The index then orders the sources
  by sort key with a stable sort.
- **`MatchRules`** (`match_rules.dfy`) holds the matching rules as
  functions:
  - the bisection that seeds the indexed search;
  - the outward runs of `compareRight` and `compareLeft` inside the
    padding band;
  - the lazy `P0 = 1/F0` fill;
  - the comparison over the harmonics `1, 1/2, 1/4, 1/8, 1/16`, with its
    period window, its optional DM window and its optional angular-radius
    gate;
  - the record that `recordPossibleMatch` writes, and the counter it
    increments.

  `KnownSourceDB.Match` and the comparison methods are proved to follow
  these rules, in place.
- **`SiteScraper`** (`site_scraper.dfy`) covers the normaliser of the
  web-scraped rows, from `PulsarSiteScraper.py`:
  - the `Source` record, with `setName`, `isValid`,
    `extractRAAndDECFromName` and `toString`;
  - `filterText`;
  - the per-line test of `clean`.

  `toString` writes the row layout that the web-table parser reads back.

Supporting modules:

- **`Text`** models the Python string operations the code uses:
  - `str.split()` and `str.split(c)`;
  - `find`, `strip` and `replace`;
  - decoding to ASCII with errors ignored.
- **`Numbers`** models `int()`, `float()`, `math.floor` and `str()`.
- **`Wrappers`** holds `Option`/`Result`. A Python exception is a
  `Failure` carrying its exception class. In a method it is `ok == false`.

Design choices:

- File reading is replaced by the list of lines, as `readlines` returns
  them.
- `findAngularSep` is the `separation` field of `MatchRules.Config`.
- What `recordPossibleMatch` writes to its output files becomes the
  `matches` sequence of `MatchRecord`s.

The indexed search compares nothing unless the seed's key lies in the band.
`MatchRules.SeedGateMissesInBandEntry` shows what this costs. With keys
`[0, 100]`, a candidate key of 0 and a padding of 10, the bisection
returns index 1. That key is out of band, so the in-band entry at index 0
is never compared. When the seed is in band,
`MatchRules.IndexedSearchComplete` proves that every in-band entry is
compared exactly once.

Where the code and its comments disagree, the model follows the code:

- The comment at `KnownSource.py:78-79` says a B name never overwrites a J
  name. The code lets the B name win.

Facts about the code that the model keeps as they are:

- The bisection only seeds the search (`KnownSourceDB.py:646-649`). A
  window of two returns its second index without looking at the keys
  (`KnownSourceDB.py:658-662`). Only an exact hit at the midpoint of a
  wider window is returned as such.
- `float()` and `int()` of coordinate and parameter text are not wrapped
  in `try` in `compareCandidateToKnownSources` or `findAngularSep`
  (`KnownSourceDB.py:435-517, 719-770`), so a conversion error is an
  exception here.
- `clean` is modelled as written, including the DEC test of
  `PulsarSiteScraper.py:141` that measures the RA field (see
  "## Findings"). `SiteScraper.CleanedRowsIntended` keeps the rows of the
  corrected test. `filterText` returns a `unicode` string, so `clean`
  splits with `unicode.split()` (`Text.UnicodeTokens`), which also breaks
  at U+001C to U+001F. The catalog parser splits byte strings with
  `str.split()` (`Text.Tokens`).
- A candidate without RAJ turns naive search on (`KnownSourceDB.py:364-365`).
  Comparing it then reads the candidate's `RAJ` at `KnownSourceDB.py:482`
  and raises TypeError on the first entry with a period
  (`MatchRules.NoPositionRaises`).

## Model

| member | source | states |
|---|---|---|
| KnownSourceRecord.KnownSource.constructor | KnownSourceMatcher/dist/KnownSource.py:43-53 | A new record has no parameters and sort key 0, and carries the name it was given (`"Unknown"` by default). |
| KnownSourceRecord.GetParameter | KnownSourceMatcher/dist/KnownSource.py:158-170 | The lookup finds the list stored under the key. It returns None exactly when the key is absent. |
| KnownSourceRecord.GetParameterAtIndex | KnownSourceMatcher/dist/KnownSource.py:174-191 | For a non-negative index, it returns the element when the key is present and the index is below the list's length. A negative index reads from the end when it is at least `-len`, and gives None below that (the IndexError is caught). An absent key always gives None. |
| KnownSourceRecord.NegativeIndexFromEnd | KnownSourceMatcher/dist/KnownSource.py:180-184 | A negative index counts from the end of the list, as Python indexing does. Index `i - len` reads the element at `i`. |
| KnownSourceRecord.Pad | KnownSourceMatcher/dist/KnownSource.py:85-118 | A padded coordinate begins with the value it was given. |
| KnownSourceRecord.PadFields | KnownSourceMatcher/dist/KnownSource.py:85-118 | A value with one colon field gains two `00` fields and one with two fields gains one. A value with three or more fields is unchanged. |
| KnownSourceRecord.PadIdempotent | KnownSourceMatcher/dist/KnownSource.py:100-101 | Padding a padded value changes nothing, and a padded value always has at least three fields. |
| KnownSourceRecord.PadKeepsSeconds | KnownSourceMatcher/dist/KnownSource.py:85-118 | Padding never changes a coordinate's value in seconds, nor whether converting it raises. |
| KnownSourceRecord.ToSecondsOfFields | KnownSourceMatcher/dist/KnownSource.py:283-302 | The fields `h:m:s` convert to `h*3600 + floor(m)*60 + floor(s)`. |
| KnownSourceRecord.DigitsToSeconds | KnownSourceMatcher/dist/KnownSource.py:283-302 | Digit fields `HH:MM:SS` convert to their value in seconds. |
| KnownSourceRecord.PlusIgnored | KnownSourceMatcher/dist/KnownSource.py:289 | A leading `+` does not change the value. |
| KnownSourceRecord.NegativeHourOnly | KnownSourceMatcher/dist/KnownSource.py:289 | A leading `-` is not stripped, so the hour field reads as a negative number. |
| KnownSourceRecord.HourField | KnownSourceMatcher/dist/KnownSource.py:287-302 | With any hour field, including a negative one, the minutes and the seconds still add. So `-DD:MM:SS` is `-DD*3600 + MM*60 + SS`. |
| KnownSourceRecord.MonotoneInSeconds | KnownSourceMatcher/dist/KnownSource.py:297-302 | A larger seconds field never gives a smaller value. |
| KnownSourceRecord.UpdateSort | KnownSourceMatcher/dist/KnownSource.py:132-152 | When the sort key update succeeds, it changes nothing but the sort key. |
| KnownSourceRecord.KnownSource.UpdateSortAttribute | KnownSourceMatcher/dist/KnownSource.py:132-152 | The in-place update raises exactly when `UpdateSort` fails. Otherwise the object holds `UpdateSort`'s result. |
| KnownSourceRecord.AddStoresUnderKey | KnownSourceMatcher/dist/KnownSource.py:74-121 | A line that is added successfully stores its padded sub-values under its first word. No other key changes. |
| KnownSourceRecord.AddStoresTokens | KnownSourceMatcher/dist/KnownSource.py:119-121 | A key that is not a coordinate stores exactly `substrings[1:]`. |
| KnownSourceRecord.JNameOnlyWhenUnknown | KnownSourceMatcher/dist/KnownSource.py:80-81 | A `PSRJ` line does not rename a source that already has a name. |
| KnownSourceRecord.BNameWins | KnownSourceMatcher/dist/KnownSource.py:78-83 | In either order of the two lines, the `PSRB` name is the one that stays. The exception is a B name of literally `"Unknown"`. This holds for any settled record, including the blank scratch record with key 0. |
| KnownSourceRecord.AddCoordinateLine | KnownSourceMatcher/dist/KnownSource.py:85-126 | A `RAJ`/`DECJ` line stores the padded value. The sort key is recomputed only while it is 0. |
| KnownSourceRecord.ReaddCoordinateStable | KnownSourceMatcher/dist/KnownSource.py:100-101 | Re-adding the stored padded coordinate leaves the record exactly as it was. |
| KnownSourceRecord.ReaddSame | KnownSourceMatcher/dist/KnownSource.py:117-118 | A record whose coordinate is already padded is a fixed point of re-adding that coordinate. |
| KnownSourceRecord.AddSettles | KnownSourceMatcher/dist/KnownSource.py:125-152 | After any successful line the sort key is settled. It is either non-zero, or recomputing it would change nothing. |
| KnownSourceRecord.SortKeyFrozen | KnownSourceMatcher/dist/KnownSource.py:125-126 | Once the sort key is non-zero, no later line changes it. |
| KnownSourceRecord.SortKeyComputed | KnownSourceMatcher/dist/KnownSource.py:146-152 | While the sort key is 0, a line sets it to `toInt(RAJ[0]) + toInt(DECJ[0])` if both coordinates are present afterwards. Otherwise it stays 0. |
| KnownSourceRecord.AddOtherKeepsSortKey | KnownSourceMatcher/dist/KnownSource.py:119-126 | On a settled record, a line that is not a name or a coordinate never raises, and keeps the name and the sort key. |
| KnownSourceRecord.KnownSource.AddParameter | KnownSourceMatcher/dist/KnownSource.py:61-126 | The in-place `addParameter` raises exactly when `AddParameterTo` fails. Otherwise the object holds its result. |
| KnownSourceRecord.SplitJoinComma | KnownSourceMatcher/dist/KnownSource.py:211 | Joining comma-free fields with commas and splitting the result at commas gives back the fields. |
| KnownSourceRecord.DescribeFields | KnownSourceMatcher/dist/KnownSource.py:197-211 | The `__str__` text splits at commas into six fields: the name, then RAJ, DECJ, P0 and DM (`None` when absent), then the sort key. |
| Numbers.IntTextRoundTrip | KnownSourceMatcher/dist/KnownSource.py:211 | `int(str(n)) == n` for every integer. |
| Numbers.RenderRoundTrip | KnownSourceMatcher/dist/KnownSourceDB.py:462-463 | The period text written into an entry reads back as the number it renders, truncated to 12 decimals. |
| CatalogFormat.DetectionFirstLineOnly | KnownSourceMatcher/dist/KnownSourceDB.py:832-872 | Only the first line decides the format, and no file is both a catalog file and web output. |
| CatalogFormat.UnknownFormatParsesNothing | KnownSourceMatcher/dist/KnownSourceDB.py:276-277 | A file of neither format is parsed without error and returns False. |
| CatalogFormat.CommitConsistent | KnownSourceMatcher/dist/KnownSourceDB.py:128-139 | After a commit, the names seen are still distinct and are exactly the dictionary's keys. Each record is stored under its own name. The name list grows by at most one. |
| CatalogFormat.PlainStepConsistent | KnownSourceMatcher/dist/KnownSourceDB.py:124-146 | One plain-catalog line keeps the dictionary consistent. |
| CatalogFormat.PlainRunConsistent | KnownSourceMatcher/dist/KnownSourceDB.py:117-148 | A plain catalog that parses without error leaves a consistent dictionary. |
| CatalogFormat.SeparatorCommits | KnownSourceMatcher/dist/KnownSourceDB.py:128-139 | An `@` line stores the scratch record under its name, replacing an entry of the same name, and resets the scratch to an empty `"Unknown"` record. |
| CatalogFormat.AfterLastSeparatorNotCommitted | KnownSourceMatcher/dist/KnownSourceDB.py:124-146 | Lines after the last `@` add no source. |
| CatalogFormat.PlainFailureSticks | KnownSourceMatcher/dist/KnownSourceDB.py:117-148 | An exception on any prefix of a plain catalog is an exception for the whole file. |
| CatalogFormat.HeaderColumn | KnownSourceMatcher/dist/KnownSourceDB.py:167-215 | A header recorded at position `i` maps to token `i` for `i <= 2` and to token `(i-1)*2` beyond that. |
| CatalogFormat.HeaderAbsent | KnownSourceMatcher/dist/KnownSourceDB.py:167-215 | A header line leaves the columns of the names it does not contain alone. |
| CatalogFormat.LongHeaderColumns | KnownSourceMatcher/dist/KnownSourceDB.py:167-215 | The web table's header maps NAME to 1, RAJ to 2, DECJ to 4, P0 to 6, F0 to 8 and DM to 10. |
| CatalogFormat.RowLineTokens | KnownSourceMatcher/dist/KnownSourceDB.py:236-258 | A row's NAME becomes the line `PSRJ name 0 0` when the name contains `J`, and `PSRB name 0 0` otherwise. Any other column becomes `key value error 0`. |
| CatalogFormat.FillRowFailureSticks | KnownSourceMatcher/dist/KnownSourceDB.py:232-258 | An exception on one column of a row is an exception for the row. |
| CatalogFormat.FillRowSettled | KnownSourceMatcher/dist/KnownSourceDB.py:232-258 | Filling a row keeps the scratch record's sort key settled. |
| CatalogFormat.OneSourcePerRow | KnownSourceMatcher/dist/KnownSourceDB.py:217-270 | Each data row commits exactly one source under the row's name, resets the scratch record and adds at most one name. |
| CatalogFormat.WebStepConsistent | KnownSourceMatcher/dist/KnownSourceDB.py:157-270 | One web-table line keeps the dictionary consistent. |
| CatalogFormat.WebRunConsistent | KnownSourceMatcher/dist/KnownSourceDB.py:150-272 | A web table that parses without error leaves a consistent dictionary. |
| CatalogFormat.WebFailureSticks | KnownSourceMatcher/dist/KnownSourceDB.py:150-272 | An exception on any prefix of a web table is an exception for the whole file. |
| CatalogFormat.ScannedConsistent | KnownSourceMatcher/dist/KnownSourceDB.py:117-272 | Whatever the format, a scan without error leaves a consistent dictionary. |
| CatalogFormat.SortNames | KnownSourceMatcher/dist/KnownSourceDB.py:290 | The ordered names are a permutation of the dictionary's names. |
| CatalogFormat.SortNamesAscending | KnownSourceMatcher/dist/KnownSourceDB.py:290 | Sort keys do not decrease along the ordered names. |
| CatalogFormat.SortNamesDistinct | KnownSourceMatcher/dist/KnownSourceDB.py:290-317 | Ordering distinct names keeps them distinct. |
| CatalogFormat.IndexOrdered | KnownSourceMatcher/dist/KnownSourceDB.py:286-334 | The index maps `0..n-1` one-to-one onto the committed names, with ascending keys, where `n` is the number of sources. |
| CatalogFormat.ParseIndexes | KnownSourceMatcher/dist/KnownSourceDB.py:276-338 | `parse` returns False exactly when no source was committed. Otherwise it builds a non-empty ordered index with one position per source. |
| KnownSourceCatalog.ScanPlainCatalog | KnownSourceMatcher/dist/KnownSourceDB.py:117-148 | The plain-catalog loop raises exactly when `PlainRun` fails. Otherwise it leaves the dictionary and the names `PlainRun` gives. |
| KnownSourceCatalog.AddHeaderColumns | KnownSourceMatcher/dist/KnownSourceDB.py:167-215 | The header loop records the columns `AddHeaders` gives. |
| KnownSourceCatalog.FillRowInto | KnownSourceMatcher/dist/KnownSourceDB.py:232-258 | The column loop fills the scratch object as `FillRow` does, and raises exactly when it fails. |
| KnownSourceCatalog.FillColumnInto | KnownSourceMatcher/dist/KnownSourceDB.py:236-258 | One column is added to the scratch object as `FillColumn` adds it. |
| KnownSourceCatalog.ScanWebCatalog | KnownSourceMatcher/dist/KnownSourceDB.py:150-272 | The web-table loop raises exactly when `WebRun` fails. Otherwise it leaves the dictionary and the names `WebRun` gives. |
| KnownSourceCatalog.ScanCatalog | KnownSourceMatcher/dist/KnownSourceDB.py:117-272 | The format dispatch of `parse` follows `Scanned`. |
| KnownSourceCatalog.ScanIndexes | KnownSourceMatcher/dist/KnownSourceDB.py:286-317 | A scan with at least one source parses to its ordered index, which is ordered and has one position per source. |
| KnownSourceCatalog.OrderSources | KnownSourceMatcher/dist/KnownSourceDB.py:289-317 | The ordering loop copies every source and lists the names in sorted order. |
| KnownSourceCatalog.CountEntries | KnownSourceMatcher/dist/KnownSourceDB.py:321-334 | The counting loop counts every indexed source. |
| KnownSourceCatalog.KnownSourceDB.constructor | KnownSourceMatcher/dist/KnownSourceDB.py:36-50 | A new matcher has no index, no matches, a zero counter and naive search off. |
| KnownSourceCatalog.KnownSourceDB.Parse | KnownSourceMatcher/dist/KnownSourceDB.py:59-338 | `parse` raises exactly when `CatalogFormat.Parse` fails and returns True exactly when it yields an index. Then the index is that index, the source count is its size, and the match state is unchanged. Otherwise nothing changes. |
| KnownSourceCatalog.KnownSourceDB.IndexSources | KnownSourceMatcher/dist/KnownSourceDB.py:286-334 | The scanned sources become the ordered index, and the count equals its size. |
| KnownSourceCatalog.KnownSourceDB.Match | KnownSourceMatcher/dist/KnownSourceDB.py:350-429 | `match` leaves the state `MatchCandidate` gives and raises exactly when it fails. On success it ends with the candidate emptied to an `"Unknown"` record with key 0. When an exception escapes, that cleanup is skipped. |
| KnownSourceCatalog.KnownSourceDB.CompareEveryEntry | KnownSourceMatcher/dist/KnownSourceDB.py:368-374 | The naive search compares every position in index order. |
| KnownSourceCatalog.KnownSourceDB.IndexedSearch | KnownSourceMatcher/dist/KnownSourceDB.py:404-423 | The indexed search compares exactly the positions `Visits` names, in that order. |
| KnownSourceCatalog.KnownSourceDB.SearchAroundSeed | KnownSourceMatcher/dist/KnownSourceDB.py:417-423 | With an in-band seed, the search compares the seed, then runs right, then runs left. |
| KnownSourceCatalog.KnownSourceDB.CompareCandidateToKnownSources | KnownSourceMatcher/dist/KnownSourceDB.py:435-517 | Comparing one entry changes the state as `CompareAt` does, and raises exactly when it fails. |
| KnownSourceCatalog.KnownSourceDB.FillPeriodInPlace | KnownSourceMatcher/dist/KnownSourceDB.py:460-465 | The entry is replaced by its `FillPeriod` form and no other entry changes. |
| KnownSourceCatalog.KnownSourceDB.RecordHarmonics | KnownSourceMatcher/dist/KnownSourceDB.py:494-517 | The harmonic loop appends the records `HarmonicMatches` gives. The counter grows by their number. |
| MatchRules.HarmonicFigures | KnownSourceMatcher/dist/KnownSourceDB.py:785-787 | The harmonic number times `h` is 1. The harmonic period is the catalog period times `h`. The ratio times the candidate period gives the harmonic period back. |
| MatchRules.RecordOf | KnownSourceMatcher/dist/KnownSourceDB.py:785-823 | A record is produced exactly when both periods parse, the candidate period is non-zero, SNR is absent or non-empty, and RAJ, DECJ and DM have a first value. Its numbers are `HarmonicFigures` of the two periods. Its SNR is the first SNR value, or "0.0" when the candidate has no SNR. Its other fields are the candidate's first values and the catalog entry's texts. |
| KnownSourceCatalog.KnownSourceDB.RecordPossibleMatch | KnownSourceMatcher/dist/KnownSourceDB.py:778-824 | The counter grows by exactly one even when writing the record raises. The record appended is `RecordOf`'s. |
| KnownSourceCatalog.KnownSourceDB.CompareRight | KnownSourceMatcher/dist/KnownSourceDB.py:680-695 | `compareRight` compares exactly the entries of the right run, in order. |
| KnownSourceCatalog.KnownSourceDB.CompareRightFrom | KnownSourceMatcher/dist/KnownSourceDB.py:692-695 | The in-band branch of `compareRight` compares the next entry and continues from it. |
| KnownSourceCatalog.KnownSourceDB.CompareLeft | KnownSourceMatcher/dist/KnownSourceDB.py:697-712 | `compareLeft` compares exactly the entries of the left run, in order. |
| KnownSourceCatalog.KnownSourceDB.CompareLeftFrom | KnownSourceMatcher/dist/KnownSourceDB.py:709-712 | The in-band branch of `compareLeft` compares the previous entry and continues from it. |
| MatchRules.IntOf | KnownSourceMatcher/dist/KnownSourceDB.py:417 | `int()` of a float truncates toward zero. |
| MatchRules.Midpoint | KnownSourceMatcher/dist/KnownSourceDB.py:664 | The midpoint is the ceiling of `(start + end) / 2`. |
| MatchRules.DivideAndConquerSearch | KnownSourceMatcher/dist/KnownSourceDB.py:658-678 | The bisection terminates and returns an index in `[start, end)`. On a window wider than two, an exact key at the midpoint is returned. |
| MatchRules.SeedBracket | KnownSourceMatcher/dist/KnownSourceDB.py:658-678 | On ascending keys, every key strictly between index 0 and the seed is at most the candidate's key, and every key after the seed is at least it. |
| MatchRules.Seed | KnownSourceMatcher/dist/KnownSourceDB.py:410 | The seed of the whole index is a valid position. |
| MatchRules.SeedNearSort | KnownSourceMatcher/dist/KnownSourceDB.py:410 | The seed of the whole index sits where the candidate's key belongs, apart from index 0. |
| MatchRules.RightRun | KnownSourceMatcher/dist/KnownSourceDB.py:680-695 | The right run visits consecutive positions to the right, all in range and in band. It stops at the end of the index or at the first out-of-band key. |
| MatchRules.LeftRun | KnownSourceMatcher/dist/KnownSourceDB.py:697-712 | The left run visits consecutive positions to the left, all in range and in band. It stops at the start of the index or at the first out-of-band key. |
| MatchRules.Visits | KnownSourceMatcher/dist/KnownSourceDB.py:365-423 | `match` only visits positions inside the index. |
| MatchRules.RunsCover | KnownSourceMatcher/dist/KnownSourceDB.py:417-423 | The seed and its two runs cover one contiguous stretch of positions, each visited once. |
| MatchRules.BandIsStretch | KnownSourceMatcher/dist/KnownSourceDB.py:417-423 | On ascending keys, the in-band positions are exactly a maximal contiguous stretch. |
| MatchRules.IndexedSearchComplete | KnownSourceMatcher/dist/KnownSourceDB.py:404-423 | On ascending keys with an in-band seed, every in-band entry is compared exactly once and no other entry is compared. |
| MatchRules.SeedGateMissesInBandEntry | KnownSourceMatcher/dist/KnownSourceDB.py:410-417 | With an out-of-band seed nothing is compared, even when an in-band entry exists. |
| MatchRules.First | KnownSourceMatcher/dist/KnownSourceDB.py:469-485 | `getParameter(key)[0]` gives the first value. It raises TypeError for an absent key and IndexError for an empty list. |
| MatchRules.Float | KnownSourceMatcher/dist/KnownSourceDB.py:492-507 | `float()` succeeds exactly on number text. |
| MatchRules.PeriodLineTokens | KnownSourceMatcher/dist/KnownSourceDB.py:463 | The period line that is added splits into `P0`, the period text, `0` and `0`. |
| MatchRules.FillStoresPeriod | KnownSourceMatcher/dist/KnownSourceDB.py:460-463 | An entry with F0 and no P0 gains the P0 text of `1/F0`, which reads back as `1/F0`. No other key, the name and the sort key do not change. |
| MatchRules.FillOnce | KnownSourceMatcher/dist/KnownSourceDB.py:460-465 | A filled entry is filled only once, and later candidates reuse it. |
| MatchRules.FillExample | KnownSourceMatcher/dist/KnownSourceDB.py:460-463 | An F0 that reads as 2 gives a stored period that reads as 0.5. |
| MatchRules.FillReadsBack | KnownSourceMatcher/dist/KnownSourceDB.py:460-463 | The stored period of an F0 of `f` reads back as exactly `1/f` when writing `1/f` loses no digits. |
| MatchRules.TwoIsFloat | KnownSourceMatcher/dist/KnownSourceDB.py:462 | `float("2")` is 2.0. |
| MatchRules.ReadEntry | KnownSourceMatcher/dist/KnownSourceDB.py:469-477 | The catalog entry's period, RA and DEC are their first values. A missing DM reads as `*`. |
| MatchRules.ReadCandidate | KnownSourceMatcher/dist/KnownSourceDB.py:482-490 | Reading the candidate succeeds exactly when RAJ, DECJ, P0 and DM are present and P0 contains `*` or is a number. A `*` period reads as 0. |
| MatchRules.ReadPair | KnownSourceMatcher/dist/KnownSourceDB.py:469-492 | The reading combines both sides, with `acc = accuracy/100 * candidate period`. |
| MatchRules.WindowExcludesZero | KnownSourceMatcher/dist/KnownSourceDB.py:492-500 | No catalog entry can match a candidate whose period is 0. |
| MatchRules.GatesOff | KnownSourceMatcher/dist/KnownSourceDB.py:499-513 | With DM `*` and RA `00:00:00`, a harmonic is accepted exactly when `cat*h - acc < period < cat*h + acc`. |
| MatchRules.HalfPeriodAccepted | KnownSourceMatcher/dist/KnownSourceDB.py:494-500 | A candidate at half the catalog period matches on harmonic 1/2. |
| MatchRules.AcceptsExactly | KnownSourceMatcher/dist/KnownSourceDB.py:492-513 | With readable numbers, a harmonic is accepted exactly when the period window holds. The DM window is also required when the candidate DM is given and non-zero, the percentage is non-zero and the catalog DM is known. The radius is also required when the candidate RAJ and DECJ both differ from `00:00:00`. |
| MatchRules.DmGateExample | KnownSourceMatcher/dist/KnownSourceDB.py:502-507 | At 5 per cent and catalog DM 20, a candidate DM of 21 leaves the period window as the whole condition. A candidate DM of 25 is rejected whatever its period. |
| MatchRules.AcceptedGatesOff | KnownSourceMatcher/dist/KnownSourceDB.py:494-500 | With the DM and radius gates off, the accepted harmonics are exactly those whose period window holds. |
| MatchRules.HarmonicExample | KnownSourceMatcher/dist/KnownSourceDB.py:494-500 | With catalog P0 1 s and 0.5 per cent, a candidate period of 0.5003 s is accepted at exactly one of the five harmonics. |
| MatchRules.HarmonicMissExample | KnownSourceMatcher/dist/KnownSourceDB.py:494-500 | With the same entry, a candidate period of 0.51 s is accepted at no harmonic. |
| MatchRules.HarmonicFailureSticks | KnownSourceMatcher/dist/KnownSourceDB.py:494-517 | An exception on one harmonic ends the comparison with that exception. |
| MatchRules.OneRecordPerAcceptedHarmonic | KnownSourceMatcher/dist/KnownSourceDB.py:494-517 | Exactly one record is written per accepted harmonic. |
| MatchRules.AcceptedRecordWritten | KnownSourceMatcher/dist/KnownSourceDB.py:783-792 | An accepted harmonic is recorded without error exactly when the candidate's SNR is absent or has a first value. |
| MatchRules.CompareEntry | KnownSourceMatcher/dist/KnownSourceDB.py:435-517 | A comparison leaves the entry in its filled form. |
| MatchRules.NoPeriodSkipped | KnownSourceMatcher/dist/KnownSourceDB.py:465 | An entry with neither P0 nor F0 is skipped unchanged and records nothing. |
| MatchRules.NoPositionRaises | KnownSourceMatcher/dist/KnownSourceDB.py:469-485 | A candidate without RAJ raises on every entry that has a period. |
| MatchRules.CompareKeepsEntry | KnownSourceMatcher/dist/KnownSourceDB.py:460-463 | A comparison never changes an entry's name or sort key, and keeps the key settled. |
| MatchRules.FillKeepsEntry | KnownSourceMatcher/dist/KnownSourceDB.py:460-463 | Filling the period never changes an entry's name or sort key. |
| MatchRules.CompareAt | KnownSourceMatcher/dist/KnownSourceDB.py:435-517 | Comparing one entry keeps the index, its keys and the naive flag. It only appends records, and the counter grows by their number. |
| MatchRules.CompareEach | KnownSourceMatcher/dist/KnownSourceDB.py:368-374 | A sequence of comparisons only appends records, and the counter grows by their number. |
| MatchRules.CompareEachConcat | KnownSourceMatcher/dist/KnownSourceDB.py:418-423 | Comparing two runs in turn is comparing their concatenation. |
| MatchRules.RightStep | KnownSourceMatcher/dist/KnownSourceDB.py:687-695 | With the next key in band, `compareRight` compares that entry and then continues from it over the same keys. |
| MatchRules.RightStop | KnownSourceMatcher/dist/KnownSourceDB.py:687-692 | Outside the index or out of band, `compareRight` changes nothing. |
| MatchRules.LeftStep | KnownSourceMatcher/dist/KnownSourceDB.py:704-712 | With the previous key in band, `compareLeft` compares that entry and then continues from it. |
| MatchRules.LeftStop | KnownSourceMatcher/dist/KnownSourceDB.py:704-709 | Outside the index or out of band, `compareLeft` changes nothing. |
| MatchRules.IndexedInOrder | KnownSourceMatcher/dist/KnownSourceDB.py:417-423 | The indexed search compares the seed, the right run and the left run in that order, over the keys it started with. |
| MatchRules.NaiveSticky | KnownSourceMatcher/dist/KnownSourceDB.py:365-374 | A candidate without RAJ turns naive search on, and once on it stays on. The counter always equals the number of records written. |
| MatchRules.CompareAtKeepsOrder | KnownSourceMatcher/dist/KnownSourceDB.py:460-463 | Comparing one entry keeps the index ordered with the same keys. |
| MatchRules.CompareEachKeepsOrder | KnownSourceMatcher/dist/KnownSourceDB.py:418-423 | Any run of comparisons keeps the index ordered with the same keys. |
| SiteScraper.NameCoordinates | KnownSourceMatcher/src/Match/PulsarSiteScraper.py:834-926 | A name yields coordinates only if it holds a sign. The DEC then begins with that sign, and `+` is tested before `-`. |
| SiteScraper.FourDigitDeclination | KnownSourceMatcher/src/Match/PulsarSiteScraper.py:867-877 | `JHHMM±DDMM` gives RA `HH:MM:00` and DEC `±DD:MM:00`. |
| SiteScraper.TwoDigitDeclination | KnownSourceMatcher/src/Match/PulsarSiteScraper.py:852-862 | `JHHMM±DD` gives RA `HH:MM:00` and DEC `±DD:00:00`. |
| SiteScraper.Completed | KnownSourceMatcher/src/Match/PulsarSiteScraper.py:834-926 | An RA or DEC that is already set is never overwritten. A name of any other shape leaves both unchanged. A recognised name fills in whichever is missing. |
| SiteScraper.Source.constructor | KnownSourceMatcher/src/Match/PulsarSiteScraper.py:754-763 | A new `Source` has every field unset. |
| SiteScraper.Source.SetName | KnownSourceMatcher/src/Match/PulsarSiteScraper.py:767-771 | The name stored is the stripped text, with no whitespace at either end. |
| SiteScraper.Source.ExtractRAAndDECFromName | KnownSourceMatcher/src/Match/PulsarSiteScraper.py:834-926 | Without a name the method raises TypeError (`ok` is false) and changes nothing. Otherwise it completes RA and DEC as `Completed` does. |
| SiteScraper.Source.IsValid | KnownSourceMatcher/src/Match/PulsarSiteScraper.py:807-830 | `isValid` is False, with nothing changed, unless name, dm and period are set and the name starts with `J`. Otherwise it derives coordinates from the name and is True exactly when RA and DEC are then set. |
| SiteScraper.Source.ToString | KnownSourceMatcher/src/Match/PulsarSiteScraper.py:930-944 | The row splits into the number, the name, the RA and its error, the DEC and its error, the period and its error, `0` and its error, and the DM and its error. |
| SiteScraper.RowMeetsWebLayout | KnownSourceMatcher/src/Match/PulsarSiteScraper.py:930-944 | A row written by `toString` has 12 tokens, with name, RA, DEC, period, F0 and DM at 1, 2, 4, 6, 8 and 10. These are the columns the web-table parser reads. |
| SiteScraper.DeleteAll | KnownSourceMatcher/src/Match/PulsarSiteScraper.py:171-181 | Deleting tags never lengthens the text or adds characters. |
| SiteScraper.DeleteAllAbsent | KnownSourceMatcher/src/Match/PulsarSiteScraper.py:171-181 | Text without `<` contains none of the tags and is unchanged. |
| SiteScraper.FilterText | KnownSourceMatcher/src/Match/PulsarSiteScraper.py:165-183 | The output is ASCII, no longer than the input, and made of the input's characters. |
| SiteScraper.FilterKeepsPlainText | KnownSourceMatcher/src/Match/PulsarSiteScraper.py:165-183 | ASCII text without `<` is returned unchanged. |
| SiteScraper.Cleaned | KnownSourceMatcher/src/Match/PulsarSiteScraper.py:118 | The filtered line is ASCII, has no newline, and is made of the line's characters. |
| SiteScraper.DecJudgedOnItsOwn | KnownSourceMatcher/src/Match/PulsarSiteScraper.py:141-142 | As intended, a DEC without three colon fields and 9 to 13 characters long rejects the row, whatever the RA. |
| SiteScraper.DecCheckMisread | KnownSourceMatcher/src/Match/PulsarSiteScraper.py:141-142 | As written, a malformed DEC passes when the RA field is 14 or more characters long. |
| SiteScraper.DecCheckReadsRaLength | KnownSourceMatcher/src/Match/PulsarSiteScraper.py:141-142 | A concrete row that the check as written keeps and the intended check drops. |
| Text.UnicodeTokens | KnownSourceMatcher/src/Match/PulsarSiteScraper.py:119 | `unicode.split()` gives non-empty tokens free of whitespace, where U+001C to U+001F also count as whitespace. |
| Text.UnicodeTokensAgree | KnownSourceMatcher/src/Match/PulsarSiteScraper.py:119 | On text without U+001C to U+001F, `unicode.split()` and `str.split()` give the same tokens. |
| Text.UnitSeparatorSplits | KnownSourceMatcher/src/Match/PulsarSiteScraper.py:119 | U+001F splits a `unicode` string and does not split a byte string. |
| SiteScraper.RowCount | KnownSourceMatcher/src/Match/PulsarSiteScraper.py:119-122 | At most one row is counted per line: one whose `unicode.split()` gives 12 fields. |
| SiteScraper.CleanedRows | KnownSourceMatcher/src/Match/PulsarSiteScraper.py:116-158 | Every kept row splits, as `unicode.split()` splits it, into 12 fields that pass the tests as written, including the DEC test of line 141. No more rows are kept than counted. |
| SiteScraper.CleanStep | KnownSourceMatcher/src/Match/PulsarSiteScraper.py:117-158 | Each line adds its filtered text if `unicode.split()` gives 12 fields and they pass the tests as written. It counts once if it has 12 fields. |
| SiteScraper.CleanAgainKeepsRows | KnownSourceMatcher/src/Match/PulsarSiteScraper.py:116-158 | Cleaning cleaned rows again keeps all of them. |
| SiteScraper.CleanLine | KnownSourceMatcher/src/Match/PulsarSiteScraper.py:118-154 | A line is filtered, counted when `unicode.split()` gives 12 fields, and kept only if counted and passing the tests as written. |
| SiteScraper.Clean | KnownSourceMatcher/src/Match/PulsarSiteScraper.py:101-161 | `clean` keeps exactly the rows that pass the tests as written. `good` is their number, and `good + bad` is the number of 12-field lines. |
| SiteScraper.CleanedRowsIntended | KnownSourceMatcher/src/Match/PulsarSiteScraper.py:131-154 | With the DEC test judged on the DEC field, every kept row passes the intended tests, and no more rows are kept than counted. |

## Left out

- Reading and deleting files (`open`, `readlines`, `os.remove`) is not modelled. A file is the list of its lines. `KnownSourceCatalog.KnownSourceDB.Parse` receives the lines of the catalog, and `SiteScraper.Clean` the lines of its file.
- Output is not modelled. This covers the `print` statements (source totals, missing-parameter counts, good/bad counts, debug output), `shortStr`, `printLabelOutput` and `self.output`. What `recordPossibleMatch` writes to its output files is the `MatchRecord` appended to `matches`.
- `findAngularSep` (`KnownSourceDB.py:719-770`) is the `separation` field of `MatchRules.Config`: a total function of the four coordinate texts. Its trigonometry, and any exception it raises, are not modelled.
- The settings object and the scraping of the ATNF web site, over HTTP with HTML parsing, are not modelled. Only `Source`, `filterText` and the per-line test of `clean` are modelled from `PulsarSiteScraper.py`.
- The setters `setDM`, `setPeriod`, `setRA` and `setDEC` are plain assignments to the public `Source` fields and are not modelled. `setName` is modelled because it strips.
- Python's dictionary iteration order is not modelled.
  - The sources enter the stable sort in the order their names were first committed. Among sources with equal sort keys, Python's order may differ.
  - A web row's columns are added in the fixed order NAME, RAJ, DECJ, P0, F0, DM. That order can only change which exception a malformed row raises, never the committed record.
- `KnownSourceRecord.KnownSource.AddParameter`: when Python raises, the contract says only `ok == false`. It does not say what the partly updated object holds.
- `KnownSourceRecord.KnownSource.UpdateSortAttribute`: when Python raises after adding the RA seconds, the contract says only `ok == false`. It does not say what the partly updated key holds.
- `KnownSourceCatalog.KnownSourceDB.Match`: when Python raises, the contract says only `ok == false`. The counter, the records and the candidate as they stood at the exception are not stated.
- `KnownSourceCatalog.KnownSourceDB.CompareCandidateToKnownSources`: when Python raises, the state reached before the exception is not stated. The same holds for `CompareRight`, `CompareLeft` and `RecordHarmonics`.
- `MatchRules.FillPeriod`: Python 2 writes `str(1/F0)`, rounded to 12 significant digits. The model writes `1/F0` truncated to 12 decimal places. It reads back as that truncation (`Numbers.RenderRoundTrip`), so tiny periods may differ in the last digits from Python's.
- `Numbers.ParseFloat`: the model accepts `[+-]digits[.digits][(e|E)[+-]digits]`, where either side of the point may be empty but not both. It does not accept surrounding whitespace, `inf`, `nan` or underscores, and text that only Python accepts raises ValueError in the model. `Numbers.ParseInt` accepts an optional `+` or `-` sign and digits, without surrounding whitespace or underscores.
- `KnownSourceRecord.ToSeconds` and `Numbers.FloorOf`: Python's `float` overflows to infinity on text such as `1e400`, and `int` of an infinite sum raises OverflowError (`KnownSource.py:302`). The model's reals are exact, so such a coordinate converts to a (huge) number of seconds instead of raising.
- `KnownSourceCatalog.KnownSourceDB.CompareRight` and `KnownSourceCatalog.KnownSourceDB.CompareLeft`: Python recurses once per in-band entry (`KnownSourceDB.py:680-712`). A run longer than the interpreter's recursion limit (about 1000 frames) raises RuntimeError. The model has no depth limit and always walks the whole run.
- `MatchRules.Accepts`, `MatchRules.DmCondition`, `MatchRules.ReadPair` and `MatchRules.RecordOf`: Python computes `acc`, `dm_acc`, the windows, the harmonic period and the period ratio in IEEE doubles; the model uses exact reals. A value on or next to a window boundary can therefore be accepted by one and rejected by the other, and the recorded ratios may differ in the last digits.
- `SiteScraper.FilterText`: `text.decode('ascii', errors='ignore')` works on bytes. In the model each character stands for one byte, and characters of code 128 and above are dropped.
- The identity tests `is not "*"` (`KnownSourceDB.py:497, 502`) are modelled as string inequality.
- Calling `match` before any successful `parse` raises AttributeError, because `orderedAccess` is not set yet. The model uses an empty index for "not set" and fails in the same place.

## Findings

| source | as written | input that shows it | evidently intended | confidence | as-written member | corrected member |
|---|---|---|---|---|---|---|
| KnownSourceMatcher/src/Match/PulsarSiteScraper.py:141 | The DEC test reads `len(components[2]) < 14`, the length of the RA field. | The row `SampleRow` for J0024-7204, with RA `00:24:07.95870` (14 characters) and DEC `+123456789` (no colons, 10 characters), passes every test. | `len(components[4]) < 14`. The malformed DEC then rejects the row, as line 138 does for the RA. | not executed | SiteScraper.DecCheckReadsRaLength | SiteScraper.DecJudgedOnItsOwn |
