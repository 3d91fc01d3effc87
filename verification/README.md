# Glossary lookup: a Dafny model

This project models the core of a static glossary widget. The widget reads a
spreadsheet exported as comma-separated text, turns the rows into glossary
records, and answers two kinds of query over those records: a tiered keyword
search and a category filter. Four parts are modelled, each in its own module:

- `Scanner` (`scanner.dfy`) models the character loop of `loadCSV`. It is a
  state machine over the finished rows, the current row, the field accumulator
  and an "inside quotes" flag. It keeps three behaviours of the code as
  written:
  - every field is trimmed;
  - a doubled quote is turned into one quote whether or not the scanner is
    inside quotes;
  - a last row with no line terminator after it is dropped.
- `RoundTrip` (`roundtrip.dfy`) is a writer for the same format. It is the
  partner of the scanner and proves what reading written text gives back.
- `Glossary` (`glossary.dfy`) models `processCSV`. It drops the header row and
  maps columns 0 to 5 by position. A missing column reads as `""`.
- `Search` (`search.dfy`) models `search`. Each record falls into exactly one
  tier:
  - Exact: a term equals the keyword.
  - Phrase: a term contains the keyword. The position used is the earliest
    start across the three terms.
  - DefinitionMatch: a definition contains the keyword.
  - NoMatch: none of the above.

  The result lists the Exact records, then the Phrase records by ascending
  position (stable), then the DefinitionMatch records. The lemmas prove that
  this description determines the result uniquely.
- `Category` (`category.dfy`) models the predicate and filter of
  `filterCategory`. A tag matches a whole token of the category, not a
  substring of it.

Two further modules hold what these use:

- `Text` (`text.dfy`) holds the string operations the script takes from
  JavaScript: `trim` with the ECMAScript whitespace set, `toLowerCase`,
  `indexOf`/`includes`, and `split` on one character.
- `Seqs` (`seqs.dfy`) holds `Array.prototype.filter`.
- `Loading` (`loading.dfy`) connects the scanner and the record builder for
  text produced by the writer.

Text is modelled as a sequence of characters. Records and rows are immutable
values, and every operation is a pure function.

## Model

| member | source | states |
|---|---|---|
| Text.Trim | script.js:27 | a trimmed field has no whitespace at either end and is never longer than the raw field |
| Text.TrimSpec | script.js:27 | trimming removes a run of whitespace at the front and a run at the back, and nothing else: the result is a contiguous slice of the input |
| Text.TrimIdempotent | script.js:181 | trimming an already trimmed token changes nothing |
| Text.Lower | script.js:63-74 | lower-casing keeps the length, leaves no upper-case ASCII letter, and changes a character only by mapping an upper-case letter to its lower-case partner |
| Text.LowerIdempotent | script.js:63 | lower-casing twice is lower-casing once |
| Text.IndexOfSpec | script.js:89-91 | the result is -1 exactly when the keyword occurs nowhere, and otherwise the least position where it occurs |
| Text.EmptyKeywordAtZero | script.js:89-91 | the empty keyword is found at position 0 of any string |
| Text.Split | script.js:180 | splitting gives at least one part, no part holds the separator, and joining the parts with the separator gives back the input |
| Text.SplitJoin | script.js:180 | splitting a join of separator-free parts recovers exactly those parts |
| Scanner.Step | script.js:21-38 | one iteration either leaves the finished rows alone or, at an unquoted line terminator, closes the current row with the trimmed field; the quote flag flips only on a quote that is not half of a doubled pair |
| Scanner.Parse | script.js:13-41 | any text parses without error; every row has at least one field, every field is trimmed, and there are never more rows than line-terminator characters |
| Scanner.StepKeepsGood | script.js:26-35 | one iteration keeps every finished row non-empty and every stored field trimmed |
| Scanner.ScanDoubledQuote | script.js:21-23 | a doubled quote appends one quote and consumes both characters, inside quotes or not |
| Scanner.ScanLoneQuote | script.js:24-25 | a quote not followed by another only flips the quote flag |
| Scanner.ScanComma | script.js:26-28 | an unquoted comma stores the trimmed field and starts an empty one |
| Scanner.ScanTerminator | script.js:29-35 | an unquoted CR or LF closes the row when a field or row is pending, and is skipped otherwise (blank lines, the LF of a CRLF) |
| Scanner.ScanLiteral | script.js:36-37 | inside quotes every character but a quote is kept verbatim, commas and line ends included; outside quotes so is every character other than a quote, comma or line end |
| Scanner.ScanKeepsGood | script.js:18-39 | the whole loop only appends rows and keeps rows non-empty and fields trimmed |
| Scanner.ScanRowBound | script.js:29-35 | the loop closes at most one row per line-terminator character |
| Scanner.NoTerminatorNoRows | script.js:29-35 | text without a line terminator closes no row, so a pending last row is discarded |
| Scanner.ScanIgnoresTail | script.js:18-41 | text after the last line terminator never changes the rows, even when its first quote pairs with a quote before it |
| Scanner.ParseIgnoresTail | script.js:13-41 | parsing ignores an unterminated last line |
| RoundTrip.ScanQuoted | script.js:21-25 | starting outside quotes, a field holding at least one character other than a quote, written quoted with its quotes doubled and not followed by a quote, is read back as the original field |
| RoundTrip.ScanFields | script.js:26-28 | a comma-joined list of written fields is read back as those fields, all but the last stored trimmed |
| RoundTrip.ParseEncode | script.js:13-41 | reading written rows gives back the same rows with every field trimmed, for any line end (LF, CR or CRLF) and any unterminated trailing text |
| RoundTrip.EmptyQuotedField | script.js:21-28 | the empty quoted field `""` of RFC 4180 is read as a field holding one quote |
| Glossary.FromRow | script.js:49-56 | field k of the record is column k of the row, or the empty string when the row is shorter |
| Glossary.Build | script.js:47-57 | the header row is dropped; record i is built from row i + 1, column by column, and there is one record per data row |
| Glossary.BuildToRows | script.js:47-57 | building from any header and the rows of some records gives back exactly those records |
| Loading.LoadWrittenTable | script.js:13-57 | a written header and N writable data rows load as exactly N records, in order, built from the trimmed rows |
| Search.EarliestSpec | script.js:87-94 | the phrase key is -1 exactly when no term contains the keyword, and otherwise the least start position across the three terms |
| Search.ClassifySpec | script.js:63-102 | a record is Exact iff a lower-cased term equals the lower-cased keyword; Phrase iff it is not Exact and a term contains it, at the least start position; DefinitionMatch iff neither holds and a definition contains it |
| Search.Partition | script.js:65-103 | the Exact and DefinitionMatch lists are the input records of those tiers in input order; the phrase list holds the Phrase records in input order, each paired with its own position |
| Search.Insert | script.js:105 | inserting adds exactly the one element and loses none |
| Search.InsertSorted | script.js:105 | inserting into a list sorted by position keeps it sorted |
| Search.SortByPos | script.js:105 | the phrase list comes out sorted by position and is a permutation of its input |
| Search.SortStable | script.js:105 | the sort is stable: records with equal positions keep their input order |
| Search.SearchTier | script.js:62-108 | for every tier, the result's records of that tier are the input's records of that tier in input order; records that match nothing are absent |
| Search.SearchSorted | script.js:105-107 | the result lists Exact records, then Phrase records by ascending position, then DefinitionMatch records |
| Search.SortedUnique | script.js:105-107 | two tier-ordered lists with the same records of every tier, in the same order, are equal |
| Search.SearchCharacterised | script.js:62-108 | a list is the search result if and only if it is tier-ordered and holds, tier by tier, the input's matching records in input order |
| Search.SearchCount | script.js:62-108 | a matching record occurs in the result as often as in the input, and any other record never occurs |
| Search.SearchMembers | script.js:65-107 | a record is in the result if and only if it is in the input and matches the keyword |
| Search.SearchNoDuplicates | script.js:65-107 | input without repeated records gives a result without repeated records |
| Search.KeywordCaseInsensitive | script.js:63 | searching with the lower-cased keyword gives the same result as the keyword itself |
| Search.EmptyKeywordMatchesAll | script.js:77-97 | the empty keyword makes every record an Exact match or a Phrase match at position 0 |
| Seqs.FilterIsSubseq | script.js:175 | filtering keeps the selected elements in their original order |
| Seqs.FilterCount | script.js:175 | a selected element is kept as often as it occurs, and any other element is dropped |
| Category.Tags | script.js:178-181 | a category has at least one tag, and every tag is trimmed |
| Category.FilterCategory | script.js:175-184 | every kept record matches the tag and comes from the input, and the result is no longer than the input |
| Category.FilterCategoryOrdered | script.js:175-184 | the filtered records are a subsequence of the input, in input order |
| Category.FilterCategoryCount | script.js:175-184 | a record in the category is kept as often as it occurs, and any other record is dropped |
| Category.FilterCategoryIdempotent | script.js:175-184 | filtering twice by the same tag is filtering once |
| Category.EmptyCategoryNeverMatches | script.js:176 | a record with an empty category matches no tag |
| Category.CaseInsensitive | script.js:178-183 | matching ignores the case of both the tag and the category field |
| Category.TagsOfJoin | script.js:178-181 | a category written as comma-free parts joined by commas has exactly those parts, lower-cased and trimmed, as its tags, in order |
| Category.MatchesWrittenTag | script.js:175-184 | for a non-empty category written as comma-free parts joined by commas, a tag matches if and only if the lower-cased tag (not trimmed) equals one of the parts, lower-cased and trimmed |
| Category.SecurityPrivacyMatches | script.js:175-184 | "security" matches the category "Security, Privacy" |
| Category.SecuritiesDoesNotMatch | script.js:175-184 | "security" does not match the category "securities": tags match whole, not as substrings |

## Left out

- The fetch of the spreadsheet (script.js:1-2, 9-11) is network I/O. The model starts from the fetched text.
- Assigning the records to the global `glossary` (script.js:49) is state, not logic. The model's operations take the record sequence as a parameter.
- `search` writes the phrase key into each record as `_pos` (script.js:94). The model carries the key in a (record, position) pair instead, so records are never changed.
- Highlighting, `display`, the card renderer, the detail toggles, the theme and menu toggles, and the page initialisation are presentation and UI event wiring. So is the `display` call that ends `filterCategory` (script.js:186).
- Text.Lower: covers only the ASCII letters. JavaScript's `toLowerCase` applies the full Unicode case mapping, which is not modelled.
- Text.IndexOfSpec: counts positions in characters (Unicode scalar values). JavaScript counts UTF-16 code units, so Phrase positions differ once a term holds a character outside the Basic Multilingual Plane.
- Search.SortByPos: the engine's built-in sort is modelled as a stable insertion sort on the numeric key. The language requires `Array.prototype.sort` to be stable, so its result is the same.
- RoundTrip.ParseEncode: assumes every field is writable and no row is a single empty field. A field made only of quotes does not survive the round trip (see `RoundTrip.EmptyQuotedField`). A single empty field is a blank line, which the scanner skips (see `Scanner.ScanTerminator`).
- Records are compared by value. The script compares object references, which makes no difference to which records are selected or to their order.
- The comma-separated format says a doubled quote stands for one quote only inside a quoted field. The script unescapes it everywhere (script.js:21), and the model follows the script.
