# excel-discrepancies: the reconciliation core in Dafny

This project models the reconciliation logic of the `excel-discrepancies` web app.
The app compares a QB ledger with an SRS ledger, each uploaded as a spreadsheet.
It writes out three collections:

- "Missing in QB": SRS records that no QB name matches.
- "Missing in SRS": QB records that no SRS name matches.
- "Same Name Different Total": SRS records whose first matching QB record has a different total.

The model covers four parts of `src/App.js`:

- the name extractor `extractName`, modelled as a hand-written scanner;
- the QB row normaliser, which extracts names and drops rows without one;
- the SRS row normaliser, which pops the footer row and trims the names;
- the three collections that `compareSheets` builds.

The component holds two dataset slots and runs an effect that reconciles them. This part is a class with those slots.

Modules, one per component:

- `Wrappers`: `Option`, which stands for `undefined`/`null`.
- `Seqs`: `filter`, `find`, `map` and `filter(Boolean)`, each characterised by positions in the input.
- `Text`: `String.prototype.trim` and `String.prototype.includes`.
- `Names`: `extractName` and a declarative description of its pattern `(\w+(?:,)? \w+).*`.
- `Sheets`: raw rows, person records, conflict entries and the reconciliation result.
- `Normalize`: the two row normalisers. The SRS one is an imperative method with a loop.
- `Reconcile`: `compareSheets` and what is proved about it.
- `AppState`: the `App` class with the `qb`/`srs` slots, the two loaders and the effect.

Representation choices:

- A person's name is `Option<string>`. This lets the `p.name != null` guards of `compareSheets` appear as written.
- `CompareSheets` requires every record on both sides to have a name. This is stronger than the source needs. `person.name.includes(...)` runs only after the `p.name != null` guard passes, so a nameless record throws a `TypeError` as soon as the other side has a named record, and not before: with an empty QB, a nameless SRS record simply lands in "Missing in QB". The loaders give every record a name, and `compareSheets` is only called on their datasets (src/App.js:119), so the model requires it outright.
- Totals are `Option<real>`. `None` is a missing cell. They are only compared with `==`/`!=`, which is how the source uses `===`/`!==`.

Behaviours of the code that the model keeps as written:

- The extractor needs exactly one literal space between the two tokens, with an optional comma before it. A tab or a line break does not separate them: text without a space character gives no name (`Names.NoSpaceNoName`). `\w` is ASCII only (`[A-Za-z0-9_]`).
- "Missing in SRS" keeps a QB record when no SRS name occurs in the QB name. The QB name is the one searched, the reverse of "Missing in QB" (`Reconcile.MissingSRSSpec`).
- Matching is substring containment, not token matching. "Jane Doe III" does not contain "Doe, Jane", so a QB record "Doe, Jane" and an SRS record "Jane Doe III" do not match: there is no conflict, and each is missing from the other side (`Reconcile.ReorderedNameExample`). An SRS name that does contain the QB name, such as "Doe, Jane III", gives a conflict when the totals differ (`Reconcile.ContainedNameExample`).
- The effect has no dependency list, so it runs after every render, not once per change of the datasets.
- Every string includes the empty string (`Text.ContainsEmpty`). So one SRS row whose `Deceased Name` is blank empties "Missing in SRS" (`Reconcile.BlankSRSNameHidesAllQB`).

## Model

| member | source | states |
|---|---|---|
| `Names.ExtractName` | src/App.js:6-11 | `extractName`: the trimmed group of the leftmost match, or `undefined` when `exec` finds none. It has no precondition. Its contract is stated by `Names.ExtractNameSpec` |
| `Names.Scan` | src/App.js:7 | `exec`'s search: tries the start positions from a given one in turn and returns the first with a match, as a start and end with start < end. Its contract is stated by `Names.ScanSpec` |
| `Names.MatchAt` | src/App.js:7 | the end of the group when a match starts at a position, or none; any end lies after the start. Its contract is stated by `Names.MatchAtSpec` |
| `Names.IsWordChar` | src/App.js:7 | the ASCII class `\w`: a letter, a digit or `_`. Its use is stated by `Names.RunEndSpec` |
| `Names.RunEnd` | src/App.js:7 | the greedy `\w+` of the pattern: where the run of word characters from a position ends, never before it. Its contract is stated by `Names.RunEndSpec` |
| `Names.SeparatorEnd` | src/App.js:7 | the `(?:,)? ` of the pattern: after a run ending at a position, a space, or a comma and a space, gives where the second run starts; anything else gives none. Its contract is used by `Names.MatchAtSpec` |
| `Names.RunEndSpec` | src/App.js:7 | the greedy `\w+` run from a position: every character before the end is a word character, and the end is the string's end or a non-word character |
| `Names.MatchAtSpec` | src/App.js:7 | the scanner matches at a position exactly when the pattern's group matches there, and it returns the longest such match |
| `Names.ScanSpec` | src/App.js:7 | `exec`'s search returns the first start position where the group matches; no earlier position matches |
| `Names.ExtractNameSpec` | src/App.js:6-11 | a name is returned exactly when `\w+ ,? ␠ \w+` occurs. It is the leftmost match, extended greedily, and it is its own trim |
| `Names.NoSpaceNoName` | src/App.js:6-11 | text without a space, such as a single token, the empty string or "undefined", gives `undefined` |
| `Names.NoWordNoName` | src/App.js:6-11 | text without a word character, such as blank text, gives `undefined` |
| `Names.ExtractCommaName` | src/App.js:6-11 | "Smith, John extra text" gives "Smith, John" |
| `Names.ExtractSpaceName` | src/App.js:6-11 | "John Smith more text" gives "John Smith" |
| `Names.NoStartInRun` | src/App.js:7 | a word run followed by neither a space nor ", " (as in "Smith,John") yields no match at any start inside it or right after it |
| `Names.ShapeMatch` | src/App.js:7 | when the pattern's shape starts at a position and its second run cannot be extended, the scanner's match there ends exactly at the shape's end |
| `Names.ExtractAt` | src/App.js:6-11 | a maximal word, separator, word shape with no match starting before it is exactly the extracted name |
| `Names.ExtractParts` | src/App.js:6-11 | a word, `" "` or `", "`, a word, then a tail not starting with a word character: the name is the first three parts |
| `Names.ExtractNoName` | src/App.js:6-11 | "John", "" and "undefined" give `undefined` |
| `Text.IsSpace` | src/App.js:9 | the characters `trim` removes: the ECMAScript white space and line terminators. Its use is stated by `Text.TrimSlice` |
| `Text.Trim` | src/App.js:9 | `String.prototype.trim`, also used at lines 29 and 107: the slice between the first and the last non-space character. Its contract is stated by `Text.TrimSlice` |
| `Text.SkipSpaces` | src/App.js:9 | the first non-space position at or after a given one; everything skipped is space |
| `Text.SkipSpacesBack` | src/App.js:9 | the end of the last non-space character; everything skipped is space |
| `Text.TrimSlice` | src/App.js:107 | `trim` keeps a middle slice. What it removes on each side is all space, and the result neither starts nor ends with a space |
| `Text.TrimmedIffFixed` | src/App.js:29 | a string is its own trim exactly when it neither starts nor ends with a space |
| `Text.TrimIdempotent` | src/App.js:29 | trimming a trimmed name changes nothing |
| `Text.Contains` | src/App.js:16 | `String.prototype.includes`: whether the needle is a prefix of the host or of one of its suffixes. Its contract is stated by `Text.ContainsOccurs` |
| `Text.ContainsOccurs` | src/App.js:16 | `includes` holds exactly when the needle occurs at some position of the host |
| `Text.ContainsEmpty` | src/App.js:22 | every string includes the empty string |
| `Text.NotContained` | src/App.js:22 | a needle that cannot start at any position of the host is not included |
| `Seqs.Map` | src/App.js:78-83 | `Array.prototype.map`, also used at lines 27 and 105: the callback applied to each element, in order, with the same length. Its use is stated by `Seqs.FilterMap` and `Normalize.NormalizeQBKeepsNamedRows` |
| `Seqs.Filter` | src/App.js:14-18 | `filter` keeps only elements of the input that pass the test, and never more of them |
| `Seqs.FilterSelects` | src/App.js:14-24 | `filter` gives the subsequence, in order, of exactly the positions that pass the test |
| `Seqs.FilterSplit` | src/App.js:84 | the kept and the dropped elements together number as many as the input |
| `Seqs.FilterMap` | src/App.js:76-84 | mapping then filtering equals filtering by the mapped test, then mapping |
| `Seqs.Find` | src/App.js:15-17 | `find` returns an element of the input that passes the test, and `undefined` exactly when none passes |
| `Seqs.FindFirst` | src/App.js:28-30 | `find` returns the element at the first position that passes the test |
| `Seqs.Somes` | src/App.js:44 | `filter(Boolean)` over the callback's results: no longer than its input, and every value kept was present in it. Its full contract is stated by `Seqs.SomesSelects` |
| `Seqs.SomesSelects` | src/App.js:26-44 | `map(...).filter(Boolean)` reads, in order, exactly the positions with an entry |
| `Normalize.QBName` | src/App.js:80 | `extractName(qbPerson["__EMPTY_1"])`, where a missing cell is scanned as the text "undefined". Its contract is stated by `Normalize.MissingNameCellDropped` and `Normalize.QBRecordTrimmed` |
| `Normalize.QBRecord` | src/App.js:78-83 | the map callback of the QB loader: `{name: extracted name, total: TOTAL}`. Its contract is stated by `Normalize.QBRecordTrimmed` and `Normalize.NormalizeQBKeepsNamedRows` |
| `Normalize.NormalizeQB` | src/App.js:76-84 | the QB loader's mapping and filter: each row becomes `{name: extractName(cell), total: TOTAL}`, and rows without a name are dropped. It has no precondition. Its contract is stated by `Normalize.NormalizeQBKeepsNamedRows`, `Normalize.NormalizeQBNames` and `Normalize.NormalizeQBCount` |
| `Normalize.MissingNameCellDropped` | src/App.js:80 | a QB row without a name cell yields no name, because `exec` sees "undefined" |
| `Normalize.QBRecordTrimmed` | src/App.js:9 | an extracted QB name neither starts nor ends with a space, so it is its own trim |
| `Normalize.NormalizeQBKeepsNamedRows` | src/App.js:76-84 | the QB dataset is exactly the rows whose name cell yields a name, in order, each mapped to `{name, total}` |
| `Normalize.NormalizeQBNames` | src/App.js:76-84 | every QB record has a name, and no name starts or ends with a space |
| `Normalize.NormalizeQBCount` | src/App.js:76-84 | with N rows of which K yield no name, the QB dataset has N - K records |
| `Normalize.SRSRecord` | src/App.js:105-110 | one SRS row as `{name: trimmed Deceased Name, total: Total Due}`. It requires the `Deceased Name` cell, without which `.trim()` throws. Its use is stated by `Normalize.NormalizeSRS` |
| `Normalize.NormalizeSRS` | src/App.js:100-111 | the last row is dropped, so an empty sheet stays empty and M rows give M - 1 records. Each record is that row's trimmed `Deceased Name` with its `Total Due` |
| `Reconcile.NameIn` | src/App.js:15-17 | the callback of the two `find` calls, also at lines 21-23: the record has a name, and it occurs in the host's name. Its use is stated by `Reconcile.MissingQBSpec` and `Reconcile.MissingSRSSpec` |
| `Reconcile.TrimmedNameIn` | src/App.js:28-30 | the callback of the QB lookup in `sameNameDiffTotal`: the QB name, trimmed, occurs in the SRS name. Its use is stated by `Reconcile.ConflictForSpec` |
| `Reconcile.NoNameIn` | src/App.js:15-17 | `!others.find(...)`: no record of the other side has a name that occurs in the host's name. Its use is stated by `Reconcile.MissingQBSpec` and `Reconcile.MissingSRSSpec` |
| `Sheets.HasName` | src/App.js:84 | the `(p) => p.name != null` test of the QB loader's filter; the same test guards the three `find` callbacks. Its use is stated by `Normalize.NormalizeQBNames` and `Normalize.NormalizeQBKeepsNamedRows` |
| `Reconcile.MissingQB` | src/App.js:14-18 | "Missing in QB": the SRS records in which no named QB record's name occurs. It requires every SRS record to have a name: `person.name.includes` throws on a nameless one once QB has a named record. Its contract is stated by `Reconcile.MissingQBSpec` |
| `Reconcile.MissingSRS` | src/App.js:20-24 | "Missing in SRS": the QB records in which no named SRS record's name occurs. It requires every QB record to have a name. Its contract is stated by `Reconcile.MissingSRSSpec` |
| `Reconcile.ConflictFor` | src/App.js:27-43 | the callback of `srs.map`: the first QB record whose trimmed name occurs in the SRS name, and an entry when the totals differ. It requires the SRS record to have a name. Its contract is stated by `Reconcile.ConflictForSpec` |
| `Reconcile.ConflictsBySRS` | src/App.js:26-43 | `srs.map(...)`: the callback's result for each SRS record, in order. It requires every SRS record to have a name. Its use is stated by `Reconcile.SameNameDiffTotalSpec` and `Reconcile.ConflictOrigin` |
| `Reconcile.SameNameDiffTotal` | src/App.js:26-44 | "Same Name Different Total": the callback over every SRS record, with the null results dropped. It requires every SRS record to have a name. Its contract is stated by `Reconcile.SameNameDiffTotalSpec` and `Reconcile.ConflictOrigin` |
| `Reconcile.CompareSheets` | src/App.js:13-44 | the three collections together. It requires every record on both sides to have a name. Its contract is stated by `Reconcile.EmptyDatasets`, `Reconcile.MissingAndConflictDisjoint` and the specifications of the three parts |
| `Reconcile.MissingQBSpec` | src/App.js:14-18 | "Missing in QB" is the ordered subsequence of SRS. A position is in it exactly when no QB record has a name that occurs in that SRS name |
| `Reconcile.MissingSRSSpec` | src/App.js:20-24 | "Missing in SRS" is the ordered subsequence of QB. A position is in it exactly when no SRS record has a name that occurs in that QB name |
| `Reconcile.BlankSRSNameHidesAllQB` | src/App.js:20-24 | an SRS record with an empty name makes "Missing in SRS" empty |
| `Reconcile.ConflictForSpec` | src/App.js:27-43 | no entry without a trimmed-name match; otherwise the first match decides. There is an entry exactly when its total differs: `{name: SRS name, qbTotal, srsTotal}` |
| `Reconcile.SameNameDiffTotalSpec` | src/App.js:26-44 | at most one entry per SRS record, in SRS order, read at exactly the SRS positions that have an entry |
| `Reconcile.ConflictOrigin` | src/App.js:26-44 | every entry comes from an SRS record and a QB record whose trimmed name it contains, with differing totals |
| `Reconcile.MissingIffNoTrimMatch` | src/App.js:14-30 | when QB names are their own trims, an SRS record is missing from QB exactly when it has no trimmed-name match |
| `Reconcile.MissingAndConflictDisjoint` | src/App.js:14-44 | when QB names are their own trims, no record of "Missing in QB" shares its name with an entry of "Same Name Different Total" |
| `Reconcile.EmptyDatasets` | src/App.js:13-44 | empty QB gives "Missing in QB" = SRS and no entries. Empty SRS gives "Missing in SRS" = QB. Both empty give three empty collections |
| `Reconcile.OneRecordEach` | src/App.js:13-44 | with one record on each side, each collection is decided by its own containment test |
| `Reconcile.UnrelatedNamesExample` | src/App.js:13-44 | Alice Smith (QB, 50) and Bob Jones (SRS, 75): each is missing from the other side, and there is no conflict |
| `Reconcile.ReorderedNameExample` | src/App.js:13-44 | "Doe, Jane" (QB) and "Jane Doe III" (SRS) do not match: each is missing from the other side, and there is no conflict |
| `Reconcile.ContainedNameExample` | src/App.js:26-44 | "Doe, Jane" (QB, 100) and "Doe, Jane III" (SRS): one entry when the SRS total is 150, none when it is 100 |
| `AppState.App.constructor` | src/App.js:65-66 | both dataset slots start out empty |
| `AppState.App.LoadQB` | src/App.js:76-86 | the QB slot becomes the normalised QB dataset, and the SRS slot is unchanged |
| `AppState.App.LoadSRS` | src/App.js:100-111 | the SRS slot becomes the SRS rows without the footer, each normalised, and the QB slot is unchanged |
| `AppState.App.Effect` | src/App.js:117-121 | the effect reconciles exactly when both slots hold a dataset (an empty one counts), and never reports a missing record that shares a name with a conflict |

## Left out

- The export: building the workbook, the three sheet names, `json_to_sheet` and writing `out.xls` (src/App.js:46-61). This is a foreign library and file output. `CompareSheets` returns the three collections instead.
- File reading and parsing: `FileReader`, `XLSX.read` and `sheet_to_json` (src/App.js:68-75, 89, 94-100, 114). This is asynchronous I/O and a foreign parser. The loaders take the parsed rows as a sequence.
- React: `useState`, the re-rendering that triggers the effect, and the JSX markup (src/App.js:64-67, 117-147). Because the effect has no dependency list, the source writes the file again after every render. The model has no renders, so it does not capture this repeated side effect.
- JavaScript number semantics for totals: floating point, `NaN !== NaN`, and `undefined` versus `null`. Totals are exact reals or a missing value.
- Non-numeric total cells. A `TOTAL` or `Total Due` cell holding text cannot be represented by `Total`. `!==` would compare such a cell with a number by type as well as by value.
- Non-text cell values in the QB name column. `exec` would see their string form. The model treats a cell as text or as missing, and a missing cell is scanned as "undefined".
- The `TypeError` that `.trim()` raises on a non-footer row whose `Deceased Name` is missing or is not text, such as a numeric cell (src/App.js:107). `SRSRow.deceasedName` holds text or nothing, so a numeric cell cannot be represented. A missing one is excluded by a precondition of `Normalize.NormalizeSRS` and `AppState.App.LoadSRS`. The `TypeError` that a nameless record raises once the other side has a named record is excluded by a precondition of `Reconcile.CompareSheets`. That precondition also excludes nameless records in the cases where the source would not throw, such as an empty other side.
- General regular expressions. Only the pattern of src/App.js:7 is modelled, character by character, on Unicode scalar values. JavaScript strings are UTF-16, but this makes no difference for `\w`, the space, the comma or the space characters `trim` removes.
