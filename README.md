# MCC-MNC operator table scraper, modelled in Dafny

The scraper walks a fixed list of Wikipedia pages. On each page it takes every
`table.wikitable` whose header row has `MCC`, `MNC` and `Operator` at positions
0, 1 and 3. Every later row with at least four `td` cells becomes zero or more
entries of a map from an MCC+MNC key to an operator name (`main.go:26-104`).
This project models that core.

- `wrappers.dfy`: the `Option` and `Result` types.
- `go_strings.dfy`: what the Go standard library does for the scraper.
  - `strings.TrimSpace` uses Go's White_Space set.
  - `strings.Split` is modelled for the one-character separators the scraper passes (`"\n"` and `"-"`). `Join` is not called by the scraper; it exists only as Split's inverse, for the round-trip lemmas.
  - `strconv.ParseInt(s, 10, 64)` accepts an optional sign and ASCII digits, within the int64 range.
  - `strconv.FormatInt(n, 10)` prints no leading zeros.
  - `strings.ReplaceAll` replaces one character with another.
- `scrape.dfy`: one table, on the texts of its cells.
  - The header check.
  - The choice of MCC line.
  - The operator name: the brand fallback, then the four substitutions U+201C → `"`, U+2019 → `'`, U+00A0 → space and U+2013 → `-`.
  - The MNC: a plain code kept as written, or an inclusive range.
  - The writes one data row makes, in order.
- `aggregate.dfy`: the `data` map.
  - As pure folds: `ApplyWrites`, `ApplyRows`, `ApplyTable`, `ApplyTables`, `ApplyPages`.
  - As the program fills it in place: class `OperatorIndex`. Its field `data` is updated by `AddRow`, the counting loop `AddRange`, the row loop `AddRows`, `AddTable` and `AddPage`.
  - `BuildOperatorMap` runs the page loop from an empty map.
  - Each method is proved to leave exactly the map its fold describes.
- `scenarios.dfy`: concrete rows and headers worked through the model.

Properties proved:
- A table is used exactly when its header reads MCC, MNC and Operator at positions 0, 1 and 3.
- The header row is never data.
- A row with fewer than four cells, or with an MCC that does not parse, writes nothing.
- A range MNC whose bound does not parse writes nothing.
- A range writes one key per number, in increasing order. Each key is the MCC followed by the number printed without leading zeros. The keys are distinct, and there are `last - first + 1` of them.
- A plain MNC is kept exactly as written, leading zeros included.
- Every stored operator name is free of the four replaced characters, whatever the pages hold.
- The last write to a key wins, and keys nobody writes keep their values.

Strings are sequences of Unicode code points. A page that could not be fetched
or parsed is the value `Unavailable`. A parsed page is the list of its
wikitables. Each table is its `tr` rows, and each row holds the texts of its
`th` and `td` cells.

Two points where the code differs from what one might read into it:
- Only the LEFT double quotation mark U+201C is replaced (`main.go:73`). `“Example”` becomes `"Example”`, with the closing mark kept (`Scrape.CurlyQuotes`). The model follows the code.
- The header check looks only at positions 0, 1 and 3. A header `MCC | MNC | Something | Operator` is accepted, and `MCC | MNC | Operator | Brand` is rejected (`Scenarios.HeaderExamples`).

In a range such as `00-09`, both bounds go through `ParseInt` and `FormatInt`, so the keys lose any leading zero. A plain MNC `01` keeps it (`Scenarios.PlainRowExample`, `Scrape.WriteShape`). The model reproduces this behaviour as written.

When the trimmed MCC cell spans several lines, its second line is taken as it
stands (`main.go:62`). It is trimmed only for the parse at `main.go:64`, so the
keys are built from the untrimmed line, surrounding spaces included
(`Scenarios.MultiLineMccExample`).

## Model

| member | source | states |
|---|---|---|
| GoStrings.TrimLeftShape | main.go:44 | Trimming the left side keeps the suffix that starts at the first non-space; everything dropped is white space |
| GoStrings.TrimRightShape | main.go:44 | Trimming the right side keeps the prefix that ends at the last non-space; everything dropped is white space |
| GoStrings.TrimSpaceEnds | main.go:60 | TrimSpace's result is empty or neither starts nor ends with white space |
| GoStrings.TrimLeftAt | main.go:44 | Left trimming stops exactly at the first character that is not white space |
| GoStrings.TrimRightAt | main.go:44 | Right trimming stops exactly after the last character that is not white space |
| GoStrings.TrimAllSpace | main.go:70 | A text made only of white space trims to the empty string |
| GoStrings.TrimSpaceIsSlice | main.go:60 | TrimSpace(s) is the slice between a white-space prefix and a white-space suffix that neither starts nor ends with white space |
| GoStrings.TrimSpaceBounds | main.go:60 | TrimSpace removes exactly a white-space prefix and a white-space suffix |
| GoStrings.TrimSpaceIdempotent | main.go:95 | Trimming twice is trimming once, so re-trimming the trimmed MNC before parsing it changes nothing |
| GoStrings.Split | main.go:62 | Split returns at least one piece, and two or more exactly when the separator occurs |
| GoStrings.SplitPiecesClean | main.go:79 | No piece of a split contains the separator |
| GoStrings.JoinSplit | main.go:79 | Joining the pieces with the separator gives back the text |
| GoStrings.SplitJoin | main.go:79 | Splitting a join of separator-free pieces gives back the pieces |
| GoStrings.SplitSecond | main.go:61-62 | When the separator occurs, piece 1 is exactly the text between its first and second occurrence |
| GoStrings.ParseInt64 | main.go:64 | A successful parse yields a value within the int64 range |
| GoStrings.FormatNatDigits | main.go:91 | A natural number prints as at least one digit, with no leading zero, denoting the number |
| GoStrings.FormatIntShape | main.go:91 | FormatInt prints an optional minus sign and digits, and never a leading zero except for 0 |
| GoStrings.ParseFormat | main.go:91 | Parsing what FormatInt prints gives the int64 number back |
| GoStrings.FormatIntInjective | main.go:90-92 | Distinct numbers print differently, so the keys of a range are distinct |
| GoStrings.TrimFormat | main.go:91 | FormatInt's output carries no white space at its ends |
| GoStrings.ReplaceAll | main.go:73-76 | Replacing a character keeps the length |
| GoStrings.ReplaceAllAt | main.go:73-76 | Every occurrence of the pattern becomes the replacement and every other character stays in place |
| Scrape.HeaderAcceptedIff | main.go:43-51 | A table is used iff its first row has at least four header cells and cells 0, 1, 3 trim to MCC, MNC, Operator |
| Scrape.Normalize | main.go:73-76 | The four substitutions keep the length |
| Scrape.NormalizeAt | main.go:73-76 | Each character is mapped as the reference NormalizeChar says: U+201C to `"`, U+2019 to `'`, U+00A0 to space, U+2013 to `-` |
| Scrape.NormalizeCleans | main.go:73-76 | Normalised text contains none of the four replaced characters |
| Scrape.NormalizeKeepsClean | main.go:73-76 | Text without the four characters is left unchanged |
| Scrape.NormalizeIdempotent | main.go:73-76 | Normalising twice is normalising once |
| Scrape.CurlyQuotes | main.go:73 | Only the opening curly quote is replaced; the closing one U+201D survives |
| Scrape.OperatorName | main.go:68-76 | The stored operator name never contains the four replaced characters |
| Scrape.OperatorFallsBackToBrand | main.go:69-76 | An empty operator cell stores the trimmed brand with each character normalised; a brand free of the four characters is stored exactly as trimmed |
| Scrape.OperatorIgnoresBrand | main.go:69-76 | A non-empty operator cell alone decides the stored name, whatever the brand: its trimmed text with each character normalised |
| Scrape.MccIsSecondLine | main.go:60-63 | A multi-line MCC cell yields the text between its first and second line break, which holds no line break |
| Scrape.ParseMnc | main.go:78-99 | A plain MNC is accepted exactly as written, hyphen-free and parsing; a range has int64 bounds; failures are the MNC errors |
| Scrape.ParseRow | main.go:58-100 | An accepted row had at least four cells and has a parsing MCC, a parsing MNC or int64 range, and a normalised operator; it fails with TooFewCells iff there are fewer than four cells, and with BadMcc iff the MCC does not parse |
| Scrape.Expand | main.go:90-93 | A range yields last - first + 1 writes, none when start exceeds end |
| Scrape.ExpandAt | main.go:90-92 | The k-th write of a range is MCC + FormatInt(first + k) with the row's operator |
| Scrape.DroppedRowWritesNothing | main.go:59-66 | A row with fewer than four cells, or whose MCC does not parse, writes nothing |
| Scrape.ParsedRowWrites | main.go:67-100 | A row with a parsing MCC writes nothing on a bad MNC, the one key MCC + MNC for a plain code, and the range writes for a range |
| Scrape.BadBoundRejected | main.go:80-89 | A range whose start or end does not parse is rejected |
| Scrape.SpanBounds | main.go:79-85 | A hyphenated MNC is the range between pieces 0 and 1 of its split, trimmed and parsed |
| Scrape.CodeKeptAsWritten | main.go:94-99 | A hyphen-free MNC is accepted iff it parses, and is then kept verbatim |
| Scrape.WriteShape | main.go:91-99 | Every key a row writes is its MCC followed by a text that parses as an int64, and every value is normalised |
| Aggregate.LastWriteWins | main.go:90-99 | A write with no later write to the same key decides that key's value |
| Aggregate.UnwrittenKeyKept | main.go:90-99 | A key no write touches keeps its presence and value |
| Aggregate.ApplyWritesKeys | main.go:90-99 | The keys afterwards are the keys before plus the keys written |
| Aggregate.RangeKeyIn | main.go:90-91 | Every number of the range contributes its key |
| Aggregate.RangeKeyFrom | main.go:90-91 | Every key of a range comes from a number within it |
| Aggregate.LastKeyIsNew | main.go:90-91 | A range's last key differs from all its earlier keys |
| Aggregate.RangeKeysCount | main.go:90-93 | A range from first to last writes last - first + 1 distinct keys |
| Aggregate.ApplyRangeAt | main.go:90-93 | After a range row a key is present iff it was before or is a range key; range keys hold the operator, other keys keep their values |
| Aggregate.ApplyRange | main.go:90-93 | The same for the whole map: keys become old keys plus range keys, with those values |
| Aggregate.FirstRowIsNotData | main.go:54-56 | Whatever `td` cells the first row has, the table contributes the same |
| Aggregate.RowKeepsNormalized | main.go:73-99 | A row only stores normalised operator names |
| Aggregate.WritesKeepNormalized | main.go:92-99 | Writes of normalised names keep every stored name normalised |
| Aggregate.RowsKeepNormalized | main.go:53-102 | The rows of a table keep every stored name normalised |
| Aggregate.TablesKeepNormalized | main.go:42-103 | The tables of a page keep every stored name normalised |
| Aggregate.PagesKeepNormalized | main.go:28-104 | After all pages, no stored operator name contains the four replaced characters |
| Aggregate.RowsOnlyAdd | main.go:53-102 | Rows never remove a key |
| Aggregate.OperatorIndex.constructor | main.go:26 | The map starts empty |
| Aggregate.OperatorIndex.AddRow | main.go:58-101 | The row closure leaves exactly the old map with the row's writes applied in order |
| Aggregate.OperatorIndex.AddRange | main.go:90-93 | The counting loop leaves the old map with the range's writes applied in increasing order |
| Aggregate.OperatorIndex.AddTable | main.go:42-103 | The table closure applies every row after the first when the header is accepted, and changes nothing otherwise |
| Aggregate.OperatorIndex.AddRows | main.go:53-102 | The row loop applies each data row's writes on top of the rows before it, in document order, and leaves exactly the ApplyRows fold of the old map |
| Aggregate.OperatorIndex.AddPage | main.go:28-103 | A parsed page applies its wikitables in order; a failed page changes nothing |
| Aggregate.BuildOperatorMap | main.go:26-104 | The final map is the fold of all pages from the empty map, and every stored name is normalised |
| Scenarios.RangeRowExample | main.go:78-93 | Row `234, 10-12, ExampleCo, ExampleCo Ltd` writes 23410, 23411, 23412 for ExampleCo Ltd, in that order |
| Scenarios.PlainRowExample | main.go:94-99 | Row `310, 01, Brand, (empty)` writes 31001 for Brand, keeping the leading zero |
| Scenarios.MultiLineMccExample | main.go:60-98 | The MCC cell with lines `a`, ` 234 `, `b` parses as 234, yet row `(that cell), 10, Brand, Op` writes the key ` 234 10`, spaces included |
| Scenarios.RangeTableExample | main.go:42-103 | Header `MCC, MNC, Brand, Operator` and row `234, 10-12, ExampleCo, ExampleCo Ltd` turn an empty map into 23410, 23411 and 23412, all for ExampleCo Ltd |
| Scenarios.BadMccExample | main.go:64-66 | A row whose MCC is `n/a` writes nothing |
| Scenarios.HeaderExamples | main.go:43-51 | `MCC, MNC, Something, Operator` is accepted; `MCC, MNC, Operator` and `MCC, MNC, Operator, Brand` are not |

## Left out

- Fetching the pages over HTTP (`main.go:16-40`) is left out. A page that fails is `Unavailable`, and the model does not decide which pages fail.
- Parsing HTML with goquery is left out. A table is the cell texts of its rows, and `Eq(i)` on a missing cell is the empty string (`Scrape.CellText`).
- The JSON encoding, the three `&`/`<`/`>` rewrites, writing `operators.json` and console messages (`main.go:31`, `38`, `82`, `87`, `106-124`) are output only, and they are left out.
- Strings are code points. UTF-8 decoding, and what TrimSpace does with invalid UTF-8, are not modelled.
- `strconv.ParseInt`'s two error kinds, syntax and range, are one `None`. The program only tests `err != nil`.
- Aggregate.OperatorIndex.AddRow requires `!LoopsForever(cells)`. A range row whose end bound is MaxInt64 never leaves the Go loop at `main.go:90`: `mnc <= mncEnd` always holds and the int64 counter wraps around. The model excludes that row instead of modelling the hang and the wrap-around.
- Aggregate.OperatorIndex.AddRange requires `hi < MaxInt64` for the same reason.
- Aggregate.OperatorIndex.AddRows, Aggregate.OperatorIndex.AddTable, Aggregate.OperatorIndex.AddPage and Aggregate.BuildOperatorMap require that no row reaches that loop with MaxInt64 as its end. The pure folds (`ApplyRows` and the rest) are total and describe the other rows.
- The `defer response.Body.Close()` inside the loop (`main.go:34`) is resource handling only, and it is not modelled.
