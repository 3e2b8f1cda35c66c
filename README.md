# csv.go line logic, modelled in Dafny

This project models the line-processing core of `csv.go` from the `gt` repository:

- `splitCSV`, which splits a line at a separator, with quotes that hide separators;
- the body of `PeekCSV` once its file is open:
  - collects up to six preview lines;
  - locks a comment prefix;
  - picks a field separator from `",\t|;:"`;
  - tells whether the first preview line looks like a heading;
- the line loop of `ReadTXT`, the fixed-width decoder;
- the line loop of `ReadCSV`, the delimited decoder.

A file is its sequence of lines, as `bufio.Scanner` would deliver them. A line is a sequence of bytes.

The goroutine that fills a channel with record maps and ends with an error becomes a `Stream`. A `Stream` holds the records sent, in order, and at most one error. Each decoder is a method with a `while` loop over the lines that updates `wid`, `line`, `algn`, `sep` and `vcols`. Each is proved to return exactly the stream a specification function (`TxtSpec`, `CsvSpec`) gives for those lines. Lemmas then state what those streams promise.

Modules, in dependency order:

- `Text`: bytes, blank lines, `strings.Trim` and `TrimLeft` on spaces, `HasPrefix`, and `strconv.Itoa` (`Decimal`).
- `Fields`: `splitCSV` as a method, and the scan it performs as a function (`Split`). Also field counts and the join/split round trips.
- `Common`:
  - the errors;
  - the `~line` record map;
  - kept lines (neither blank nor comment);
  - trimmed fields;
  - the heading test that `PeekCSV` and `ReadCSV` share (`len(uf) == max` at csv.go:163, `len(qc) == wid` at csv.go:288).
- `Columns`: for `ReadCSV`'s first kept line:
  - separator inference (csv.go:260-266);
  - the caller-map tallies `sc`, `uc` and `mc` (csv.go:268-276);
  - the heading scan into `vcols` and `qc` (csv.go:277-286);
  - the nested `switch` that accepts, adopts or refuses the columns (csv.go:287-301).
- `Sniff`: `PeekCSV`.
- `Txt`: `ReadTXT`.
- `Csv`: `ReadCSV`.

Points of the code's behaviour that are easy to miss:

- **Separator choice.** In `PeekCSV`, a later candidate replaces the current separator only when it yields strictly more fields. The test `len(sl) <= max` at csv.go:142 skips an equal count. A separator must give at least two fields on every preview line, the same number on each.
- **Fixed-width records.** `ReadTXT` suppresses empty fields (csv.go:212). It sends no record for a line whose selected fields are all blank (csv.go:216).
- **First kept line in `ReadTXT`.** This line fixes the width. It is then read again (the `continue` at csv.go:204), so it is itself a record when one of its selected slices is not blank.
- **First kept line in `ReadCSV` with an adopted caller map.** Under an adopted map this line is read again as data (the `continue` at csv.go:300). When it is a heading, it is consumed.
- **Caller names that trim to the same text.** `uc` counts every valid caller entry (csv.go:272), including one whose trimmed name a later entry overwrites in `sc`. So the ambiguity test `len(uc) < len(sc)` (csv.go:296) is guaranteed to catch two names sharing a position only when no two caller names trim to the same text; `Columns.AmbiguityExact` proves it exact in that case. `Columns.CollidingNamesShareColumn` shows an adopted map in which two columns share position 1.
- **Go map order.** `sc` depends on Go's map iteration order when caller names collide after trimming. The model therefore takes the caller's map as a sequence of entries in the order they are visited.

## Model

| member | source | states |
|---|---|---|
| Text.BlankIsTrimmedAway | csv.go:111 | a line is blank (all spaces) exactly when trimming its leading spaces leaves nothing |
| Text.TrimShape | csv.go:157 | a trimmed field is no longer than the field, neither starts nor ends with a space, and is empty exactly when the field is blank |
| Text.DecimalValue | csv.go:217 | the `~line` text of a line number reads back as that number |
| Text.DecimalInjective | csv.go:313 | distinct line numbers get distinct `~line` texts |
| Fields.SplitCSV | csv.go:70-86 | the field loop returns exactly the fields of the scan `Split` |
| Fields.SplitCount | csv.go:70-86 | the number of fields is one more than the number of separators met outside quotes, so there is always at least one field |
| Fields.ScanCounts | csv.go:76-80 | each separator outside quotes closes one field; the scan ends inside quotes exactly when it met an odd number of quotes |
| Fields.SplitClean | csv.go:74-77 | no field holds a quote, a control byte other than tab, or a byte above `~` |
| Fields.SplitJoin | csv.go:72-85 | a line of printable bytes and tabs without quotes is the join of its fields with the separator |
| Fields.JoinSplit | csv.go:72-85 | joining clean fields that hold no separator with a printable separator, then splitting, gives those fields back |
| Fields.ScanOfJoin | csv.go:72-85 | scanning a join of clean, separator-free fields closes exactly the fields before the last one, outside quotes |
| Common.ToMap | csv.go:216-218 | a sent map holds the record's fields plus `~line`, whose text reads back as the 1-based line number |
| Common.FirstKept | csv.go:192-193 | the first line that is neither blank nor a comment, with every earlier line blank or a comment |
| Common.HeadingCount | csv.go:154-163 | the distinct non-empty non-numeric names number at most the fields, and exactly as many when the row is a heading: every field non-empty, non-numeric and distinct |
| Common.NamesMembers | csv.go:158-159 | the counted names are exactly the non-empty, non-numeric trimmed fields |
| Columns.AutoSeparator | csv.go:260-266 | the separator loop returns the inferred separator and its field count |
| Columns.AutoSepIsWidest | csv.go:261-264 | the inferred separator is a candidate that gives at least as many fields as any candidate and strictly more than every earlier one |
| Columns.WidestIsBest | csv.go:261-264 | among the first `n` candidates the winner's count is the largest, and earlier candidates count strictly fewer |
| Columns.CallerNamesMembers | csv.go:269-271 | `sc` holds exactly the trimmed non-empty names with a positive index, each mapped to the index of its last caller entry |
| Columns.CallerIndicesMembers | csv.go:272 | `uc` holds exactly the positive indices of valid caller entries |
| Columns.MaxIndexBounds | csv.go:272-274 | `mc` is at least every valid index and is one of them (or 0 when there is none) |
| Columns.CallerPositions | csv.go:269-275 | every caller name's position is positive, at most `mc`, and counted in `uc` |
| Columns.DiscoveredMembers | csv.go:277-281 | `vcols` holds exactly the wanted trimmed fields of the line, each at the position of its last occurrence |
| Columns.ResolveColumns | csv.go:268-301 | the tallies, the heading scan and the decision return the resolution `Resolve` gives |
| Columns.ResolvePositions | csv.go:287-306 | an accepted or adopted column map is non-empty with every position in `1..wid`; under a heading every column's field is its own name |
| Columns.ResolveWithoutMap | csv.go:288-290 | without a caller map the line is accepted exactly when it is a heading, with every field at its own position; otherwise "no heading" |
| Columns.DiscoveredWithMap | csv.go:279-280 | with a caller map, `vcols` names exactly the caller names that appear in the line |
| Columns.ResolveWithMap | csv.go:291-301 | with a caller map: all names found accepts those columns; some found is "missing columns"; none found is "incompatible" when the line is a heading or `mc > wid`, else "ambiguous" when `uc` has fewer entries than `sc`, else the caller's map is adopted; "no heading" never occurs |
| Columns.AmbiguityExact | csv.go:296-297 | when no two caller names trim to the same text, the ambiguity test fires exactly when two names share a position, so an adopted map gives distinct positions |
| Columns.CollidingNamesShareColumn | csv.go:269-275 | with caller entries ` a`:2, `a`:1, `b`:1 over a numeric line, `a` and `b` are adopted at the same position 1 |
| Sniff.CollectPreview | csv.go:107-127 | the preview loop returns the locked comment prefix and the preview lines |
| Sniff.PreviewLines | csv.go:109-125 | at most six preview lines, none blank, none starting with the locked comment prefix |
| Sniff.CommentLocking | csv.go:113-120 | the comment prefix is empty or one of `#`, `//`, `'`; when set, the first non-blank line starts with it and is skipped; conversely, a first non-blank line starting with one of the three locks exactly that one |
| Sniff.FirstLineIsData | csv.go:113-125 | when no comment prefix is locked, the first non-blank line is the first preview line |
| Sniff.FirstDataLine | csv.go:122-125 | a kept line preceded only by blank lines is the first data line |
| Sniff.DataLinesKept | csv.go:111-125 | every data line is neither blank nor under the comment prefix |
| Sniff.ChooseSeparator | csv.go:138-153 | the candidate loop returns the separator and field count `Choice` gives |
| Sniff.ChoiceIsBest | csv.go:139-153 | no separator exactly when no candidate qualifies; otherwise the chosen candidate qualifies, every earlier qualifying candidate gives fewer fields and no later qualifying one gives more |
| Sniff.SeparatorChoice | csv.go:138-153 | a chosen separator splits every preview line into the same count `max > 1` with every field at most 256 bytes, and is the first qualifying candidate with the largest count |
| Sniff.DetectHeading | csv.go:154-163 | `split` is the trimmed fields of the first preview line, and `heading` holds exactly when they are all non-empty, non-numeric and distinct |
| Sniff.PeekCSV | csv.go:107-166 | "no data" exactly when no line is data; otherwise: the preview and comment as collected; `erows` exact below six data lines; no separator only when no candidate qualifies (then no split and no heading); otherwise the best separator, the trimmed split of the first preview line, and the heading test |
| Txt.CheckLayout | csv.go:196-203 | the checks refuse the caller's ranges exactly when the map is empty or larger than the width, or a range starts before 1, ends before it starts, or ends past the width |
| Txt.LayoutErrorKinds | csv.go:196-203 | a layout error is "bad column map" or "bad range", and none exactly when the ranges fit the width |
| Txt.SliceRecord | csv.go:210-215 | the column loop returns the record map `Slice` gives |
| Txt.SliceFields | csv.go:210-215 | every value is the non-empty trimmed slice of its range, every key is a column, and every column with a non-blank slice is present |
| Txt.ReadTXT | csv.go:188-226 | the line loop returns exactly the stream `TxtSpec` gives |
| Txt.TxtLayoutError | csv.go:194-203 | a layout error is sent exactly when there is a kept line and the ranges do not fit its width; then nothing else is sent |
| Txt.TxtRecords | csv.go:209-219 | every record sent comes from a kept line of the first kept line's width, numbered from 1 counting every line, with its non-empty slice map; line numbers strictly increase; no record comes from the line at which the decoder gives up, or from a later one |
| Txt.TxtFirstLine | csv.go:194-219 | the first kept line, read again after the width is fixed, is the first record when one of its slices is not blank |
| Txt.BreachAfterFirst | csv.go:205-206 | no misalignment stop comes before or at the first kept line |
| Txt.TxtComplete | csv.go:209-219 | every kept line of the right width with a non-blank slice, read before the decoder gives up, is sent |
| Txt.TxtMisaligned | csv.go:205-208 | the misalignment error is sent exactly when some line passes the limit; its count is the one at the first such line, past line 200 and above one line in fifty |
| Txt.RecordsComplete | csv.go:209-219 | every line among the first `n` that yields a record contributes it |
| Csv.Settle | csv.go:259-301 | the first kept line settles to a non-empty map within the field count, under the caller's or the inferred separator, with data starting at that line or the next; or fails with a column error |
| Csv.BuildRecord | csv.go:304-311 | the column loop returns the record map of the line and tells exactly when every field equals its column name |
| Csv.RecordFields | csv.go:305-309 | every value is the non-empty trimmed field of its column, every key is a column, and every column with a non-blank field is present |
| Csv.FirstLine | csv.go:259-301 | the first kept line refuses the columns with the stream's only error, or settles them; data then starts after a heading or at the line itself under an adopted map |
| Csv.DataLine | csv.go:302-321 | one data line either stops the decoder with the stream's final misalignment error, or advances the decoder state to the next line |
| Csv.AlignedData | csv.go:303-315 | a line of the settled field count becomes a record unless it repeats the heading or has no non-blank selected field, and the decoder state advances |
| Csv.MisalignedData | csv.go:316-318 | a line of another field count raises `algn`; the decoder stops with that count exactly past line 200 and above one line in fifty, and otherwise advances |
| Csv.ReadCSV | csv.go:254-325 | the line loop returns exactly the stream `CsvSpec` gives |
| Csv.OutcomeRecords | csv.go:302-315 | under settled columns every record sent comes from a kept line after the first kept line's start, with the settled field count and its non-empty record map, not repeating the heading; line numbers strictly increase; no record comes from the line at which the decoder gives up, or from a later one |
| Csv.OutcomeComplete | csv.go:303-315 | every line that yields a record, read before the decoder gives up, is sent |
| Csv.OutcomeFirst | csv.go:298-300 | when data starts at the first kept line and it yields a record, that record is sent first |
| Csv.OutcomeMisaligned | csv.go:316-318 | under settled columns a misalignment error is sent exactly when some line passes the limit, with the count at the first such line |
| Csv.CsvColumnError | csv.go:287-297 | a column error is sent exactly when the first kept line does not settle the columns, and then it is the only thing sent |
| Csv.CsvRecords | csv.go:302-315 | records are sent only once the columns settle; each comes from a kept line with the settled field count, carries its non-empty record map and does not repeat the heading; the first kept line is sent only under an adopted caller map; line numbers strictly increase; no record comes from the line at which the decoder gives up, or from a later one |
| Csv.SettleStart | csv.go:287-300 | data starts at the first kept line exactly when the caller's map was adopted, and after it exactly when the line was a heading |
| Csv.CsvFirstLine | csv.go:298-300 | under an adopted caller map the first kept line is the first record when one of its selected fields is not blank |
| Csv.CsvComplete | csv.go:303-315 | every kept data line that yields a record, read before the decoder gives up, is sent |
| Csv.CsvMisaligned | csv.go:316-318 | the misalignment error is sent exactly when, under settled columns, some line passes the limit; its count is the one at the first such line, past line 200 and above one line in fifty |

## Left out

- Files, `readLn`, `bufio.Scanner`, goroutines, channels and `handleSig`: each decoder takes the file's lines as a sequence, and its channel of maps plus its error channel become one `Stream` value.
- The open, stat and read errors: file-system failures.
- The `sigv` cancellation checks: a cancelled decoder has sent a prefix of the stream modelled here. The model does not represent cancellation.
- The `erows` extrapolation for six or more data lines: floating-point arithmetic on the file size. The model records only that the estimate is extrapolated (`RowEstimate.Extrapolated`).
- The MD5 hash of the heading in `Digest`: a foreign cryptographic call. The `md5` field is not part of the model.
- `strconv.ParseFloat`: a foreign call. The numeric test is the parameter `isNum`, about which nothing is assumed.
- The misalignment ratio `float64(algn)/float64(line) > 0.02`: stated as the integer comparison `50 * algn > line`. The two agree for every line count below 2^40.
- Go's map iteration order: `ReadTXT`'s and `ReadCSV`'s record maps and column maps are Dafny maps. `ReadCSV`'s caller map is a sequence of entries in the order they are visited.
- Runes: a line is a sequence of bytes. Every byte of a multi-byte or invalid UTF-8 rune is above `~`, so `splitCSV` drops it just as it drops the whole rune.
- test.go: the command-line front end (flags, printing, `sync.WaitGroup`). test.go is not part of this model.
