# MLC report reader, modelled in Dafny

Intel Memory Latency Checker (MLC) prints a plain-text report. The report has a
banner with the tool version and then up to five measured sections:

- idle latencies, a node-by-node matrix;
- peak injection bandwidths, a list of labelled values;
- bandwidths between nodes, another matrix;
- loaded latencies, (delay, latency, bandwidth) samples;
- cache-to-cache transfer latencies, two local scalars and up to two remote matrices.

The repository reads this report in two independent generations, and this project
models both as pure functions over `seq<string>` lines.

- **parser.js** is the current reader.
  - `parseMLCOutput` cuts the trimmed lines into sections with a single-pass
    segmenter. Marker lines open a section. Look-ahead rules on the next one or
    two lines close it.
  - Each closed section goes to an extractor: `parseMatrixSection`,
    `parsePeakBandwidths`, `parseLoadedLatencies` or `parseCacheToCache`, together
    with the latter's inner `processSubSection`.
  - Modules: `Report` (driver and segmenter), `MatrixSection`, `PeakBandwidths`,
    `LoadedLatencies` and `CacheToCache`.
- **script.js** (lines 26-169) is the older reader, module `Legacy`.
  - It pre-trims every line, then walks them with index-returning scanners that
    read at fixed offsets from their marker lines.
  - An out-of-range header read in `parseMatrixData` throws a `TypeError` in
    JavaScript. Here that is the `Thrown` case of `Options.Result`.

Shared pieces:

- `Text` models ECMAScript string primitives: `trim`, `split`, `split(/\s+/)`,
  `lastIndexOf`, `includes`, `startsWith` and ASCII `toLowerCase`. Whitespace is
  ECMAScript's WhiteSpace plus LineTerminator set.
- `Numbers` models decimal `parseFloat`, `parseInt` and `Number()` over an exact
  `Decimal` (an integer mantissa and a decimal scale). A table value is a `Cell`:
  - `Num(d)`;
  - `NaN`;
  - `Null`, the older reader's `null` for `-`.
- `Passes` is the single pass over the lines that the segmenter makes: a step turns a
  cursor into the next cursor and perhaps a closed section.
- `Runs` is the collecting loop both matrix readers and list readers share. It
  skips lines until the first data line, then keeps data lines up to the next
  divider.

Each regular expression of the source is written as a hand-written predicate with
the same alternatives and the same order of trial. Examples:

- the lazy/greedy label group of the peak pattern;
- the optional `Delay`/`Cycles` words of the loaded-latency header;
- the node-header pattern with its `$` anchor.

## Model

| member | source | states |
|---|---|---|
| Text.Trim | parser.js:23 | a trimmed line has no whitespace at either end |
| Text.TrimShape | parser.js:23 | trimming removes only whitespace and only from the two ends; the result is empty exactly when the line is all whitespace |
| Text.TrimIdempotent | parser.js:105 | trimming an already trimmed line changes nothing, so the extractors' second `trim()` is harmless |
| Text.Split | parser.js:2 | `split('\n')` gives at least one piece and no piece holds a newline |
| Text.JoinSplit | parser.js:2 | joining the pieces of `text.split('\n')` with `\n` gives back the text |
| Text.SplitJoin | parser.js:2 | newline-free pieces joined with `\n` split back into the same pieces |
| Text.WordsShape | parser.js:131 | every token of `split(/\s+/).filter(p => p !== "")` is non-empty and free of whitespace |
| Text.WordsUnwords | parser.js:150 | tokens joined by single spaces split back into exactly those tokens |
| Text.WordsNonEmpty | parser.js:150 | a non-blank trimmed line has at least one token |
| Text.LastIndexOf | script.js:94 | `lastIndexOf(':')` is -1 or the position of a colon with no colon after it |
| Numbers.ParseFloat | parser.js:156 | `parseFloat` reads a number exactly when the text, after leading whitespace, opens with an optionally signed decimal literal |
| Numbers.ParseInt | parser.js:113 | `parseInt` reads a number exactly when, after leading whitespace and an optional sign, a digit follows |
| Numbers.ParseNumber | script.js:70 | `Number()` of a blank string is 0, and a non-blank string it accepts opens with a decimal literal |
| Numbers.ParseFloatOfDecimalText | parser.js:156 | `parseFloat` reads the printed text of any decimal back, whatever non-numeric text follows it |
| Numbers.ReadPrinted | parser.js:156-157 | the printed text of a decimal reads back as that decimal, as a number cell |
| Numbers.DecimalTextRoundTrip | parser.js:156 | the literal scanner recovers a printed decimal and its exact length |
| Numbers.IntTextRoundTrip | parser.js:113 | `parseInt` recovers an integer from its text when no digit follows |
| Numbers.NumberOfDecimalText | script.js:70 | `Number()` reads the printed text of any decimal back |
| Numbers.NumberRejectsTail | script.js:70-73 | `Number()` rejects (NaN) the text of a decimal followed by a tail that neither extends the literal nor ends in whitespace, such as `12abc`: the whole trimmed token must be the literal, which is what the header filter and the row test rely on |
| Numbers.NumberAgreesWithParseFloat | script.js:70-77 | where `Number()` accepts a non-blank token, `parseFloat` reads the same value |
| Numbers.DigitRunReadsAlike | parser.js:153-156 | a run of digits reads as the same integer under `parseInt` and `parseFloat` |
| Runs.CollectSkipsToFirst | parser.js:142-147 | before the first row is kept, every line is passed over |
| Runs.CollectAfterFirst | parser.js:142-147 | once a row is kept, the loop keeps exactly the data lines up to the next divider, in order |
| Runs.CollectKeeps | parser.js:142-170 | a property that every data line's item has also holds of every kept item |
| Runs.CollectRun | parser.js:142-170 | the loop from a start line keeps exactly the run from the first data line to the following divider |
| MatrixSection.KeywordTail | parser.js:109 | a capture exists only when the keyword matches case-insensitively and only digits and whitespace follow to the end |
| MatrixSection.HeaderTail | parser.js:109-110 | the header match at the leftmost position captures a node list: a digit, then only digits and whitespace |
| MatrixSection.HeaderAtStart | parser.js:109 | on a line printed as keyword, space and node list, the keyword's alternative captures that list |
| MatrixSection.HeaderLine | parser.js:105-114 | a line counts as a header only if it announces at least one node |
| MatrixSection.HeaderLineIsMatch | parser.js:106-112 | a line yields header nodes exactly when it is not skippable and the header pattern matches it |
| MatrixSection.HeaderNodesAreDigits | parser.js:109-113 | every token of a header capture is a digit run, and there is at least one |
| MatrixSection.ParsedIntsOfDigitRuns | parser.js:113 | `parseInt` reads every digit-run token, so the NaN filter drops none |
| MatrixSection.HeaderRoundTrip | parser.js:109-113 | a header printed from any of the three keywords and a node list reads back as exactly those nodes |
| MatrixSection.DataStart | parser.js:115-119 | rows begin two lines after the header exactly when the next line matches `^[-=]+$`, else one line after |
| MatrixSection.Layout | parser.js:104-138 | when a layout is found it has at least one node and a row start inside the section |
| MatrixSection.HeaderLayout | parser.js:104-123 | the first header line gives the nodes, in order, and rows begin right after it or after one rule line |
| MatrixSection.InferredLayout | parser.js:125-138 | without a header line, the first line of k > 1 tokens opening with an integer gives nodes `0..k-2`, and rows begin at it |
| MatrixSection.NoLayout | parser.js:126-178 | with neither a header nor such a line, both the nodes and the matrix are empty |
| MatrixSection.RowOf | parser.js:150-166 | a kept row has exactly one cell per node |
| MatrixSection.ClassifyRow | parser.js:143-166 | a line classified as data carries exactly as many cells as there are nodes |
| MatrixSection.ParseMatrixSection | parser.js:98-179 | every row of the result has one cell per node, and an empty node list comes with an empty matrix |
| MatrixSection.MatrixRows | parser.js:140-178 | the matrix is the run of rows from the data start up to the first blank, `===` or `---N` line after a row |
| MatrixSection.DashCellIsNaN | parser.js:155-157 | mapping `-` and `N/A` to NaN agrees with what `parseFloat` gives them |
| MatrixSection.NoNumberAtFront | parser.js:156-157 | a token that opens with no digit, point or signed digit reads as NaN |
| MatrixSection.CellOfDecimalText | parser.js:154-157 | a printed value in a row reads back as that number |
| MatrixSection.RowRoundTrip | parser.js:150-166 | a row printed as node id and values, read for w nodes, gives its first w values when it has at least w of them, and no row when it has fewer |
| PeakBandwidths.ColonUp | parser.js:183 | the lazy label group ends at the first admissible label end in range, and none before it is admissible |
| PeakBandwidths.ColonDown | parser.js:183 | the greedy `\S+` gives characters back to the last admissible label end, and none after it is admissible |
| PeakBandwidths.LabelEnd | parser.js:183 | when the pattern matches, its label group is non-empty and is followed by optional spaces, a colon and a `[0-9.]` run |
| PeakBandwidths.LabelEndMatches | parser.js:183 | the label end is the lazy search from the first whitespace-free run, falling back to the greedy search inside it |
| PeakBandwidths.EntryOf | parser.js:199-204 | a line gives an entry exactly when the pattern matches, and the value is then a number |
| PeakBandwidths.EntryLabelNoParens | parser.js:201-202 | no label keeps a parenthesised part |
| PeakBandwidths.RemoveParensOpenFree | parser.js:202 | text without an opening parenthesis passes through removal unchanged |
| PeakBandwidths.CleanPlainLabel | parser.js:201-203 | a label without parentheses, edge spaces or a trailing `MB/sec` is shown as it is |
| PeakBandwidths.EntryRoundTrip | parser.js:183-204 | a line printed as `label : value` gives back exactly that label and value, for every label without parentheses, line breaks or a trailing `MB/sec` whose colons all lie in its first word (such as `3:1 Reads-Writes`), and every value without a sign |
| PeakBandwidths.FirstOpen | parser.js:188-192 | the line where parsing switches on mentions peak memory bandwidths or read-write ratios, or matches the pattern |
| PeakBandwidths.FirstOpenSkips | parser.js:186-192 | no line before the switch-on line would have switched parsing on, so it is the first such line |
| PeakBandwidths.LoopBeforeOpen | parser.js:186-197 | before parsing switches on, every line is passed over |
| PeakBandwidths.LoopIsCollect | parser.js:194-205 | once on, the loop is the shared collecting loop with blank lines as dividers |
| PeakBandwidths.NeverOpened | parser.js:184-197 | a section without a switch-on line gives no entries |
| PeakBandwidths.OpenedAt | parser.js:186-206 | the entries are those collected from the first switch-on line |
| PeakBandwidths.PeakEntries | parser.js:181-208 | `parsePeakBandwidths` (`ParsePeakBandwidths`) gives the matching lines' entries in line order, from the switch-on line to the first blank line after an entry |
| LoadedLatencies.DataMatch | parser.js:214 | the fallback pattern captures a digit run and two non-empty `[0-9.]` runs |
| LoadedLatencies.CompactHeader | parser.js:213 | `Inject Latency Bandwidth`, in any letter case, with any non-empty whitespace gaps and any text before and after, is recognised as the header |
| LoadedLatencies.VerboseHeader | parser.js:213 | `Inject Delay Latency Cycles Bandwidth`, in any letter case, with any non-empty whitespace gaps and any text before and after, is recognised as the header |
| LoadedLatencies.PrintedHeader | parser.js:213 | the tool's own `Inject  Latency Bandwidth` header line is recognised |
| LoadedLatencies.FirstHeader | parser.js:216-221 | the line taken as header matches the header pattern |
| LoadedLatencies.FirstHeaderSkips | parser.js:216-221 | no line before the header matches the header pattern, so it is the first such line |
| LoadedLatencies.LoopBeforeHeader | parser.js:216-226 | before the header every line is passed over and nothing is collected |
| LoadedLatencies.LoopIsCollect | parser.js:222-245 | after the header the loop is the shared collecting loop with blank lines as dividers |
| LoadedLatencies.NoHeader | parser.js:226 | a section without a header gives no samples |
| LoadedLatencies.HeaderAt | parser.js:218-245 | the samples are collected from the line after the first header |
| LoadedLatencies.LoadedSamples | parser.js:210-247 | `parseLoadedLatencies` (`ParseLoadedLatencies`) gives the rows after the first header, in order, up to the first blank line after a sample |
| LoadedLatencies.RowRoundTrip | parser.js:228-234 | a row printed as delay, latency, any middle tokens and bandwidth gives back delay, latency and the last token as bandwidth |
| LoadedLatencies.DelayReads | parser.js:229-231 | a printed delay reads as the same integer under `parseFloat` and `parseInt` |
| CacheToCache.Backfill | parser.js:266-269 | nodes are replaced only when empty, with a non-empty matrix whose first row has the caller's count n > 0, and then by `0..n-1` |
| CacheToCache.BackfillIsDead | parser.js:266-269 | the backfill never changes a matrix that `parseMatrixSection` returned |
| CacheToCache.Flush | parser.js:261-273 | closing a sub-section empties the buffer, forgets its kind, and leaves both local latencies alone |
| CacheToCache.FlushOpen | parser.js:262-264 | closing an open sub-section stores `parseMatrixSection` of its buffer under its kind |
| CacheToCache.PrefixesDiffer | parser.js:278-282 | no line starts with both the HIT and the HITM prefix |
| CacheToCache.StepOnHitm | parser.js:282-285 | a line sets the HITM latency exactly when it starts with the HITM prefix, to its last token's value |
| CacheToCache.LastBelow | parser.js:278-285 | finds the last line before a bound whose trim has the prefix, with no later one |
| CacheToCache.ScanHit | parser.js:275-308 | the scan carries the HIT latency of the last HIT line seen so far |
| CacheToCache.ScanHitm | parser.js:275-308 | the scan carries the HITM latency of the last HITM line seen so far |
| CacheToCache.LocalLatencies | parser.js:249-311 | in the result of `parseCacheToCache` (`ParseCacheToCache`), each local latency is the value of the last line with its prefix, or NaN when there is none |
| CacheToCache.HeadingsFlush | parser.js:278-293 | the branch chain (`StepOn`) first closes any open sub-section on a local-latency line or a remote heading |
| CacheToCache.StepHeading | parser.js:286-293 | one loop iteration (`Step`) on a remote heading closes what was open and starts a buffer routed by the heading's wording and holding only the heading |
| CacheToCache.StepBody | parser.js:303-305 | one loop iteration (`Step`) appends a non-blank, non-closing line of an open sub-section to its buffer |
| CacheToCache.StepBuffer | parser.js:286-305 | every step keeps the buffer well formed: non-blank trimmed lines led by a remote heading |
| CacheToCache.ScanBuffer | parser.js:275-307 | the line loop (`Scan`) keeps the buffer well formed before every line |
| CacheToCache.ScanShaped | parser.js:275-308 | if both stored matrices have one cell per node in every row, they still do after the scan |
| CacheToCache.CacheMatricesShaped | parser.js:249-311 | both remote matrices of the result have one cell per node in every row |
| CacheToCache.StepOnIdle | parser.js:278-294 | without a remote heading, a step opens nothing and leaves both matrices empty |
| CacheToCache.NoRemoteNoMatrices | parser.js:286-294 | without a remote heading both remote matrices stay empty |
| CacheToCache.AfterBlankNeverOnTrimmed | parser.js:296 | the two-blank-lines close never fires on trimmed lines |
| CacheToCache.BodyScanned | parser.js:294-308 | body lines are buffered until the end, where the final flush stores the buffer |
| CacheToCache.LastSectionStored | parser.js:286-308 | a last sub-section of body lines is stored under its heading's kind as `parseMatrixSection` of its lines |
| CacheToCache.StateAtSnoc | parser.js:275-276 | the state before line `j + 1` of the loop is one loop iteration on from the state before line `j` |
| CacheToCache.ScanSplit | parser.js:275-308 | the loop from line `i` equals the loop from any later line, started in the state it reached there |
| CacheToCache.BodyUpTo | parser.js:294-306 | body lines of an open sub-section before a given line are buffered one by one, in order |
| CacheToCache.SectionOpen | parser.js:286-306 | after a remote heading and body lines, the open sub-section has the heading's kind and holds exactly the heading and those lines, over the result as it was once the previous sub-section closed |
| CacheToCache.ClosedByHeading | parser.js:286-306 | a sub-section ended by the next remote heading is stored under its own kind as `parseMatrixSection` of its lines up to that heading, and the new heading opens a sub-section of its own kind holding only itself |
| CacheToCache.SingleSection | parser.js:249-311 | a writer-homed heading followed by body lines yields that matrix, and the reader-homed matrix stays empty |
| CacheToCache.TwoSections | parser.js:249-311 | a writer-homed sub-section followed by a reader-homed one yields the writer matrix read from the lines before the second heading and the reader matrix read from the lines from it on |
| Report.VersionAt | parser.js:16 | a version match at a position starts with the banner lead and captures `v`, digits, a point, digits and an optional letter |
| Report.VersionIndex | parser.js:16-17 | the version (`ToolVersion`) is taken at the leftmost position where the banner pattern matches |
| Report.NoLeadNoVersion | parser.js:16-20 | without the banner lead the version stays empty |
| Report.VersionOfBanner | parser.js:16-20 | a banner with version `v<a>.<b>[letter]` yields exactly that version token |
| Report.ReportVersion | parser.js:16-20 | the report's version field is the version token whatever the sections hold |
| Report.EndsBeforeMeasuring | parser.js:48-53 | the end test (`SectionEnd`) closes every section at the last line and before a line starting "Measuring" |
| Report.PeakEnd | parser.js:47-65 | a peak section ends exactly at the last line or before "Measuring"; blank lines never end it |
| Report.BlankEnd | parser.js:47-65 | an idle, inter-node or loaded section ends exactly when, in addition, a non-blank line is followed by a blank line and then a blank line, the end or "Measuring" |
| Report.CacheEnd | parser.js:47-65 | a cache section ends exactly when, in addition, a blank line follows that is itself last or followed by a blank, or the non-blank rule holds |
| Report.CountAfter | parser.js:72-74 | after a matrix the node count is the larger of the old count and the matrix's node count |
| Report.AdvanceShape | parser.js:25-45 | one loop iteration (`Advance`) keeps the open section's lines led by its marker, with no other marker or banner |
| Report.MarkerOfText | parser.js:27-42 | a line opens a section exactly when it starts with that section's marker text, whatever follows and whichever order the tests run in |
| Report.NoMarkerText | parser.js:27-42 | a line opens no section exactly when it starts with none of the five marker texts |
| Report.SegmentsShaped | parser.js:22-94 | every section handed to an extractor starts with its own marker line and holds no other marker or banner line |
| Report.NoMarkerNoSegments | parser.js:22-44 | without a marker line no section opens |
| Report.NoMarkersNoSections | parser.js:1-96 | a report without marker lines has every section `null` and node count 0 |
| Report.BannerLastDropsSection | parser.js:25-26 | when the last line is a banner line, the `continue` skips the end check and the open section is never extracted |
| Report.ScanApplies | parser.js:22-94 | the line loop (`Scan`) is the extractors applied, in order, to the sections it closes |
| Passes.PassFolds | parser.js:22-94 | a single pass whose consumer folds each closed item into its result equals that fold over the list of everything the pass closes |
| Report.ParseIsFold | parser.js:1-96 | `parseMLCOutput` (`ParseMlcOutput`) is the extractors folded over the segmenter's sections, starting from all-`null` fields and the version |
| Report.ApplyVersion | parser.js:68-92 | no extractor changes the version field |
| Report.ExtractCount | parser.js:70-81 | one call of the dispatch (`Extract`) sets the node count to the larger of the old count and that section's matrix node count |
| Report.ApplyCountCovers | parser.js:72-81 | the node count never falls and is at least every idle and inter-node matrix's node count |
| Report.ApplyCountAttained | parser.js:72-81 | the node count is the initial one or some matrix section's node count, so with the count above it is their maximum |
| Report.ApplyIdle | parser.js:70-71 | the idle field is the matrix read from the last idle section, or stays as it was without one |
| Report.ApplyInterNode | parser.js:77-78 | the inter-node field is the matrix read from the last inter-node section |
| Report.ApplyPeak | parser.js:75-76 | the peak field is the list read from the last peak section |
| Report.ApplyLoaded | parser.js:82-83 | the loaded field is the samples read from the last loaded section |
| Report.ApplyCache | parser.js:84-85 | the cache field is read from the last cache section with the node count reached just before it |
| Legacy.RawLastPiece | script.js:157 | `split(/\s+/).pop()` is a whitespace-free suffix of the line, preceded by whitespace when shorter than the line |
| Legacy.CellOf | script.js:77 | a cell is `null` exactly when its token is `-` |
| Legacy.RowCells | script.js:74-77 | a row has one cell per token after the first, `null` exactly where the token is `-` |
| Legacy.ParseMatrixData | script.js:66-82 | reading a table throws exactly when its header index is past the last line, and otherwise returns an index from the header line on |
| Legacy.NumbersOfAll | script.js:70 | when `Number()` reads every header token, the nodes are those tokens' numbers, one per token, in place |
| Legacy.NumbersOfNone | script.js:70 | when `Number()` rejects every header token, there are no nodes |
| Legacy.NumbersOfAppend | script.js:70 | the filter keeps token order and judges each token alone: the numbers of two token lists in a row are the first list's, then the second's |
| Legacy.RowEndStops | script.js:73 | rows run up to the first line that is empty or whose first token `isNaN` rejects: every line before it is a row and it is not |
| Legacy.MatrixLoopRows | script.js:73-80 | the row loop appends the rows of every line up to the first non-row line and returns that line's index |
| Legacy.MatrixData | script.js:66-82 | the table's nodes are the header's numeric tokens, its rows are appended unreconciled, and the index returned is one before the first non-row line: the last row's, or the header's when there are no rows |
| Legacy.PeakEntry | script.js:94-104 | an entry is read only from a line with a colon |
| Legacy.PeakEntryRoundTrip | script.js:94-99 | a line printed as a trimmed label (which may hold colons), a colon, a space, a number and a colon-free tail of units gives back exactly that label and number: the label is the trimmed text before the last colon and the value the first token after it |
| Legacy.ClassifyPeak | script.js:90-104 | only a data line (ALL Reads, `d:d Reads-Writes`, Stream-triad) can give an entry |
| Legacy.PeakLoop | script.js:86-124 | the scan returns an index from its start line up to the end |
| Legacy.PeakAtStep | script.js:86-123 | one step halts at a triad line or at a closing line once an entry is recorded, and otherwise goes on |
| Legacy.PeakContent | script.js:86-126 | the list gains the entries of exactly the lines the scan examined, in order |
| Legacy.PeakPassed | script.js:112-121 | no line the scan passed over would have stopped it |
| Legacy.PeakStops | script.js:112-121 | the line the scan returns stops it: a triad line, or a closing line after an entry |
| Legacy.PeakScan | script.js:84-127 | the older `parsePeakBandwidths` (`Legacy.ParsePeakBandwidths`) appends the examined lines' entries in order, stops at its first stopping line, and keeps labels and values paired |
| Legacy.HeaderIndex | script.js:132-134 | the skip stops at a line starting with `Delay   (ns)    MB/sec`, or at the end |
| Legacy.HeaderIndexSkips | script.js:132-134 | no line the skip passes over starts with the column header, so it stops at the first one |
| Legacy.SampleLoop | script.js:138-148 | the sample loop returns an index from its start up to the end, and does nothing past the end |
| Legacy.ParseLoadedLatencies | script.js:129-150 | the returned index is past the start and at most one past the last line |
| Legacy.SampleEndStops | script.js:138-146 | samples run up to the first line that is blank or does not split into exactly three tokens: every line before it is a sample and it is not |
| Legacy.SampleLoopRows | script.js:138-148 | the loop appends one delay, latency and bandwidth per sample line, in order, up to the first non-sample line |
| Legacy.LoadedSamples | script.js:129-150 | samples are read from two lines after the column header up to the first non-sample line, and the index returned is one before that line: the last sample's, or the rule line's under the header when there are none |
| Legacy.NoDelayHeader | script.js:132-136 | without the column header nothing is read and the index returned is one past the end |
| Legacy.LoadedPaired | script.js:138-148 | the three loaded columns grow together |
| Legacy.CacheLoop | script.js:152-169 | the scan returns an index from its start up to the end |
| Legacy.CacheWriter | script.js:160-161 | the writer-homed table is read two lines below its heading, which throws when that line is missing, and the scan goes on from the first line after the table's rows |
| Legacy.LatestHit | script.js:156-157 | with no HIT line the value is unchanged, and a HIT line at the end decides it |
| Legacy.LatestHitIs | script.js:156-157 | the HIT latency is that of the last HIT line |
| Legacy.LatestHitm | script.js:158-159 | with no HITM line the value is unchanged, and a HITM line at the end decides it |
| Legacy.LatestHitmIs | script.js:158-159 | the HITM latency is that of the last HITM line that is not also a HIT line |
| Legacy.CacheLocal | script.js:152-169 | without a remote heading only the two local latencies change, each to the last such line's value, and the scan runs to the end |
| Legacy.CacheReader | script.js:162-164 | the reader-homed table is read two lines below its heading, which throws when that line is missing, and the index returned is one before the first non-row line under the table's header, or before the end: the last row, or the header line itself when the table has no rows |
| Legacy.Step | script.js:43-61 | every step that does not throw moves the walk forward |
| Legacy.StepIdle | script.js:45-46 | the idle table's header is read two lines below its marker; the step throws exactly when that line is missing |
| Legacy.IdleAt | script.js:45-46 | the walk reads the idle table from two lines below its marker and resumes at the first line after its rows |
| Legacy.StepNode | script.js:51-52 | the node table's header is read three lines below its marker; the step throws exactly when that line is missing |
| Legacy.NodeAt | script.js:51-52 | the walk reads the node table from three lines below its marker and resumes at the first line after its rows |
| Legacy.CacheAt | script.js:57-61 | the walk runs the cache scan from its marker line itself, stops when the scan throws, and otherwise goes on one past the index it returns with the scan's fields stored |
| Legacy.PeakSwallowsClosingLine | script.js:48-61 | when the peak scan stops at a closing line, the walk resumes after that line, so a marker there is never dispatched |
| Legacy.StepPaired | script.js:43-61 | every step keeps peak labels and values paired and the loaded columns equal in length |
| Legacy.WalkPaired | script.js:41-62 | the marker walk (`Walk`) keeps the lists paired |
| Legacy.NoMarkersNoData | script.js:41-62 | a walk over lines without markers leaves the result object unchanged |
| Legacy.LegacyNoMarkers | script.js:26-64 | a report without marker lines gives empty tables and `null` local latencies |
| Legacy.LegacyPaired | script.js:26-64 | whenever the older `parseMLCOutput` (`LegacyParse`) returns, its labels and values pair up and its loaded columns have equal lengths |

## Left out

- JavaScript numbers are IEEE doubles. Here a number is an exact `Decimal`, and `NaN` is a `Cell` case or `None`. Rounding of long literals is not modelled.
- Numbers.ParseFloat: reads decimal literals only. It does not model exponents (`1e3`), `Infinity` or hexadecimal forms. No report token uses them.
- Numbers.ParseInt: does not model the `0x` prefix, for the same reason.
- Numbers.ParseNumber: does not model exponents, `Infinity`, hexadecimal or binary forms.
- PeakBandwidths.EntryRoundTrip: does not cover a label with a colon after its first word. When optional spaces and a digit or point follow such a colon, the lazy label group stops there and the label comes back cut; the other such labels are left unproved. Signed values are not covered either, since the value group `[0-9.]+` takes no sign.
- Text.Lower: folds ASCII letters only, where `toLowerCase` folds all of Unicode. Every keyword compared is ASCII, but some non-ASCII letters fold onto ASCII ones (U+212A KELVIN SIGN becomes `k`, as in `peak`); lines holding such letters are outside the model.
- Regular expressions are hand-written predicates for the patterns at hand, not a regex engine.
- The try/catch at parser.js:69-89 is not modelled as a failure path. No extractor can throw on string lines, so that catch branch is unreachable and every extractor is total.
- `console.warn`, `console.error` and `console.log` (parser.js:88, parser.js:175, script.js:106, script.js:109, script.js:125) only log and change nothing.
- The re-checks at parser.js:301-302 are not modelled. They are dead code: a `Local Socket` HIT or HITM line is always caught by the first two branches.
- The two keyword arguments of `parseMatrixSection` are unused by it.
- The `nodesInHeader` and `valueParser` parameters of the older `parseMatrixData` are left out. So is its unused `rowNode = parseInt(...)`. Both value parsers the callers pass agree on every token, because `-` is handled before either is called.
- Legacy.ParseMatrixData: the `Thrown` case carries one fixed message. JavaScript's exact `TypeError` text is not modelled.
- Legacy.PeakSwallowsClosingLine: is stated over classes of lines: a marker, one entry line and a closing line. It is not instantiated with the concrete report headings.
- The page around the readers is not part of this model: the DOM listener, `alert` and textarea reads (script.js:1-24, main.js), the Plotly and Chart.js plotting (ui.js, idleLatencies.js, nodeBandwidths.js, peakBandwidths.js, loadedLatencies.js, cacheToCache.js), and utils.js. They are presentation and floating-point work.
- Three pieces of the current reader change nothing, and the model follows the code:
  - the size check at parser.js:174-176 compares the row count with the node count but only warns, so rows are not reconciled with nodes;
  - the close at parser.js:296 looks for a blank line right after a blank line, but the segmenter hands over trimmed lines, so the previous line is either `""`, which is falsy, or not blank, and the test never fires (`CacheToCache.AfterBlankNeverOnTrimmed`);
  - the node-id backfill at parser.js:266-269 needs empty nodes with a non-empty matrix, which `parseMatrixSection` never returns, so it never fires (`CacheToCache.BackfillIsDead`).
