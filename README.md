# Parser for the 100-million-row challenge, modelled in Dafny

The system reads a large CSV-like log of page visits. Each line holds a URL
of the form `https://stitcher.io/<path>`, a comma and an ISO timestamp. The
system counts the visits per path and per day and writes the counts as a JSON
object. The object maps each path (with `/` escaped as `\/`) to an object
that maps each date (`YYYY-MM-DD`, ascending) to its count.

`Parser::parse` works in four stages, and the model has one module for each:

- **Planning** (`Chunks`). It splits the file into one byte range per worker.
  Every range except the last ends where the line running through
  `start + fileSize / workers` ends. The last range ends at the file size.
- **Scanning** (`Scanner`, `Aggregates`). A forked worker reads whole lines
  of its range. It cuts a key out of each line and counts it in an
  insertion-ordered nested array `url => date => count`.
- **Hand-over and merge** (`Records`, `Merge`). Each worker writes its array
  as `url TAB date TAB count NL` records. The parent reads every record back
  with two `strrpos` searches, adds the counts, and `ksort`s each URL's dates.
- **Output** (`Json`). It writes the merged array line by line, with commas
  after every item except the last.

`Text` holds the PHP runtime behaviour the parser relies on: byte strings,
`fgets` line reading, `substr`, integer interpolation and the `(int)` cast.
`strpos` is `Scanner.FirstIndex` and `strrpos` is `Records.LastIndexBelow`,
next to their only callers. `Pipeline` composes the stages.

Main results:

- Take ranges that are line-aligned, over a well-formed file. Merging the
  workers' files then gives exactly what one scan of the whole file gives
  once each URL's dates are sorted: the same URLs in the same order, and
  for each the same dates and counts. A well-formed file has fewer than 10^9 lines,
  and every line has a 10-byte date without tab or newline after its first comma.
  - Every line is counted by exactly one worker.
  - The merged count of a key is the number of lines that carry it.
  - Every plan `splitIntoChunks` can produce is line-aligned.
- The merged counts do not depend on the order in which the files are read.
- A worker's record file reads back as exactly the records it wrote. This
  holds when every record has a newline-free URL, a date of exactly 10 bytes
  without tab or newline, and a count of at most nine digits.
- The JSON text reads back, with a strict reader for its layout, as the
  aggregate it was written from. This holds when no URL and no date holds a
  newline.

Modelling choices:

- A PHP string is a `seq<byte>`. Here `byte` is a `char` below 256, so that
  string literals stay readable.
- A PHP array is an association list that keeps insertion order: a
  `seq<UrlEntry>`, where each entry holds a `seq<DateCount>`.
- `false` returned by `strpos` or `strrpos` acts as offset 0, as it does in
  the arithmetic of the source.
- The input file and the temporary files are values.
  - The file's contents are the parameter `s`.
  - `forkWorkers` returns the text each worker writes.
  - Workers run one after another.
- The worker count is a parameter of `SplitIntoChunks`. `Parse` passes the
  source's constant 2.

Behaviour of the code that the model keeps:

- A malformed line is not skipped. It is counted under whatever `substr`
  yields (`Scanner.LineKey`).
- The exit status of a worker is never checked.
- A record line shorter than 12 bytes makes the merge raise
  (`Records.ShortRecordRaises`, `Merge.RaisingLine`), and no other line
  does (`Merge.MergeFailsOnlyOnShortLine`). Two kinds of input line lead
  there:
  - A blank line is counted under an empty URL and date. Its record is
    4 bytes long (`Pipeline.BlankLineRaises`).
  - A line with fewer than 10 bytes after its comma keeps its newline in the
    date (`Scanner.ShortDateKeepsNewline`). The merge's `fgets` then splits
    the record after that newline. The second part is a tab, the count and
    a newline, under 12 bytes, so the merge raises on it whatever the URL
    (`Pipeline.SplitRecordRaises`). A first part under 12 bytes raises
    already; a longer one decodes quietly into a record of its own.
- With three or more workers a boundary can lie past the end of the file.
  The last range is then inverted (`Chunks.ThreeWorkersCanSeekPastEnd`).

## Model

| member | source | states |
|---|---|---|
| Chunks.SplitIntoChunks | app/Parser.php:48-70 | the ranges returned form a plan: one range per worker; the first starts at 0; each range starts where the previous ended; each inner end is the position after the line through `start + fileSize / workers`; the last ends at the file size |
| Chunks.PositionAfterLine | app/Parser.php:60-62 | `fseek`+`fgets`+`ftell` lands on a line start at or after the seek target; strictly after it and inside the file when the target is inside the file; exactly at the target when the target is at or past the end |
| Chunks.PositionAfterLineFirst | app/Parser.php:60-62 | no line starts strictly between the seek target and the position `ftell` reports, so that position is the first line start after the target |
| Chunks.PlanBoundaries | app/Parser.php:60-63 | every inner boundary lies at or after its seek target; it lies inside the file exactly when the target does; it is the end of the data or just after a newline |
| Chunks.PlanIsLineAligned | app/Parser.php:56-66 | any plan is line-aligned: consecutive ranges from 0 to the file size whose inner boundaries never split a line |
| Chunks.PlanWithinFile | app/Parser.php:50-66 | with at most two workers (the source uses two) every range lies inside the file and is not inverted |
| Chunks.ThreeWorkersCanSeekPastEnd | app/Parser.php:60-62 | with three workers and a long first line, the second boundary lies past the end of the data and the last range is inverted |
| Chunks.EveryLineOnce | app/Parser.php:40-41 | over line-aligned ranges the lines the workers read, range after range, are exactly the lines of the file: none dropped, none read twice |
| Text.LineEnd | app/Parser.php:147 | `fgets` stops just after the first newline at or after the position, or at the end of the data; the line it returns holds no other newline |
| Text.Lines | app/Parser.php:146-147 | the lines `fgets` returns while the position is below the limit are all non-empty; `Text.LinesSplit`, `Text.LinesOfFlatten` and `Scanner.ScanConsumesWholeLines` state what they cover |
| Text.LinesSplit | app/Parser.php:147 | reading lines from `p` while below `e` is reading up to a line start `q`, then from `q`; no line is lost or duplicated at `q` |
| Text.LinesOfFlatten | app/Parser.php:119 | reading back a concatenation of newline-terminated lines yields exactly those lines |
| Text.Substr | app/Parser.php:150-151 | `substr` with an offset inside the string returns the bytes from the offset; a non-negative length is cut at the end of the string; a negative length leaves out that many bytes at the end, so exactly `|s| + length - offset` bytes remain, or none when that is negative; an offset past the end gives the empty string |
| Text.IntCast | app/Parser.php:124 | the cast is negative only when the first non-blank byte is a minus sign; `Text.IntCastDecimal` gives back the integer from its decimal text |
| Text.IntCastDecimal | app/Parser.php:124 | the `(int)` cast of an integer's decimal text, followed by anything that is not a digit, gives back that integer |
| Scanner.FirstIndex | app/Parser.php:149 | `strpos` finds the first occurrence: the byte there is the one searched for, and no earlier byte is; not found means the byte does not occur |
| Scanner.LineKey | app/Parser.php:149-151 | every line yields one hit of count 1 whose date has at most 10 bytes |
| Scanner.LineKeyFields | app/Parser.php:149-151 | a line made of 19 bytes of scheme and host, a comma-free path, a comma and a date is counted under exactly that path and that date |
| Scanner.ShortDateKeepsNewline | app/Parser.php:149-151 | a line with fewer than 10 bytes after its comma is counted under a date that ends in the line's own newline |
| Scanner.LineKeyUrlInsideLine | app/Parser.php:150 | the URL cut out of a line never includes the line's final byte, so a line whose only newline is at its end gives a newline-free URL |
| Scanner.ParseCsvChunk | app/Parser.php:138-163 | the worker's aggregate is the tally of the keys of the lines consumed from `start` while the position is below `end`; its keys are unique and its counts positive; the counts add up to the number of lines; an empty range gives an empty array |
| Scanner.ScanCount | app/Parser.php:153-158 | the count stored for a key is the number of lines of the range carrying it, and a key is stored exactly when some line carries it |
| Scanner.ScanConsumesWholeLines | app/Parser.php:146-148 | a scan from a line start consumes the bytes up to where it stops, line by line; it stops at the end of the data or at the first line start at or after `end`, so the straddling line is read whole |
| Scanner.EmptyRange | app/Parser.php:147 | a range whose end is not after its start yields an empty aggregate |
| Aggregates.Bump | app/Parser.php:153-158 | an update leaves the array non-empty; `Aggregates.BumpCount`, `Aggregates.BumpValid` and `Aggregates.BumpTotal` state its effect on counts, keys and the total |
| Aggregates.BumpCount | app/Parser.php:153-158 | one update adds the hit's count to that key and changes no other count; the key is present afterwards |
| Aggregates.BumpValid | app/Parser.php:125 | an update keeps URL keys unique, date keys unique and every URL holding a date |
| Aggregates.BumpTotal | app/Parser.php:125 | an update raises the sum of all counts by the hit's count |
| Aggregates.ApplyCount | app/Parser.php:117-126 | after a sequence of updates each key's count is its old count plus the sum of the counts of the hits on it, and no stored key disappears |
| Aggregates.TallyOfSingles | app/Parser.php:153-158 | counting hits of count 1 gives a valid aggregate of positive counts whose total is the number of hits |
| Aggregates.ApplyHas | app/Parser.php:125 | after a run of updates a key is present exactly when it was before or some update was on it |
| Aggregates.BumpCommute | app/Parser.php:125 | two updates give the same array in either order when the first one's URL is already stored and, if both hit that URL on different dates, the first one's date is stored as well |
| Aggregates.Regroup | app/Parser.php:94-98 | replaying the records of a pre-aggregated sequence of hits into any array gives the same array, key order included, as replaying the hits one by one |
| Aggregates.RecordCountsBounded | app/Parser.php:94-96 | every record of an aggregate of positive counts carries a count between 1 and the total |
| Records.EncodeRecord | app/Parser.php:96 | a record is as long as its url, date and decimal count plus two tabs and a newline |
| Records.EncodePartial | app/Parser.php:93-98 | the worker's output is one record per stored pair, in stored order |
| Records.LastIndexBelow | app/Parser.php:120-121 | `strrpos` finds the last occurrence below the limit: the byte there is the one searched for, and none follows before the limit; not found means none occurs below the limit |
| Records.DecodeRecord | app/Parser.php:119-124 | a line fails (the `strrpos` offset raises) exactly when it is shorter than 12 bytes; `Records.DecodeEncodeRecord` reads a safe record back as the pair and count written |
| Records.DecodeEncodeRecord | app/Parser.php:95-123 | a record whose url is newline-free, whose date is 10 bytes without tab or newline and whose count has at most nine digits is cut back into exactly that url, date and count |
| Records.DecodeEncodeFile | app/Parser.php:93-124 | a file of such records reads back line by line as exactly the records written, in order |
| Records.ShortRecordRaises | app/Parser.php:120 | a record line shorter than 12 bytes makes the first tab search raise |
| Records.DecodeFileNone | app/Parser.php:118-120 | reading a file fails exactly when one of its lines is shorter than 12 bytes |
| Merge.BelowTransitive | app/Parser.php:132 | the order `ksort` uses on date keys is transitive |
| Merge.BelowTotal | app/Parser.php:132 | any two distinct date keys are ordered one way or the other |
| Merge.SortDates | app/Parser.php:132 | sorting one URL's dates permutes them |
| Merge.SortDatesSpec | app/Parser.php:131-133 | `ksort` of distinct date keys yields them in strictly ascending order, with the same keys and the same counts |
| Merge.AscendingUnique | app/Parser.php:132 | there is only one ascending arrangement of a given collection of dates, so the sorted result does not depend on how it is computed |
| Merge.SortAll | app/Parser.php:131-133 | sorting keeps the number of URLs; `Merge.SortAllSpec` states that URLs and counts stay and every URL's dates end up ascending |
| Merge.SortAllSpec | app/Parser.php:131-133 | sorting every URL's dates keeps the URLs in place and every count unchanged, and leaves every date list ascending |
| Merge.MergeResults | app/Parser.php:113-136 | the merge returns the tally of all records of all files, file after file, with dates sorted, or fails; `Merge.MergeFailsOnlyOnShortLine` states when it fails |
| Merge.RaisingLine | app/Parser.php:119-120 | one raising record line in any file makes the whole merge fail |
| Merge.MergeFailsOnlyOnShortLine | app/Parser.php:118-120 | the merge fails exactly when some file holds a line shorter than 12 bytes, the only lines on which the first `strrpos` raises |
| Merge.Merged | app/Parser.php:113-136 | what `mergeResults` returns; `Merge.MergedCounts`, `Merge.MergedHas`, `Merge.MergedSorted` and `Merge.MergeFailsOnlyOnShortLine` state its counts, its keys, its order and when it raises |
| Merge.MergedCounts | app/Parser.php:117-126 | the merged count of a key is the sum over the files of the counts of that key's records |
| Merge.MergedHas | app/Parser.php:117-126 | a key is in the merged result exactly when some file holds a record on it, whatever its count |
| Merge.MergedSorted | app/Parser.php:131-133 | the merged aggregate has unique keys and ascending dates under every URL |
| Merge.PartialSumPermutation | app/Parser.php:117 | the per-file sums of a key do not depend on the order of the files |
| Merge.MergeOrderIndependent | app/Parser.php:117-126 | reading the same files in another order also succeeds, gives the same count for every key and holds the same keys |
| Json.Escape | app/Parser.php:172 | escaping never shortens a URL; `Json.UnescapeEscape`, `Json.EscapedSlashes` and `Json.EscapeFree` state that it is undone exactly and adds only backslashes |
| Json.UnescapeEscape | app/Parser.php:172 | the slash escaping is undone exactly by reading `\/` back as `/` |
| Json.EscapedSlashes | app/Parser.php:172 | every slash in an escaped URL is preceded by a backslash |
| Json.EscapeFree | app/Parser.php:172 | escaping adds no byte other than backslashes, so a newline-free URL stays newline-free |
| Json.Json | app/Parser.php:165-185 | the document starts with `{` and a newline and ends with `}` |
| Json.ToJson | app/Parser.php:165-185 | the writer's output is the document: one opening line, per URL an opening line, one line per date and a closing line, then `}` |
| Json.EmptyJson | app/Parser.php:167-184 | an empty aggregate is written as `{`, a newline and `}` |
| Json.JsonCommas | app/Parser.php:168-181 | in an aggregate with unique keys a URL's closing line has a comma exactly when it is not the last URL, and a date line has one exactly when it is not the last date |
| Json.OpenLine | app/Parser.php:173 | the line opening a URL's object; `Json.ParseOpenLine` reads the URL back from it and `Json.OpenLineTerminated` shows it is one whole line |
| Json.DateLineRead | app/Parser.php:177 | a date line is never a closing line, and it reads back as its date and count |
| Json.DateLine | app/Parser.php:176-177 | a date and its count, with a comma unless the date is the last; `Json.DateLineRead` and `Json.ParseDateLineOf` read them back and `Json.DateLineTerminated` shows it is one whole line |
| Json.CloseLine | app/Parser.php:180-181 | the line closing a URL's object, with a comma unless the URL is the last; `Json.JsonCommas` states where the comma goes and `Json.CloseLineTerminated` shows it is one whole line |
| Json.ParseEntriesOf | app/Parser.php:170-182 | the lines of the URL objects read back as the aggregate they were written from |
| Json.ParseJsonOfJson | app/Parser.php:165-185 | a document whose URLs and dates hold no newline reads back as the aggregate it was written from |
| Pipeline.ForkWorkers | app/Parser.php:72-111 | each worker's file is the records of the tally of its range, one file per range, in range order |
| Pipeline.ScanSafe | app/Parser.php:91-99 | over lines that carry full dates, and fewer than 10^9 of them, every record a worker writes is one the merge reads back unchanged |
| Pipeline.WorkersTally | app/Parser.php:41-43 | reading back the files of any ranges of such lines succeeds and tallies like the lines of those ranges, range after range |
| Pipeline.MergeOfWorkers | app/Parser.php:40-43 | over line-aligned ranges of well-formed input the merge equals one scan of the whole file with dates sorted, key order included |
| Pipeline.ExpectedCount | app/Parser.php:40-45 | the count reported for a key is the number of lines of the file carrying it, and a key is reported exactly when some line carries it |
| Pipeline.OutputReadsBack | app/Parser.php:45 | the JSON written for well-formed input reads back as the expected aggregate |
| Pipeline.Parse | app/Parser.php:36-46 | for well-formed input, `parse` writes the JSON of the aggregate one scan of the whole file gives, dates sorted |
| Pipeline.BlankLineRaises | app/Parser.php:149-151 | a blank line is counted under an empty URL and an empty date, and the record written for it is too short for the merge, which raises |
| Pipeline.SplitRecordRaises | app/Parser.php:117-120 | `fgets` reads the record of a key whose date ends in a newline as two lines: the URL, a tab and the date, then a tab, the count and a newline; the second is under 12 bytes and fails to decode, and the first fails exactly when it is under 12 bytes |

## Left out

- `ini_set('memory_limit')`, `stream_set_read_buffer`, `fopen`/`fclose`,
  `tempnam`/`unlink` and `file_put_contents`: file handling and resource
  settings. The files are values.
- `pcntl_fork`, `pcntl_exec`, `pcntl_waitpid` and the failing-fork exception:
  the workers run one after another, and process failures are not modelled.
- The error and exception handlers a worker resets: these affect only how
  a failing worker reports.
- The length caps of `fgets` (4096 bytes in the scan and 65536 in the merge):
  lines are read whole. A longer line would be split in two by the source.
- PHP's coercion of numeric-string array keys to integers (a URL or date
  such as `123` becomes an integer key), and how `ksort` orders such keys.
  All keys are byte strings here, ordered byte by byte.
- 64-bit integer overflow of counts: integers are unbounded.
- The float and exponent forms of the `(int)` cast. Only optional
  whitespace, a sign and digits are read.
- Pipeline.Parse: its result is stated only for well-formed input. For
  other input it returns the JSON of whatever the merge reads back, or
  `None` when the merge raises.
- Pipeline.MergeOfWorkers: stated only for input whose line count is below
  10^9. A count of ten digits would shift the merge's first tab search.
