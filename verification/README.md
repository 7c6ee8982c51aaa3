# Financial-news app core in Dafny

A model of the pure, sequential parts of a Next.js financial-news and
stock-analysis application, with the properties its code promises proved
about the model. The parts modelled are:

- **The stock event screener** (`calculateIndicators`). It scans the last 30
  daily bars for big moves (more than ±5 %) and volume spikes (more than 3×
  the mean of the five prior volumes). It then keeps the ten latest events
  by date. It also aligns indicator arrays to bar indices (`getVal`) and
  builds the latest snapshot and the 120-bar chart series.
- **Six-digit ticker completion** in `analyzeStock`.
- **News de-duplication** (`deduplicate`): newest first, dropping titles that
  are equal or within a Levenshtein ratio of 0.3. The Levenshtein DP itself is
  modelled too, and so is the 20-item chunking of the map phase.
- **The keyword sentiment scorer** (`score`, `derive`).
- **The access-control decision** of the Next.js middleware.
- **The Wallstreetcn fetcher.** It makes titles out of body text and merges
  the two channels, keeping the first item of each id.
- **The CSV stock migration.** Covered: the header/row zip, the symbol and
  date rewriting, amounts in thousands and 1000-row batches.
- **The Tushare daily save.** Covered: the field/row zip and 1000-row
  batches whose failures are skipped.
- **The `chunk` helper** of the note generator.

Modules follow the source files: `Analyst`, `AnalystData` and
`EventScreen` (analyst.js), `Processor` and `EditDistance` (processor.js),
`Sentiment`, `Middleware`, `Wallstreetcn`, `MigrateStocks`, `Tushare` and
`Generator`. Shared modules hold what several of them use:

- `Wrappers`: `Option`/`Result` and JavaScript array reads.
- `Chunking`: slicing into fixed-size chunks and `Math.ceil(n / size)`.
- `StableSort`: the stable `Array.prototype.sort`.
- `Text`: `includes`, `startsWith`, `split`, global replace, `localeCompare`.
- `Records`: building an object from parallel name and value arrays.
- `Subsequence` and `MinMax`: small helpers.

JavaScript values are modelled as follows:

- `null` and `undefined` are `Option.None`, and a thrown error is `Result.Failure` (or `None`).
- Prices and volumes are `real`.
- A percentage computed from a zero previous close is the `Pct` datatype with its infinities and NaN, as JavaScript produces them.
- Things the code gets from outside are parameters:
  - the database lookup;
  - `parseFloat`;
  - whether the database accepts a batch;
  - `Date.now()`;
  - the indicator library's output series.

## Model

| member | source | states |
|---|---|---|
| AnalystData.GetVal | src/ai/analyst.js:82-85 | the value is `arr[idx - offset]` exactly when that index is inside the array, and null otherwise |
| AnalystData.GetValAligned | src/ai/analyst.js:82-85 | for a library series of length `max(0, len - offset)`, bar `idx` has a value exactly from `idx >= offset` on, and it is the series element `idx - offset` |
| EventScreen.ChangePercent | src/ai/analyst.js:96-99 | with a non-zero previous close the computed change reproduces the close (`close == prev * (1 + p/100)`); with a zero previous close it is +Infinity, -Infinity or NaN according to the sign of the close |
| EventScreen.PctAt | src/ai/analyst.js:96-99 | a stored `pct_chg` is used unchanged, and a missing one is recomputed from the two closes |
| EventScreen.ScanBar | src/ai/analyst.js:101-121 | one loop turn only appends, at most one event, and that event carries the bar's date |
| EventScreen.Screen | src/ai/analyst.js:88-122 | the screen yields at most 30 events, fewer than there are bars |
| EventScreen.ScreenLoop | src/ai/analyst.js:71-122 | the backwards loop over the last 30 bars yields exactly the recursive event list `Screen` |
| EventScreen.ScanBarAddsAtMostOne | src/ai/analyst.js:101-121 | one bar appends at most one event, describing that bar, whose reason holds there: a surge above +5 %, a plunge below -5 % (never both), or a volume spike only on a bar without a big move |
| EventScreen.DetectedProvenance | src/ai/analyst.js:88-92 | every event comes from a bar index j with max(1, start) <= j < len; bar 0 never yields one, having no previous row |
| EventScreen.DetectedCount | src/ai/analyst.js:88-122 | the screen yields at most one event per scanned bar |
| EventScreen.DetectedGrows | src/ai/analyst.js:88-122 | scanning further back only appends events to those found for the later bars |
| EventScreen.OneEventPerDate | src/ai/analyst.js:116-120 | with distinct bar dates, no two events share a date |
| EventScreen.ScanBarReports | src/ai/analyst.js:101-121 | a bar above +5 % yields a surge event, below -5 % a plunge event, and otherwise a volume spike yields a spike event unless its date is already taken |
| EventScreen.NoEarlierEventOnDate | src/ai/analyst.js:116-120 | with distinct dates, the bars scanned before bar j hold no event on bar j's date |
| EventScreen.DetectedComplete | src/ai/analyst.js:88-122 | with distinct dates, every scanned bar that moves more than 5 % or spikes in volume is reported in the screen |
| EventScreen.ByDateIsTotalPreorder | src/ai/analyst.js:125 | the date comparison used for sorting is a total preorder |
| EventScreen.RecentEventsAreLatest | src/ai/analyst.js:124-126 | the returned events are sorted by date and number min(10, n); every event left out is dated no later than every event kept |
| EventScreen.RecentEventsAreDetected | src/ai/analyst.js:124-126 | the returned events are drawn from the detected ones |
| Analyst.LatestOf | src/ai/analyst.js:129-140 | the snapshot's date, close and `pct_chg` are the last bar's; `ma5`, `ma20`, `ma60`, `rsi` and the MACD line are each series read by `getVal` at the last bar, the volatility is entry `len - 2` of the volatility array, and none of them is present before its warm-up |
| Analyst.VolatilityAt | src/ai/analyst.js:57-62 | a volatility value exists only for a return index of at least 19, that is with at least 20 returns behind it |
| Analyst.VolatilityAligned | src/ai/analyst.js:55-67 | with the loop's series length `max(0, len - 20)`, return index `idx` has a volatility exactly when 19 <= idx < len - 1, and it is the value of the window ending at `idx` |
| Analyst.LatestAligned | src/ai/analyst.js:129-140 | with the library's series lengths, each average, the RSI and the volatility are present in the snapshot exactly once the history covers their warm-up, and each is then the last value of its series (the MACD line too) |
| Analyst.ChartLoop | src/ai/analyst.js:143-155 | the chart has min(120, len) entries, which are exactly the last bars in order with their aligned averages |
| Analyst.CalculateIndicators | src/ai/analyst.js:18-158 | no result exactly for an empty history (the source throws); otherwise the latest snapshot, the ten latest screened events and the chart |
| Analyst.ChartEndsWithLatest | src/ai/analyst.js:129-155 | a non-empty history gives a non-empty chart whose last point agrees with the snapshot on date, close and averages |
| Analyst.ChartAveragesAligned | src/ai/analyst.js:151-153 | given the library's series lengths (empty for a history shorter than the warm-up), each chart average is present exactly after its warm-up period |
| Analyst.ResolveTicker | src/ai/analyst.js:165-181 | a non-six-digit input is unchanged; a six-digit code takes the stored ticker if any, else gains .SH, .SZ or .BJ by its first digit, else stays unchanged |
| Analyst.ResolvedTickerExtendsCode | src/ai/analyst.js:168-181 | a resolved six-digit code always begins with the code and, without a stored match, ends in nothing or an exchange suffix |
| EditDistance.Levenshtein | src/intelligence/processor.js:5-25 | the DP table's result equals the recursive insert/delete/substitute edit distance |
| EditDistance.DistToEmpty | src/intelligence/processor.js:6-7 | the distance to or from the empty string is the other string's length |
| EditDistance.DistSelf | src/intelligence/processor.js:8-24 | a string is at distance 0 from itself |
| EditDistance.DistZeroIsEqual | src/intelligence/processor.js:8-24 | distance 0 only between equal strings |
| EditDistance.DistAtMostLonger | src/intelligence/processor.js:8-24 | the distance never exceeds the longer length |
| EditDistance.DistSymmetric | src/intelligence/processor.js:8-24 | the distance does not depend on the argument order |
| Processor.NewestFirstIsTotalPreorder | src/intelligence/processor.js:35 | the newest-first comparator is a total preorder, so the stable sort orders by it |
| Processor.NearDuplicateInIntegers | src/intelligence/processor.js:45-50 | the ratio rule `dist / maxLen < 0.3` with `maxLen > 5` is the integer rule 10·dist < 3·maxLen |
| Processor.ShortTitlesOnlyExact | src/intelligence/processor.js:40-50 | titles of at most five characters are duplicates only when equal |
| Processor.DuplicateSymmetric | src/intelligence/processor.js:40-50 | the duplicate relation is symmetric |
| Processor.Greedy | src/intelligence/processor.js:37-56 | the greedy pass never keeps more items than it reads; what it keeps is stated by GreedyKeeps, GreedyNoDuplicates and DroppedHasNewerDuplicate |
| Processor.GreedyKeeps | src/intelligence/processor.js:37-56 | the kept items are picked from the sorted list in order |
| Processor.GreedyPrefix | src/intelligence/processor.js:37-56 | what is kept from a prefix of the list is a prefix of what is kept from the whole |
| Processor.GreedyNoDuplicates | src/intelligence/processor.js:39-51 | no two kept items have equal titles, and no later kept title is a near duplicate of an earlier one |
| Processor.DroppedHasNewerDuplicate | src/intelligence/processor.js:37-56 | every item of the newest-first list is either kept or a duplicate of a kept item that is at least as new |
| Processor.GreedyKeepsAllWhenNoDuplicates | src/intelligence/processor.js:37-56 | a list with no duplicate pairs is kept whole |
| Processor.GreedySorted | src/intelligence/processor.js:35-56 | the kept items stay newest first |
| Processor.Deduplicate | src/intelligence/processor.js:32-58 | the output is never longer than the input; DeduplicateSelects, DeduplicateOrder and DeduplicateIdempotent state the rest |
| Processor.DeduplicateSelects | src/intelligence/processor.js:32-58 | the output is no longer than the input and holds only input items |
| Processor.DeduplicateOrder | src/intelligence/processor.js:32-58 | the output is newest first and a subsequence of the stably sorted input |
| Processor.DeduplicateIdempotent | src/intelligence/processor.js:32-58 | de-duplicating the output again changes nothing |
| Processor.DeduplicateLoop | src/intelligence/processor.js:32-58 | the nested loop with `break` computes the greedy newest-first filter |
| Processor.MapPhaseChunks | src/intelligence/processor.js:65-69 | the chunks concatenate to the items, each holds 1 to 20 items, and there are ⌈n/20⌉ of them |
| StableSort.SortStable | src/intelligence/processor.js:35 | sorting keeps the input order among items the comparator ties |
| StableSort.SortSorted | src/ai/analyst.js:125 | the sort result is ordered by the comparator |
| Sentiment.KeywordTables | src/sentiment.js:1-2 | both keyword tables have ten distinct entries, none containing a space |
| Sentiment.Score | src/sentiment.js:4-11 | the score is the number of distinct positive keywords present minus the number of negative ones, and lies in [-10, 10] |
| Sentiment.CountIsMatchedSize | src/sentiment.js:7-8 | counting keyword hits in the loop counts each distinct keyword once |
| Sentiment.NoKeywordScoresZero | src/sentiment.js:4-11 | a text (the empty one included) containing no keyword scores 0 |
| Sentiment.Derive | src/sentiment.js:13-16 | `derive` scores the title, brief and content joined by spaces |
| Sentiment.DeriveMatchesFields | src/sentiment.js:1-2 | since no keyword has a space, the keywords found in the joined text are those found in some field |
| Middleware.Decide | middleware.js:4-35 | `/login` redirects home exactly when signed in; a signed-in request is never sent to `/login`; home redirect exactly for signed-in non-admins under `/admin`; login redirect exactly for anonymous requests outside `/login`, `/api/auth`, `/_next` and dotted paths |
| Middleware.AdminPassesEverywhereButLogin | middleware.js:9-34 | an ADMIN token passes on every path except the `/login` prefix |
| Middleware.AnonymousAdminGoesToLogin | middleware.js:18-25 | without a token, an `/admin` page is sent to `/login` |
| Wallstreetcn.SynthesizeTitle | src/fetchers/wallstreetcn.js:29-31 | the made-up title starts with the brief's first 50 characters, is the brief itself when that is at most 50 long, and otherwise is 53 long ending in `...` |
| Wallstreetcn.Normalize | src/fetchers/wallstreetcn.js:23-43 | the id and url are copied, the source is `wallstreetcn`, an existing title is kept, and a made-up title is at most 53 long |
| Wallstreetcn.NormalizeTitle | src/fetchers/wallstreetcn.js:26-31 | the title is empty exactly when both title and body text are; an existing title is kept; a made-up one starts with the body |
| Wallstreetcn.NormalizeContent | src/fetchers/wallstreetcn.js:27-38 | the content is `content`, else `content_text`, else empty; the brief is `content_text` |
| Wallstreetcn.NormalizeTimestamp | src/fetchers/wallstreetcn.js:40 | the publication time is the display time in milliseconds (a multiple of 1000 that divides back to it), else the current time |
| Wallstreetcn.FirstByIdIds | src/fetchers/wallstreetcn.js:92-99 | the merged list carries every input id exactly once |
| Wallstreetcn.FirstByIdPicksFirsts | src/fetchers/wallstreetcn.js:92-99 | each kept item is the first with its id, and kept items appear in input order |
| Wallstreetcn.FirstByIdKeepsFirsts | src/fetchers/wallstreetcn.js:94-98 | every first occurrence of an id is kept |
| Wallstreetcn.FirstByIdIdempotent | src/fetchers/wallstreetcn.js:92-99 | de-duplicating again changes nothing |
| Wallstreetcn.FirstChannelFirst | src/fetchers/wallstreetcn.js:89 | the de-duplicated global channel is a prefix of the merged result |
| Wallstreetcn.UniqueById | src/fetchers/wallstreetcn.js:92-99 | the seen-set loop computes the first-occurrence filter |
| Wallstreetcn.RunOnce | src/fetchers/wallstreetcn.js:80-102 | the count is the number of merged items; their ids are distinct and are all the input ids; the global channel comes first |
| Records.ZipKeys | scripts/migrate-stocks.js:34 | the built object has exactly the names as keys |
| Records.ZipLastWins | src/fetchers/tushare.js:44-46 | a repeated name holds the value at its last position, or undefined past the end of the values |
| Records.LastIndexOf | src/fetchers/tushare.js:44-46 | a last position exists exactly for names in the list, and no later position repeats the name |
| Records.ZipGetIsColumn | src/fetchers/tushare.js:44-46 | reading a property of the built object is reading the cell at the name's last position |
| Records.ZipMissing | scripts/migrate-stocks.js:34 | a name absent from the header reads as undefined |
| MigrateStocks.RewriteSymbolPrefixed | scripts/migrate-stocks.js:38-45 | `sh`, `sz` or `bj` followed by any code becomes the code plus `.SH`, `.SZ` or `.BJ` |
| MigrateStocks.RewriteSymbolUnprefixed | scripts/migrate-stocks.js:38-45 | any other symbol is kept unchanged |
| MigrateStocks.StripDateDashes | scripts/migrate-stocks.js:48 | `Y-M-D` becomes `YMD` |
| Text.RemoveAll | scripts/migrate-stocks.js:48 | the result has no dash and every other character occurs as often as before |
| MigrateStocks.ToThousands | scripts/migrate-stocks.js:50-51 | the stored amount times 1000 is the parsed amount; NaN stays NaN |
| MigrateStocks.ParseRowByColumns | scripts/migrate-stocks.js:32-62 | a line is imported exactly when its header has both `symbol` and `date` with cells for them; the record holds the symbol rewritten, the date without dashes, and the `open`, `high`, `low`, `close`, `volume` and `amount` cells parsed (amount in thousands) |
| MigrateStocks.ParseLinesPrefix | scripts/migrate-stocks.js:26-62 | the parsed rows are the records of the leading lines, one per line, up to the first failing line, whose missing column is reported |
| MigrateStocks.ImportRows | scripts/migrate-stocks.js:26-75 | the buffered loop writes the 1000-row chunks of the parsed rows and counts them all; on a failing line only the full batches before it are written and counted |
| MigrateStocks.Migrate | scripts/migrate-stocks.js:19-76 | the first line is the header and never a row; without failure the batches are the 1000-row chunks of all rows and the count is the number of data lines; on failure only the full batches before it are written |
| Text.JoinSplit | scripts/migrate-stocks.js:32 | a comma split loses nothing: joining the pieces gives the line back |
| Text.SplitJoin | scripts/migrate-stocks.js:32 | splitting comma-free cells joined by commas gives the cells back |
| Tushare.ToRecord | src/fetchers/tushare.js:42-59 | each of the eleven record columns is the item's cell under the last field of that name, or undefined when no field has it |
| Tushare.ToRecordDocumentedLayout | src/fetchers/tushare.js:39-59 | under Tushare's documented field order a full row maps cell by cell onto the eleven columns |
| Tushare.ToRecords | src/fetchers/tushare.js:42 | one record per item, in item order |
| Tushare.SaveDailyData | src/fetchers/tushare.js:35-78 | missing or empty items save nothing; otherwise the batches are the 1000-record chunks of the records and the count sums the accepted batches |
| Tushare.SavedAtMostReceived | src/fetchers/tushare.js:63-77 | the count never exceeds the number of items |
| Tushare.SavedAllWhenAccepted | src/fetchers/tushare.js:63-77 | when every batch is accepted the count is the number of items |
| Tushare.AcceptedRowsBound | src/fetchers/tushare.js:72 | the accepted rows are at most all rows, all of them when every batch is accepted, none when none is |
| Chunking.ChunksShape | src/fetchers/tushare.js:65-66 | chunks concatenate to the input, are full-sized except a non-empty last one, and number ⌈n/size⌉ |
| Chunking.ChunksUnique | src/intelligence/processor.js:67-69 | any slicing with that shape is the chunking |
| Chunking.ChunksAppend | scripts/migrate-stocks.js:64-69 | chunking a whole number of batches followed by more rows chunks the two parts separately |
| Chunking.CeilDivIsCeiling | src/ai/generator.js:39 | the chunk count is the least r with r·size >= n |
| Chunking.SliceLoop | src/intelligence/processor.js:67-69 | the `i += size` slicing loop yields the chunking |
| Generator.Chunk | src/ai/generator.js:39 | `Array.from` over ⌈n/size⌉ slices yields the chunking: it concatenates to the input, every chunk has 1 to size items, and only the last may be short; an empty input gives no chunk, with size 0 too |
| Generator.ChunkMatchesLoop | src/ai/generator.js:39 | the index-based slices equal the chunking |
| Generator.RunBatchRounds | src/ai/generator.js:39-41 | `runBatch`'s batches of 5 cover the items in order, each has 1 to 5 items, all but the last have 5, and an empty input gives none |

## Left out

- The `technicalindicators` library (SMA, MACD, RSI, Bollinger bands, ATR) is foreign code. Its output series are inputs, of length `len - offset` where a lemma needs it.
- The historical volatility arithmetic (logarithms, standard deviation, √252) uses floating point. Only its null prefix and its index alignment are modelled.
- Number formatting (`fmt`, `toFixed`), prompt texts, logging, timers and `Date` are not modelled. The same goes for the 15-day staleness check in `analyzeStock`.
- Database and network I/O is represented by parameters. This covers the stored-ticker lookup, whether a batch insert succeeds, the fetched channel items and the current time. Prisma, the HTTP clients and the LLM clients are not part of this model.
- `analyzeStock` calls `fetchHistory` and `fetchStockBasic`, which the Tushare module does not export. The call throws, is caught, and the local-database fallback runs. The fetch and that fallback are I/O and are not modelled.
- The JWT decoding and the route matcher of the middleware are not modelled; the token is given as `Option` of a role.
- `Promise.all` concurrency, the 8-second timeout race of `runBatch`, and the map/reduce LLM calls are not modelled. Only the chunking around them is.
- `localeCompare` on trade dates is modelled as code-unit lexicographic order, which agrees with it on the `YYYYMMDD` digit strings the data holds.
- JavaScript numbers are modelled as unbounded `real` (prices) and `int` (timestamps, lengths), with no rounding.
- Strings are sequences of `char`, which are Unicode scalar values. JavaScript's `length`, `substring` and the Levenshtein loop count UTF-16 code units instead. Both count alike for text in the Basic Multilingual Plane, which covers the Chinese headlines. A character outside it, an emoji for instance, is one `char` here but two code units in the source. For such text the 50-character title cut of `SynthesizeTitle`, the title lengths of the de-duplication and `Levenshtein` differ from the source, and a cut through a surrogate pair is not modelled.
- MigrateStocks.Migrate: `parseFloat` is a parameter, with NaN as `None`. The readline split of the file into lines is taken as given.
- MigrateStocks.Migrate: failures of the database write are not modelled (every batch write succeeds). A failing write ends the process just like a malformed line.
- Tushare.SaveDailyData: the case where the answer lacks a `fields` array (`fields.forEach` would throw) is not modelled. `fields` is always a list.
- Generator.Chunk: requires a positive size or an empty array. With size 0 an empty array gives `[]`. A non-empty array gives an infinite length, on which `Array.from` throws. The helper is only ever called with 5.
- Wallstreetcn.Normalize: a falsy `display_time` is modelled as 0; NaN display times are not modelled. `String(x.id)` is taken as the given string id, and the `raw` JSON copy is omitted.
- The de-duplication timestamps are integers; `Number(published_at)` of a non-numeric value (NaN) is not modelled.
- Saving the Wallstreetcn items (`saveItems`: the upserts, and the sentiment score they store) is persistence and is not modelled. The score itself is `Sentiment.Derive`.
