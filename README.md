# YouTubeToLLMSummarizer: a verified model of the summarisation core

This project models, in Dafny, the core of a batch pipeline that turns
YouTube transcripts into structured summaries:

- `chunkText` cuts a transcript into overlapping windows of 10000
  characters with 1000 characters of overlap.
- `main` of `src/summarize.ts` skips a transcript when the manifest
  already records the same transcript and configuration fingerprints.
  Otherwise it resumes the per-chunk extraction from the video's
  `<id>.chunks.jsonl` log and `<id>.checkpoint.json`. It calls the chunk
  model for each chunk not yet done, appending a record and rewriting the
  checkpoint after each. It stops after a `--max-chunks` sample, and stops
  when chunks are still missing. Finally it synthesises the summary,
  validates it against `SummarySchema`, writes `<id>.summary.json` and
  `<id>.md` (`toMarkdown`), and upserts the manifest entry.
- The lenient JSON slice (`extractJsonObject`, `safeParseJson`) takes the
  text from the first `{` to the last `}`.
- The `{{key}}` substitution loop of `loadPrompt` (`src/prompts.ts`) is
  modelled, including the ECMA-262 rules that give `$` a meaning in the
  replacement value (section 22.1.3.19.1, GetSubstitution).
- The transcript cleaners of `src/pull.ts` are modelled:
  - `vttToText` drops header, timing and cue lines, strips tags,
    collapses repeated lines and normalises white space;
  - `decodeEntities`, `stripXmlText` and `xmlToTranscript` handle
    timedtext XML;
  - the caption track preference sort and `findBestLocalVtt` (filter,
    sort in place, read the first file);
  - the links-file filter and `extractVideoId`.

Modules and what they hold:

- `Wrappers` holds `Option` and `Result`.
- `JsString` holds the ECMAScript string built-ins the source uses, over
  `seq<char>`, one `char` per UTF-16 code unit: `trim`, `\s+` collapsing,
  `indexOf`, `lastIndexOf`, `includes`, `startsWith`, `endsWith`, `split`,
  `join`, and `replaceAll` with GetSubstitution.
- `Seqs` holds `filter` and `map`.
- `Chunker`, `Json`, `Schema`, `Markdown`, `Manifest`, `Resume` and
  `Pipeline` cover `src/summarize.ts` and `src/manifest.ts`.
- `Vtt`, `Tags`, `TimedText`, `TrackOrder` and `Links` cover
  `src/pull.ts`.
- `Prompts` covers `src/prompts.ts`.

Code that updates state step by step is imperative Dafny:

- Loops are methods proved against a function: `ChunkText`, `VttToText`,
  `DedupLines`, `StripXmlText`, `ToMarkdown`, `LoadPrompt`, `SeedFromLog`
  and `ExtractChunks`.
- `Run`, the loop over the transcripts, is proved against the manifest it
  leaves: it stops at the first thrown error, every video it summarised is
  then skipped for the same fingerprints, and the entries of the other
  videos are untouched.
- The in-place insertion sort that stands for `Array.prototype.sort` works
  on an `array`.
- The manifest object is the class `ManifestStore`.
- The `out/` directory is the class `OutDir`. Its fields are the files the
  run writes.

The language models, `JSON.parse`, the URL parser, `sha256`, directory
listings, file reads and the clock are function parameters.

`chunkText` has no guard against `overlap >= maxChars`: with such an
overlap its loop never advances past a full window and never ends
(`Chunker.ProgressIffStride`). The model follows the code: `ChunkText`
requires `overlap < maxChars`, which the only caller meets with 10000 and
1000.

## Model

| member | source | states |
|---|---|---|
| Chunker.ChunkText | src/summarize.ts:123-134 | the loop returns exactly `Chunks(s, maxChars, overlap)`: `ChunkCount` windows, window `k` starting at `k * (maxChars - overlap)` and ending `maxChars` later or at the end of the text |
| Chunker.ProgressIffStride | src/summarize.ts:129-131 | from an offset whose window does not reach the end, the next offset is larger exactly when `overlap < maxChars`: the loop advances if and only if the stride is positive |
| Chunker.CountBounds | src/summarize.ts:126-131 | for a non-empty text the closed-form count `ceil((len - overlap) / (maxChars - overlap))` is at least one; its last window reaches the end and the one before it does not, which is where the loop stops |
| Chunker.ChunkSizes | src/summarize.ts:123-134 | an empty text gives no chunk, a text of at most `maxChars` characters is its own single chunk, and every chunk is non-empty and at most `maxChars` long |
| Chunker.LastChunkReachesEnd | src/summarize.ts:127-129 | the last chunk ends at the end of the text |
| Chunker.AdjacentChunksOverlap | src/summarize.ts:127-131 | every chunk but the last is full length, the next one starts `overlap` characters before its end, and the last `overlap` characters of a chunk are the first `overlap` characters of the next |
| Chunker.ChunksReassemble | src/summarize.ts:123-134 | the first chunk followed by every later chunk less its first `overlap` characters is the whole text: the chunks cover it losslessly |
| Chunker.ThreeChunksExample | src/summarize.ts:261 | a 25000-character transcript gives three chunks, `[0, 10000)`, `[9000, 19000)` and `[18000, 25000)` |
| Json.ExtractJsonObjectSpec | src/summarize.ts:21-26 | without a `{` before a `}` the text is returned unchanged; otherwise the result is the slice from the first `{` to the last `}` inclusive |
| Json.ExtractJsonObjectBraces | src/summarize.ts:21-26 | when the text holds a `{` before a `}`, the slice starts with `{` and ends with `}` |
| Json.SafeParseJson | src/summarize.ts:65-74 | a result is what `JSON.parse` gives for the extracted slice and is not `null`; no result means the parse threw or gave `null`, which the `??` that consumes it treats alike |
| Schema.ParseSummary | src/summarize.ts:103-120 | whatever the schema accepts came from an object with a string `overall_summary`, and it satisfies the evidence enum and the 1000/1000/10 array caps |
| Schema.ChangeRoundTrip | src/summarize.ts:109-116 | the JSON object of a behaviour change is accepted exactly when its evidence strength is `low`, `medium` or `high`, and it reads back unchanged |
| Schema.ChangeItemsRoundTrip | src/summarize.ts:107-118 | a written list of changes is accepted exactly when every evidence strength is in the enum, and then reads back unchanged |
| Schema.StringItemsRoundTrip | src/summarize.ts:106 | a written list of strings reads back unchanged |
| Schema.ScalarFieldsRoundTrip | src/summarize.ts:104-105 | the written `title` (absent when undefined) and `overall_summary` read back as they were |
| Schema.TakeawaysRoundTrip | src/summarize.ts:106 | the written `key_takeaways` read back unless there are more than 1000 |
| Schema.ChangesRoundTrip | src/summarize.ts:107-118 | the written `behavior_changes` read back unless one has a bad evidence strength or there are more than 1000 |
| Schema.QuotesRoundTrip | src/summarize.ts:119 | absent `notable_quotes` stay absent; present ones read back unless there are more than ten |
| Schema.SchemaRoundTrip | src/summarize.ts:103-120 | the schema accepts the JSON form of a summary if and only if the summary is valid, and then gives back the same summary |
| Markdown.PushChange | src/summarize.ts:205-211 | the loop body pushes exactly the block of one change |
| Markdown.PushTakeaways | src/summarize.ts:201 | the takeaway loop appends one `- ` bullet per takeaway, in order |
| Markdown.PushChanges | src/summarize.ts:204-212 | the change loop appends the blocks of the changes, in order |
| Markdown.ToMarkdown | src/summarize.ts:192-214 | the document is the newline join of `MarkdownLines`: header, overall summary, takeaways, then the change blocks |
| Markdown.TakeawayLines | src/summarize.ts:194-203 | line 0 is the title, line 1 the source, line 4 the overall summary, line 6 the takeaway heading; then each takeaway as a bullet at `7 + k`, a blank line, the change heading and exactly the change blocks |
| Markdown.BlockHeadings | src/summarize.ts:205-211 | the only `### ` line of a change block is the change's own heading |
| Markdown.ChangeHeadings | src/summarize.ts:204-212 | the `### ` lines of the change section are the changes' headings, one per change, in order |
| Markdown.OptionalLines | src/summarize.ts:209-210 | a block has a time-to-try line if and only if `time_to_try` is truthy, and a cautions line if and only if `cautions` is truthy; its length is 5 plus one for each |
| Markdown.TitleAndQuotesNotRendered | src/summarize.ts:192-214 | the title and the notable quotes do not change the document |
| Manifest.NoEntryNoSkip | src/manifest.ts:49-50 | without an entry for the video nothing is skipped, and the fallback empty manifest skips nothing |
| Manifest.SkipOnlyForRecordedPair | src/manifest.ts:43-52 | once a video is skipped for a fingerprint pair, it is skipped for another pair if and only if both fingerprints are equal |
| Manifest.UpsertSpec | src/manifest.ts:54-59 | the upserted entry is stored under its id, every other entry and the version are unchanged, the video is then skipped for the entry's fingerprints, and upserting twice is upserting once |
| Manifest.ManifestStore.UpsertEntry | src/manifest.ts:54-59 | the entries gain or replace the entry under its id and the version is unchanged |
| Manifest.ManifestStore.Load | src/manifest.ts:29-36 | the manifest read from disk, or `{ version: 1, entries: {} }` when it is missing or unreadable |
| Resume.FreshRecordExtraction | src/summarize.ts:312-325 | a record read back from the log stands for the same extraction as the fresh output it was written for |
| Resume.SeedDoneAppend | src/summarize.ts:292-293 | the done set of two blocks of records is the union of their done sets |
| Resume.SeedExtractionsKeys | src/summarize.ts:292-296 | the seeded extraction table has an entry exactly for the seeded indices |
| Resume.SeedExtractionsLastWins | src/summarize.ts:292-296 | the entry for an index is the extraction of the last record with that index |
| Resume.ToExtract | src/summarize.ts:303 | `chunksToExtract` is increasing and holds exactly the indices below the limit that are not done |
| Resume.ResumeToExtract | src/summarize.ts:303 | adding the first `k` indices of the to-do list to the done set leaves exactly the rest of the list |
| Resume.CompletedSucceed | src/summarize.ts:307-340 | every request before the completed count succeeded |
| Resume.CompletedStops | src/summarize.ts:307-340 | when not every chunk was completed, the request after the completed ones threw |
| Resume.NewRecords | src/summarize.ts:314-326 | one record per extracted chunk, carrying that chunk's index, in order |
| Resume.NewRecordsDone | src/summarize.ts:326 | the appended records mark exactly the extracted indices done |
| Resume.RunShape | src/summarize.ts:269-340 | a run's to-do list is what the seeded records leave undone below the limit, and its records are the seeded ones followed by one new record per completed chunk. The files are untouched when nothing was extracted; otherwise the log gains the new records and the checkpoint carries the run's fingerprints and done count |
| Resume.CompletedRunCoversLimit | src/summarize.ts:303-340 | when no request throws, every index below the limit is done, so the done set has at least `limit` members |
| Resume.SeedDoneAfterRun | src/summarize.ts:283-326 | the done set after a run is the seeded one plus the extracted indices |
| Resume.SeededAfterRun | src/summarize.ts:287-336 | from a clean start, what the next run seeds from is exactly what this run held in memory, and the files stay clean |
| Resume.ResumeAfterInterruption | src/summarize.ts:287-340 | after a run cut short, the next run extracts exactly the chunks the first did not; it never asks again for one already recorded, and it keeps the first run's records as its prefix |
| Resume.StaleLinesSurvive | src/summarize.ts:269-336 | as written, a run over a stale checkpoint that extracts anything leaves a reusable checkpoint above a log that still begins with the stale records; the next run seeds from them and skips their indices |
| Resume.StaleAppend | src/summarize.ts:323-336 | appending fresh records after stale ones makes the checkpoint reusable while the stale records stay first in the log |
| Resume.DiscardStaleKeepsLogConsistent | src/summarize.ts:272-281 | with stale files discarded, every record in the log was written under the checkpoint's fingerprints, and everything a run seeds from was written under the current fingerprints |
| Resume.DiscardStaleSeedsOnlyCurrent | src/summarize.ts:272-296 | with stale files discarded, every record the next run would seed from was written under the current fingerprints |
| Pipeline.ChunksToProcess | src/summarize.ts:221-222 | all chunks without `--max-chunks`; otherwise `min(total, max(1, n))`; never more than the total, and at least one when there is a chunk |
| Pipeline.ParseSynthesis | src/summarize.ts:162-189 | an accepted synthesis is a valid summary, parsed from the slice of the trimmed model output |
| Pipeline.ParseSynthesisAccepts | src/summarize.ts:184-188 | a model answer whose slice parses to the JSON of a valid summary is accepted as that summary |
| Pipeline.OutDir.AppendLine | src/summarize.ts:323 | the log gains the record at its end; no other file changes |
| Pipeline.OutDir.WriteCheckpoint | src/summarize.ts:328-336 | the checkpoint is replaced; no other file changes |
| Pipeline.SeedFromLog | src/summarize.ts:292-296 | the seeding loop gives the done set and the extraction table of the records |
| Pipeline.ResumeFromCheckpoint | src/summarize.ts:269-300 | seeding happens only under a reusable checkpoint, and stale files are dropped only when the discard switch is on |
| Pipeline.ExtractChunks | src/summarize.ts:303-340 | the extraction loop completes exactly the chunks before the first throwing request and appends their records. The done set, the table and the files are those of the seeded records plus the new ones |
| Pipeline.ExtractionPhase | src/summarize.ts:265-340 | the phase's to-do list, completed count, done set, table and files are those of `ExtractionRun` |
| Pipeline.WriteSummaryFiles | src/summarize.ts:369-370 | the summary JSON and the Markdown of the video are written, and the JSON re-validates to the same summary |
| Pipeline.WriteOutputs | src/summarize.ts:369-387 | additionally the manifest entry is upserted and saved, and the manifest then skips the video for the same fingerprints |
| Pipeline.ProcessVideo | src/summarize.ts:252-393 | a video is skipped exactly when `--force` is off and the manifest records both fingerprints, and nothing changes then. Otherwise the outcome is decided by the run, in the source's order, and only a summarised video touches the outputs and the manifest |
| Pipeline.SummarizeVideo | src/summarize.ts:261-393 | the outcome of a video after the manifest check: extraction failure, sample stop, incomplete, synthesis failure (with the debug dump) or summarised (with the outputs written) |
| Pipeline.ProcessVideoStep | src/summarize.ts:375-387 | only a summarised video changes the manifest, by upserting its entry |
| Pipeline.Run | src/summarize.ts:240-394 | the run stops at the first thrown error. Every video it summarised, unless a later one had the same id, is skipped by the manifest it leaves, and entries of videos it did not summarise are untouched |
| Vtt.CleanLine | src/pull.ts:123-135 | a kept line is non-empty with no white space at either end |
| Vtt.VttToText | src/pull.ts:117-145 | the two loops and the final join compute `VttText` |
| Vtt.DedupLines | src/pull.ts:138-142 | the de-duplication loop computes `Dedup` |
| Vtt.Dedup | src/pull.ts:138-142 | no two neighbours are equal, the result is empty only for an empty input, and it ends with the input's last line |
| Vtt.RunStartsSpec | src/pull.ts:138-142 | the run starts below `n` are increasing, and they are exactly the indices `i < n` with `i == 0` or `xs[i] != xs[i - 1]` |
| Vtt.DedupIsRunStarts | src/pull.ts:138-142 | the de-duplicated lines are `xs[i]` over the increasing run-start indices `i`, in order: every run of equal neighbours collapses to its first line and nothing else changes |
| Vtt.DedupSameLines | src/pull.ts:138-142 | de-duplication keeps every distinct line and adds none |
| Vtt.DedupFixpoint | src/pull.ts:138-142 | a list with no equal neighbours is unchanged |
| Vtt.DedupIdempotent | src/pull.ts:138-142 | de-duplicating twice is de-duplicating once |
| Vtt.DedupRepeat | src/pull.ts:138-142 | a line repeated at the end counts once |
| Vtt.TextLinesAppend | src/pull.ts:122-136 | lines are cleaned one by one: two blocks of lines give the text lines of the first, then those of the second |
| Vtt.TextLinesTrimmed | src/pull.ts:123-135 | every text line is non-empty and trimmed |
| Vtt.SkippedLineDropped | src/pull.ts:124-131 | a blank, `WEBVTT`, timing or numeric line contributes nothing |
| Vtt.PlainLineKept | src/pull.ts:133-135 | a line without tags that is not skipped contributes its trimmed form |
| Vtt.VttTextNormalized | src/pull.ts:144 | the transcript is in normal form, and it has the same non-white characters as the joined lines |
| Tags.NoTagUnchanged | src/pull.ts:134 | a text without `<` is left unchanged by tag stripping |
| Tags.TagReplaced | src/pull.ts:187 | a leading tag `<t>` is replaced by the replacement and the rest is processed after it |
| TimedText.DecodeWithoutAmpersand | src/pull.ts:164-175 | a text without `&` is unchanged by entity decoding |
| TimedText.EntityDecoded | src/pull.ts:164-175 | each of the nine entity references alone decodes to its character |
| TimedText.DoubleEscapedDecoded | src/pull.ts:164-175 | because `&amp;` is replaced first, every other reference written with its `&` escaped (`&amp;lt;`, `&amp;quot;`, …) decodes all the way to its character |
| TimedText.AmpLtDecoded | src/pull.ts:166-167 | `&amp;lt;` becomes `<`, not `&lt;` |
| TimedText.SegmentAt | src/pull.ts:181 | a match opens with `<text` at a word boundary, and its content ends at the first `</text>` |
| TimedText.NextSegment | src/pull.ts:181-183 | the next match lies after the search position and inside the text |
| TimedText.StripXmlText | src/pull.ts:177-193 | the `re.exec` loop computes `StripXml`: the cleaned non-empty contents of the matches in order |
| TimedText.StripXmlNormalized | src/pull.ts:186-190 | every pushed segment is non-empty and in normal form |
| TimedText.NoOpeningNoSegments | src/pull.ts:196 | without `<text` there is no match |
| TimedText.XmlToTranscriptSpec | src/pull.ts:195-200 | `null` exactly when no segment survives; otherwise the space join of the segments, non-empty and in normal form |
| TrackOrder.InsertInPlace | src/pull.ts:25-28 | one pass of the in-place sort inserts `a[i]` into the sorted prefix and leaves the rest of the array alone |
| TrackOrder.SortInPlace | src/pull.ts:25-28 | the sorted array is `SortByKey` of the original |
| TrackOrder.SortPermutes | src/pull.ts:230-235 | the sort is a permutation |
| TrackOrder.SortSorted | src/pull.ts:230-235 | the sort orders by non-decreasing score |
| TrackOrder.SortStable | src/pull.ts:230-235 | elements of equal score keep their order, as `Array.prototype.sort` guarantees |
| TrackOrder.PreferredTracksSpec | src/pull.ts:229-235 | the preferred order holds the same tracks, by non-decreasing score, with ties in list order |
| TrackOrder.EnglishHumanFirst | src/pull.ts:229-235 | when the list has an English track that is not speech recognition, the first such track is tried first |
| TrackOrder.FindBestLocalVtt | src/pull.ts:19-40 | filtering, sorting a copy in place and reading the first file compute `BestLocalVtt` |
| TrackOrder.BestLocalVttSpec | src/pull.ts:19-40 | a transcript found on disk is the non-empty cleaned text of a subtitle file of the video with the least score, the first of that score in directory order |
| Links.LinkLinesMembership | src/pull.ts:257-260 | a link is the trimmed form of some line and is usable, and every usable trimmed line is a link |
| Links.LinkLinesAppend | src/pull.ts:257-260 | the links of two blocks of lines are those of the first followed by those of the second, so the file order is kept |
| Links.LinksWellFormed | src/pull.ts:256-260 | every link is non-empty, trimmed and does not start with `#` |
| Links.QueryGet | src/pull.ts:158 | `searchParams.get` finds a value if and only if some pair has that name |
| Links.QueryGetFirst | src/pull.ts:158 | the value found is that of the first pair with that name |
| Links.ExtractVideoId | src/pull.ts:148-161 | an id returned is never empty |
| Links.RawIdTakenAsIs | src/pull.ts:149-150 | an 11-character id of `[a-zA-Z0-9_-]` is returned trimmed, whatever the URL parser does |
| Links.ShortLinkId | src/pull.ts:152-156 | for a `youtu.be` link the id is the path without its `/` |
| Links.WatchLinkId | src/pull.ts:152-160 | for any other host the id is the `v` query value, and an error when it is missing or empty |
| Prompts.Placeholder | src/prompts.ts:16 | `{{key}}` is the key between two opening and two closing braces |
| Prompts.LoadPrompt | src/prompts.ts:11-20 | the loop applies `replaceAll` for each variable in order |
| Prompts.NoPlaceholderUnchanged | src/prompts.ts:15-17 | a template without `{{` is returned as it is |
| Prompts.PlaceholdersDoNotOverlap | src/prompts.ts:16 | no placeholder starts inside an occurrence of a placeholder with a brace-free key; in particular two occurrences of one such placeholder do not overlap |
| Prompts.OtherPlaceholdersDisjoint | src/prompts.ts:16 | occurrences of the placeholders of two different brace-free keys never overlap |
| Prompts.OnlyOwnPlaceholder | src/prompts.ts:16 | in a template with one placeholder, a brace-free key matches only there and only when it is that placeholder's key |
| Prompts.StepKeepsPlaceholder | src/prompts.ts:16 | one `replaceAll` for another brace-free key, whatever its value, leaves an occurrence of `{{u}}` in the text |
| Prompts.UnknownPlaceholderSurvives | src/prompts.ts:15-17 | in any template, whatever the other placeholders and values, a placeholder whose brace-free key is not among the variables is still in the output |
| Prompts.UnknownPlaceholderKept | src/prompts.ts:15-17 | a template whose only `{` are those of one placeholder with an unknown key comes out exactly as it went in |
| Prompts.StepRule | src/prompts.ts:16 | a value without `$` replaces every occurrence, as a split-and-join; the length grows by the count of occurrences times the length difference |
| Prompts.PlaceholderAlone | src/prompts.ts:16 | the value is inserted through GetSubstitution |
| Prompts.LaterKeySubstituted | src/prompts.ts:15-17 | a value that holds a later key's placeholder is itself substituted: the order of the variables matters |
| Prompts.DecimalString | src/summarize.ts:138-139 | `String(n)` is a non-empty string of digits |
| Prompts.SinglePlaceholderSplit | src/prompts.ts:16 | a template with one placeholder splits into what is before and after it |
| Prompts.SinglePlaceholderReplaced | src/prompts.ts:16 | a template with one placeholder keeps what is before and after it, around the substituted value |
| Prompts.ChunkIndexAndCountKept | src/summarize.ts:137-141 | substituting `chunk_index` and `chunk_count` leaves a `{{chunk_text}}`-only template untouched |
| Prompts.ChunkPromptAsWritten | src/summarize.ts:137-141 | the chunk prompt as written inserts the chunk through GetSubstitution, not literally |
| Prompts.DollarInChunk | src/prompts.ts:16 | a chunk `$&` re-inserts the placeholder and a chunk `$$` becomes `$` |
| Prompts.RenderLiteralAgrees | src/prompts.ts:15-17 | the literal substitution agrees with the source whenever no value holds a `$` |
| Prompts.ChunkPromptLiteral | src/summarize.ts:137-141 | with literal substitution the chunk prompt holds the chunk text exactly |
| Prompts.LiteralStepKeepsPlaceholder | src/prompts.ts:16 | with literal insertion, one turn for another brace-free key leaves an occurrence of `{{u}}` in the text |
| Prompts.LiteralUnknownSurvives | src/prompts.ts:15-17 | with literal insertion too, in any template, a placeholder whose brace-free key is not among the variables is still in the output |
| Prompts.LiteralKept | src/prompts.ts:15-17 | with literal insertion, a template whose only `{` are those of one placeholder with an unknown key comes out exactly as it went in |
| JsString.TrimStart | src/pull.ts:123 | the result is a suffix, what it drops is white space, and it does not start with white space |
| JsString.TrimEnd | src/pull.ts:123 | the result is a prefix, what it drops is white space, and it does not end with white space |
| JsString.Trim | src/pull.ts:123 | the result is a slice whose outside is white space and whose ends are not |
| JsString.TrimFixpoint | src/pull.ts:134 | a string with no white space at its ends is its own trim |
| JsString.TrimKeepsVisible | src/pull.ts:123 | trimming removes no non-white character |
| JsString.CollapseWhiteSpace | src/pull.ts:144 | every run of white space becomes one space, and the empty string stays empty |
| JsString.CollapseKeepsVisible | src/pull.ts:144 | collapsing removes no non-white character |
| JsString.NormalizeSpec | src/pull.ts:144 | `replace(/\s+/g, " ").trim()` gives a normal form and keeps every non-white character |
| JsString.NormalizeFixpoint | src/pull.ts:144 | a normal-form string is unchanged |
| JsString.JoinNormalized | src/pull.ts:199 | space-joining non-empty normal-form parts gives a normal-form string, empty only for no parts |
| JsString.IndexOf | src/summarize.ts:22 | `indexOf` gives the first match at or after the start position, or -1 when there is none |
| JsString.LastIndexOfUpTo | src/summarize.ts:23 | `lastIndexOf` gives the last match, or -1 when there is none |
| JsString.ContainsIff | src/pull.ts:128 | `includes` holds if and only if the pattern occurs |
| JsString.SubstitutionLiteral | src/prompts.ts:16 | a replacement without `$` is inserted literally |
| JsString.ReplaceAllIsSplitJoin | src/prompts.ts:16 | `replaceAll` with a replacement without `$` is split-and-join |
| JsString.NoMatchUnchanged | src/pull.ts:166-174 | `replaceAll` of an absent pattern changes nothing |
| JsString.SplitFromLength | src/pull.ts:257-258 | the pieces of `split` and the separators between them account for every character |
| JsString.JoinLength | src/pull.ts:199 | a join is as long as its parts plus one separator between each |
| JsString.ReplaceAllLength | src/prompts.ts:16 | the length after `replaceAll` is the original plus the count of occurrences times the length difference |
| Seqs.FilterMembership | src/pull.ts:22 | `filter` keeps exactly the elements that satisfy the predicate |
| Seqs.FilterAppend | src/pull.ts:260 | filtering two blocks gives the filtered first block followed by the filtered second, so `filter` keeps the order |
| Seqs.Map | src/pull.ts:259 | `map` applies the function to each element, in place |

## Left out

- Network and process I/O are not modelled: the OpenAI client, `yt-dlp`, `fetch` of the timedtext and track-list endpoints, `readdir`, `readFile` and `writeFile`. The models and the file contents are function parameters, and the files `main` writes are fields of `OutDir`.
- `fetchTranscriptBestEffort`'s loop over the preferred tracks, `listCaptionTracks`, `parseTrackListXml`, `runYtDlpForSubs` and pull.ts's `main` are not modelled: they are network plumbing around the modelled cleaners and sort.
- `src/logger.ts` and `src/transcripts.ts` are not part of this model. Neither does anything the core's results depend on.
- `JSON.parse`, `JSON.stringify` and the WHATWG URL parser are not modelled: they are parameters. Reading a malformed line of the `.jsonl` log throws in the source and drops the whole log; the model reads a log as a list of records.
- `sha256`, `computeConfigSha` and the ISO timestamps are not modelled: they are parameters or left out. A timestamp does not affect any decision.
- Promise.all's concurrency is not modelled: the model runs the chunk requests one at a time in index order. In the source, requests already under way when one rejects may still append records. The model counts the chunks completed before the first failure.
- Pipeline.ProcessVideo: the synthesis failure is an outcome that ends the run, not a thrown exception. The stack trace and the exit code are not modelled.
- Pipeline.Run: the manifest is saved after every summarised video. The model keeps its last saved form in `OutDir.manifestFile` and does not model a crash during the write.
- Strings are sequences of UTF-16 code units. Surrogate pairs are not interpreted, and `toLowerCase` is modelled for ASCII letters only, which is all that `startsWith("en")` needs.
- `Object.entries` order is the order of the variable list given to `LoadPrompt`.
- Path joining is plain concatenation with `/`.
- Pipeline.ChunksToProcess takes `--max-chunks` as an optional number. A non-numeric value, which gives `NaN` in the source and so extracts nothing, is not modelled.
- Chunker.ChunkText requires `overlap < maxChars`. The source has no guard and loops forever otherwise (`Chunker.ProgressIffStride`). The only call passes 10000 and 1000.
- Json.SafeParseJson folds a parse that yields `null` into "no result". This is what every use of it does through `??`.
- Schema.ParseSummary models zod's field checks but not its error messages. It drops unknown keys, as `z.object` does.

## Findings

| source | as written | input that shows it | evidently intended | confidence | as-written member | corrected member |
|---|---|---|---|---|---|---|
| src/prompts.ts:15-17 | `text.replaceAll("{{key}}", value)` with a string value applies ECMA-262 GetSubstitution, so `$&`, `$$`, `` $` `` and `$'` in the value are patterns | a transcript chunk containing `$&`: the prompt gets `{{chunk_text}}` back instead of the chunk; `$$` becomes `$` | insert the value literally (`replaceAll(pattern, () => value)`) | not executed | Prompts.DollarInChunk | Prompts.ChunkPromptLiteral |
| src/summarize.ts:269-336 | a stale checkpoint only stops seeding; the old `.chunks.jsonl` is kept and the new records are appended after it, and the checkpoint is then rewritten with the new fingerprints | a full run after the transcript changed, interrupted after one chunk. The next run sees a reusable checkpoint, seeds from the stale records too, and never re-extracts their indices | a record written under other fingerprints is never seeded (the comment at line 272 says prior chunks are ignored). Dropping the stale log and checkpoint before extracting (`StartFiles` with the discard switch on) is one fix; it departs from the program's choice to leave deletion to the operator (lines 278-280) | not executed | Resume.StaleLinesSurvive | Resume.DiscardStaleSeedsOnlyCurrent |
