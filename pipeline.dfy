/**
 * `main` of src/summarize.ts: for each transcript, skip it when the
 * manifest already records both fingerprints, otherwise chunk it, resume
 * the chunk extraction from the video's log and checkpoint, stop after a
 * sample, synthesise the final summary and write the outputs and the
 * manifest entry. The out/ directory is a class whose fields are the files
 * the run writes; the language models, `JSON.parse`, `sha256` and the clock
 * are parameters.
 */
module Pipeline {
  import opened Wrappers
  import opened JsString
  import opened Json
  import opened Chunker
  import opened Manifest
  import opened Schema
  import opened Markdown
  import opened Resume

  /** The chunking parameters `main` passes to `chunkText`. */
  const MaxChars: nat := 10000
  const Overlap: nat := 1000

  /** A transcript file of data/. */
  datatype Video = Video(videoId: string, sourceUrl: string, transcript: string)

  /**
   * The final synthesis model: the chunk extractions and the source URL give
   * the model's `output_text`, or `None` when the request throws.
   */
  type Synthesizer = (map<int, Json>, string) -> Option<string>

  /** What became of one transcript. `ExtractionFailed` and `SynthesisFailed` are thrown errors that end the run. */
  datatype Outcome =
    | Skipped
    | SampleStop
    | Incomplete
    | ExtractionFailed
    | SynthesisFailed
    | Summarized(summary: FinalSummary)
  {
    predicate Throws() {
      ExtractionFailed? || SynthesisFailed?
    }
  }

  /**
   * `chunksToProcess`: all chunks without `--max-chunks`, otherwise at most
   * `max(1, n)` of them.
   */
  function ChunksToProcess(total: nat, maxChunks: Option<nat>): (r: nat)
    ensures r <= total
    ensures maxChunks.None? ==> r == total
    ensures maxChunks.Some? ==> r == Min(total, if maxChunks.value < 1 then 1 else maxChunks.value)
    ensures total > 0 ==> r > 0
  {
    match maxChunks
    case None => total
    case Some(n) => Min(total, if n < 1 then 1 else n)
  }

  /**
   * `synthesizeFinal` after the request: trim the output, slice it from the
   * first `{` to the last `}`, `JSON.parse` it and check it against the
   * schema. `None` is a throw; whatever comes back is valid.
   */
  function ParseSynthesis(parse: Parser, output: Option<string>): (r: Option<FinalSummary>)
    ensures r.Some? ==> Valid(r.value)
    ensures r.Some? ==> output.Some? && parse(ExtractJsonObject(Trim(output.value))).Some?
  {
    match output
    case None => None
    case Some(text) =>
      match parse(ExtractJsonObject(Trim(text)))
      case None => None
      case Some(j) => ParseSummary(j)
  }

  /** A model answer that is the JSON text of a valid summary is accepted as that summary. */
  lemma ParseSynthesisAccepts(parse: Parser, text: string, s: FinalSummary)
    requires Valid(s)
    requires parse(ExtractJsonObject(Trim(text))) == Some(SummaryToJson(s))
    ensures ParseSynthesis(parse, Some(text)) == Some(s)
  {
    SchemaRoundTrip(s);
  }

  /** The files of out/ that a run writes, and the in-memory `chunkExtractions` dumps. */
  class OutDir {
    /** `<id>.chunks.jsonl` and `<id>.checkpoint.json`, per video id. */
    var resume: map<string, VideoFiles>
    /** `<id>.summary.json`. */
    var summaryJson: map<string, Json>
    /** `<id>.md`. */
    var markdown: map<string, string>
    /** `<id>.chunk_extractions.json`, written when the synthesis fails. */
    var debugExtractions: map<string, map<int, Json>>
    /** `manifest.json`. */
    var manifestFile: Option<Manifest>

    constructor (resume: map<string, VideoFiles>)
      ensures this.resume == resume && summaryJson == map[] && markdown == map[]
      ensures debugExtractions == map[] && manifestFile == None
    {
      this.resume := resume;
      summaryJson := map[];
      markdown := map[];
      debugExtractions := map[];
      manifestFile := None;
    }

    /** The resume files of a video; a video without them has neither file. */
    function FilesOf(videoId: string): VideoFiles
      reads this
    {
      if videoId in resume then resume[videoId] else NoFiles
    }

    /** `appendFile` of one JSON line to `<id>.chunks.jsonl`. */
    method AppendLine(videoId: string, rec: ChunkRecord, fp: Fingerprint)
      modifies this
      ensures var f := old(FilesOf(videoId)); FilesOf(videoId) == f.(log := f.log + [rec], writers := f.writers + [fp])
      ensures resume - {videoId} == old(resume) - {videoId}
      ensures summaryJson == old(summaryJson) && markdown == old(markdown)
      ensures debugExtractions == old(debugExtractions) && manifestFile == old(manifestFile)
    {
      var f := FilesOf(videoId);
      resume := resume[videoId := f.(log := f.log + [rec], writers := f.writers + [fp])];
    }

    /** `writeFile` of `<id>.checkpoint.json`, replacing the previous one. */
    method WriteCheckpoint(videoId: string, cp: Checkpoint)
      modifies this
      ensures FilesOf(videoId) == old(FilesOf(videoId)).(checkpoint := Some(cp))
      ensures resume - {videoId} == old(resume) - {videoId}
      ensures summaryJson == old(summaryJson) && markdown == old(markdown)
      ensures debugExtractions == old(debugExtractions) && manifestFile == old(manifestFile)
    {
      var f := FilesOf(videoId);
      resume := resume[videoId := f.(checkpoint := Some(cp))];
    }
  }

  /** The seeding loop: every record marks its chunk done and sets its extraction. */
  method SeedFromLog(parse: Parser, records: seq<ChunkRecord>) returns (done: set<int>, extractions: map<int, Json>)
    ensures done == SeedDone(records)
    ensures extractions == SeedExtractions(parse, records)
  {
    done := {};
    extractions := map[];
    for j := 0 to |records|
      invariant done == SeedDone(records[..j])
      invariant extractions == SeedExtractions(parse, records[..j])
    {
      var r := records[j];
      done := done + {r.chunkIndex};
      extractions := extractions[r.chunkIndex := RecordExtraction(parse, r)];
      SeedPrefixStep(parse, records, j);
    }
    assert records[..|records|] == records;
  }

  /**
   * The extraction loop: for each chunk to extract, call the model, append
   * the record to the log, update the table and the done set, and rewrite
   * the checkpoint; a request that throws ends the loop.
   */
  method ExtractChunks(dir: OutDir, videoId: string, fp: Fingerprint, chunks: seq<string>, todo: seq<nat>,
                       done0: set<int>, extractions0: map<int, Json>, ghost seeded: seq<ChunkRecord>,
                       extract: ChunkExtractor, parse: Parser)
    returns (k: nat, done: set<int>, extractions: map<int, Json>)
    requires InRange(todo, |chunks|)
    requires done0 == SeedDone(seeded) && extractions0 == SeedExtractions(parse, seeded)
    modifies dir
    ensures k == Completed(extract, chunks, todo)
    ensures var recs := NewRecords(extract, parse, chunks, todo[..k]);
      && done == SeedDone(seeded + recs)
      && extractions == SeedExtractions(parse, seeded + recs)
      && dir.FilesOf(videoId) == Appended(old(dir.FilesOf(videoId)), videoId, fp, |chunks|, recs, |done|)
    ensures dir.resume - {videoId} == old(dir.resume) - {videoId}
    ensures dir.summaryJson == old(dir.summaryJson) && dir.markdown == old(dir.markdown)
    ensures dir.debugExtractions == old(dir.debugExtractions) && dir.manifestFile == old(dir.manifestFile)
  {
    ghost var start := dir.FilesOf(videoId);
    k, done, extractions := 0, done0, extractions0;
    ghost var recs: seq<ChunkRecord> := [];
    assert seeded + recs == seeded;
    assert todo[..0] == [];
    while k < |todo|
      invariant k <= |todo| && InRange(todo[..k], |chunks|)
      invariant forall j :: 0 <= j < k ==> CallOutput(extract, chunks, todo[j]).Some?
      invariant recs == NewRecords(extract, parse, chunks, todo[..k])
      invariant done == SeedDone(seeded + recs)
      invariant extractions == SeedExtractions(parse, seeded + recs)
      invariant dir.FilesOf(videoId) == Appended(start, videoId, fp, |chunks|, recs, |done|)
      invariant dir.resume - {videoId} == old(dir.resume) - {videoId}
      invariant dir.summaryJson == old(dir.summaryJson) && dir.markdown == old(dir.markdown)
      invariant dir.debugExtractions == old(dir.debugExtractions) && dir.manifestFile == old(dir.manifestFile)
    {
      var i := todo[k];
      var out := CallOutput(extract, chunks, i);
      if out.None? {
        break;
      }
      var rec := ChunkRecord(i, |chunks|, out.value, SafeParseJson(parse, out.value));
      NewRecordsSnoc(extract, parse, chunks, todo, k);
      dir.AppendLine(videoId, rec, fp);
      extractions := extractions[i := Extraction(parse, out.value)];
      done := done + {i};
      dir.WriteCheckpoint(videoId, Checkpoint(videoId, fp.transcriptSha, fp.configSha, |chunks|, |done|));
      FreshRecordExtraction(parse, i, |chunks|, out.value);
      SeedOneMore(parse, seeded, recs, rec);
      AppendedStep(start, videoId, fp, |chunks|, recs, rec, |done|);
      recs := recs + [rec];
      assert forall j :: 0 <= j < k + 1 ==> CallOutput(extract, chunks, todo[j]).Some? by {
        forall j | 0 <= j < k + 1 ensures CallOutput(extract, chunks, todo[j]).Some? {
          if j == k { assert todo[j] == i; }
        }
      }
      k := k + 1;
    }
    CompletedIs(extract, chunks, todo, k);
  }

  /** Seeding one record of the log more. */
  lemma SeedPrefixStep(parse: Parser, records: seq<ChunkRecord>, j: nat)
    requires j < |records|
    ensures SeedDone(records[..j + 1]) == SeedDone(records[..j]) + {records[j].chunkIndex}
    ensures SeedExtractions(parse, records[..j + 1])
         == SeedExtractions(parse, records[..j])[records[j].chunkIndex := RecordExtraction(parse, records[j])]
  {
    assert records[..j + 1] == records[..j] + [records[j]];
    assert records[..j + 1][..j] == records[..j];
    SeedDoneAppend(records[..j], [records[j]]);
  }

  /** Seeding one record more: the done set gains its index and the table its extraction. */
  lemma SeedOneMore(parse: Parser, seeded: seq<ChunkRecord>, recs: seq<ChunkRecord>, rec: ChunkRecord)
    ensures SeedDone(seeded + (recs + [rec])) == SeedDone(seeded + recs) + {rec.chunkIndex}
    ensures SeedExtractions(parse, seeded + (recs + [rec]))
         == SeedExtractions(parse, seeded + recs)[rec.chunkIndex := RecordExtraction(parse, rec)]
  {
    var records := seeded + recs;
    assert seeded + (recs + [rec]) == records + [rec];
    SeedDoneAppend(records, [rec]);
    assert (records + [rec])[..|records|] == records;
  }

  /** Appending one record more and rewriting the checkpoint. */
  lemma AppendedStep(start: VideoFiles, videoId: string, fp: Fingerprint, total: nat,
                     recs: seq<ChunkRecord>, rec: ChunkRecord, doneCount: nat)
    ensures var f := Appended(start, videoId, fp, total, recs, doneCount);
      Appended(start, videoId, fp, total, recs + [rec], doneCount)
      == VideoFiles(f.log + [rec], f.writers + [fp], Some(Checkpoint(videoId, fp.transcriptSha, fp.configSha, total, doneCount)))
  {
    if recs == [] {
      assert seq(1, _ => fp) == [fp];
    } else {
      assert seq(|recs| + 1, _ => fp) == seq(|recs|, _ => fp) + [fp];
    }
  }

  /** The manifest entry written for a summarised video. */
  function EntryFor(v: Video, transcriptSha: string, configSha: string, logDir: string, now: string): ManifestEntry {
    ManifestEntry(v.videoId, v.sourceUrl, transcriptSha, configSha, now,
                  Outputs("out/" + v.videoId + ".summary.json", "out/" + v.videoId + ".md",
                          logDir + "/" + v.videoId + ".log.json"))
  }

  /**
   * Reading the checkpoint of a video: its log is seeded from when the
   * checkpoint is reusable, and with `discardStale` set a stale pair of
   * files is discarded first.
   */
  method ResumeFromCheckpoint(dir: OutDir, videoId: string, fp: Fingerprint, parse: Parser, discardStale: bool)
    returns (seeded: seq<ChunkRecord>, done: set<int>, extractions: map<int, Json>)
    modifies dir
    ensures seeded == Seeded(old(dir.FilesOf(videoId)), fp)
    ensures done == SeedDone(seeded) && extractions == SeedExtractions(parse, seeded)
    ensures dir.FilesOf(videoId) == StartFiles(old(dir.FilesOf(videoId)), fp, discardStale)
    ensures dir.resume - {videoId} == old(dir.resume) - {videoId}
    ensures dir.summaryJson == old(dir.summaryJson) && dir.markdown == old(dir.markdown)
    ensures dir.debugExtractions == old(dir.debugExtractions) && dir.manifestFile == old(dir.manifestFile)
  {
    var existing := dir.FilesOf(videoId);
    var reusable := Reusable(existing.checkpoint, fp);
    seeded := if reusable then existing.log else [];
    if discardStale && !reusable {
      dir.resume := dir.resume[videoId := NoFiles];
    }
    done, extractions := SeedFromLog(parse, seeded);
  }

  /**
   * The extraction phase of one video: read the checkpoint, seed from the
   * log when it is reusable (discarding stale files first when
   * `discardStale` is set), and extract the chunks still to do.
   */
  method ExtractionPhase(dir: OutDir, videoId: string, fp: Fingerprint, chunks: seq<string>, limit: nat,
                         extract: ChunkExtractor, parse: Parser, discardStale: bool)
    returns (todo: seq<nat>, k: nat, done: set<int>, extractions: map<int, Json>)
    requires limit <= |chunks|
    modifies dir
    ensures var r := ExtractionRun(old(dir.FilesOf(videoId)), videoId, fp, chunks, limit, extract, parse, discardStale);
      && todo == r.todo && k == r.completed
      && done == SeedDone(r.records) && extractions == SeedExtractions(parse, r.records)
      && dir.FilesOf(videoId) == r.files
    ensures dir.resume - {videoId} == old(dir.resume) - {videoId}
    ensures dir.summaryJson == old(dir.summaryJson) && dir.markdown == old(dir.markdown)
    ensures dir.debugExtractions == old(dir.debugExtractions) && dir.manifestFile == old(dir.manifestFile)
  {
    ghost var files0 := dir.FilesOf(videoId);
    var seeded;
    seeded, done, extractions := ResumeFromCheckpoint(dir, videoId, fp, parse, discardStale);
    todo := ToExtract(limit, done);
    k, done, extractions := ExtractChunks(dir, videoId, fp, chunks, todo, done, extractions, seeded, extract, parse);
    RunShape(files0, videoId, fp, chunks, limit, extract, parse, discardStale);
  }

  /** Writing `<id>.summary.json` and `<id>.md` of a summarised video. */
  method WriteSummaryFiles(dir: OutDir, v: Video, s: FinalSummary)
    requires Valid(s)
    modifies dir
    ensures dir.summaryJson == old(dir.summaryJson)[v.videoId := SummaryToJson(s)]
    ensures ParseSummary(dir.summaryJson[v.videoId]) == Some(s)
    ensures dir.markdown == old(dir.markdown)[v.videoId := Join(MarkdownLines(s, v.sourceUrl), "\n")]
    ensures dir.resume == old(dir.resume) && dir.debugExtractions == old(dir.debugExtractions)
    ensures dir.manifestFile == old(dir.manifestFile)
  {
    dir.summaryJson := dir.summaryJson[v.videoId := SummaryToJson(s)];
    assert ParseSummary(SummaryToJson(s)) == Some(s) by {
      SchemaRoundTrip(s);
    }
    var md := ToMarkdown(s, v.sourceUrl);
    dir.markdown := dir.markdown[v.videoId := md];
  }

  /**
   * Writing the outputs of a summarised video: `<id>.summary.json`,
   * `<id>.md`, the manifest entry and `manifest.json`.
   */
  method WriteOutputs(dir: OutDir, manifest: ManifestStore, v: Video, s: FinalSummary, entry: ManifestEntry)
    requires Valid(s) && entry.videoId == v.videoId
    modifies dir, manifest
    ensures dir.summaryJson == old(dir.summaryJson)[v.videoId := SummaryToJson(s)]
    ensures ParseSummary(dir.summaryJson[v.videoId]) == Some(s)
    ensures dir.markdown == old(dir.markdown)[v.videoId := Join(MarkdownLines(s, v.sourceUrl), "\n")]
    ensures manifest.Snapshot() == Upserted(old(manifest.Snapshot()), entry)
    ensures ShouldSkip(manifest.Snapshot(), v.videoId, entry.transcriptSha, entry.configSha)
    ensures dir.manifestFile == Some(manifest.Snapshot())
    ensures dir.resume == old(dir.resume) && dir.debugExtractions == old(dir.debugExtractions)
  {
    WriteSummaryFiles(dir, v, s);
    manifest.UpsertEntry(entry);
    assert ShouldSkip(manifest.Snapshot(), v.videoId, entry.transcriptSha, entry.configSha) by {
      UpsertSpec(old(manifest.Snapshot()), entry);
    }
    dir.manifestFile := Some(manifest.Snapshot());
  }

  /**
   * One iteration of `main`'s loop. `discardStale` chooses what happens to
   * resume files whose checkpoint carries other fingerprints: `false` is
   * the program as written (they are kept and appended to), `true` deletes
   * them first.
   */
  method ProcessVideo(dir: OutDir, manifest: ManifestStore, v: Video, sha256: string -> string, configSha: string,
                      force: bool, maxChunks: Option<nat>, extract: ChunkExtractor, synthesize: Synthesizer,
                      parse: Parser, logDir: string, now: string, discardStale: bool)
    returns (outcome: Outcome)
    modifies dir, manifest
    ensures var fp := Fingerprint(sha256(v.transcript), configSha);
      && (outcome.Skipped? <==> !force && ShouldSkip(old(manifest.Snapshot()), v.videoId, fp.transcriptSha, configSha))
      && (outcome.Skipped? ==>
            dir.resume == old(dir.resume) && dir.summaryJson == old(dir.summaryJson) && dir.markdown == old(dir.markdown)
            && dir.debugExtractions == old(dir.debugExtractions) && dir.manifestFile == old(dir.manifestFile))
      && (!outcome.Skipped? ==>
            var chunks := Chunks(v.transcript, MaxChars, Overlap);
            var limit := ChunksToProcess(|chunks|, maxChunks);
            var r := ExtractionRun(old(dir.FilesOf(v.videoId)), v.videoId, fp, chunks, limit, extract, parse, discardStale);
            var extractions := SeedExtractions(parse, r.records);
            var summary := ParseSynthesis(parse, synthesize(extractions, v.sourceUrl));
            && dir.FilesOf(v.videoId) == r.files
            && dir.resume - {v.videoId} == old(dir.resume) - {v.videoId}
            && (outcome.ExtractionFailed? <==> r.completed < |r.todo|)
            && (outcome.SampleStop? <==> r.completed == |r.todo| && limit < |chunks|)
            && (outcome.Incomplete? <==> r.completed == |r.todo| && limit == |chunks| && |SeedDone(r.records)| < |chunks|)
            && (outcome.SynthesisFailed? <==>
                  r.completed == |r.todo| && limit == |chunks| && |SeedDone(r.records)| >= |chunks| && summary.None?)
            && (outcome.SynthesisFailed? ==> dir.debugExtractions == old(dir.debugExtractions)[v.videoId := extractions])
            && (!outcome.SynthesisFailed? ==> dir.debugExtractions == old(dir.debugExtractions))
            && (outcome.Summarized? ==>
                  && summary == Some(outcome.summary)
                  && Valid(outcome.summary)
                  && dir.summaryJson == old(dir.summaryJson)[v.videoId := SummaryToJson(outcome.summary)]
                  && ParseSummary(dir.summaryJson[v.videoId]) == Some(outcome.summary)
                  && dir.markdown == old(dir.markdown)[v.videoId := Join(MarkdownLines(outcome.summary, v.sourceUrl), "\n")]
                  && manifest.Snapshot() == Upserted(old(manifest.Snapshot()), EntryFor(v, fp.transcriptSha, configSha, logDir, now))
                  && dir.manifestFile == Some(manifest.Snapshot())
                  && ShouldSkip(manifest.Snapshot(), v.videoId, fp.transcriptSha, configSha)))
      && (!outcome.Summarized? ==>
            dir.summaryJson == old(dir.summaryJson) && dir.markdown == old(dir.markdown)
            && dir.manifestFile == old(dir.manifestFile) && manifest.Snapshot() == old(manifest.Snapshot()))
  {
    var fp := Fingerprint(sha256(v.transcript), configSha);
    if !force && ShouldSkip(manifest.Snapshot(), v.videoId, fp.transcriptSha, configSha) {
      return Skipped;
    }
    outcome := SummarizeVideo(dir, manifest, v, fp, maxChunks, extract, synthesize, parse, logDir, now, discardStale);
  }

  /**
   * The part of one iteration after the manifest check: chunk, extract,
   * check that every chunk is done, synthesise, validate and write.
   */
  method SummarizeVideo(dir: OutDir, manifest: ManifestStore, v: Video, fp: Fingerprint, maxChunks: Option<nat>,
                        extract: ChunkExtractor, synthesize: Synthesizer, parse: Parser, logDir: string, now: string,
                        discardStale: bool)
    returns (outcome: Outcome)
    modifies dir, manifest
    ensures !outcome.Skipped?
    ensures var chunks := Chunks(v.transcript, MaxChars, Overlap);
      var limit := ChunksToProcess(|chunks|, maxChunks);
      var r := ExtractionRun(old(dir.FilesOf(v.videoId)), v.videoId, fp, chunks, limit, extract, parse, discardStale);
      var extractions := SeedExtractions(parse, r.records);
      var summary := ParseSynthesis(parse, synthesize(extractions, v.sourceUrl));
      && dir.FilesOf(v.videoId) == r.files
      && dir.resume - {v.videoId} == old(dir.resume) - {v.videoId}
      && (outcome.ExtractionFailed? <==> r.completed < |r.todo|)
      && (outcome.SampleStop? <==> r.completed == |r.todo| && limit < |chunks|)
      && (outcome.Incomplete? <==> r.completed == |r.todo| && limit == |chunks| && |SeedDone(r.records)| < |chunks|)
      && (outcome.SynthesisFailed? <==>
            r.completed == |r.todo| && limit == |chunks| && |SeedDone(r.records)| >= |chunks| && summary.None?)
      && (outcome.SynthesisFailed? ==> dir.debugExtractions == old(dir.debugExtractions)[v.videoId := extractions])
      && (!outcome.SynthesisFailed? ==> dir.debugExtractions == old(dir.debugExtractions))
      && (outcome.Summarized? ==>
            && summary == Some(outcome.summary)
            && Valid(outcome.summary)
            && dir.summaryJson == old(dir.summaryJson)[v.videoId := SummaryToJson(outcome.summary)]
            && ParseSummary(dir.summaryJson[v.videoId]) == Some(outcome.summary)
            && dir.markdown == old(dir.markdown)[v.videoId := Join(MarkdownLines(outcome.summary, v.sourceUrl), "\n")]
            && manifest.Snapshot() == Upserted(old(manifest.Snapshot()), EntryFor(v, fp.transcriptSha, fp.configSha, logDir, now))
            && dir.manifestFile == Some(manifest.Snapshot())
            && ShouldSkip(manifest.Snapshot(), v.videoId, fp.transcriptSha, fp.configSha))
    ensures !outcome.Summarized? ==>
      dir.summaryJson == old(dir.summaryJson) && dir.markdown == old(dir.markdown)
      && dir.manifestFile == old(dir.manifestFile) && manifest.Snapshot() == old(manifest.Snapshot())
  {
    var chunks := ChunkText(v.transcript, MaxChars, Overlap);
    var limit := ChunksToProcess(|chunks|, maxChunks);
    var todo, k, done, extractions := ExtractionPhase(dir, v.videoId, fp, chunks, limit, extract, parse, discardStale);
    if k < |todo| {
      return ExtractionFailed;
    }
    if limit < |chunks| {
      return SampleStop;
    }
    if |done| < |chunks| {
      return Incomplete;
    }

    var output := synthesize(extractions, v.sourceUrl);
    var summary := ParseSynthesis(parse, output);
    if summary.None? {
      dir.debugExtractions := dir.debugExtractions[v.videoId := extractions];
      return SynthesisFailed;
    }
    WriteOutputs(dir, manifest, v, summary.value, EntryFor(v, fp.transcriptSha, fp.configSha, logDir, now));
    return Summarized(summary.value);
  }

  /** `ProcessVideo` seen from the manifest: only a summarised video changes it, by upserting its entry. */
  method ProcessVideoStep(dir: OutDir, manifest: ManifestStore, v: Video, sha256: string -> string, configSha: string,
                          force: bool, maxChunks: Option<nat>, extract: ChunkExtractor, synthesize: Synthesizer,
                          parse: Parser, logDir: string, now: string, discardStale: bool)
    returns (outcome: Outcome)
    modifies dir, manifest
    ensures outcome.Summarized? ==>
      manifest.Snapshot() == Upserted(old(manifest.Snapshot()), EntryFor(v, sha256(v.transcript), configSha, logDir, now))
    ensures !outcome.Summarized? ==> manifest.Snapshot() == old(manifest.Snapshot())
  {
    outcome := ProcessVideo(dir, manifest, v, sha256, configSha, force, maxChunks, extract, synthesize,
                            parse, logDir, now, discardStale);
  }

  /** Video `j` was summarised and no later video of the run summarised the same id. */
  predicate LastSummarized(videos: seq<Video>, outcomes: seq<Outcome>, j: nat)
    requires |outcomes| <= |videos|
  {
    && j < |outcomes| && outcomes[j].Summarized?
    && forall j' :: j < j' < |outcomes| && outcomes[j'].Summarized? ==> videos[j'].videoId != videos[j].videoId
  }

  /**
   * `main`'s loop over the transcripts. A thrown error ends the run (the
   * outcomes stop at it); `clock(j)` is the time the `j`-th video is
   * recorded at. Every video the run summarised, unless a later one
   * summarised the same id, is skipped by the manifest the run leaves:
   * running again with the same transcripts and configuration does no
   * work for it.
   */
  method Run(dir: OutDir, manifest: ManifestStore, videos: seq<Video>, sha256: string -> string, configSha: string,
             force: bool, maxChunks: Option<nat>, extract: ChunkExtractor, synthesize: Synthesizer,
             parse: Parser, logDir: string, clock: nat -> string, discardStale: bool)
    returns (outcomes: seq<Outcome>)
    modifies dir, manifest
    ensures |outcomes| <= |videos|
    ensures forall j :: 0 <= j < |outcomes| - 1 ==> !outcomes[j].Throws()
    ensures |outcomes| < |videos| ==> outcomes != [] && outcomes[|outcomes| - 1].Throws()
    ensures forall j :: 0 <= j < |outcomes| && LastSummarized(videos, outcomes, j) ==>
      ShouldSkip(manifest.Snapshot(), videos[j].videoId, sha256(videos[j].transcript), configSha)
    ensures forall id :: (forall j :: 0 <= j < |outcomes| && outcomes[j].Summarized? ==> videos[j].videoId != id) ==>
      (id in manifest.entries <==> id in old(manifest.entries))
      && (id in old(manifest.entries) ==> manifest.entries[id] == old(manifest.entries)[id])
  {
    outcomes := [];
    var i := 0;
    while i < |videos|
      invariant i <= |videos| && |outcomes| == i
      invariant forall j :: 0 <= j < i ==> !outcomes[j].Throws()
      invariant forall j :: 0 <= j < i && LastSummarized(videos, outcomes, j) ==>
        ShouldSkip(manifest.Snapshot(), videos[j].videoId, sha256(videos[j].transcript), configSha)
      invariant forall id :: (forall j :: 0 <= j < i && outcomes[j].Summarized? ==> videos[j].videoId != id) ==>
        (id in manifest.entries <==> id in old(manifest.entries))
        && (id in old(manifest.entries) ==> manifest.entries[id] == old(manifest.entries)[id])
    {
      var v := videos[i];
      ghost var before := manifest.Snapshot();
      var o := ProcessVideoStep(dir, manifest, v, sha256, configSha, force, maxChunks, extract, synthesize,
                                parse, logDir, clock(i), discardStale);
      if o.Summarized? {
        UpsertSpec(before, EntryFor(v, sha256(v.transcript), configSha, logDir, clock(i)));
      }
      outcomes := outcomes + [o];
      i := i + 1;
      if o.Throws() {
        return;
      }
    }
  }
}
