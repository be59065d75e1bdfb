/**
 * The resumable chunk extraction of `main` (src/summarize.ts): the
 * `<id>.chunks.jsonl` log and `<id>.checkpoint.json` file of one video, the
 * seeding of the done set and the extraction table from them, the chunks
 * still to extract, and the files after one run. The functions here are
 * what the imperative pipeline is proved to compute; the lemmas relate
 * successive runs.
 */
module Resume {
  import opened Wrappers
  import opened JsString
  import opened Json

  /** The two fingerprints a run works under: the transcript's and the configuration's `sha256`. */
  datatype Fingerprint = Fingerprint(transcriptSha: string, configSha: string)

  /** One line of `<id>.chunks.jsonl`; `parsed` is absent when the output did not parse. */
  datatype ChunkRecord = ChunkRecord(chunkIndex: int, totalChunks: nat, extractedText: string, parsed: Option<Json>)

  /** `<id>.checkpoint.json` (the timestamp is left out). */
  datatype Checkpoint = Checkpoint(
    videoId: string,
    transcriptSha: string,
    configSha: string,
    totalChunks: nat,
    completedChunkCount: nat)

  /**
   * The two resume files of one video. `writers[k]` records the
   * fingerprints of the run that appended `log[k]`: it is not on disk, it
   * lets the model say which transcript a line was extracted from.
   */
  datatype VideoFiles = VideoFiles(log: seq<ChunkRecord>, writers: seq<Fingerprint>, checkpoint: Option<Checkpoint>)

  const NoFiles := VideoFiles([], [], None)

  /** The checkpoint exists and carries both current fingerprints. */
  predicate Reusable(cp: Option<Checkpoint>, fp: Fingerprint) {
    cp.Some? && cp.value.transcriptSha == fp.transcriptSha && cp.value.configSha == fp.configSha
  }

  /** The records the done set is seeded from: the whole log when the checkpoint is reusable, none otherwise. */
  function Seeded(f: VideoFiles, fp: Fingerprint): seq<ChunkRecord> {
    if Reusable(f.checkpoint, fp) then f.log else []
  }

  /** `doneIdx` after seeding: the indices of the records. */
  function SeedDone(records: seq<ChunkRecord>): set<int> {
    set r | r in records :: r.chunkIndex
  }

  /** `{ raw: text }`, what stands for an output that did not parse. */
  function RawWrapper(text: string): Json {
    JObject(map["raw" := JString(text)])
  }

  /** `parsed ?? { raw: out }` for a fresh output. */
  function Extraction(parse: Parser, out: string): Json {
    match SafeParseJson(parse, out)
    case Some(j) => j
    case None => RawWrapper(out)
  }

  /** `r.parsed ?? safeParseJson(r.extractedText) ?? { raw: r.extractedText }` for a record read back. */
  function RecordExtraction(parse: Parser, r: ChunkRecord): Json {
    if r.parsed.Some? && r.parsed.value != JNull then r.parsed.value else Extraction(parse, r.extractedText)
  }

  /** Read back, a fresh record stands for the same extraction as the output it was made from. */
  lemma FreshRecordExtraction(parse: Parser, i: int, total: nat, out: string)
    ensures RecordExtraction(parse, ChunkRecord(i, total, out, SafeParseJson(parse, out))) == Extraction(parse, out)
  {
  }

  /** `chunkExtractions` after seeding from the records in order: a later record overwrites an earlier one. */
  function SeedExtractions(parse: Parser, records: seq<ChunkRecord>): map<int, Json> {
    if records == [] then map[]
    else
      var last := records[|records| - 1];
      SeedExtractions(parse, records[..|records| - 1])[last.chunkIndex := RecordExtraction(parse, last)]
  }

  /** The seeded table has an entry for exactly the seeded indices. */
  lemma {:induction false} SeedExtractionsKeys(parse: Parser, records: seq<ChunkRecord>)
    ensures SeedExtractions(parse, records).Keys == SeedDone(records)
  {
    if records != [] {
      var init := records[..|records| - 1];
      SeedExtractionsKeys(parse, init);
      assert records == init + [records[|records| - 1]];
      SeedDoneAppend(init, [records[|records| - 1]]);
    }
  }

  /** The entry of an index comes from the last record carrying it. */
  lemma {:induction false} SeedExtractionsLastWins(parse: Parser, records: seq<ChunkRecord>, k: nat)
    requires k < |records|
    requires forall k' :: k < k' < |records| ==> records[k'].chunkIndex != records[k].chunkIndex
    ensures records[k].chunkIndex in SeedExtractions(parse, records)
    ensures SeedExtractions(parse, records)[records[k].chunkIndex] == RecordExtraction(parse, records[k])
  {
    var init := records[..|records| - 1];
    if k < |records| - 1 {
      SeedExtractionsLastWins(parse, init, k);
    }
  }

  lemma SeedDoneAppend(a: seq<ChunkRecord>, b: seq<ChunkRecord>)
    ensures SeedDone(a + b) == SeedDone(a) + SeedDone(b)
  {
    assert forall r :: r in a + b <==> r in a || r in b;
  }

  /** The chunk indices are strictly increasing. */
  predicate Increasing(xs: seq<nat>) {
    forall i, j :: 0 <= i < j < |xs| ==> xs[i] < xs[j]
  }

  /**
   * `chunksToExtract`: the indices below `limit` that are not done, in
   * ascending order.
   */
  function ToExtract(limit: nat, done: set<int>): (r: seq<nat>)
    ensures Increasing(r)
    ensures forall x: int :: x in r <==> 0 <= x < limit && x !in done
    ensures forall j :: 0 <= j < |r| ==> r[j] < limit
  {
    if limit == 0 then []
    else ToExtract(limit - 1, done) + (if limit - 1 in done then [] else [limit - 1])
  }

  /** Two strictly increasing sequences with the same members start with the same, least, member. */
  lemma IncreasingHead(a: seq<nat>, b: seq<nat>)
    requires Increasing(a) && Increasing(b) && a != []
    requires forall x :: x in a <==> x in b
    ensures b != [] && a[0] == b[0]
  {
    assert a[0] in b;
    var j :| 0 <= j < |b| && b[j] == a[0];
    assert b[0] in a;
    var i :| 0 <= i < |a| && a[i] == b[0];
    assert a[0] <= a[i] == b[0] <= b[j] == a[0];
  }

  /** Dropping the common head keeps the members equal. */
  lemma IncreasingTails(a: seq<nat>, b: seq<nat>)
    requires Increasing(a) && Increasing(b) && a != [] && b != [] && a[0] == b[0]
    requires forall x :: x in a <==> x in b
    ensures forall x :: x in a[1..] <==> x in b[1..]
  {
    forall x ensures x in a[1..] ==> x in b[1..] {
      if x in a[1..] {
        var j :| 0 <= j < |a[1..]| && a[1..][j] == x;
        assert a[j + 1] == x;
        assert x in b;
        var i :| 0 <= i < |b| && b[i] == x;
        assert i != 0;
        assert b[1..][i - 1] == x;
      }
    }
    forall x ensures x in b[1..] ==> x in a[1..] {
      if x in b[1..] {
        var j :| 0 <= j < |b[1..]| && b[1..][j] == x;
        assert b[j + 1] == x;
        assert x in a;
        var i :| 0 <= i < |a| && a[i] == x;
        assert i != 0;
        assert a[1..][i - 1] == x;
      }
    }
  }

  /** Two strictly increasing sequences with the same members are equal. */
  lemma {:induction false} IncreasingUnique(a: seq<nat>, b: seq<nat>)
    requires Increasing(a) && Increasing(b)
    requires forall x :: x in a <==> x in b
    ensures a == b
  {
    assert b != [] ==> b[0] in b;
    if a != [] {
      IncreasingHead(a, b);
      IncreasingTails(a, b);
      assert Increasing(a[1..]) && Increasing(b[1..]);
      IncreasingUnique(a[1..], b[1..]);
      assert a == [a[0]] + a[1..] && b == [b[0]] + b[1..];
    }
  }

  /** The chunk indices in a to-do list, as a set. */
  function Indices(todo: seq<nat>): set<int> {
    set x: int | x in todo
  }

  /** Removing the first `k` members from the set an increasing list enumerates leaves its tail. */
  lemma DropDone(todo: seq<nat>, r: seq<nat>, limit: nat, done: set<int>, k: nat)
    requires k <= |todo| && Increasing(todo) && Increasing(r)
    requires forall x: int :: x in todo <==> 0 <= x < limit && x !in done
    requires forall x: int :: x in r <==> 0 <= x < limit && x !in done + Indices(todo[..k])
    ensures r == todo[k..]
  {
    forall i | k <= i < |todo| ensures todo[i] in r {
      forall j | 0 <= j < k ensures todo[..k][j] != todo[i] {
        assert todo[j] < todo[i];
      }
      assert todo[i] in todo;
    }
    forall y | y in r ensures y in todo[k..] {
      var i :| 0 <= i < |todo| && todo[i] == y;
      forall j | 0 <= j < k ensures todo[j] != y {
        assert todo[..k][j] in todo[..k];
      }
      assert todo[k..][i - k] == y;
    }
    IncreasingUnique(r, todo[k..]);
  }

  /**
   * Marking the first `k` chunks of the to-do list as done leaves exactly
   * the rest of the list, in the same order.
   */
  lemma ResumeToExtract(limit: nat, done: set<int>, k: nat)
    requires k <= |ToExtract(limit, done)|
    ensures var todo := ToExtract(limit, done);
      ToExtract(limit, done + Indices(todo[..k])) == todo[k..]
  {
    var todo := ToExtract(limit, done);
    DropDone(todo, ToExtract(limit, done + Indices(todo[..k])), limit, done, k);
  }

  /**
   * The chunk extractor: chunk text, 0-based index and chunk count give the
   * model's `output_text`, or `None` when the request throws (which also
   * stands for the process being interrupted there).
   */
  type ChunkExtractor = (string, nat, nat) -> Option<string>

  /** `extractChunk`: the trimmed output for chunk `i`. */
  function CallOutput(extract: ChunkExtractor, chunks: seq<string>, i: nat): Option<string>
    requires i < |chunks|
  {
    match extract(chunks[i], i, |chunks|)
    case Some(text) => Some(Trim(text))
    case None => None
  }

  predicate InRange(todo: seq<nat>, n: nat) {
    forall j :: 0 <= j < |todo| ==> todo[j] < n
  }

  /** How many chunks of the to-do list are extracted before the first request that throws. */
  function Completed(extract: ChunkExtractor, chunks: seq<string>, todo: seq<nat>): (k: nat)
    requires InRange(todo, |chunks|)
    ensures k <= |todo|
  {
    if todo == [] || CallOutput(extract, chunks, todo[0]).None? then 0
    else 1 + Completed(extract, chunks, todo[1..])
  }

  /** Every request before the `Completed` count succeeds. */
  lemma {:induction false} CompletedSucceed(extract: ChunkExtractor, chunks: seq<string>, todo: seq<nat>)
    requires InRange(todo, |chunks|)
    ensures forall j :: 0 <= j < Completed(extract, chunks, todo) ==> CallOutput(extract, chunks, todo[j]).Some?
  {
    if todo != [] && CallOutput(extract, chunks, todo[0]).Some? {
      var rest := todo[1..];
      CompletedSucceed(extract, chunks, rest);
      forall j | 0 <= j < Completed(extract, chunks, todo)
        ensures CallOutput(extract, chunks, todo[j]).Some?
      {
        if j > 0 {
          assert todo[j] == rest[j - 1];
        }
      }
    }
  }

  /** The request after the last one counted by `Completed`, if any, throws. */
  lemma {:induction false} CompletedStops(extract: ChunkExtractor, chunks: seq<string>, todo: seq<nat>)
    requires InRange(todo, |chunks|)
    ensures Completed(extract, chunks, todo) < |todo| ==> CallOutput(extract, chunks, todo[Completed(extract, chunks, todo)]).None?
  {
    if todo != [] && CallOutput(extract, chunks, todo[0]).Some? {
      var rest := todo[1..];
      CompletedStops(extract, chunks, rest);
      var c := Completed(extract, chunks, rest);
      if c < |rest| {
        assert todo[c + 1] == rest[c];
      }
    }
  }

  /** `Completed` is the one count whose calls all succeed and whose next call, if any, throws. */
  lemma {:induction false} CompletedIs(extract: ChunkExtractor, chunks: seq<string>, todo: seq<nat>, k: nat)
    requires InRange(todo, |chunks|) && k <= |todo|
    requires forall j :: 0 <= j < k ==> CallOutput(extract, chunks, todo[j]).Some?
    requires k < |todo| ==> CallOutput(extract, chunks, todo[k]).None?
    ensures Completed(extract, chunks, todo) == k
  {
    CompletedSucceed(extract, chunks, todo);
    CompletedStops(extract, chunks, todo);
  }

  /** The record appended for chunk `i` with output `out`. */
  function NewRecord(parse: Parser, chunks: seq<string>, i: nat, out: string): ChunkRecord {
    ChunkRecord(i, |chunks|, out, SafeParseJson(parse, out))
  }

  /** The records appended for the chunks of `todo`, in order. */
  function NewRecords(extract: ChunkExtractor, parse: Parser, chunks: seq<string>, todo: seq<nat>): (r: seq<ChunkRecord>)
    requires InRange(todo, |chunks|)
    ensures |r| == |todo|
    ensures forall j :: 0 <= j < |r| ==> r[j].chunkIndex == todo[j]
  {
    seq(|todo|, j requires 0 <= j < |todo| => NewRecord(parse, chunks, todo[j], CallOutput(extract, chunks, todo[j]).GetOr("")))
  }

  /** A prefix of an in-range to-do list is in range. */
  lemma InRangePrefix(todo: seq<nat>, n: nat, k: nat)
    requires InRange(todo, n) && k <= |todo|
    ensures InRange(todo[..k], n)
  {
  }

  /** The records of one more chunk of the to-do list: one more record at the end. */
  lemma NewRecordsSnoc(extract: ChunkExtractor, parse: Parser, chunks: seq<string>, todo: seq<nat>, k: nat)
    requires InRange(todo, |chunks|) && k < |todo|
    ensures InRange(todo[..k], |chunks|) && InRange(todo[..k + 1], |chunks|)
    ensures NewRecords(extract, parse, chunks, todo[..k + 1])
         == NewRecords(extract, parse, chunks, todo[..k]) + [NewRecord(parse, chunks, todo[k], CallOutput(extract, chunks, todo[k]).GetOr(""))]
  {
    InRangePrefix(todo, |chunks|, k);
    InRangePrefix(todo, |chunks|, k + 1);
  }

  lemma NewRecordsDone(extract: ChunkExtractor, parse: Parser, chunks: seq<string>, todo: seq<nat>)
    requires InRange(todo, |chunks|)
    ensures SeedDone(NewRecords(extract, parse, chunks, todo)) == Indices(todo)
  {
    var recs := NewRecords(extract, parse, chunks, todo);
    forall x ensures x in SeedDone(recs) <==> x in Indices(todo) {
      if x in SeedDone(recs) {
        var r :| r in recs && r.chunkIndex == x;
        var j :| 0 <= j < |recs| && recs[j] == r;
        assert todo[j] as int == x;
      }
      if x in Indices(todo) {
        var j :| 0 <= j < |todo| && todo[j] == x;
        assert recs[j] in recs;
      }
    }
  }

  /** What one run leaves behind and works with. */
  datatype RunResult = RunResult(
    files: VideoFiles,            // the two files after the run
    records: seq<ChunkRecord>,    // seeded records then the new ones: what `doneIdx` and `chunkExtractions` hold
    todo: seq<nat>,               // `chunksToExtract`
    completed: nat)               // how many of them were extracted

  /**
   * The resume files before extraction starts. As written the old files
   * are kept whatever the checkpoint says; with `discardStale` a checkpoint
   * that is not reusable discards both files.
   */
  function StartFiles(f: VideoFiles, fp: Fingerprint, discardStale: bool): VideoFiles {
    if discardStale && !Reusable(f.checkpoint, fp) then NoFiles else f
  }

  /**
   * The files after appending `recs` one by one, each append followed by a
   * checkpoint write; the last checkpoint written counts `doneCount` chunks.
   */
  function Appended(start: VideoFiles, videoId: string, fp: Fingerprint, totalChunks: nat,
                    recs: seq<ChunkRecord>, doneCount: nat): VideoFiles {
    if recs == [] then start
    else VideoFiles(start.log + recs, start.writers + seq(|recs|, _ => fp),
                    Some(Checkpoint(videoId, fp.transcriptSha, fp.configSha, totalChunks, doneCount)))
  }

  /**
   * One run of the extraction phase over `chunks` with at most `limit`
   * chunks to process: seed, extract the missing ones until a request
   * throws, appending a record and rewriting the checkpoint after each.
   */
  function ExtractionRun(f: VideoFiles, videoId: string, fp: Fingerprint, chunks: seq<string>, limit: nat,
                         extract: ChunkExtractor, parse: Parser, discardStale: bool): (r: RunResult)
    requires limit <= |chunks|
    ensures InRange(r.todo, |chunks|) && r.completed <= |r.todo|
  {
    var seeded := Seeded(f, fp);
    var start := StartFiles(f, fp, discardStale);
    var todo := ToExtract(limit, SeedDone(seeded));
    var k := Completed(extract, chunks, todo);
    var recs := NewRecords(extract, parse, chunks, todo[..k]);
    RunResult(Appended(start, videoId, fp, |chunks|, recs, |SeedDone(seeded + recs)|), seeded + recs, todo, k)
  }

  lemma {:induction false} RangeCardinality(limit: nat, s: set<int>)
    requires forall i :: 0 <= i < limit ==> i in s
    ensures |s| >= limit
  {
    if limit > 0 {
      RangeCardinality(limit - 1, s - {limit - 1});
    }
  }

  /**
   * A run whose requests all succeed leaves every chunk below the limit
   * done, so when the limit is the chunk count the done set has at least
   * that many indices: the "Incomplete" branch of `main` is not taken.
   */
  lemma CompletedRunCoversLimit(f: VideoFiles, videoId: string, fp: Fingerprint, chunks: seq<string>, limit: nat,
                                extract: ChunkExtractor, parse: Parser, discardStale: bool)
    requires limit <= |chunks|
    requires var r := ExtractionRun(f, videoId, fp, chunks, limit, extract, parse, discardStale); r.completed == |r.todo|
    ensures var r := ExtractionRun(f, videoId, fp, chunks, limit, extract, parse, discardStale);
      (forall i :: 0 <= i < limit ==> i in SeedDone(r.records)) && |SeedDone(r.records)| >= limit
  {
    var r := ExtractionRun(f, videoId, fp, chunks, limit, extract, parse, discardStale);
    var seeded := Seeded(f, fp);
    var recs := NewRecords(extract, parse, chunks, r.todo[..r.completed]);
    assert r.records == seeded + recs;
    SeedDoneAppend(seeded, recs);
    NewRecordsDone(extract, parse, chunks, r.todo[..r.completed]);
    forall i | 0 <= i < limit ensures i in SeedDone(r.records) {
      if i !in SeedDone(seeded) {
        assert i in r.todo;
        var j :| 0 <= j < |r.todo| && r.todo[j] == i;
        assert r.todo[..r.completed][j] as int == i;
      }
    }
    RangeCardinality(limit, SeedDone(r.records));
  }

  /** The parts of a run, one by one. */
  lemma RunShape(f: VideoFiles, videoId: string, fp: Fingerprint, chunks: seq<string>, limit: nat,
                 extract: ChunkExtractor, parse: Parser, discardStale: bool)
    requires limit <= |chunks|
    ensures var r := ExtractionRun(f, videoId, fp, chunks, limit, extract, parse, discardStale);
      var seeded := Seeded(f, fp);
      var start := StartFiles(f, fp, discardStale);
      var recs := NewRecords(extract, parse, chunks, r.todo[..r.completed]);
      && r.todo == ToExtract(limit, SeedDone(seeded))
      && r.completed == Completed(extract, chunks, r.todo)
      && r.records == seeded + recs
      && |seeded| <= |r.records| && r.records[..|seeded|] == seeded
      && (r.completed == 0 ==> r.files == start)
      && (r.completed > 0 ==> r.files.log == start.log + recs && r.files.writers == start.writers + seq(r.completed, _ => fp)
                              && r.files.checkpoint == Some(Checkpoint(videoId, fp.transcriptSha, fp.configSha, |chunks|, |SeedDone(r.records)|)))
      && r.files == Appended(start, videoId, fp, |chunks|, recs, |SeedDone(r.records)|)
  {
  }

  /**
   * The files a run starts from are "clean" for its fingerprints when the
   * seeded records are exactly the records kept on disk: true when the
   * checkpoint is reusable, when the log is empty, and always when stale
   * files are discarded.
   */
  predicate CleanStart(f: VideoFiles, fp: Fingerprint, discardStale: bool) {
    Reusable(f.checkpoint, fp) || f.log == [] || discardStale
  }

  /**
   * From a clean start, what the next run with the same fingerprints seeds
   * from is exactly what this run held in memory at its end, and the files
   * stay clean.
   */
  lemma SeededAfterRun(f: VideoFiles, videoId: string, fp: Fingerprint, chunks: seq<string>, limit: nat,
                       extract: ChunkExtractor, parse: Parser, discardStale: bool)
    requires limit <= |chunks|
    requires CleanStart(f, fp, discardStale)
    ensures var r := ExtractionRun(f, videoId, fp, chunks, limit, extract, parse, discardStale);
      Seeded(r.files, fp) == r.records && CleanStart(r.files, fp, discardStale)
  {
    RunShape(f, videoId, fp, chunks, limit, extract, parse, discardStale);
  }

  /** At the end of a run the done set is the seeded one plus the chunks extracted. */
  lemma SeedDoneAfterRun(f: VideoFiles, videoId: string, fp: Fingerprint, chunks: seq<string>, limit: nat,
                         extract: ChunkExtractor, parse: Parser, discardStale: bool)
    requires limit <= |chunks|
    ensures var r := ExtractionRun(f, videoId, fp, chunks, limit, extract, parse, discardStale);
      SeedDone(r.records) == SeedDone(Seeded(f, fp)) + Indices(r.todo[..r.completed])
  {
    var r := ExtractionRun(f, videoId, fp, chunks, limit, extract, parse, discardStale);
    RunShape(f, videoId, fp, chunks, limit, extract, parse, discardStale);
    var recs := NewRecords(extract, parse, chunks, r.todo[..r.completed]);
    SeedDoneAppend(Seeded(f, fp), recs);
    NewRecordsDone(extract, parse, chunks, r.todo[..r.completed]);
  }

  /** The second run of a resume has the first run's unreached chunks to extract. */
  lemma ResumedTodo(f: VideoFiles, videoId: string, fp: Fingerprint, chunks: seq<string>, limit: nat,
                    extract1: ChunkExtractor, extract2: ChunkExtractor, parse: Parser, discardStale: bool)
    requires limit <= |chunks|
    requires CleanStart(f, fp, discardStale)
    ensures var r1 := ExtractionRun(f, videoId, fp, chunks, limit, extract1, parse, discardStale);
      ExtractionRun(r1.files, videoId, fp, chunks, limit, extract2, parse, discardStale).todo == r1.todo[r1.completed..]
  {
    var r1 := ExtractionRun(f, videoId, fp, chunks, limit, extract1, parse, discardStale);
    RunShape(f, videoId, fp, chunks, limit, extract1, parse, discardStale);
    SeededAfterRun(f, videoId, fp, chunks, limit, extract1, parse, discardStale);
    SeedDoneAfterRun(f, videoId, fp, chunks, limit, extract1, parse, discardStale);
    ResumeToExtract(limit, SeedDone(Seeded(f, fp)), r1.completed);
    RunShape(r1.files, videoId, fp, chunks, limit, extract2, parse, discardStale);
  }

  /** The second run of a resume starts from what the first run held in memory. */
  lemma ResumedRecords(f: VideoFiles, videoId: string, fp: Fingerprint, chunks: seq<string>, limit: nat,
                       extract1: ChunkExtractor, extract2: ChunkExtractor, parse: Parser, discardStale: bool)
    requires limit <= |chunks|
    requires CleanStart(f, fp, discardStale)
    ensures var r1 := ExtractionRun(f, videoId, fp, chunks, limit, extract1, parse, discardStale);
      var r2 := ExtractionRun(r1.files, videoId, fp, chunks, limit, extract2, parse, discardStale);
      |r1.records| <= |r2.records| && r2.records[..|r1.records|] == r1.records
  {
    var r1 := ExtractionRun(f, videoId, fp, chunks, limit, extract1, parse, discardStale);
    SeededAfterRun(f, videoId, fp, chunks, limit, extract1, parse, discardStale);
    RunShape(r1.files, videoId, fp, chunks, limit, extract2, parse, discardStale);
  }

  /** In a strictly increasing list, the entries from `k` on differ from the ones before `k`. */
  lemma SuffixDisjoint(todo: seq<nat>, k: nat)
    requires Increasing(todo) && k <= |todo|
    ensures forall a, b :: 0 <= a < |todo[k..]| && 0 <= b < k ==> todo[k..][a] != todo[b]
  {
    forall a, b | 0 <= a < |todo[k..]| && 0 <= b < k ensures todo[k..][a] != todo[b] {
      assert todo[k..][a] == todo[k + a];
    }
  }

  /**
   * Resuming after an interruption: a second run with the same
   * fingerprints, chunks and limit has exactly the chunks the first run did
   * not reach left to extract, in the same order, whatever happens during
   * it, so no chunk is sent to the model twice.
   */
  lemma ResumeAfterInterruption(f: VideoFiles, videoId: string, fp: Fingerprint, chunks: seq<string>, limit: nat,
                                extract1: ChunkExtractor, extract2: ChunkExtractor, parse: Parser, discardStale: bool)
    requires limit <= |chunks|
    requires CleanStart(f, fp, discardStale)
    ensures var r1 := ExtractionRun(f, videoId, fp, chunks, limit, extract1, parse, discardStale);
      var r2 := ExtractionRun(r1.files, videoId, fp, chunks, limit, extract2, parse, discardStale);
      && r2.todo == r1.todo[r1.completed..]
      && (forall a, b :: 0 <= a < |r2.todo| && 0 <= b < r1.completed ==> r2.todo[a] != r1.todo[b])
      && r2.records[..|r1.records|] == r1.records
  {
    var r1 := ExtractionRun(f, videoId, fp, chunks, limit, extract1, parse, discardStale);
    ResumedTodo(f, videoId, fp, chunks, limit, extract1, extract2, parse, discardStale);
    ResumedRecords(f, videoId, fp, chunks, limit, extract1, extract2, parse, discardStale);
    RunShape(f, videoId, fp, chunks, limit, extract1, parse, discardStale);
    SuffixDisjoint(r1.todo, r1.completed);
  }

  /**
   * Every line of the log was written by a run with the checkpoint's
   * fingerprints, and without a checkpoint the log is empty.
   */
  predicate LogMatchesCheckpoint(f: VideoFiles) {
    && |f.writers| == |f.log|
    && (f.checkpoint.None? ==> f.log == [])
    && (f.checkpoint.Some? ==> forall k :: 0 <= k < |f.writers| ==>
          f.writers[k] == Fingerprint(f.checkpoint.value.transcriptSha, f.checkpoint.value.configSha))
  }

  /**
   * With stale files discarded, a run keeps the log consistent with the
   * checkpoint, so every record it seeds from was extracted from the
   * current transcript under the current configuration.
   */
  lemma DiscardStaleKeepsLogConsistent(f: VideoFiles, videoId: string, fp: Fingerprint, chunks: seq<string>, limit: nat,
                                       extract: ChunkExtractor, parse: Parser)
    requires limit <= |chunks|
    requires LogMatchesCheckpoint(f)
    ensures var r := ExtractionRun(f, videoId, fp, chunks, limit, extract, parse, true);
      && LogMatchesCheckpoint(r.files)
      && (forall k :: 0 <= k < |Seeded(f, fp)| ==> f.writers[k] == fp)
  {
  }

  /**
   * As written, stale lines survive a change of transcript or
   * configuration. Take files consistent with an old checkpoint whose
   * fingerprints differ from the current ones. A run under the current
   * fingerprints seeds nothing, but it appends to the old log and, once it
   * has extracted a chunk, rewrites the checkpoint with the current
   * fingerprints. The next run under those fingerprints then seeds every
   * old line and treats each old index as done, so it never extracts those
   * chunks of the current transcript. A sample run (`--max-chunks=1`)
   * followed by a full run is one way to get there.
   */
  lemma StaleLinesSurvive(f: VideoFiles, videoId: string, fp: Fingerprint, chunks: seq<string>, limit: nat,
                          extract: ChunkExtractor, parse: Parser, nextLimit: nat)
    requires limit <= |chunks|
    requires LogMatchesCheckpoint(f) && f.log != [] && !Reusable(f.checkpoint, fp)
    ensures var r := ExtractionRun(f, videoId, fp, chunks, limit, extract, parse, false);
      r.completed > 0 ==>
        && Reusable(r.files.checkpoint, fp)
        && Seeded(r.files, fp)[..|f.log|] == f.log
        && (forall k :: 0 <= k < |f.log| ==> r.files.writers[k] != fp)
        && !LogMatchesCheckpoint(r.files)
        && (forall i :: i in SeedDone(f.log) ==> i !in ToExtract(nextLimit, SeedDone(Seeded(r.files, fp))))
  {
    var r := ExtractionRun(f, videoId, fp, chunks, limit, extract, parse, false);
    RunShape(f, videoId, fp, chunks, limit, extract, parse, false);
    if r.completed > 0 {
      var recs := NewRecords(extract, parse, chunks, r.todo[..r.completed]);
      StaleAppend(f, videoId, fp, |chunks|, recs, |SeedDone(r.records)|, nextLimit);
    }
  }

  /** Appending records under new fingerprints to a stale log: the step `StaleLinesSurvive` rests on. */
  lemma StaleAppend(f: VideoFiles, videoId: string, fp: Fingerprint, total: nat, recs: seq<ChunkRecord>, doneCount: nat,
                    nextLimit: nat)
    requires LogMatchesCheckpoint(f) && f.log != [] && !Reusable(f.checkpoint, fp) && recs != []
    ensures var g := Appended(f, videoId, fp, total, recs, doneCount);
      && Reusable(g.checkpoint, fp)
      && Seeded(g, fp)[..|f.log|] == f.log
      && (forall k :: 0 <= k < |f.log| ==> g.writers[k] != fp)
      && !LogMatchesCheckpoint(g)
      && (forall i :: i in SeedDone(f.log) ==> i !in ToExtract(nextLimit, SeedDone(Seeded(g, fp))))
  {
    var g := Appended(f, videoId, fp, total, recs, doneCount);
    assert Seeded(g, fp) == f.log + recs;
    assert (f.log + recs)[..|f.log|] == f.log;
    SeedDoneAppend(f.log, recs);
    forall k | 0 <= k < |f.log| ensures g.writers[k] != fp {
      assert g.writers[k] == f.writers[k];
    }
    assert g.writers[0] != fp;
  }

  /**
   * With stale files discarded, whatever the next run under the same
   * fingerprints seeds from was written by a run under those fingerprints.
   */
  lemma DiscardStaleSeedsOnlyCurrent(f: VideoFiles, videoId: string, fp: Fingerprint, chunks: seq<string>, limit: nat,
                                     extract: ChunkExtractor, parse: Parser)
    requires limit <= |chunks|
    requires LogMatchesCheckpoint(f)
    ensures var r := ExtractionRun(f, videoId, fp, chunks, limit, extract, parse, true);
      forall k :: 0 <= k < |Seeded(r.files, fp)| ==> r.files.writers[k] == fp
  {
    DiscardStaleKeepsLogConsistent(f, videoId, fp, chunks, limit, extract, parse);
  }
}
