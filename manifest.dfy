/**
 * src/manifest.ts: the manifest of fully processed videos, keyed by video
 * id, and the skip decision taken from it. Fingerprints (`sha256` of the
 * transcript and of the configuration) are opaque strings here.
 */
module Manifest {
  import opened Wrappers

  datatype Outputs = Outputs(json: string, md: string, log: string)

  datatype ManifestEntry = ManifestEntry(
    videoId: string,
    sourceUrl: string,
    transcriptSha: string,
    configSha: string,
    processedAt: string,
    outputs: Outputs)

  /** The content of out/manifest.json. */
  datatype Manifest = Manifest(version: int, entries: map<string, ManifestEntry>)

  /** What `loadManifest` falls back to when the file is missing or unreadable. */
  const EmptyManifest := Manifest(1, map[])

  /** `shouldSkip`: is there an entry for the video carrying both fingerprints? */
  predicate ShouldSkip(m: Manifest, videoId: string, transcriptSha: string, configSha: string) {
    && videoId in m.entries
    && m.entries[videoId].transcriptSha == transcriptSha
    && m.entries[videoId].configSha == configSha
  }

  /** The manifest after `upsertEntry(m, e)`. */
  function Upserted(m: Manifest, e: ManifestEntry): Manifest {
    m.(entries := m.entries[e.videoId := e])
  }

  /** Without an entry for the video there is nothing to skip; the fallback manifest skips nothing. */
  lemma NoEntryNoSkip(m: Manifest, videoId: string, transcriptSha: string, configSha: string)
    requires videoId !in m.entries
    ensures !ShouldSkip(m, videoId, transcriptSha, configSha)
    ensures !ShouldSkip(EmptyManifest, videoId, transcriptSha, configSha)
  {
  }

  /**
   * The skip decision holds for exactly one fingerprint pair, the one
   * recorded: changing either fingerprint alone turns it off.
   */
  lemma SkipOnlyForRecordedPair(m: Manifest, videoId: string, t: string, c: string, t': string, c': string)
    requires ShouldSkip(m, videoId, t, c)
    ensures ShouldSkip(m, videoId, t', c') <==> t' == t && c' == c
    ensures t' != t ==> !ShouldSkip(m, videoId, t', c)
    ensures c' != c ==> !ShouldSkip(m, videoId, t, c')
  {
  }

  /**
   * `upsertEntry` stores the whole entry under its id (no field merge),
   * leaves every other entry and the version alone, makes the next skip
   * check for the same fingerprints succeed, and is idempotent.
   */
  lemma UpsertSpec(m: Manifest, e: ManifestEntry)
    ensures Upserted(m, e).entries[e.videoId] == e
    ensures Upserted(m, e).version == m.version
    ensures forall id :: id != e.videoId ==>
      (id in Upserted(m, e).entries <==> id in m.entries)
      && (id in m.entries ==> Upserted(m, e).entries[id] == m.entries[id])
    ensures ShouldSkip(Upserted(m, e), e.videoId, e.transcriptSha, e.configSha)
    ensures Upserted(Upserted(m, e), e) == Upserted(m, e)
  {
  }

  /** The in-memory manifest of one run: `main` loads it once and `upsertEntry` assigns into its `entries`. */
  class ManifestStore {
    var version: int
    var entries: map<string, ManifestEntry>

    function Snapshot(): Manifest
      reads this
    {
      Manifest(version, entries)
    }

    /** `loadManifest`: the parsed file, or `{version: 1, entries: {}}` when reading or parsing fails. */
    constructor Load(file: Option<Manifest>)
      ensures Snapshot() == file.GetOr(EmptyManifest)
    {
      var m := file.GetOr(EmptyManifest);
      version := m.version;
      entries := m.entries;
    }

    /** `upsertEntry`: `manifest.entries[entry.videoId] = entry`. */
    method UpsertEntry(entry: ManifestEntry)
      modifies this
      ensures entries == old(entries)[entry.videoId := entry]
      ensures version == old(version)
      ensures Snapshot() == Upserted(old(Snapshot()), entry)
    {
      entries := entries[entry.videoId := entry];
    }
  }
}
