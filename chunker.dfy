/**
 * `chunkText` (src/summarize.ts): a transcript is cut into windows of at
 * most `maxChars` characters; each window starts `overlap` characters before
 * the previous one ended, and the last one reaches the end of the text.
 */
module Chunker {

  function Min(a: int, b: int): int {
    if a <= b then a else b
  }

  /** `ceil(a / b)`. */
  function CeilDiv(a: nat, b: nat): nat
    requires b > 0
  {
    (a + b - 1) / b
  }

  /**
   * How many chunks a text of `len` characters yields: none for an empty
   * text, one when it fits, otherwise `ceil((len - overlap) / (maxChars - overlap))`.
   */
  function ChunkCount(len: nat, maxChars: nat, overlap: nat): nat
    requires overlap < maxChars
  {
    if len == 0 then 0
    else if len <= maxChars then 1
    else CeilDiv(len - overlap, maxChars - overlap)
  }

  /** Where chunk `k` starts: each start lies `maxChars - overlap` after the previous one. */
  function ChunkStart(k: nat, maxChars: nat, overlap: nat): nat
    requires overlap < maxChars
  {
    k * (maxChars - overlap)
  }

  lemma StartStep(k: nat, maxChars: nat, overlap: nat)
    requires overlap < maxChars
    ensures ChunkStart(k + 1, maxChars, overlap) == ChunkStart(k, maxChars, overlap) + (maxChars - overlap)
  {
  }

  lemma StartMonotonic(j: nat, k: nat, maxChars: nat, overlap: nat)
    requires overlap < maxChars && j <= k
    ensures ChunkStart(j, maxChars, overlap) <= ChunkStart(k, maxChars, overlap)
  {
    var d := maxChars - overlap;
    assert k * d == j * d + (k - j) * d;
  }

  /**
   * The chunk count is the least number of chunks whose last one reaches
   * the end of the text: the last counted chunk does, the one before it
   * does not.
   */
  lemma {:induction false} CountBounds(len: nat, maxChars: nat, overlap: nat)
    requires overlap < maxChars && len > 0
    ensures ChunkCount(len, maxChars, overlap) >= 1
    ensures ChunkStart(ChunkCount(len, maxChars, overlap) - 1, maxChars, overlap) + maxChars >= len
    ensures ChunkCount(len, maxChars, overlap) >= 2 ==>
      ChunkStart(ChunkCount(len, maxChars, overlap) - 2, maxChars, overlap) + maxChars < len
  {
    var d := maxChars - overlap;
    var n := ChunkCount(len, maxChars, overlap);
    if len > maxChars {
      var a := len - overlap;
      var q := (a + d - 1) / d;
      assert q * d <= a + d - 1 < q * d + d;
      assert n == q;
      assert q >= 2;
      StartStep(q - 2, maxChars, overlap);
      StartStep(q - 1, maxChars, overlap);
      assert (q - 1) * d == q * d - d;
      assert (q - 2) * d == q * d - 2 * d;
    }
  }

  /** A count with those two properties is the chunk count. */
  lemma CountUnique(len: nat, maxChars: nat, overlap: nat, n: nat)
    requires overlap < maxChars && len > 0 && n >= 1
    requires ChunkStart(n - 1, maxChars, overlap) + maxChars >= len
    requires n >= 2 ==> ChunkStart(n - 2, maxChars, overlap) + maxChars < len
    ensures n == ChunkCount(len, maxChars, overlap)
  {
    var d := maxChars - overlap;
    var c := ChunkCount(len, maxChars, overlap);
    CountBounds(len, maxChars, overlap);
    if n < c {
      StartMonotonic(n - 1, c - 2, maxChars, overlap);
    } else if c < n {
      StartMonotonic(c - 1, n - 2, maxChars, overlap);
    }
  }

  /** Every chunk starts inside the text. */
  lemma StartInText(len: nat, k: nat, maxChars: nat, overlap: nat)
    requires overlap < maxChars && k < ChunkCount(len, maxChars, overlap)
    ensures ChunkStart(k, maxChars, overlap) < len
  {
    var n := ChunkCount(len, maxChars, overlap);
    CountBounds(len, maxChars, overlap);
    StartMonotonic(k, n - 1, maxChars, overlap);
    if n >= 2 {
      StartStep(n - 2, maxChars, overlap);
    }
  }

  /** Chunk `k`: the text from its start to `maxChars` further on, or to the end of the text. */
  function Chunk(s: string, k: nat, maxChars: nat, overlap: nat): string
    requires overlap < maxChars && k < ChunkCount(|s|, maxChars, overlap)
  {
    StartInText(|s|, k, maxChars, overlap);
    var start := ChunkStart(k, maxChars, overlap);
    s[start..Min(start + maxChars, |s|)]
  }

  /** What `chunkText(s, maxChars, overlap)` returns, chunk by chunk. */
  function Chunks(s: string, maxChars: nat, overlap: nat): seq<string>
    requires overlap < maxChars
  {
    var n := ChunkCount(|s|, maxChars, overlap);
    seq(n, k requires 0 <= k < n => Chunk(s, k, maxChars, overlap))
  }

  /** The offset the loop moves to after a chunk that did not reach the end. */
  function NextStart(i: int, len: nat, maxChars: nat, overlap: nat): int {
    var next := Min(i + maxChars, len) - overlap;
    if next < 0 then 0 else next
  }

  /**
   * The loop advances exactly when `overlap < maxChars`: with a larger
   * overlap the clamp to 0 does not prevent it from standing still or going
   * back, and it never ends.
   */
  lemma {:induction false} ProgressIffStride(i: nat, len: nat, maxChars: nat, overlap: nat)
    requires i + maxChars < len
    ensures NextStart(i, len, maxChars, overlap) > i <==> overlap < maxChars
  {
    assert Min(i + maxChars, len) == i + maxChars;
  }

  /**
   * `chunkText`: the loop of src/summarize.ts that slices `s` and stops at
   * the chunk that reaches the end. Only `0 <= overlap < maxChars` lets it
   * terminate (see ProgressIffStride); the one caller passes 10000 and 1000.
   */
  method ChunkText(s: string, maxChars: nat, overlap: nat) returns (chunks: seq<string>)
    requires overlap < maxChars
    ensures chunks == Chunks(s, maxChars, overlap)
  {
    chunks := [];
    var i: int := 0;
    while i < |s|
      invariant 0 <= i == ChunkStart(|chunks|, maxChars, overlap)
      invariant chunks != [] ==> i < |s|
      invariant forall k :: 0 <= k < |chunks| ==>
        ChunkStart(k, maxChars, overlap) + maxChars < |s|
        && chunks[k] == s[ChunkStart(k, maxChars, overlap)..ChunkStart(k, maxChars, overlap) + maxChars]
      decreases |s| - i
    {
      var end := Min(i + maxChars, |s|);
      chunks := chunks + [s[i..end]];
      if end == |s| {
        LastChunkFound(s, maxChars, overlap, chunks);
        break;
      }
      StartStep(|chunks| - 1, maxChars, overlap);
      i := end - overlap;
      if i < 0 {
        i := 0;
      }
    }
  }

  /** The loop stops at a chunk that reaches the end, after chunks that do not: it has produced `Chunks`. */
  lemma LastChunkFound(s: string, maxChars: nat, overlap: nat, chunks: seq<string>)
    requires overlap < maxChars && chunks != []
    requires var b := ChunkStart(|chunks| - 1, maxChars, overlap);
      b < |s| <= b + maxChars && chunks[|chunks| - 1] == s[b..|s|]
    requires forall k :: 0 <= k < |chunks| - 1 ==>
      ChunkStart(k, maxChars, overlap) + maxChars < |s|
      && chunks[k] == s[ChunkStart(k, maxChars, overlap)..ChunkStart(k, maxChars, overlap) + maxChars]
    ensures chunks == Chunks(s, maxChars, overlap)
  {
    var n := |chunks|;
    if n >= 2 {
      assert ChunkStart(n - 2, maxChars, overlap) + maxChars < |s|;
    }
    CountUnique(|s|, maxChars, overlap, n);
    var cs := Chunks(s, maxChars, overlap);
    forall k | 0 <= k < n ensures chunks[k] == cs[k] {
      ChunkIs(s, maxChars, overlap, k);
    }
  }

  /** No chunk is empty or longer than `maxChars`; an empty text has none and a short one is one chunk. */
  lemma ChunkSizes(s: string, maxChars: nat, overlap: nat)
    requires overlap < maxChars
    ensures s == [] ==> Chunks(s, maxChars, overlap) == []
    ensures 0 < |s| <= maxChars ==> Chunks(s, maxChars, overlap) == [s]
    ensures forall k :: 0 <= k < |Chunks(s, maxChars, overlap)| ==>
      0 < |Chunks(s, maxChars, overlap)[k]| <= maxChars
  {
    var cs := Chunks(s, maxChars, overlap);
    forall k | 0 <= k < |cs| ensures 0 < |cs[k]| <= maxChars {
      StartInText(|s|, k, maxChars, overlap);
    }
    if 0 < |s| <= maxChars {
      assert cs[0] == s;
    }
  }

  /** The last chunk ends exactly at the end of the text. */
  lemma LastChunkReachesEnd(s: string, maxChars: nat, overlap: nat)
    requires overlap < maxChars && s != []
    ensures var cs := Chunks(s, maxChars, overlap);
      cs != [] && ChunkStart(|cs| - 1, maxChars, overlap) + |cs[|cs| - 1]| == |s|
  {
    CountBounds(|s|, maxChars, overlap);
    StartInText(|s|, ChunkCount(|s|, maxChars, overlap) - 1, maxChars, overlap);
  }

  /**
   * Every chunk but the last is `maxChars` long, the next one starts where
   * it ends minus `overlap`, and so the two share exactly `overlap`
   * characters.
   */
  lemma AdjacentChunksOverlap(s: string, maxChars: nat, overlap: nat, k: nat)
    requires overlap < maxChars && k + 1 < |Chunks(s, maxChars, overlap)|
    ensures var cs := Chunks(s, maxChars, overlap);
      && |cs[k]| == maxChars
      && ChunkStart(k + 1, maxChars, overlap) == ChunkStart(k, maxChars, overlap) + |cs[k]| - overlap
      && overlap < |cs[k + 1]|
      && cs[k][maxChars - overlap..] == cs[k + 1][..overlap]
  {
    var a := ChunkStart(k, maxChars, overlap);
    var b := ChunkStart(k + 1, maxChars, overlap);
    InnerChunkFull(|s|, k, maxChars, overlap);
    StartStep(k, maxChars, overlap);
    ChunkIs(s, maxChars, overlap, k);
    ChunkIs(s, maxChars, overlap, k + 1);
    SharedOverlap(s, a, b, maxChars, overlap);
  }

  /** Two windows `maxChars - overlap` apart, the first one whole, share `overlap` characters. */
  lemma SharedOverlap(s: string, a: nat, b: nat, maxChars: nat, overlap: nat)
    requires overlap < maxChars && a + maxChars < |s| && b == a + maxChars - overlap
    ensures var x, y := s[a..a + maxChars], s[b..Min(b + maxChars, |s|)];
      overlap < |y| && x[maxChars - overlap..] == y[..overlap]
  {
  }

  /** Drops the first `n` characters. */
  function Drop(x: string, n: nat): string {
    if n <= |x| then x[n..] else []
  }

  /** The first chunk followed by every later chunk without its first `overlap` characters. */
  function Reassemble(chunks: seq<string>, overlap: nat): string {
    if |chunks| == 0 then []
    else if |chunks| == 1 then chunks[0]
    else Reassemble(chunks[..|chunks| - 1], overlap) + Drop(chunks[|chunks| - 1], overlap)
  }

  /**
   * `cs` are windows of `s` at the starts `start`: chunk `k` is the text
   * from `start(k)` to `maxChars` further on or to the end, every chunk but
   * the last ends before the end of the text, the first start is 0 and
   * each start lies `maxChars - overlap` after the previous one.
   */
  ghost predicate Windows(s: string, cs: seq<string>, maxChars: nat, overlap: nat, start: nat -> nat) {
    && overlap < maxChars
    && start(0) == 0
    && (forall k: nat :: start(k + 1) == start(k) + maxChars - overlap)
    && (forall k :: 0 <= k < |cs| ==>
         && start(k) < |s|
         && cs[k] == s[start(k)..Min(start(k) + maxChars, |s|)]
         && (k + 1 < |cs| ==> start(k) + maxChars < |s|))
  }

  /** `ChunkStart` as a function of the chunk number. */
  function Starts(maxChars: nat, overlap: nat): nat -> nat
    requires overlap < maxChars
  {
    k => ChunkStart(k, maxChars, overlap)
  }

  /** The chunks of `chunkText` are the windows of the text at the chunk starts. */
  lemma ChunksAreWindows(s: string, maxChars: nat, overlap: nat)
    requires overlap < maxChars
    ensures Windows(s, Chunks(s, maxChars, overlap), maxChars, overlap, Starts(maxChars, overlap))
  {
    var cs := Chunks(s, maxChars, overlap);
    forall k: nat ensures ChunkStart(k + 1, maxChars, overlap) == ChunkStart(k, maxChars, overlap) + maxChars - overlap {
      StartStep(k, maxChars, overlap);
    }
    forall k | 0 <= k < |cs|
      ensures ChunkStart(k, maxChars, overlap) < |s|
      ensures cs[k] == s[ChunkStart(k, maxChars, overlap)..Min(ChunkStart(k, maxChars, overlap) + maxChars, |s|)]
      ensures k + 1 < |cs| ==> ChunkStart(k, maxChars, overlap) + maxChars < |s|
    {
      ChunkIs(s, maxChars, overlap, k);
      if k + 1 < |cs| {
        InnerChunkFull(|s|, k, maxChars, overlap);
      }
    }
  }

  /** Reassembling the first `j` windows gives the text up to the end of window `j - 1`. */
  lemma {:induction false} ReassembleWindows(s: string, cs: seq<string>, maxChars: nat, overlap: nat, start: nat -> nat, j: nat)
    requires 1 <= j <= |cs| && Windows(s, cs, maxChars, overlap, start)
    ensures Reassemble(cs[..j], overlap) == s[..Min(start(j - 1) + maxChars, |s|)]
  {
    if j == 1 {
      WindowsFirst(s, cs, maxChars, overlap, start);
    } else {
      ReassembleWindows(s, cs, maxChars, overlap, start, j - 1);
      WindowsStep(s, cs, maxChars, overlap, start, j);
    }
  }

  /** The first window alone is the text up to its end. */
  lemma WindowsFirst(s: string, cs: seq<string>, maxChars: nat, overlap: nat, start: nat -> nat)
    requires 1 <= |cs| && Windows(s, cs, maxChars, overlap, start)
    ensures Reassemble(cs[..1], overlap) == s[..Min(start(0) + maxChars, |s|)]
  {
    assert cs[..1] == [cs[0]];
  }

  /** One step of `ReassembleWindows`: window `j - 1` continues the text reassembled from the windows before it. */
  lemma WindowsStep(s: string, cs: seq<string>, maxChars: nat, overlap: nat, start: nat -> nat, j: nat)
    requires 2 <= j <= |cs| && Windows(s, cs, maxChars, overlap, start)
    requires Reassemble(cs[..j - 1], overlap) == s[..Min(start(j - 2) + maxChars, |s|)]
    ensures Reassemble(cs[..j], overlap) == s[..Min(start(j - 1) + maxChars, |s|)]
  {
    var a, b := start(j - 2), start(j - 1);
    assert a + maxChars < |s|;
    assert b == a + maxChars - overlap;
    PrefixStep(s, cs, maxChars, overlap, j, a, b);
  }

  lemma ReassemblePrefix(s: string, maxChars: nat, overlap: nat, j: nat)
    requires overlap < maxChars && 1 <= j <= |Chunks(s, maxChars, overlap)|
    ensures var cs := Chunks(s, maxChars, overlap);
      var end := Min(ChunkStart(j - 1, maxChars, overlap) + maxChars, |s|);
      Reassemble(cs[..j], overlap) == s[..end]
  {
    ChunksAreWindows(s, maxChars, overlap);
    ReassembleWindows(s, Chunks(s, maxChars, overlap), maxChars, overlap, Starts(maxChars, overlap), j);
  }

  /** Every chunk but the last ends before the end of the text. */
  lemma InnerChunkFull(len: nat, k: nat, maxChars: nat, overlap: nat)
    requires overlap < maxChars && k + 1 < ChunkCount(len, maxChars, overlap)
    ensures ChunkStart(k, maxChars, overlap) + maxChars < len
  {
    var n := ChunkCount(len, maxChars, overlap);
    CountBounds(len, maxChars, overlap);
    StartMonotonic(k, n - 2, maxChars, overlap);
  }

  /** Chunk `k` is the window of the text at its start. */
  lemma ChunkIs(s: string, maxChars: nat, overlap: nat, k: nat)
    requires overlap < maxChars && k < |Chunks(s, maxChars, overlap)|
    ensures var start := ChunkStart(k, maxChars, overlap);
      start < |s| && Chunks(s, maxChars, overlap)[k] == s[start..Min(start + maxChars, |s|)]
  {
    StartInText(|s|, k, maxChars, overlap);
  }

  /** One step of `ReassemblePrefix`: chunk `j - 1` continues the text reassembled from the chunks before it. */
  lemma PrefixStep(s: string, cs: seq<string>, maxChars: nat, overlap: nat, j: nat, a: nat, b: nat)
    requires 2 <= j <= |cs| && overlap < maxChars
    requires a + maxChars <= |s| && b + overlap == a + maxChars
    requires Reassemble(cs[..j - 1], overlap) == s[..Min(a + maxChars, |s|)]
    requires cs[j - 1] == s[b..Min(b + maxChars, |s|)]
    ensures Reassemble(cs[..j], overlap) == s[..Min(b + maxChars, |s|)]
  {
    assert cs[..j][..j - 1] == cs[..j - 1];
    var end := Min(b + maxChars, |s|);
    assert Drop(s[b..end], overlap) == s[a + maxChars..end];
    assert s[..a + maxChars] + s[a + maxChars..end] == s[..end];
  }

  /** Lossless coverage: dropping the overlaps and concatenating gives the text back. */
  lemma ChunksReassemble(s: string, maxChars: nat, overlap: nat)
    requires overlap < maxChars
    ensures Reassemble(Chunks(s, maxChars, overlap), overlap) == s
  {
    var cs := Chunks(s, maxChars, overlap);
    if s != [] {
      LastChunkReachesEnd(s, maxChars, overlap);
      ReassemblePrefix(s, maxChars, overlap, |cs|);
      assert cs[..|cs|] == cs;
      StartInText(|s|, |cs| - 1, maxChars, overlap);
    }
  }

  /** The caller's parameters on a 25,000-character transcript: three chunks. */
  lemma ThreeChunksExample(s: string)
    requires |s| == 25000
    ensures var cs := Chunks(s, 10000, 1000);
      |cs| == 3 && cs[0] == s[0..10000] && cs[1] == s[9000..19000] && cs[2] == s[18000..25000]
  {
    assert ChunkCount(25000, 10000, 1000) == 3;
  }
}
