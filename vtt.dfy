/**
 * `vttToText` (src/pull.ts): WebVTT subtitles to plain text. A heuristic
 * over the file's lines rather than a WebVTT parser: drop blank lines, the
 * `WEBVTT` line, timing lines and numeric cue identifiers, strip tags,
 * collapse runs of repeated lines, join with spaces and normalise the
 * white space.
 */
module Vtt {
  import opened Wrappers
  import opened JsString
  import opened Tags

  /**
   * `vtt.split(/\r?\n/)`: the pieces between `\n`s, less the `\r` that
   * directly precedes each `\n` (a `\r` at the very end is kept).
   */
  function SplitLines(s: string): (r: seq<string>)
    ensures |r| >= 1
  {
    var pieces := Split(s, "\n");
    seq(|pieces|, k requires 0 <= k < |pieces| =>
      if k < |pieces| - 1 && EndsWith(pieces[k], "\r") then pieces[k][..|pieces[k]| - 1] else pieces[k])
  }

  /** `/^\d+$/`: one or more ASCII digits. */
  predicate AllDigits(s: string) {
    s != [] && forall i :: 0 <= i < |s| ==> '0' <= s[i] <= '9'
  }

  /** A trimmed line that carries no text: blank, the header, a timing line or a cue number. */
  predicate IsSkipped(s: string) {
    s == "" || s == "WEBVTT" || Contains(s, "-->") || AllDigits(s)
  }

  /** What one line contributes to `textLines`: the trimmed line with its tags removed, if anything is left. */
  function CleanLine(line: string): (r: Option<string>)
    ensures r.Some? ==> r.value != [] && !IsWhiteSpace(r.value[0]) && !IsWhiteSpace(r.value[|r.value| - 1])
  {
    var s := Trim(line);
    if IsSkipped(s) then None
    else
      var c := Trim(ReplaceTags(s, ""));
      if c == "" then None else Some(c)
  }

  /** The lines a line contributes under `clean`: none or one. */
  function Contribution(clean: string -> Option<string>, line: string): seq<string> {
    match clean(line)
    case Some(c) => [c]
    case None => []
  }

  /** The kept results of `clean` over the lines, in order. */
  function KeepCleaned(clean: string -> Option<string>, lines: seq<string>): seq<string> {
    if lines == [] then []
    else KeepCleaned(clean, lines[..|lines| - 1]) + Contribution(clean, lines[|lines| - 1])
  }

  /** `textLines` after the first loop. */
  function TextLines(lines: seq<string>): seq<string> {
    KeepCleaned(CleanLine, lines)
  }

  /** No two neighbours are equal. */
  predicate NoAdjacentDuplicates(xs: seq<string>) {
    forall k :: 0 < k < |xs| ==> xs[k] != xs[k - 1]
  }

  /**
   * `deduped` after the second loop: each line is pushed unless it equals
   * the last one pushed, so every run of equal neighbours keeps one copy.
   */
  function Dedup(xs: seq<string>): (r: seq<string>)
    ensures NoAdjacentDuplicates(r)
    ensures |r| <= |xs| && (r == [] <==> xs == [])
    ensures r != [] ==> r[|r| - 1] == xs[|xs| - 1]
  {
    if xs == [] then []
    else
      var d := Dedup(xs[..|xs| - 1]);
      var x := xs[|xs| - 1];
      if d != [] && d[|d| - 1] == x then d else d + [x]
  }

  /** De-duplication drops repeats only: the same lines occur before and after. */
  lemma {:induction false} DedupSameLines(xs: seq<string>)
    ensures forall x :: x in Dedup(xs) <==> x in xs
  {
    if xs != [] {
      var init := xs[..|xs| - 1];
      DedupSameLines(init);
      assert xs == init + [xs[|xs| - 1]];
    }
  }

  /** Line `i` starts a run of equal neighbours: it is the first line or differs from the one before. */
  predicate StartsRun(xs: seq<string>, i: nat) {
    i < |xs| && (i == 0 || xs[i] != xs[i - 1])
  }

  /** The indices below `n` that start a run, in increasing order (`RunStartsSpec`). */
  function RunStarts(xs: seq<string>, n: nat): seq<nat>
    requires n <= |xs|
  {
    if n == 0 then [] else RunStarts(xs, n - 1) + (if StartsRun(xs, n - 1) then [n - 1] else [])
  }

  /** The run starts below `n` are increasing, below `n`, and all of them. */
  lemma {:induction false} RunStartsSpec(xs: seq<string>, n: nat)
    requires n <= |xs|
    ensures var r := RunStarts(xs, n);
      && (forall k :: 0 <= k < |r| ==> r[k] < n)
      && (forall k, l :: 0 <= k < l < |r| ==> r[k] < r[l])
      && (forall i: nat :: i in r <==> i < n && StartsRun(xs, i))
  {
    if n > 0 {
      RunStartsSpec(xs, n - 1);
    }
  }

  /** `d` lists the lines of `xs` at the indices `idx`, in order. */
  predicate LinesAt(d: seq<string>, xs: seq<string>, idx: seq<nat>) {
    |d| == |idx| && forall k :: 0 <= k < |d| ==> idx[k] < |xs| && d[k] == xs[idx[k]]
  }

  /** The de-duplicated first `n` lines are the lines at the run starts below `n`. */
  lemma {:induction false} DedupPrefixRunStarts(xs: seq<string>, n: nat)
    requires n <= |xs|
    ensures LinesAt(Dedup(xs[..n]), xs, RunStarts(xs, n))
  {
    if n > 0 {
      DedupPrefixRunStarts(xs, n - 1);
      RunStartsStep(xs, n - 1);
    }
  }

  /** One line more: it is pushed exactly when it starts a run. */
  lemma RunStartsStep(xs: seq<string>, n: nat)
    requires n < |xs|
    requires LinesAt(Dedup(xs[..n]), xs, RunStarts(xs, n))
    ensures LinesAt(Dedup(xs[..n + 1]), xs, RunStarts(xs, n + 1))
  {
    DedupSnoc(xs, n);
    var d, idx := Dedup(xs[..n]), RunStarts(xs, n);
    assert d == [] <==> n == 0;
    if n > 0 {
      assert d[|d| - 1] == xs[..n][n - 1] == xs[n - 1];
    }
    if StartsRun(xs, n) {
      PushLineAt(d, xs, idx, n);
    }
  }

  /** Pushing line `i` extends the correspondence by index `i`. */
  lemma PushLineAt(d: seq<string>, xs: seq<string>, idx: seq<nat>, i: nat)
    requires LinesAt(d, xs, idx) && i < |xs|
    ensures LinesAt(d + [xs[i]], xs, idx + [i])
  {
    var d', idx' := d + [xs[i]], idx + [i];
    forall k | 0 <= k < |d'| ensures idx'[k] < |xs| && d'[k] == xs[idx'[k]] {
      if k < |d| {
        assert d'[k] == d[k] && idx'[k] == idx[k];
      }
    }
  }

  /**
   * De-duplication keeps exactly the first line of each run of equal
   * neighbours, in order: the result is `xs[i]` over the increasing indices
   * `i` with `i == 0 || xs[i] != xs[i - 1]` (`RunStartsSpec`).
   */
  lemma DedupIsRunStarts(xs: seq<string>)
    ensures var idx := RunStarts(xs, |xs|);
      |Dedup(xs)| == |idx| && forall k :: 0 <= k < |idx| ==> idx[k] < |xs| && Dedup(xs)[k] == xs[idx[k]]
  {
    DedupPrefixRunStarts(xs, |xs|);
    assert xs[..|xs|] == xs;
  }

  /** The result of `vttToText`. */
  function VttText(vtt: string): string {
    Normalize(Join(Dedup(TextLines(SplitLines(vtt))), " "))
  }

  /** `vttToText(vtt)`, loop by loop. */
  method VttToText(vtt: string) returns (text: string)
    ensures text == VttText(vtt)
  {
    var lines := SplitLines(vtt);
    var textLines: seq<string> := [];
    for i := 0 to |lines|
      invariant textLines == TextLines(lines[..i])
    {
      KeepCleanedSnoc(CleanLine, lines, i);
      var cleaned := CleanLine(lines[i]);
      if cleaned.Some? {
        textLines := textLines + [cleaned.value];
      }
    }
    assert lines[..|lines|] == lines;
    var deduped := DedupLines(textLines);
    text := Normalize(Join(deduped, " "));
  }

  /** The second loop of `vttToText`: push each line unless it equals the last one pushed. */
  method DedupLines(textLines: seq<string>) returns (deduped: seq<string>)
    ensures deduped == Dedup(textLines)
  {
    deduped := [];
    for i := 0 to |textLines|
      invariant deduped == Dedup(textLines[..i])
    {
      DedupSnoc(textLines, i);
      var t := textLines[i];
      if |deduped| == 0 || deduped[|deduped| - 1] != t {
        deduped := deduped + [t];
      }
    }
    assert textLines[..|textLines|] == textLines;
  }

  /** The lines up to `i` inclusive keep what the lines before `i` keep, then the contribution of line `i`. */
  lemma KeepCleanedSnoc(clean: string -> Option<string>, lines: seq<string>, i: nat)
    requires i < |lines|
    ensures KeepCleaned(clean, lines[..i + 1]) == KeepCleaned(clean, lines[..i]) + Contribution(clean, lines[i])
  {
    assert lines[..i + 1][..i] == lines[..i];
  }

  /** De-duplicating one line more. */
  lemma DedupSnoc(xs: seq<string>, i: nat)
    requires i < |xs|
    ensures var d := Dedup(xs[..i]);
      Dedup(xs[..i + 1]) == if d != [] && d[|d| - 1] == xs[i] then d else d + [xs[i]]
  {
    assert xs[..i + 1][..i] == xs[..i];
  }

  /** Keeping cleaned lines distributes over concatenation. */
  lemma {:induction false} KeepCleanedAppend(clean: string -> Option<string>, a: seq<string>, b: seq<string>)
    ensures KeepCleaned(clean, a + b) == KeepCleaned(clean, a) + KeepCleaned(clean, b)
    decreases |b|
  {
    if b == [] {
      assert a + b == a;
    } else {
      var init := b[..|b| - 1];
      KeepCleanedAppend(clean, a, init);
      assert (a + b)[..|a + b| - 1] == a + init;
      assert (a + b)[|a + b| - 1] == b[|b| - 1];
    }
  }

  /** The first loop keeps the contributions of the lines in their order. */
  lemma TextLinesAppend(a: seq<string>, b: seq<string>)
    ensures TextLines(a + b) == TextLines(a) + TextLines(b)
  {
    KeepCleanedAppend(CleanLine, a, b);
  }

  /** Every kept line is non-empty and has no white space at either end. */
  lemma TextLinesTrimmed(lines: seq<string>)
    ensures forall x :: x in TextLines(lines) ==> x != [] && !IsWhiteSpace(x[0]) && !IsWhiteSpace(x[|x| - 1])
  {
    KeepCleanedAll(CleanLine, x => x != [] && !IsWhiteSpace(x[0]) && !IsWhiteSpace(x[|x| - 1]), lines);
  }

  /** What holds of every value of `clean` holds of every kept line. */
  lemma {:induction false} KeepCleanedAll(clean: string -> Option<string>, P: string -> bool, lines: seq<string>)
    requires forall l :: clean(l).Some? ==> P(clean(l).value)
    ensures forall x :: x in KeepCleaned(clean, lines) ==> P(x)
  {
    if lines != [] {
      KeepCleanedAll(clean, P, lines[..|lines| - 1]);
    }
  }

  /** A line that `clean` drops contributes nothing wherever it is. */
  lemma DroppedLine(clean: string -> Option<string>, a: seq<string>, line: string, b: seq<string>)
    requires clean(line).None?
    ensures KeepCleaned(clean, a + [line] + b) == KeepCleaned(clean, a) + KeepCleaned(clean, b)
  {
    KeepCleanedAppend(clean, a + [line], b);
    assert (a + [line])[..|a + [line]| - 1] == a;
    assert KeepCleaned(clean, a + [line]) == KeepCleaned(clean, a);
  }

  /** Skipped lines (blank, `WEBVTT`, timing lines, cue numbers) contribute nothing wherever they are. */
  lemma SkippedLineDropped(a: seq<string>, line: string, b: seq<string>)
    requires IsSkipped(Trim(line))
    ensures TextLines(a + [line] + b) == TextLines(a) + TextLines(b)
  {
    assert CleanLine(line) == None;
    DroppedLine(CleanLine, a, line, b);
  }

  /** A line of plain text (no `<`, not skipped) is kept trimmed, as it is. */
  lemma PlainLineKept(line: string)
    requires !IsSkipped(Trim(line))
    requires '<' !in line
    ensures CleanLine(line) == Some(Trim(line))
  {
    var s := Trim(line);
    forall i | 0 <= i < |s| ensures s[i] != '<' {
      var a := |line| - |TrimStart(line)|;
      assert s[i] == line[a + i];
    }
    NoTagUnchanged(s, "", 0);
    assert s[0..] == s;
    TrimFixpoint(s);
  }

  /** A sequence without equal neighbours is its own de-duplication. */
  lemma {:induction false} DedupFixpoint(xs: seq<string>)
    requires NoAdjacentDuplicates(xs)
    ensures Dedup(xs) == xs
  {
    if xs != [] {
      var init := xs[..|xs| - 1];
      DedupFixpoint(init);
    }
  }

  /** De-duplicating twice is de-duplicating once. */
  lemma DedupIdempotent(xs: seq<string>)
    ensures Dedup(Dedup(xs)) == Dedup(xs)
  {
    DedupFixpoint(Dedup(xs));
  }

  /** Repeating the last line adds nothing. */
  lemma DedupRepeat(xs: seq<string>, x: string)
    ensures Dedup(xs + [x, x]) == Dedup(xs + [x])
  {
    assert (xs + [x, x])[..|xs| + 1] == xs + [x];
  }

  /**
   * The output has no white space at either end, every white-space
   * character in it is a single space between two visible characters, and
   * it keeps every visible character of the de-duplicated lines in order.
   */
  lemma VttTextNormalized(vtt: string)
    ensures IsNormalized(VttText(vtt))
    ensures Visible(VttText(vtt)) == Visible(Join(Dedup(TextLines(SplitLines(vtt))), " "))
  {
    NormalizeSpec(Join(Dedup(TextLines(SplitLines(vtt))), " "));
  }
}
