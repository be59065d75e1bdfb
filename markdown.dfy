/**
 * `toMarkdown` (src/summarize.ts): the Markdown rendering of a validated
 * summary. The method pushes lines one by one as the source does; the
 * function `MarkdownLines` is the line sequence it is proved to build.
 */
module Markdown {
  import opened Wrappers
  import opened JsString
  import opened Schema
  import opened Seqs

  /** JavaScript truthiness of an optional string: present and not empty. */
  predicate Truthy(v: Option<string>) {
    v.Some? && v.value != ""
  }

  const SummaryHeading := "# Podcast summary"
  const TakeawaysHeading := "## Key takeaways"
  const ChangesHeading := "## Behavior changes (action + mechanism)"
  const ChangePrefix := "### "
  const WhyLabel := "- **Why (mechanism):** "
  const HowLabel := "- **How to apply:** "
  const EvidenceLabel := "- **Evidence strength:** "
  const TimeToTryLabel := "- **Time to try:** "
  const CautionsLabel := "- **Cautions:** "

  /** The seven lines before the takeaways. */
  function Header(s: FinalSummary, sourceUrl: string): seq<string> {
    [SummaryHeading, "Source: " + sourceUrl, "", "## Overall summary", s.overallSummary, "", TakeawaysHeading]
  }

  function Bullets(ts: seq<string>): seq<string> {
    seq(|ts|, k requires 0 <= k < |ts| => "- " + ts[k])
  }

  /** The block of one behaviour change; the two optional lines appear only for truthy values. */
  function ChangeBlock(b: BehaviorChange): seq<string> {
    [ChangePrefix + b.change, WhyLabel + b.whyMechanism, HowLabel + b.howToApply, EvidenceLabel + b.evidenceStrength]
    + (if Truthy(b.timeToTry) then [TimeToTryLabel + b.timeToTry.value] else [])
    + (if Truthy(b.cautions) then [CautionsLabel + b.cautions.value] else [])
    + [""]
  }

  function ChangeBlocks(bs: seq<BehaviorChange>): seq<string> {
    if bs == [] then [] else ChangeBlocks(bs[..|bs| - 1]) + ChangeBlock(bs[|bs| - 1])
  }

  /** Every line `toMarkdown` pushes, in order. */
  function MarkdownLines(s: FinalSummary, sourceUrl: string): seq<string> {
    Header(s, sourceUrl) + Bullets(s.keyTakeaways) + ["", ChangesHeading] + ChangeBlocks(s.behaviorChanges)
  }

  /** The body of the behaviour change loop of `toMarkdown`: push the block of one change. */
  method PushChange(lines: seq<string>, b: BehaviorChange) returns (out: seq<string>)
    ensures out == lines + ChangeBlock(b)
  {
    out := lines + [ChangePrefix + b.change];
    out := out + [WhyLabel + b.whyMechanism];
    out := out + [HowLabel + b.howToApply];
    out := out + [EvidenceLabel + b.evidenceStrength];
    if Truthy(b.timeToTry) {
      out := out + [TimeToTryLabel + b.timeToTry.value];
    }
    if Truthy(b.cautions) {
      out := out + [CautionsLabel + b.cautions.value];
    }
    out := out + [""];
  }

  /** The takeaway loop of `toMarkdown`: one `- ` bullet per takeaway, in order. */
  method PushTakeaways(lines: seq<string>, ts: seq<string>) returns (out: seq<string>)
    ensures out == lines + Bullets(ts)
  {
    out := lines;
    for i := 0 to |ts|
      invariant out == lines + Bullets(ts[..i])
    {
      assert Bullets(ts[..i + 1]) == Bullets(ts[..i]) + ["- " + ts[i]];
      out := out + ["- " + ts[i]];
    }
    assert ts[..|ts|] == ts;
  }

  /** The behaviour change loop of `toMarkdown`: one block per change, in order. */
  method PushChanges(lines: seq<string>, bs: seq<BehaviorChange>) returns (out: seq<string>)
    ensures out == lines + ChangeBlocks(bs)
  {
    out := lines;
    for i := 0 to |bs|
      invariant out == lines + ChangeBlocks(bs[..i])
    {
      ChangeBlocksSnoc(bs, i);
      AppendAssoc(lines, ChangeBlocks(bs[..i]), ChangeBlock(bs[i]));
      out := PushChange(out, bs[i]);
    }
    assert bs[..|bs|] == bs;
  }

  /** The blocks of one change more. */
  lemma ChangeBlocksSnoc(bs: seq<BehaviorChange>, i: nat)
    requires i < |bs|
    ensures ChangeBlocks(bs[..i + 1]) == ChangeBlocks(bs[..i]) + ChangeBlock(bs[i])
  {
    assert bs[..i + 1][..i] == bs[..i];
  }

  /** `toMarkdown(s, sourceUrl)`: push the lines, then join them with newlines. */
  method ToMarkdown(s: FinalSummary, sourceUrl: string) returns (md: string)
    ensures md == Join(MarkdownLines(s, sourceUrl), "\n")
  {
    var lines: seq<string> := [];
    lines := lines + [SummaryHeading];
    lines := lines + ["Source: " + sourceUrl];
    lines := lines + [""];
    lines := lines + ["## Overall summary"];
    lines := lines + [s.overallSummary];
    lines := lines + [""];
    lines := lines + [TakeawaysHeading];
    lines := PushTakeaways(lines, s.keyTakeaways);
    lines := lines + [""];
    lines := lines + [ChangesHeading];
    assert lines == Header(s, sourceUrl) + Bullets(s.keyTakeaways) + ["", ChangesHeading];
    lines := PushChanges(lines, s.behaviorChanges);
    md := Join(lines, "\n");
  }

  /**
   * The takeaways appear in order as `- ` bullets straight after the
   * "Key takeaways" heading, followed by a blank line and the behaviour
   * change heading, after which come exactly the change blocks.
   */
  lemma TakeawayLines(s: FinalSummary, sourceUrl: string)
    ensures var lines, n := MarkdownLines(s, sourceUrl), |s.keyTakeaways|;
      && lines[0] == SummaryHeading
      && lines[1] == "Source: " + sourceUrl
      && lines[4] == s.overallSummary
      && lines[6] == TakeawaysHeading
      && (forall k :: 0 <= k < n ==> lines[7 + k] == "- " + s.keyTakeaways[k])
      && lines[7 + n] == ""
      && lines[8 + n] == ChangesHeading
      && lines[9 + n..] == ChangeBlocks(s.behaviorChanges)
  {
    var lines, n := MarkdownLines(s, sourceUrl), |s.keyTakeaways|;
    assert lines[9 + n..] == ChangeBlocks(s.behaviorChanges);
  }

  /** The lines that start with `### `, in order. */
  function Headings(lines: seq<string>): seq<string> {
    if lines == [] then []
    else (if StartsWith(lines[0], ChangePrefix) then [lines[0]] else []) + Headings(lines[1..])
  }

  lemma {:induction false} HeadingsAppend(a: seq<string>, b: seq<string>)
    ensures Headings(a + b) == Headings(a) + Headings(b)
  {
    if a == [] {
      assert a + b == b;
    } else {
      assert (a + b)[0] == a[0];
      assert (a + b)[1..] == a[1..] + b;
      HeadingsAppend(a[1..], b);
    }
  }

  /** A line that starts with `-` or is empty is not a heading. */
  lemma NotHeading(line: string)
    requires line == [] || line[0] == '-'
    ensures !StartsWith(line, ChangePrefix)
  {
    if line != [] {
      assert ChangePrefix[0] == '#';
    }
  }

  lemma BlockHeadings(b: BehaviorChange)
    ensures Headings(ChangeBlock(b)) == [ChangePrefix + b.change]
  {
    var block := ChangeBlock(b);
    assert StartsWith(block[0], ChangePrefix) by {
      assert block[0][..|ChangePrefix|] == ChangePrefix;
    }
    forall k | 1 <= k < |block| ensures !StartsWith(block[k], ChangePrefix) {
      NotHeading(block[k]);
    }
    var rest := block[1..];
    assert Headings(rest) == [] by {
      forall k | 0 <= k <= |rest| ensures Headings(rest[k..]) == [] {
        NoHeadingsFrom(rest, k);
      }
      assert rest[0..] == rest;
    }
  }

  lemma {:induction false} NoHeadingsFrom(lines: seq<string>, k: nat)
    requires k <= |lines|
    requires forall j :: 0 <= j < |lines| ==> !StartsWith(lines[j], ChangePrefix)
    ensures Headings(lines[k..]) == []
    decreases |lines| - k
  {
    if k < |lines| {
      NoHeadingsFrom(lines, k + 1);
      assert lines[k..][1..] == lines[k + 1..];
    }
  }

  /**
   * The `### ` headings of the behaviour change section are exactly the
   * changes' titles, one per change, in order.
   */
  lemma {:induction false} ChangeHeadings(bs: seq<BehaviorChange>)
    ensures Headings(ChangeBlocks(bs)) == seq(|bs|, k requires 0 <= k < |bs| => ChangePrefix + bs[k].change)
  {
    if bs != [] {
      var init := bs[..|bs| - 1];
      ChangeHeadings(init);
      HeadingsAppend(ChangeBlocks(init), ChangeBlock(bs[|bs| - 1]));
      BlockHeadings(bs[|bs| - 1]);
    }
  }

  /** The block of a change has a "Time to try" line exactly when `time_to_try` is truthy, and likewise "Cautions". */
  lemma OptionalLines(b: BehaviorChange)
    ensures (exists k :: 0 <= k < |ChangeBlock(b)| && StartsWith(ChangeBlock(b)[k], TimeToTryLabel)) <==> Truthy(b.timeToTry)
    ensures (exists k :: 0 <= k < |ChangeBlock(b)| && StartsWith(ChangeBlock(b)[k], CautionsLabel)) <==> Truthy(b.cautions)
    ensures |ChangeBlock(b)| == 5 + (if Truthy(b.timeToTry) then 1 else 0) + (if Truthy(b.cautions) then 1 else 0)
  {
    var block := ChangeBlock(b);
    assert TimeToTryLabel[4] == 'T' && CautionsLabel[4] == 'C';
    assert ChangePrefix[0] == '#' && TimeToTryLabel[0] == '-' && CautionsLabel[0] == '-';
    assert WhyLabel[4] == 'W' && HowLabel[4] == 'H' && EvidenceLabel[4] == 'E';
    forall k | 0 <= k < |block|
      ensures StartsWith(block[k], TimeToTryLabel) <==> Truthy(b.timeToTry) && k == 4
      ensures StartsWith(block[k], CautionsLabel) <==> Truthy(b.cautions) && k == |block| - 2
    {
      if StartsWith(block[k], TimeToTryLabel) {
        assert block[k][0] == '-' && block[k][4] == 'T';
      }
      if StartsWith(block[k], CautionsLabel) {
        assert block[k][0] == '-' && block[k][4] == 'C';
      }
      if Truthy(b.timeToTry) && k == 4 {
        assert block[k][..|TimeToTryLabel|] == TimeToTryLabel;
      }
      if Truthy(b.cautions) && k == |block| - 2 {
        assert block[k][..|CautionsLabel|] == CautionsLabel;
      }
    }
    if Truthy(b.timeToTry) {
      assert StartsWith(block[4], TimeToTryLabel);
    }
    if Truthy(b.cautions) {
      assert StartsWith(block[|block| - 2], CautionsLabel);
    }
  }

  /** The optional title and the notable quotes are not rendered. */
  lemma TitleAndQuotesNotRendered(s: FinalSummary, sourceUrl: string, title: Option<string>, quotes: Option<seq<string>>)
    ensures MarkdownLines(s.(title := title, notableQuotes := quotes), sourceUrl) == MarkdownLines(s, sourceUrl)
  {
  }
}
