/**
 * `decodeEntities`, `stripXmlText` and `xmlToTranscript` (src/pull.ts):
 * the text of a timedtext XML payload. The regular expression
 * `/<text\b[^>]*>([\s\S]*?)<\/text>/g` is written as a segment scanner:
 * an opening `<text` followed by a word boundary, the first `>` after it,
 * and the first `</text>` after that.
 */
module TimedText {
  import opened Wrappers
  import opened JsString
  import opened Tags

  /** The nine literal replacements of `decodeEntities`, in the order they run; `&amp;` goes first. */
  const Entities: seq<(string, string)> :=
    [("&amp;", "&"), ("&lt;", "<"), ("&gt;", ">"), ("&quot;", "\""), ("&#39;", "'"),
     ("&#x27;", "'"), ("&#x2F;", "/"), ("&#x60;", "`"), ("&#x3D;", "=")]

  /** An entity reference: `&`, then neither `&` nor `;`, then the closing `;`. */
  predicate IsEntity(e: string) {
    && |e| >= 2 && e[0] == '&' && e[|e| - 1] == ';'
    && forall i :: 0 < i < |e| - 1 ==> e[i] != '&' && e[i] != ';'
  }

  /** A chain of `replaceAll` calls: entity references replaced by `$`-free strings. */
  predicate IsEntityChain(table: seq<(string, string)>) {
    forall j :: 0 <= j < |table| ==> IsEntity(table[j].0) && '$' !in table[j].1
  }

  /** The chain applied in order, each `replaceAll` on the result of the one before. */
  function DecodeWith(s: string, table: seq<(string, string)>): string
    requires IsEntityChain(table)
    decreases |table|
  {
    if table == [] then s else DecodeWith(ReplaceAll(s, table[0].0, table[0].1), table[1..])
  }

  function DecodeEntities(s: string): string {
    assert IsEntity("&amp;") && IsEntity("&lt;") && IsEntity("&gt;") && IsEntity("&quot;") && IsEntity("&#39;");
    assert IsEntity("&#x27;") && IsEntity("&#x2F;") && IsEntity("&#x60;") && IsEntity("&#x3D;");
    DecodeWith(s, Entities)
  }

  /** A pattern that starts with `&` does not occur in a string without `&`. */
  lemma AmpFreeNoMatch(s: string, pat: string)
    requires '&' !in s && |pat| > 0 && pat[0] == '&'
    ensures forall p :: !MatchAt(s, pat, p)
  {
    forall p ensures !MatchAt(s, pat, p) {
      if 0 <= p && p + |pat| <= |s| {
        assert s[p..p + |pat|][0] == s[p];
      }
    }
  }

  /** An entity reference occurs inside another only as the whole of it. */
  lemma EntityMatch(e: string, pat: string, p: int)
    requires IsEntity(e) && IsEntity(pat) && MatchAt(e, pat, p)
    ensures p == 0 && pat == e
  {
    assert e[p..p + |pat|][0] == e[p];
    assert p == 0;
    assert e[|pat| - 1] == e[..|pat|][|pat| - 1];
    assert |pat| == |e|;
  }

  /** Replacing a string's only entity reference by itself replaces the whole string. */
  lemma ReplaceWholeEntity(e: string, rep: string)
    requires IsEntity(e) && '$' !in rep
    ensures ReplaceAll(e, e, rep) == rep
  {
    assert MatchAt(e, e, 0);
    assert IndexOf(e, e, 0) == 0;
    assert IndexOf(e, e, |e|) == -1;
    assert ReplaceAllFrom(e, e, rep, |e|) == [];
    SubstitutionLiteral(e, e, 0, rep);
    assert ReplaceAll(e, e, rep) == e[0..0] + Substitution(e, e, 0, rep) + ReplaceAllFrom(e, e, rep, |e|);
  }

  /** An entity reference leaves a different one alone. */
  lemma OtherEntityUnchanged(e: string, pat: string, rep: string)
    requires IsEntity(e) && IsEntity(pat) && pat != e
    ensures ReplaceAll(e, pat, rep) == e
  {
    forall p | MatchAt(e, pat, p) ensures false {
      EntityMatch(e, pat, p);
    }
    NoMatchUnchanged(e, pat, rep);
  }

  /** A string shorter than two characters, or without `&`, holds no entity reference. */
  lemma {:induction false} ChainUnchanged(s: string, table: seq<(string, string)>)
    requires IsEntityChain(table)
    requires |s| < 2 || '&' !in s
    ensures DecodeWith(s, table) == s
  {
    if table != [] {
      if '&' !in s {
        AmpFreeNoMatch(s, table[0].0);
      }
      NoMatchUnchanged(s, table[0].0, table[0].1);
      ChainUnchanged(s, table[1..]);
    }
  }

  /**
   * An entity reference is decoded by the step for it and by no other: the
   * steps before it leave it alone, and what it becomes holds no entity.
   */
  lemma {:induction false} ChainDecodesEntity(e: string, table: seq<(string, string)>, k: nat)
    requires IsEntityChain(table) && IsEntity(e)
    requires k < |table| && table[k].0 == e && (|table[k].1| < 2 || '&' !in table[k].1)
    requires forall j :: 0 <= j < k ==> table[j].0 != e
    ensures DecodeWith(e, table) == table[k].1
  {
    if k == 0 {
      ReplaceWholeEntity(e, table[0].1);
      ChainUnchanged(table[0].1, table[1..]);
    } else {
      OtherEntityUnchanged(e, table[0].0, table[0].1);
      ChainDecodesEntity(e, table[1..], k - 1);
    }
  }

  /** The first step turns `&amp;` followed by the rest of an entity reference into that reference. */
  lemma AmpStep(e: string)
    requires IsEntity(e)
    ensures ReplaceAll("&amp;" + e[1..], "&amp;", "&") == e
  {
    var s := "&amp;" + e[1..];
    assert MatchAt(s, "&amp;", 0);
    assert IndexOf(s, "&amp;", 0) == 0;
    forall q | 5 <= q ensures !MatchAt(s, "&amp;", q) {
      if q + 5 <= |s| {
        assert s[q..q + 5][0] == s[q] == e[q - 4];
      }
    }
    assert IndexOf(s, "&amp;", 5) == -1;
    assert s[5..] == e[1..];
    assert ReplaceAllFrom(s, "&amp;", "&", 5) == e[1..];
    SubstitutionLiteral("&amp;", s, 0, "&");
    assert ReplaceAll(s, "&amp;", "&") == s[0..0] + Substitution("&amp;", s, 0, "&") + ReplaceAllFrom(s, "&amp;", "&", 5);
    assert [e[0]] + e[1..] == e;
  }

  /**
   * In a chain that starts with `&amp;`, a later reference with its `&`
   * escaped is turned back into the reference by the first step and then
   * decoded by its own.
   */
  lemma ChainDecodesEscaped(table: seq<(string, string)>, k: nat)
    requires IsEntityChain(table) && |table| > 0 && table[0] == ("&amp;", "&")
    requires 0 < k < |table| && (|table[k].1| < 2 || '&' !in table[k].1)
    requires forall j :: 0 <= j < k ==> table[j].0 != table[k].0
    ensures DecodeWith("&amp;" + table[k].0[1..], table) == table[k].1
  {
    var e := table[k].0;
    AmpStep(e);
    assert DecodeWith("&amp;" + e[1..], table) == DecodeWith(e, table[1..]);
    ChainDecodesEntity(e, table[1..], k - 1);
  }

  /** The table's references are distinct, and each is replaced by one character. */
  lemma EntitiesDistinct()
    ensures IsEntityChain(Entities)
    ensures forall j, k :: 0 <= j < k < |Entities| ==> Entities[j].0 != Entities[k].0
    ensures forall k :: 0 <= k < |Entities| ==> |Entities[k].1| == 1 && (k > 0 ==> '&' !in Entities[k].1)
  {
    assert IsEntity("&amp;") && IsEntity("&lt;") && IsEntity("&gt;") && IsEntity("&quot;") && IsEntity("&#39;");
    assert IsEntity("&#x27;") && IsEntity("&#x2F;") && IsEntity("&#x60;") && IsEntity("&#x3D;");
  }

  /** Text without `&` has no entity to decode. */
  lemma DecodeWithoutAmpersand(s: string)
    requires '&' !in s
    ensures DecodeEntities(s) == s
  {
    EntitiesDistinct();
    ChainUnchanged(s, Entities);
  }

  /** Each entity reference of the table decodes to its character. */
  lemma EntityDecoded(k: nat)
    requires k < |Entities|
    ensures DecodeEntities(Entities[k].0) == Entities[k].1
  {
    EntitiesDistinct();
    ChainDecodesEntity(Entities[k].0, Entities, k);
  }

  /**
   * `&amp;` is decoded first, so an escaped reference such as `&amp;lt;`
   * is decoded twice: every other entity of the table, written with its `&`
   * escaped as `&amp;`, comes out as its character.
   */
  lemma DoubleEscapedDecoded(k: nat)
    requires 1 <= k < |Entities|
    ensures DecodeEntities("&amp;" + Entities[k].0[1..]) == Entities[k].1
  {
    EntitiesDistinct();
    assert Entities[0] == ("&amp;", "&");
    ChainDecodesEscaped(Entities, k);
  }

  /** `&amp;lt;` becomes `<`, not `&lt;`. */
  lemma AmpLtDecoded()
    ensures DecodeEntities("&amp;lt;") == "<"
  {
    var e := Entities[1].0;
    assert e == "&lt;";
    DoubleEscapedDecoded(1);
    assert "&amp;" + e[1..] == "&amp;lt;" by {
      assert e[1..] == "lt;";
    }
  }

  /** `\w`: the characters on the word side of `\b`. */
  predicate IsWordChar(c: char) {
    ('a' <= c <= 'z') || ('A' <= c <= 'Z') || ('0' <= c <= '9') || c == '_'
  }

  /** `<text\b` at `p`. */
  predicate OpensText(xml: string, p: nat) {
    MatchAt(xml, "<text", p) && (p + 5 == |xml| || !IsWordChar(xml[p + 5]))
  }

  /** A match of the segment regex: the content is `xml[contentStart..contentEnd]`, the match ends at `end`. */
  datatype Segment = Segment(contentStart: nat, contentEnd: nat, end: nat)

  /** The match starting at `p`, if any. */
  function SegmentAt(xml: string, p: nat): (r: Option<Segment>)
    requires p <= |xml|
    ensures r.Some? ==> OpensText(xml, p)
    ensures r.Some? ==> p + 5 < r.value.contentStart <= r.value.contentEnd && r.value.end == r.value.contentEnd + 7 <= |xml|
    ensures r.Some? ==> MatchAt(xml, "</text>", r.value.contentEnd)
    ensures r.Some? ==> forall q :: r.value.contentStart <= q < r.value.contentEnd ==> !MatchAt(xml, "</text>", q)
  {
    if !OpensText(xml, p) then None
    else
      var g := IndexOf(xml, ">", p + 5);
      if g < 0 then None
      else
        var e := IndexOf(xml, "</text>", g + 1);
        if e < 0 then None else Some(Segment(g + 1, e, e + 7))
  }

  /** `re.exec(xml)` with `lastIndex == from`: the first match starting at or after `from`. */
  function NextSegment(xml: string, from: nat): (r: Option<Segment>)
    requires from <= |xml|
    ensures r.Some? ==> from < r.value.contentStart <= r.value.contentEnd && r.value.end == r.value.contentEnd + 7 <= |xml|
    decreases |xml| - from
  {
    match SegmentAt(xml, from)
    case Some(m) => Some(m)
    case None => if from == |xml| then None else NextSegment(xml, from + 1)
  }

  /** The contents of the matches from `from` on, in document order. */
  function RawSegments(xml: string, from: nat): seq<string>
    requires from <= |xml|
    decreases |xml| - from
  {
    match NextSegment(xml, from)
    case None => []
    case Some(m) => [xml[m.contentStart..m.contentEnd]] + RawSegments(xml, m.end)
  }

  /** One segment's text: entities decoded, residual tags turned into spaces, white space normalised. */
  function CleanSegment(raw: string): string {
    Normalize(ReplaceTags(DecodeEntities(raw), " "))
  }

  /** The non-empty results of `clean` over the segments, in order. */
  function CleanAll(clean: string -> string, raws: seq<string>): seq<string> {
    if raws == [] then []
    else (if clean(raws[0]) != "" then [clean(raws[0])] else []) + CleanAll(clean, raws[1..])
  }

  /** The segments from a position where a match is found: its content, then the segments after it. */
  lemma RawSegmentsStep(xml: string, pos: nat)
    requires pos <= |xml| && NextSegment(xml, pos).Some?
    ensures var m := NextSegment(xml, pos).value;
      RawSegments(xml, pos) == [xml[m.contentStart..m.contentEnd]] + RawSegments(xml, m.end)
  {
  }

  /** Cleaning one segment more. */
  lemma CleanAllStep(clean: string -> string, raw: string, rest: seq<string>)
    ensures CleanAll(clean, [raw] + rest) == (if clean(raw) != "" then [clean(raw)] else []) + CleanAll(clean, rest)
  {
    assert ([raw] + rest)[1..] == rest;
  }

  /** The result of `stripXmlText`. */
  function StripXml(xml: string): seq<string> {
    CleanAll(CleanSegment, RawSegments(xml, 0))
  }

  /** One turn of the `re.exec` loop keeps the pushed segments plus the ones still to come unchanged. */
  lemma StripStep(clean: string -> string, xml: string, pos: nat, out: seq<string>)
    requires pos <= |xml| && NextSegment(xml, pos).Some?
    ensures var m := NextSegment(xml, pos).value;
      var c := clean(xml[m.contentStart..m.contentEnd]);
      (if c != "" then out + [c] else out) + CleanAll(clean, RawSegments(xml, m.end))
        == out + CleanAll(clean, RawSegments(xml, pos))
  {
    var m := NextSegment(xml, pos).value;
    var raw := xml[m.contentStart..m.contentEnd];
    var rest := RawSegments(xml, m.end);
    RawSegmentsStep(xml, pos);
    CleanAllStep(clean, raw, rest);
    if clean(raw) != "" {
      assert out + [clean(raw)] + CleanAll(clean, rest) == out + ([clean(raw)] + CleanAll(clean, rest));
    }
  }

  /** `stripXmlText(xml)`: the `re.exec` loop, pushing each non-empty cleaned segment. */
  method StripXmlText(xml: string) returns (out: seq<string>)
    ensures out == StripXml(xml)
  {
    out := [];
    var pos := 0;
    while true
      invariant pos <= |xml|
      invariant out + CleanAll(CleanSegment, RawSegments(xml, pos)) == StripXml(xml)
      decreases |xml| - pos
    {
      var m := NextSegment(xml, pos);
      if m.None? {
        break;
      }
      var cleaned := CleanSegment(xml[m.value.contentStart..m.value.contentEnd]);
      StripStep(CleanSegment, xml, pos, out);
      if cleaned != "" {
        out := out + [cleaned];
      }
      pos := m.value.end;
    }
    assert out + [] == out;
  }

  /** `xmlToTranscript(xml)`: `None` stands for `null`. */
  function XmlToTranscript(xml: string): Option<string> {
    if !Contains(xml, "<text") then None
    else
      var parts := StripXml(xml);
      if parts == [] then None else Some(Normalize(Join(parts, " ")))
  }

  /** What holds of every non-empty value of `clean` holds of every kept segment. */
  lemma {:induction false} CleanAllKeeps(clean: string -> string, P: string -> bool, raws: seq<string>)
    requires forall r :: clean(r) != "" ==> P(clean(r))
    ensures forall k :: 0 <= k < |CleanAll(clean, raws)| ==> P(CleanAll(clean, raws)[k])
  {
    if raws != [] {
      CleanAllKeeps(clean, P, raws[1..]);
    }
  }

  /** Every kept segment is non-empty and in normal form. */
  lemma StripXmlNormalized(xml: string)
    ensures forall k :: 0 <= k < |StripXml(xml)| ==> StripXml(xml)[k] != [] && IsNormalized(StripXml(xml)[k])
  {
    forall r ensures IsNormalized(CleanSegment(r)) {
      NormalizeSpec(ReplaceTags(DecodeEntities(r), " "));
    }
    CleanAllKeeps(CleanSegment, x => x != [] && IsNormalized(x), RawSegments(xml, 0));
  }

  /** Without `<text` there is no segment at all: the first test of `xmlToTranscript` only short-cuts. */
  lemma {:induction false} NoOpeningNoSegments(xml: string, from: nat)
    requires from <= |xml|
    requires !Contains(xml, "<text")
    ensures NextSegment(xml, from).None?
    decreases |xml| - from
  {
    ContainsIff(xml, "<text");
    if from < |xml| {
      NoOpeningNoSegments(xml, from + 1);
    }
  }

  /**
   * `xmlToTranscript` gives `null` exactly when no segment cleans to a
   * non-empty string; otherwise it gives the non-empty cleaned segments in
   * document order joined by single spaces, which is already in normal
   * form, so the final clean-up changes nothing.
   */
  lemma XmlToTranscriptSpec(xml: string)
    ensures XmlToTranscript(xml).None? <==> StripXml(xml) == []
    ensures XmlToTranscript(xml).Some? ==>
      var t := XmlToTranscript(xml).value;
      t == Join(StripXml(xml), " ") && t != [] && IsNormalized(t)
  {
    var parts := StripXml(xml);
    if !Contains(xml, "<text") {
      NoOpeningNoSegments(xml, 0);
    } else if parts != [] {
      StripXmlNormalized(xml);
      JoinNormalized(parts);
      NormalizeFixpoint(Join(parts, " "));
    }
  }
}
