/**
 * The lenient JSON reading of src/summarize.ts: cut the text from its first
 * `{` to its last `}` and hand that to `JSON.parse`. `JSON.parse` itself is
 * library code and appears as a parameter, a partial function from text to
 * a JSON value.
 */
module Json {
  import opened Wrappers
  import opened JsString

  /** A parsed JSON document (numbers are kept abstract as integers). */
  datatype Json =
    | JNull
    | JBool(b: bool)
    | JNumber(n: int)
    | JString(s: string)
    | JArray(items: seq<Json>)
    | JObject(fields: map<string, Json>)

  /** `JSON.parse`: `None` is a thrown `SyntaxError`. */
  type Parser = string -> Option<Json>

  /** There is a `{` before a `}` somewhere in the text. */
  predicate HasBracePair(text: string) {
    exists i, j :: 0 <= i < j < |text| && text[i] == '{' && text[j] == '}'
  }

  /** `extractJsonObject` (and the identical slice in `safeParseJson` and `synthesizeFinal`). */
  function ExtractJsonObject(text: string): string {
    var start := IndexOf(text, "{", 0);
    var end := LastIndexOf(text, "}");
    if start >= 0 && end > start then text[start..end + 1] else text
  }

  lemma SingleCharMatch(text: string, c: char, p: int)
    ensures MatchAt(text, [c], p) <==> 0 <= p < |text| && text[p] == c
  {
    if 0 <= p < |text| {
      assert text[p..p + 1] == [text[p]];
    }
  }

  /** `indexOf("{")`: the position of the first `{`, or -1 when there is none. */
  lemma FirstOpenBrace(text: string)
    ensures var start := IndexOf(text, "{", 0);
      && (start == -1 ==> forall p :: 0 <= p < |text| ==> text[p] != '{')
      && (start != -1 ==> 0 <= start < |text| && text[start] == '{'
                          && forall p :: 0 <= p < start ==> text[p] != '{')
  {
    var start := IndexOf(text, "{", 0);
    SingleCharMatch(text, '{', start);
    forall p | 0 <= p < |text| && (start == -1 || p < start) ensures text[p] != '{' {
      SingleCharMatch(text, '{', p);
    }
  }

  /** `lastIndexOf("}")`: the position of the last `}`, or -1 when there is none. */
  lemma LastCloseBrace(text: string)
    ensures var end := LastIndexOf(text, "}");
      && (end == -1 ==> forall p :: 0 <= p < |text| ==> text[p] != '}')
      && (end != -1 ==> 0 <= end < |text| && text[end] == '}'
                        && forall p :: end < p < |text| ==> text[p] != '}')
  {
    var end := LastIndexOf(text, "}");
    SingleCharMatch(text, '}', end);
    forall p | end < p < |text| ensures text[p] != '}' {
      SingleCharMatch(text, '}', p);
    }
  }

  /**
   * When the text has a `{` before a `}`, the slice runs from the first `{`
   * to the last `}`, so it starts with `{` and ends with `}` and nothing
   * outside it could have widened it; otherwise the text is returned
   * unchanged.
   */
  lemma ExtractJsonObjectSpec(text: string)
    ensures !HasBracePair(text) ==> ExtractJsonObject(text) == text
    ensures HasBracePair(text) ==>
      exists a, b :: 0 <= a < b < |text| && ExtractJsonObject(text) == text[a..b + 1]
        && text[a] == '{' && text[b] == '}'
        && (forall p :: 0 <= p < a ==> text[p] != '{')
        && (forall p :: b < p < |text| ==> text[p] != '}')
  {
    var start := IndexOf(text, "{", 0);
    var end := LastIndexOf(text, "}");
    FirstOpenBrace(text);
    LastCloseBrace(text);
    if HasBracePair(text) {
      var i, j :| 0 <= i < j < |text| && text[i] == '{' && text[j] == '}';
      assert 0 <= start <= i;
      assert j <= end;
    }
  }

  /** The slice, when taken, starts with `{` and ends with `}`. */
  lemma ExtractJsonObjectBraces(text: string)
    requires HasBracePair(text)
    ensures var r := ExtractJsonObject(text); |r| >= 2 && r[0] == '{' && r[|r| - 1] == '}'
  {
    ExtractJsonObjectSpec(text);
  }

  /**
   * `safeParseJson`: parse the slice; a parse failure and a document that
   * is literally `null` both come back as `null`.
   */
  function SafeParseJson(parse: Parser, text: string): (r: Option<Json>)
    ensures r.Some? ==> r.value != JNull && parse(ExtractJsonObject(text)) == r
    ensures r.None? ==> parse(ExtractJsonObject(text)) in {None, Some(JNull)}
  {
    match parse(ExtractJsonObject(text))
    case Some(JNull) => None
    case other => other
  }
}
