/**
 * `SummarySchema` (src/summarize.ts): the shape the final synthesis must
 * have. `SummarySchema.parse` is written out as a partial function from a
 * JSON value to a typed summary, with the schema's enum and array caps
 * gathered in the validity predicate `Valid`.
 */
module Schema {
  import opened Wrappers
  import opened Json

  datatype BehaviorChange = BehaviorChange(
    change: string,
    whyMechanism: string,
    howToApply: string,
    evidenceStrength: string,
    timeToTry: Option<string>,
    cautions: Option<string>)

  datatype FinalSummary = FinalSummary(
    title: Option<string>,
    overallSummary: string,
    keyTakeaways: seq<string>,
    behaviorChanges: seq<BehaviorChange>,
    notableQuotes: Option<seq<string>>)

  const MaxTakeaways: nat := 1000
  const MaxBehaviorChanges: nat := 1000
  const MaxQuotes: nat := 10

  /** `z.enum(["low", "medium", "high"])`. */
  predicate IsEvidenceStrength(s: string) {
    s == "low" || s == "medium" || s == "high"
  }

  /** The constraints of the schema beyond the field types: the enum and the array caps. */
  predicate Valid(s: FinalSummary) {
    && |s.keyTakeaways| <= MaxTakeaways
    && |s.behaviorChanges| <= MaxBehaviorChanges
    && (forall b :: b in s.behaviorChanges ==> IsEvidenceStrength(b.evidenceStrength))
    && (s.notableQuotes.Some? ==> |s.notableQuotes.value| <= MaxQuotes)
  }

  /** `z.string()`. */
  function AsString(j: Json): Option<string> {
    if j.JString? then Some(j.s) else None
  }

  /** A required string field: missing (`undefined`) or not a string is an issue. */
  function RequiredString(fields: map<string, Json>, key: string): Option<string> {
    if key in fields then AsString(fields[key]) else None
  }

  /**
   * `z.string().optional()`: a missing key is accepted as `undefined`
   * (inner `None`); a present key must hold a string (`null` is an issue,
   * the outer `None`).
   */
  function OptionalString(fields: map<string, Json>, key: string): Option<Option<string>> {
    if key !in fields then Some(None)
    else match AsString(fields[key])
      case Some(v) => Some(Some(v))
      case None => None
  }

  /** Every item must be a string. */
  function StringItems(items: seq<Json>): (r: Option<seq<string>>)
    ensures r.Some? ==> |r.value| == |items|
  {
    if items == [] then Some([])
    else match (AsString(items[0]), StringItems(items[1..]))
      case (Some(h), Some(t)) => Some([h] + t)
      case _ => None
  }

  /** `z.array(z.string()).max(max)`. */
  function StringArray(j: Json, max: nat): Option<seq<string>> {
    if !j.JArray? then None
    else match StringItems(j.items)
      case Some(v) => if |v| <= max then Some(v) else None
      case None => None
  }

  /** `evidence_strength`: present, a string, and one of the three enum members. */
  function EvidenceField(fields: map<string, Json>): Option<string> {
    match RequiredString(fields, "evidence_strength")
    case Some(v) => if IsEvidenceStrength(v) then Some(v) else None
    case None => None
  }

  /** The object schema of one behaviour change; unknown keys are dropped. */
  function ParseBehaviorChange(j: Json): Option<BehaviorChange> {
    if !j.JObject? then None
    else
      var f := j.fields;
      match (RequiredString(f, "change"), RequiredString(f, "why_mechanism"),
             RequiredString(f, "how_to_apply"), EvidenceField(f),
             OptionalString(f, "time_to_try"), OptionalString(f, "cautions"))
      case (Some(c), Some(w), Some(h), Some(e), Some(t), Some(k)) => Some(BehaviorChange(c, w, h, e, t, k))
      case _ => None
  }

  function ChangeItems(items: seq<Json>): (r: Option<seq<BehaviorChange>>)
    ensures r.Some? ==> |r.value| == |items|
    ensures r.Some? ==> forall b :: b in r.value ==> IsEvidenceStrength(b.evidenceStrength)
  {
    if items == [] then Some([])
    else match (ParseBehaviorChange(items[0]), ChangeItems(items[1..]))
      case (Some(h), Some(t)) => Some([h] + t)
      case _ => None
  }

  /** `z.array(<behaviour change>).max(max)`. */
  function ChangeArray(j: Json, max: nat): Option<seq<BehaviorChange>> {
    if !j.JArray? then None
    else match ChangeItems(j.items)
      case Some(v) => if |v| <= max then Some(v) else None
      case None => None
  }

  /** `notable_quotes`: absent, or an array of at most ten strings. */
  function QuotesField(fields: map<string, Json>): Option<Option<seq<string>>> {
    if "notable_quotes" !in fields then Some(None)
    else match StringArray(fields["notable_quotes"], MaxQuotes)
      case Some(q) => Some(Some(q))
      case None => None
  }

  /**
   * `SummarySchema.parse`: `None` is a thrown `ZodError`. Whatever it
   * accepts came from an object with a string `overall_summary` and
   * satisfies the enum and the caps.
   */
  function ParseSummary(j: Json): (r: Option<FinalSummary>)
    ensures r.Some? ==> j.JObject? && "overall_summary" in j.fields && j.fields["overall_summary"].JString?
    ensures r.Some? ==> Valid(r.value)
  {
    if !j.JObject? then None
    else
      var f := j.fields;
      match (OptionalString(f, "title"), RequiredString(f, "overall_summary"),
             (if "key_takeaways" in f then StringArray(f["key_takeaways"], MaxTakeaways) else None),
             (if "behavior_changes" in f then ChangeArray(f["behavior_changes"], MaxBehaviorChanges) else None),
             QuotesField(f))
      case (Some(t), Some(o), Some(k), Some(b), Some(q)) => Some(FinalSummary(t, o, k, b, q))
      case _ => None
  }

  /** Strings as JSON strings. */
  function StringsToJson(xs: seq<string>): seq<Json> {
    seq(|xs|, i requires 0 <= i < |xs| => JString(xs[i]))
  }

  /** An optional field is written only when present (`JSON.stringify` drops `undefined`). */
  function WithOptional(f: map<string, Json>, key: string, v: Option<string>): map<string, Json> {
    if v.Some? then f[key := JString(v.value)] else f
  }

  function ChangeToJson(b: BehaviorChange): Json {
    var f := map["change" := JString(b.change), "why_mechanism" := JString(b.whyMechanism),
                 "how_to_apply" := JString(b.howToApply), "evidence_strength" := JString(b.evidenceStrength)];
    JObject(WithOptional(WithOptional(f, "time_to_try", b.timeToTry), "cautions", b.cautions))
  }

  /** The JSON value `JSON.stringify(finalJson)` writes to `<id>.summary.json`. */
  function SummaryToJson(s: FinalSummary): Json {
    var f := map["overall_summary" := JString(s.overallSummary),
                 "key_takeaways" := JArray(StringsToJson(s.keyTakeaways)),
                 "behavior_changes" := JArray(ChangesToJson(s.behaviorChanges))];
    var f' := WithOptional(f, "title", s.title);
    JObject(if s.notableQuotes.Some? then f'["notable_quotes" := JArray(StringsToJson(s.notableQuotes.value))] else f')
  }

  lemma {:induction false} StringItemsRoundTrip(xs: seq<string>)
    ensures StringItems(StringsToJson(xs)) == Some(xs)
  {
    if xs != [] {
      assert StringsToJson(xs)[1..] == StringsToJson(xs[1..]);
      StringItemsRoundTrip(xs[1..]);
      assert [xs[0]] + xs[1..] == xs;
    }
  }

  /** One behaviour change comes back from its JSON form exactly when its evidence strength is an enum member. */
  lemma ChangeRoundTrip(b: BehaviorChange)
    ensures ParseBehaviorChange(ChangeToJson(b)) == if IsEvidenceStrength(b.evidenceStrength) then Some(b) else None
  {
  }

  function ChangesToJson(bs: seq<BehaviorChange>): seq<Json> {
    seq(|bs|, i requires 0 <= i < |bs| => ChangeToJson(bs[i]))
  }

  lemma {:induction false} ChangeItemsRoundTrip(bs: seq<BehaviorChange>)
    ensures ChangeItems(ChangesToJson(bs)).Some? <==> forall b :: b in bs ==> IsEvidenceStrength(b.evidenceStrength)
    ensures ChangeItems(ChangesToJson(bs)).Some? ==> ChangeItems(ChangesToJson(bs)) == Some(bs)
  {
    if bs != [] {
      assert ChangesToJson(bs)[1..] == ChangesToJson(bs[1..]);
      assert ChangesToJson(bs)[0] == ChangeToJson(bs[0]);
      ChangeItemsRoundTrip(bs[1..]);
      ChangeRoundTrip(bs[0]);
      assert [bs[0]] + bs[1..] == bs;
      assert forall b :: b in bs <==> b == bs[0] || b in bs[1..];
    }
  }

  /** The written `title` and `overall_summary` read back as they were. */
  lemma ScalarFieldsRoundTrip(s: FinalSummary)
    ensures var f := SummaryToJson(s).fields;
      OptionalString(f, "title") == Some(s.title) && RequiredString(f, "overall_summary") == Some(s.overallSummary)
  {
    var f := SummaryToJson(s).fields;
    assert f["overall_summary"] == JString(s.overallSummary);
    assert "title" in f <==> s.title.Some?;
    assert s.title.Some? ==> f["title"] == JString(s.title.value);
  }

  /** The written `key_takeaways` read back unless there are too many. */
  lemma TakeawaysRoundTrip(s: FinalSummary)
    ensures var f := SummaryToJson(s).fields;
      "key_takeaways" in f
      && StringArray(f["key_takeaways"], MaxTakeaways)
         == if |s.keyTakeaways| <= MaxTakeaways then Some(s.keyTakeaways) else None
  {
    var f := SummaryToJson(s).fields;
    assert f["key_takeaways"] == JArray(StringsToJson(s.keyTakeaways));
    StringItemsRoundTrip(s.keyTakeaways);
  }

  /** The written `behavior_changes` read back unless one has a bad evidence strength or there are too many. */
  lemma ChangesRoundTrip(s: FinalSummary)
    ensures var f := SummaryToJson(s).fields;
      var ok := (forall b :: b in s.behaviorChanges ==> IsEvidenceStrength(b.evidenceStrength))
                && |s.behaviorChanges| <= MaxBehaviorChanges;
      "behavior_changes" in f
      && ChangeArray(f["behavior_changes"], MaxBehaviorChanges) == if ok then Some(s.behaviorChanges) else None
  {
    var f := SummaryToJson(s).fields;
    assert f["behavior_changes"] == JArray(ChangesToJson(s.behaviorChanges));
    ChangeItemsRoundTrip(s.behaviorChanges);
  }

  /** The written `notable_quotes` read back unless there are more than ten. */
  lemma QuotesRoundTrip(s: FinalSummary)
    ensures QuotesField(SummaryToJson(s).fields)
         == if s.notableQuotes.None? then Some(None)
            else if |s.notableQuotes.value| <= MaxQuotes then Some(s.notableQuotes) else None
  {
    var f := SummaryToJson(s).fields;
    assert "notable_quotes" in f <==> s.notableQuotes.Some?;
    if s.notableQuotes.Some? {
      assert f["notable_quotes"] == JArray(StringsToJson(s.notableQuotes.value));
      StringItemsRoundTrip(s.notableQuotes.value);
    }
  }

  /**
   * The schema accepts the JSON form of a summary exactly when the summary
   * is valid, and then gives the same summary back: what is written to
   * `<id>.summary.json` re-validates.
   */
  lemma SchemaRoundTrip(s: FinalSummary)
    ensures ParseSummary(SummaryToJson(s)).Some? <==> Valid(s)
    ensures Valid(s) ==> ParseSummary(SummaryToJson(s)) == Some(s)
  {
    ScalarFieldsRoundTrip(s);
    TakeawaysRoundTrip(s);
    ChangesRoundTrip(s);
    QuotesRoundTrip(s);
  }
}
