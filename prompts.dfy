/**
 * `loadPrompt` (src/prompts.ts): every `{{key}}` of a prompt template is
 * replaced by its value, one entry of `vars` at a time, each over the
 * result of the previous one. The template file is read by the caller of
 * this model; `vars` is the sequence `Object.entries(vars)` yields.
 */
module Prompts {
  import opened JsString

  /** `{{key}}`. */
  function Placeholder(key: string): (r: string)
    ensures |r| == |key| + 4
    ensures r[0] == '{' && r[1] == '{' && r[|key| + 2] == '}' && r[|key| + 3] == '}'
    ensures forall i :: 0 <= i < |key| ==> r[i + 2] == key[i]
  {
    "{{" + key + "}}"
  }

  /** A key without braces. */
  predicate BraceFree(key: string) {
    '{' !in key && '}' !in key
  }

  /** One turn of the loop: `text.replaceAll(`{{${key}}}`, value)`. */
  function Step(text: string, entry: (string, string)): string {
    ReplaceAll(text, Placeholder(entry.0), entry.1)
  }

  /** The template after the loop over `vars`. */
  function Render(template: string, vars: seq<(string, string)>): string {
    if vars == [] then template else Step(Render(template, vars[..|vars| - 1]), vars[|vars| - 1])
  }

  /** `loadPrompt(name, vars)` once the template text is read. */
  method LoadPrompt(template: string, vars: seq<(string, string)>) returns (text: string)
    ensures text == Render(template, vars)
  {
    text := template;
    for i := 0 to |vars|
      invariant text == Render(template, vars[..i])
    {
      assert vars[..i + 1][..i] == vars[..i];
      var (key, value) := vars[i];
      text := ReplaceAll(text, Placeholder(key), value);
    }
    assert vars[..|vars|] == vars;
  }

  /** Inside a placeholder with a brace-free key, `{` occurs exactly at the first two positions. */
  lemma OpeningBraces(key: string)
    requires BraceFree(key)
    ensures forall d :: 0 <= d < |key| + 4 ==> (Placeholder(key)[d] == '{' <==> d < 2)
  {
    var r := Placeholder(key);
    forall d | 2 <= d < |key| + 2 ensures r[d] != '{' {
      assert r[d] == key[d - 2];
    }
  }

  /** Inside a placeholder with a brace-free key, `}` occurs exactly at the last two positions. */
  lemma ClosingBraces(key: string)
    requires BraceFree(key)
    ensures forall d :: 0 <= d < |key| + 4 ==> (Placeholder(key)[d] == '}' <==> d >= |key| + 2)
  {
    var r := Placeholder(key);
    forall d | 2 <= d < |key| + 2 ensures r[d] != '}' {
      assert r[d] == key[d - 2];
    }
  }

  /** Two placeholders of brace-free keys found at the same position are the same placeholder. */
  lemma SamePlaceholder(t: string, at: nat, k: string, k2: string)
    requires BraceFree(k) && BraceFree(k2)
    requires MatchAt(t, Placeholder(k), at) && MatchAt(t, Placeholder(k2), at)
    ensures k == k2
  {
    var m := if |k| < |k2| then |k| else |k2|;
    assert t[at + 2 + m] == Placeholder(k)[2 + m] == Placeholder(k2)[2 + m] by {
      assert t[at..at + |k| + 4][2 + m] == t[at + 2 + m];
      assert t[at..at + |k2| + 4][2 + m] == t[at + 2 + m];
    }
    ClosingBraces(k);
    ClosingBraces(k2);
    assert |k| == |k2|;
    forall i | 0 <= i < |k| ensures k[i] == k2[i] {
      assert t[at..at + |k| + 4][i + 2] == t[at + i + 2];
    }
  }

  /**
   * No placeholder starts inside an occurrence of a placeholder with a
   * brace-free key; in particular the occurrences of one such placeholder
   * never overlap, so those `replaceAll` finds are all there are.
   */
  lemma PlaceholdersDoNotOverlap(s: string, key: string, k2: string, p: nat, q: nat)
    requires BraceFree(key)
    requires MatchAt(s, Placeholder(key), p) && MatchAt(s, Placeholder(k2), q) && p < q
    ensures q >= p + |key| + 4
  {
    var r := Placeholder(key);
    OpeningBraces(key);
    assert s[q] == '{' && s[q + 1] == '{' by {
      assert s[q..q + |k2| + 4][0] == s[q] && s[q..q + |k2| + 4][1] == s[q + 1];
    }
    forall d | 0 <= d < |r| ensures s[p + d] == r[d] {
      assert s[p..p + |r|][d] == s[p + d];
    }
  }

  /** A template with its only `{` in one placeholder: the `{` characters are the two that open it. */
  lemma BracesOfTemplate(pre: string, key: string, post: string)
    requires BraceFree(key) && '{' !in pre && '{' !in post
    ensures var t := pre + Placeholder(key) + post;
      forall i :: 0 <= i < |t| ==> (t[i] == '{' <==> i == |pre| || i == |pre| + 1)
  {
    var r := Placeholder(key);
    var t := pre + r + post;
    OpeningBraces(key);
    forall i | 0 <= i < |t| ensures t[i] == '{' <==> i == |pre| || i == |pre| + 1 {
      if i < |pre| {
        assert t[i] == pre[i];
      } else if i < |pre| + |r| {
        assert t[i] == r[i - |pre|];
      } else {
        assert t[i] == post[i - |pre| - |r|];
      }
    }
  }

  /** In such a template, a placeholder occurs only where the template's own one is, and only with its key. */
  lemma OnlyOwnPlaceholder(pre: string, key: string, post: string, k2: string)
    requires BraceFree(key) && BraceFree(k2) && '{' !in pre && '{' !in post
    ensures var t := pre + Placeholder(key) + post;
      forall p :: MatchAt(t, Placeholder(k2), p) <==> p == |pre| && k2 == key
  {
    var t := pre + Placeholder(key) + post;
    BracesOfTemplate(pre, key, post);
    assert MatchAt(t, Placeholder(key), |pre|) by {
      assert t[|pre|..|pre| + |key| + 4] == Placeholder(key);
    }
    forall p | MatchAt(t, Placeholder(k2), p) ensures p == |pre| && k2 == key {
      assert t[p] == '{' && t[p + 1] == '{' by {
        assert t[p..p + |k2| + 4][0] == t[p] && t[p..p + |k2| + 4][1] == t[p + 1];
      }
      SamePlaceholder(t, p, key, k2);
    }
  }

  /**
   * A placeholder whose key is not among the entries stays verbatim: in a
   * template whose only `{` belong to it, no entry changes anything.
   */
  lemma {:induction false} UnknownPlaceholderKept(pre: string, key: string, post: string, vars: seq<(string, string)>)
    requires BraceFree(key) && '{' !in pre && '{' !in post
    requires forall e :: e in vars ==> BraceFree(e.0) && e.0 != key
    ensures Render(pre + Placeholder(key) + post, vars) == pre + Placeholder(key) + post
  {
    if vars != [] {
      var init := vars[..|vars| - 1];
      var e := vars[|vars| - 1];
      assert forall x :: x in init ==> x in vars;
      UnknownPlaceholderKept(pre, key, post, init);
      OnlyOwnPlaceholder(pre, key, post, e.0);
      NoMatchUnchanged(pre + Placeholder(key) + post, Placeholder(e.0), e.1);
    }
  }

  /** An occurrence in the second part of a concatenation is one in the whole. */
  lemma MatchInSuffix(a: string, b: string, x: string, q: nat)
    requires MatchAt(b, x, q)
    ensures MatchAt(a + b, x, |a| + q)
  {
    assert (a + b)[|a| + q..|a| + q + |x|] == b[q..q + |x|];
  }

  /** An occurrence in the first part of a concatenation is one in the whole. */
  lemma MatchInPrefix(a: string, b: string, x: string, q: nat)
    requires MatchAt(a, x, q)
    ensures MatchAt(a + b, x, q)
  {
    assert (a + b)[q..q + |x|] == a[q..q + |x|];
  }

  /** An occurrence inside a slice is one of the slice, shifted by its start. */
  lemma MatchInSlice(s: string, x: string, from: nat, to: nat, p: nat)
    requires from <= p && p + |x| <= to <= |s| && MatchAt(s, x, p)
    ensures MatchAt(s[from..to], x, p - from)
  {
    var t := s[from..to];
    forall d | 0 <= d < |x| ensures t[p - from + d] == x[d] {
      assert t[p - from + d] == s[p + d];
      assert s[p..p + |x|][d] == s[p + d];
    }
    assert t[p - from..p - from + |x|] == x;
  }

  /** Occurrences of the placeholders of two different brace-free keys never overlap. */
  lemma OtherPlaceholdersDisjoint(s: string, u: string, k: string, p: nat, q: nat)
    requires BraceFree(u) && BraceFree(k) && u != k
    requires MatchAt(s, Placeholder(u), p) && MatchAt(s, Placeholder(k), q)
    ensures p + |u| + 4 <= q || q + |k| + 4 <= p
  {
    if p < q {
      PlaceholdersDoNotOverlap(s, u, k, p, q);
    } else if q < p {
      PlaceholdersDoNotOverlap(s, k, u, q, p);
    } else {
      SamePlaceholder(s, p, u, k);
    }
  }

  /** Text kept in front of whatever follows still contains what it contained. */
  lemma ContainsInPrefix(a: string, b: string, x: string)
    requires Contains(a, x)
    ensures Contains(a + b, x)
  {
    ContainsIff(a, x);
    var q :| MatchAt(a, x, q);
    MatchInPrefix(a, b, x, q);
    ContainsIff(a + b, x);
  }

  /** Text kept after whatever precedes it still contains what it contained. */
  lemma ContainsInSuffix(a: string, b: string, x: string)
    requires Contains(b, x)
    ensures Contains(a + b, x)
  {
    ContainsIff(b, x);
    var q :| MatchAt(b, x, q);
    MatchInSuffix(a, b, x, q);
    ContainsIff(a + b, x);
  }

  /** An occurrence lying inside a slice is contained in the slice. */
  lemma ContainsInSlice(s: string, x: string, from: nat, to: nat, p: nat)
    requires from <= p && p + |x| <= to <= |s| && MatchAt(s, x, p)
    ensures Contains(s[from..to], x)
  {
    MatchInSlice(s, x, from, to, p);
    ContainsIff(s[from..to], x);
  }

  /** No occurrence of `pat` overlaps the occurrence of `x` at `p`. */
  predicate Separate(s: string, x: string, pat: string, p: nat) {
    forall q :: MatchAt(s, pat, q) ==> p + |x| <= q || q + |pat| <= p
  }

  /**
   * A `replaceAll` pass of `pat`, from any position at or before an
   * occurrence of `x` that no occurrence of `pat` overlaps, leaves an
   * occurrence of `x` in what it produces, whatever the value.
   */
  lemma {:induction false} KeptThroughPass(s: string, x: string, pat: string, value: string, from: nat, p: nat)
    requires |pat| > 0 && from <= p && MatchAt(s, x, p) && Separate(s, x, pat, p)
    ensures Contains(ReplaceAllFrom(s, pat, value, from), x)
    decreases |s| - from
  {
    var q := IndexOf(s, pat, from);
    if q < 0 {
      KeptWithoutMatch(s, x, pat, value, from, p);
    } else if p + |x| <= q {
      KeptBeforeMatch(s, x, pat, value, from, p, q);
    } else {
      KeptThroughPass(s, x, pat, value, q + |pat|, p);
      KeptAfterMatch(s, x, pat, value, from, q);
    }
  }

  /** One turn for another brace-free key keeps an occurrence of `{{u}}`, whatever the value. */
  lemma StepKeepsPlaceholder(s: string, u: string, k: string, value: string, p: nat)
    requires BraceFree(u) && BraceFree(k) && u != k
    requires MatchAt(s, Placeholder(u), p)
    ensures Contains(Step(s, (k, value)), Placeholder(u))
  {
    forall q | MatchAt(s, Placeholder(k), q) ensures p + |Placeholder(u)| <= q || q + |Placeholder(k)| <= p {
      OtherPlaceholdersDisjoint(s, u, k, p, q);
    }
    KeptThroughPass(s, Placeholder(u), Placeholder(k), value, 0, p);
  }

  /** With no match of `pat` left, the pass copies the rest, and an occurrence of `x` in it. */
  lemma KeptWithoutMatch(s: string, x: string, pat: string, value: string, from: nat, p: nat)
    requires |pat| > 0 && from <= p && MatchAt(s, x, p) && IndexOf(s, pat, from) < 0
    ensures Contains(ReplaceAllFrom(s, pat, value, from), x)
  {
    ContainsInSlice(s, x, from, |s|, p);
    assert ReplaceAllFrom(s, pat, value, from) == s[from..] == s[from..|s|];
  }

  /** An occurrence lying inside `s[from..q]` is contained in anything that starts with that slice. */
  lemma ContainsAheadOf(s: string, x: string, from: nat, q: nat, p: nat, rest: string)
    requires from <= p && p + |x| <= q <= |s| && MatchAt(s, x, p)
    ensures Contains(s[from..q] + rest, x)
  {
    ContainsInSlice(s, x, from, q, p);
    ContainsInPrefix(s[from..q], rest, x);
  }

  /** An occurrence of `x` that ends before the next match of `pat` is copied as it is. */
  lemma KeptBeforeMatch(s: string, x: string, pat: string, value: string, from: nat, p: nat, q: nat)
    requires |pat| > 0 && from <= p && MatchAt(s, x, p) && q == IndexOf(s, pat, from) && p + |x| <= q
    ensures Contains(ReplaceAllFrom(s, pat, value, from), x)
  {
    var rest := Substitution(pat, s, q, value) + ReplaceAllFrom(s, pat, value, q + |pat|);
    assert ReplaceAllFrom(s, pat, value, from) == s[from..q] + rest;
    ContainsAheadOf(s, x, from, q, p, rest);
  }

  /** What the rest of the pass keeps after the next match of `pat`, the whole pass keeps. */
  lemma KeptAfterMatch(s: string, x: string, pat: string, value: string, from: nat, q: nat)
    requires |pat| > 0 && from <= |s| && q == IndexOf(s, pat, from)
    requires Contains(ReplaceAllFrom(s, pat, value, q + |pat|), x)
    ensures Contains(ReplaceAllFrom(s, pat, value, from), x)
  {
    ContainsInSuffix(s[from..q] + Substitution(pat, s, q, value), ReplaceAllFrom(s, pat, value, q + |pat|), x);
  }

  /**
   * A placeholder whose key is not among the entries stays verbatim in any
   * template: if the template holds `{{u}}`, so does the rendered prompt,
   * whatever the other placeholders and values.
   */
  lemma {:induction false} UnknownPlaceholderSurvives(t: string, u: string, vars: seq<(string, string)>)
    requires BraceFree(u) && Contains(t, Placeholder(u))
    requires forall e :: e in vars ==> BraceFree(e.0) && e.0 != u
    ensures Contains(Render(t, vars), Placeholder(u))
  {
    if vars != [] {
      var init := vars[..|vars| - 1];
      var e := vars[|vars| - 1];
      assert forall x :: x in init ==> x in vars;
      UnknownPlaceholderSurvives(t, u, init);
      var s := Render(t, init);
      ContainsIff(s, Placeholder(u));
      var p :| MatchAt(s, Placeholder(u), p);
      StepKeepsPlaceholder(s, u, e.0, e.1, p);
    }
  }

  /** A template without `{{` is returned unchanged, whatever the entries. */
  lemma {:induction false} NoPlaceholderUnchanged(template: string, vars: seq<(string, string)>)
    requires !Contains(template, "{{")
    ensures Render(template, vars) == template
  {
    if vars != [] {
      NoPlaceholderUnchanged(template, vars[..|vars| - 1]);
      var pat := Placeholder(vars[|vars| - 1].0);
      ContainsIff(template, "{{");
      forall p | MatchAt(template, pat, p) ensures MatchAt(template, "{{", p) {
        assert template[p..p + 2] == template[p..p + |pat|][..2] == pat[..2];
      }
      NoMatchUnchanged(template, pat, vars[|vars| - 1].1);
    }
  }

  /**
   * For a brace-free key and a `$`-free value, one turn is `split` on the
   * placeholder followed by `join` with the value, and it changes the
   * length by `|value| - |key| - 4` for every occurrence.
   */
  lemma StepRule(text: string, key: string, value: string)
    requires '$' !in value
    ensures Step(text, (key, value)) == Join(Split(text, Placeholder(key)), value)
    ensures |Step(text, (key, value))| == |text| + Occurrences(text, Placeholder(key)) * (|value| - |key| - 4)
  {
    ReplaceAllIsSplitJoin(text, Placeholder(key), value);
    ReplaceAllLength(text, Placeholder(key), value);
  }

  /** A template that is just a placeholder: the turn for its key yields GetSubstitution of the value. */
  lemma PlaceholderAlone(key: string, value: string)
    ensures Step(Placeholder(key), (key, value)) == Substitution(Placeholder(key), Placeholder(key), 0, value)
  {
    var r := Placeholder(key);
    assert MatchAt(r, r, 0) by { assert r[0..|r|] == r; }
    assert IndexOf(r, r, 0) == 0;
    assert ReplaceAllFrom(r, r, value, |r|) == [] by {
      assert IndexOf(r, r, |r|) == -1;
    }
    assert r[0..0] == [];
  }

  /**
   * Entries are applied in order, each over the result so far: a value
   * that contains a later key's placeholder is itself filled in by the
   * later entry.
   */
  lemma LaterKeySubstituted(k1: string, k2: string, v: string)
    requires '$' !in k2 && '$' !in v
    ensures Render(Placeholder(k1), [(k1, Placeholder(k2)), (k2, v)]) == v
  {
    var vars := [(k1, Placeholder(k2)), (k2, v)];
    assert vars[..1] == [(k1, Placeholder(k2))] && vars[..1][..0] == [];
    assert Render(Placeholder(k1), vars[..1]) == Step(Placeholder(k1), (k1, Placeholder(k2)));
    PlaceholderAlone(k1, Placeholder(k2));
    SubstitutionLiteral(Placeholder(k1), Placeholder(k1), 0, Placeholder(k2));
    assert Render(Placeholder(k1), vars) == Step(Placeholder(k2), (k2, v));
    PlaceholderAlone(k2, v);
    SubstitutionLiteral(Placeholder(k2), Placeholder(k2), 0, v);
  }

  /** `String(n)`: the decimal digits of `n`. */
  function DecimalString(n: nat): (r: string)
    ensures r != [] && forall i :: 0 <= i < |r| ==> '0' <= r[i] <= '9'
  {
    var d := ['0' + (n % 10) as char];
    if n < 10 then d else DecimalString(n / 10) + d
  }

  /** The entries `extractChunk` passes for chunk `i` (0-based) of `total`. */
  function ChunkVars(chunk: string, i: nat, total: nat): seq<(string, string)> {
    [("chunk_index", DecimalString(i + 1)), ("chunk_count", DecimalString(total)), ("chunk_text", chunk)]
  }

  /** The parts of a three-part string. */
  lemma Around(pre: string, mid: string, post: string)
    ensures (pre + mid + post)[..|pre|] == pre && (pre + mid + post)[|pre| + |mid|..] == post
  {
  }

  /** In a template whose only `{` open one placeholder, `replaceAll` finds that placeholder and nothing after it. */
  lemma SinglePlaceholder(pre: string, key: string, post: string)
    requires BraceFree(key) && '{' !in pre && '{' !in post
    ensures var t := pre + Placeholder(key) + post;
      IndexOf(t, Placeholder(key), 0) == |pre| &&
      IndexOf(t, Placeholder(key), |pre| + |key| + 4) == -1 &&
      t[..|pre|] == pre && t[|pre| + |key| + 4..] == post
  {
    var r := Placeholder(key);
    var t := pre + r + post;
    Around(pre, r, post);
    OnlyOwnPlaceholder(pre, key, post, key);
    assert MatchAt(t, r, |pre|);
    var first := IndexOf(t, r, 0);
    assert first != -1;
    assert first == |pre|;
  }

  /** Such a template's placeholder is replaced through GetSubstitution, and the text around it is kept. */
  lemma SinglePlaceholderReplaced(pre: string, key: string, post: string, value: string)
    requires BraceFree(key) && '{' !in pre && '{' !in post
    ensures var t := pre + Placeholder(key) + post;
      ReplaceAll(t, Placeholder(key), value) == pre + Substitution(Placeholder(key), t, |pre|, value) + post
  {
    var t := pre + Placeholder(key) + post;
    SinglePlaceholder(pre, key, post);
    assert ReplaceAllFrom(t, Placeholder(key), value, |pre| + |key| + 4) == post;
  }

  /** Such a template splits at its placeholder into the text before and the text after. */
  lemma SinglePlaceholderSplit(pre: string, key: string, post: string)
    requires BraceFree(key) && '{' !in pre && '{' !in post
    ensures Split(pre + Placeholder(key) + post, Placeholder(key)) == [pre, post]
  {
    var t := pre + Placeholder(key) + post;
    SinglePlaceholder(pre, key, post);
    assert SplitFrom(t, Placeholder(key), |pre| + |key| + 4) == [post];
    assert t[0..|pre|] == pre;
  }

  /** The keys `extractChunk` uses have no braces, and only `chunk_text` is `chunk_text`. */
  lemma ChunkKeys(chunk: string, i: nat, total: nat)
    ensures forall e :: e in ChunkVars(chunk, i, total) ==> BraceFree(e.0)
    ensures forall e :: e in ChunkVars(chunk, i, total)[..2] ==> e.0 != "chunk_text"
  {
  }

  /** The turns before the last one leave a template with only the `{{chunk_text}}` placeholder alone. */
  lemma ChunkIndexAndCountKept(pre: string, post: string, chunk: string, i: nat, total: nat)
    requires '{' !in pre && '{' !in post
    ensures Render(pre + Placeholder("chunk_text") + post, ChunkVars(chunk, i, total)[..2]) == pre + Placeholder("chunk_text") + post
  {
    ChunkKeys(chunk, i, total);
    UnknownPlaceholderKept(pre, "chunk_text", post, ChunkVars(chunk, i, total)[..2]);
  }

  /**
   * `extractChunk`'s prompt as written: in a template whose only `{` open
   * the `{{chunk_text}}` placeholder, the chunk goes in through
   * GetSubstitution, not as it is.
   */
  lemma ChunkPromptAsWritten(pre: string, post: string, chunk: string, i: nat, total: nat)
    requires '{' !in pre && '{' !in post
    ensures var t := pre + Placeholder("chunk_text") + post;
      Render(t, ChunkVars(chunk, i, total)) == pre + Substitution(Placeholder("chunk_text"), t, |pre|, chunk) + post
  {
    var vars := ChunkVars(chunk, i, total);
    ChunkIndexAndCountKept(pre, post, chunk, i, total);
    assert vars[..|vars| - 1] == vars[..2];
    ChunkKeys(chunk, i, total);
    SinglePlaceholderReplaced(pre, "chunk_text", post, chunk);
  }

  /**
   * A transcript chunk containing `$&` is not inserted as it is: the
   * model receives the placeholder itself where the chunk should be, and a
   * `$$` in the chunk reaches it as a single `$`.
   */
  lemma DollarInChunk(pre: string, post: string, i: nat, total: nat)
    requires '{' !in pre && '{' !in post
    ensures var t := pre + Placeholder("chunk_text") + post;
      Render(t, ChunkVars("$&", i, total)) == t != pre + "$&" + post
    ensures var t := pre + Placeholder("chunk_text") + post;
      Render(t, ChunkVars("$$", i, total)) == pre + "$" + post
  {
    var t := pre + Placeholder("chunk_text") + post;
    ChunkPromptAsWritten(pre, post, "$&", i, total);
    ChunkPromptAsWritten(pre, post, "$$", i, total);
    assert "$&"[2..] == [] && "$$"[2..] == [];
    assert t[|pre|] == '{';
  }

  /** `text.split(pat).join(value)`: every occurrence replaced by the value as it is. */
  function ReplaceAllLiteral(text: string, pat: string, value: string): string
    requires |pat| > 0
  {
    Join(Split(text, pat), value)
  }

  /** The loop with each turn inserting the value literally. */
  function RenderLiteral(template: string, vars: seq<(string, string)>): string {
    if vars == [] then template
    else
      var e := vars[|vars| - 1];
      ReplaceAllLiteral(RenderLiteral(template, vars[..|vars| - 1]), Placeholder(e.0), e.1)
  }

  /** Where no value holds a `$`, the literal loop and `loadPrompt` agree. */
  lemma {:induction false} RenderLiteralAgrees(template: string, vars: seq<(string, string)>)
    requires forall e :: e in vars ==> '$' !in e.1
    ensures RenderLiteral(template, vars) == Render(template, vars)
  {
    if vars != [] {
      var init := vars[..|vars| - 1];
      var e := vars[|vars| - 1];
      assert forall x :: x in init ==> x in vars;
      RenderLiteralAgrees(template, init);
      ReplaceAllIsSplitJoin(Render(template, init), Placeholder(e.0), e.1);
    }
  }

  /** With literal insertion, the chunk lands in the prompt exactly as it is, whatever it contains. */
  lemma ChunkPromptLiteral(pre: string, post: string, chunk: string, i: nat, total: nat)
    requires '{' !in pre && '{' !in post
    ensures RenderLiteral(pre + Placeholder("chunk_text") + post, ChunkVars(chunk, i, total)) == pre + chunk + post
  {
    var t := pre + Placeholder("chunk_text") + post;
    var vars := ChunkVars(chunk, i, total);
    ChunkKeys(chunk, i, total);
    LiteralKept(pre, "chunk_text", post, vars[..2]);
    assert vars[..|vars| - 1] == vars[..2];
    assert RenderLiteral(t, vars) == ReplaceAllLiteral(t, Placeholder("chunk_text"), chunk);
    SinglePlaceholderSplit(pre, "chunk_text", post);
    assert [pre, post][1..] == [post];
    assert Join([pre, post], chunk) == pre + chunk + post;
  }

  /** The literal turns of other brace-free keys leave such a template unchanged. */
  lemma {:induction false} LiteralKept(pre: string, key: string, post: string, vars: seq<(string, string)>)
    requires BraceFree(key) && '{' !in pre && '{' !in post
    requires forall e :: e in vars ==> BraceFree(e.0) && e.0 != key
    ensures RenderLiteral(pre + Placeholder(key) + post, vars) == pre + Placeholder(key) + post
  {
    if vars != [] {
      var t := pre + Placeholder(key) + post;
      var init := vars[..|vars| - 1];
      var e := vars[|vars| - 1];
      assert forall x :: x in init ==> x in vars;
      LiteralKept(pre, key, post, init);
      OnlyOwnPlaceholder(pre, key, post, e.0);
      assert IndexOf(t, Placeholder(e.0), 0) == -1;
      assert t[0..] == t;
    }
  }

  /** `KeptThroughPass` for `split` and `join`. */
  lemma {:induction false} LiteralKeptThroughPass(s: string, x: string, pat: string, value: string, from: nat, p: nat)
    requires |pat| > 0 && from <= p && MatchAt(s, x, p) && Separate(s, x, pat, p)
    ensures Contains(Join(SplitFrom(s, pat, from), value), x)
    decreases |s| - from
  {
    var q := IndexOf(s, pat, from);
    if q < 0 {
      LiteralKeptWithoutMatch(s, x, pat, value, from, p);
    } else if p + |x| <= q {
      LiteralKeptBeforeMatch(s, x, pat, value, from, p, q);
    } else {
      LiteralKeptThroughPass(s, x, pat, value, q + |pat|, p);
      LiteralKeptAfterMatch(s, x, pat, value, from, q);
    }
  }

  /** The literal counterpart of `StepKeepsPlaceholder`. */
  lemma LiteralStepKeepsPlaceholder(s: string, u: string, k: string, value: string, p: nat)
    requires BraceFree(u) && BraceFree(k) && u != k
    requires MatchAt(s, Placeholder(u), p)
    ensures Contains(ReplaceAllLiteral(s, Placeholder(k), value), Placeholder(u))
  {
    forall q | MatchAt(s, Placeholder(k), q) ensures p + |Placeholder(u)| <= q || q + |Placeholder(k)| <= p {
      OtherPlaceholdersDisjoint(s, u, k, p, q);
    }
    LiteralKeptThroughPass(s, Placeholder(u), Placeholder(k), value, 0, p);
  }

  /** `KeptWithoutMatch` for `split` and `join`. */
  lemma LiteralKeptWithoutMatch(s: string, x: string, pat: string, value: string, from: nat, p: nat)
    requires |pat| > 0 && from <= p && MatchAt(s, x, p) && IndexOf(s, pat, from) < 0
    ensures Contains(Join(SplitFrom(s, pat, from), value), x)
  {
    ContainsInSlice(s, x, from, |s|, p);
    SplitFromStep(s, pat, from);
    assert s[from..] == s[from..|s|];
  }

  /** `KeptBeforeMatch` for `split` and `join`. */
  lemma LiteralKeptBeforeMatch(s: string, x: string, pat: string, value: string, from: nat, p: nat, q: nat)
    requires |pat| > 0 && from <= p && MatchAt(s, x, p) && q == IndexOf(s, pat, from) && p + |x| <= q
    ensures Contains(Join(SplitFrom(s, pat, from), value), x)
  {
    var parts := SplitFrom(s, pat, q + |pat|);
    var rest := value + Join(parts, value);
    assert Join(SplitFrom(s, pat, from), value) == s[from..q] + rest by {
      assert SplitFrom(s, pat, from) == [s[from..q]] + parts;
      JoinCons(s[from..q], parts, value);
    }
    ContainsAheadOf(s, x, from, q, p, rest);
  }

  /** `KeptAfterMatch` for `split` and `join`. */
  lemma LiteralKeptAfterMatch(s: string, x: string, pat: string, value: string, from: nat, q: nat)
    requires |pat| > 0 && from <= |s| && q == IndexOf(s, pat, from)
    requires Contains(Join(SplitFrom(s, pat, q + |pat|), value), x)
    ensures Contains(Join(SplitFrom(s, pat, from), value), x)
  {
    var rest := SplitFrom(s, pat, q + |pat|);
    assert SplitFrom(s, pat, from) == [s[from..q]] + rest;
    JoinCons(s[from..q], rest, value);
    ContainsInSuffix(s[from..q] + value, Join(rest, value), x);
  }

  /** With literal insertion too, a placeholder whose key is not among the entries survives in any template. */
  lemma {:induction false} LiteralUnknownSurvives(t: string, u: string, vars: seq<(string, string)>)
    requires BraceFree(u) && Contains(t, Placeholder(u))
    requires forall e :: e in vars ==> BraceFree(e.0) && e.0 != u
    ensures Contains(RenderLiteral(t, vars), Placeholder(u))
  {
    if vars != [] {
      var init := vars[..|vars| - 1];
      var e := vars[|vars| - 1];
      assert forall x :: x in init ==> x in vars;
      LiteralUnknownSurvives(t, u, init);
      var s := RenderLiteral(t, init);
      ContainsIff(s, Placeholder(u));
      var p :| MatchAt(s, Placeholder(u), p);
      LiteralStepKeepsPlaceholder(s, u, e.0, e.1, p);
    }
  }
}
