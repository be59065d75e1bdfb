/**
 * The tag-stripping regular expressions of src/pull.ts, written as a
 * scanner. `/<[^>]+>/g` (WebVTT cue text) and `/<\/?[^>]+>/g` (timedtext
 * segments) match the same strings: a `<`, at least one character other
 * than `>`, and the first `>` after it (the optional `/` is itself a
 * character other than `>`). A global replace scans left to right and
 * resumes after each match.
 */
module Tags {
  import opened JsString

  /** Where the tag that opens at `p` ends: the first `>` after `p` when it is not `p + 1`; -1 when no tag opens at `p`. */
  function TagEnd(s: string, p: nat): (r: int)
    requires p < |s|
    ensures r == -1 || (p + 2 <= r < |s| && s[p] == '<' && s[r] == '>')
  {
    if s[p] != '<' then -1
    else
      var g := IndexOf(s, ">", p + 1);
      if g > p + 1 then
        CloseMatch(s);
        g
      else -1
  }

  /** An occurrence of `">"` is a `>` character. */
  lemma CloseMatch(s: string)
    ensures forall i :: 0 <= i < |s| ==> (MatchAt(s, ">", i) <==> s[i] == '>')
  {
    forall i | 0 <= i < |s| ensures MatchAt(s, ">", i) <==> s[i] == '>' {
      assert s[i..i + 1] == [s[i]];
    }
  }

  /** `s.slice(from).replace(<tag regex>, rep)`. */
  function ReplaceTagsFrom(s: string, rep: string, from: nat): string
    requires from <= |s|
    decreases |s| - from
  {
    if from == |s| then ""
    else
      var e := TagEnd(s, from);
      if e < 0 then [s[from]] + ReplaceTagsFrom(s, rep, from + 1)
      else rep + ReplaceTagsFrom(s, rep, e + 1)
  }

  /** `s.replace(<tag regex>, rep)`. */
  function ReplaceTags(s: string, rep: string): string {
    ReplaceTagsFrom(s, rep, 0)
  }

  /** The search for a pattern from inside the second part of a string never looks at the first part. */
  lemma {:induction false} IndexOfShift(a: string, b: string, pat: string, i: nat)
    requires i <= |b|
    ensures var j := IndexOf(b, pat, i); IndexOf(a + b, pat, |a| + i) == if j < 0 then -1 else |a| + j
    decreases |b| - i
  {
    var s := a + b;
    assert MatchAt(s, pat, |a| + i) <==> MatchAt(b, pat, i) by {
      if i + |pat| <= |b| {
        assert s[|a| + i..|a| + i + |pat|] == b[i..i + |pat|];
      }
    }
    if i < |b| {
      IndexOfShift(a, b, pat, i + 1);
    }
  }

  /** A tag found inside a suffix of a string is the tag found in the suffix alone, shifted. */
  lemma TagEndSuffix(s: string, off: nat, i: nat)
    requires off + i < |s|
    ensures var e := TagEnd(s[off..], i); TagEnd(s, off + i) == if e < 0 then -1 else off + e
  {
    assert s == s[..off] + s[off..];
    assert s[off..][i] == s[off + i];
    IndexOfShift(s[..off], s[off..], ">", i + 1);
  }

  /** Tag stripping from a position inside a suffix of a string depends on the suffix alone. */
  lemma {:induction false} ReplaceTagsSuffix(s: string, off: nat, rep: string, i: nat)
    requires off + i <= |s|
    ensures ReplaceTagsFrom(s, rep, off + i) == ReplaceTagsFrom(s[off..], rep, i)
    decreases |s| - off - i
  {
    if off + i < |s| {
      var t := s[off..];
      TagEndSuffix(s, off, i);
      var e := TagEnd(t, i);
      if e < 0 {
        ReplaceTagsSuffix(s, off, rep, i + 1);
        assert ReplaceTagsFrom(s, rep, off + i) == [s[off + i]] + ReplaceTagsFrom(s, rep, off + i + 1);
        assert ReplaceTagsFrom(t, rep, i) == [t[i]] + ReplaceTagsFrom(t, rep, i + 1);
        assert t[i] == s[off + i];
      } else {
        ReplaceTagsSuffix(s, off, rep, e + 1);
        assert ReplaceTagsFrom(s, rep, off + i) == rep + ReplaceTagsFrom(s, rep, off + e + 1);
        assert ReplaceTagsFrom(t, rep, i) == rep + ReplaceTagsFrom(t, rep, e + 1);
      }
    }
  }

  /** Tag stripping from a position inside the second part of a string depends on that part alone. */
  lemma ReplaceTagsShift(a: string, b: string, rep: string, i: nat)
    requires i <= |b|
    ensures ReplaceTagsFrom(a + b, rep, |a| + i) == ReplaceTagsFrom(b, rep, i)
  {
    assert (a + b)[|a|..] == b;
    ReplaceTagsSuffix(a + b, |a|, rep, i);
  }

  /** Text without `<` comes through unchanged. */
  lemma {:induction false} NoTagUnchanged(s: string, rep: string, from: nat)
    requires from <= |s|
    requires forall i :: from <= i < |s| ==> s[i] != '<'
    ensures ReplaceTagsFrom(s, rep, from) == s[from..]
    decreases |s| - from
  {
    if from < |s| {
      NoTagUnchanged(s, rep, from + 1);
      assert s[from..] == [s[from]] + s[from + 1..];
    }
  }

  /** The first `>` at or after `from` is found by the search for `">"`. */
  lemma FirstClose(s: string, from: nat, g: nat)
    requires from <= g < |s| && s[g] == '>'
    requires forall i :: from <= i < g ==> s[i] != '>'
    ensures IndexOf(s, ">", from) == g
  {
    CloseMatch(s);
    var r := IndexOf(s, ">", from);
    assert MatchAt(s, ">", g);
  }

  /** A complete tag at the front is replaced by `rep`, and scanning carries on after it. */
  lemma TagReplaced(t: string, b: string, rep: string)
    requires t != [] && '>' !in t
    ensures ReplaceTags("<" + t + ">" + b, rep) == rep + ReplaceTags(b, rep)
  {
    var a := "<" + t + ">";
    var s := a + b;
    assert s[0] == '<' && s[|t| + 1] == '>';
    forall i | 1 <= i < |t| + 1 ensures s[i] != '>' {
      assert s[i] == t[i - 1];
    }
    FirstClose(s, 1, |t| + 1);
    assert TagEnd(s, 0) == |a| - 1;
    assert ReplaceTagsFrom(s, rep, 0) == rep + ReplaceTagsFrom(s, rep, |a|);
    ReplaceTagsShift(a, b, rep, 0);
  }
}
