/**
 * The ECMAScript string operations the pipeline is built from, written out
 * over `string` (one `char` stands for one UTF-16 code unit): `trim`, the
 * `replace(/\s+/g, " ")` idiom, `indexOf`, `lastIndexOf`, `includes`,
 * `startsWith`, `endsWith`, `split` and `join` with a string separator, and
 * `replaceAll` with a string pattern and a string replacement, including the
 * GetSubstitution rules of ECMA-262 (section 22.1.3.19.1) that give `$` its
 * meaning in the replacement.
 */
module JsString {

  /** WhiteSpace and LineTerminator of ECMA-262: what `trim` removes and `\s` matches. */
  predicate IsWhiteSpace(c: char) {
    || c == '\t' || c == '\n' || c == '\U{B}' || c == '\U{C}' || c == '\r' || c == ' '
    || c == '\U{A0}' || c == '\U{1680}' || ('\U{2000}' <= c <= '\U{200A}')
    || c == '\U{2028}' || c == '\U{2029}' || c == '\U{202F}' || c == '\U{205F}'
    || c == '\U{3000}' || c == '\U{FEFF}'
  }

  /** `trimStart`: drops the leading white space, and only that. */
  function TrimStart(s: string): (r: string)
    ensures |r| <= |s| && r == s[|s| - |r|..]
    ensures forall i :: 0 <= i < |s| - |r| ==> IsWhiteSpace(s[i])
    ensures r != [] ==> !IsWhiteSpace(r[0])
  {
    if s != [] && IsWhiteSpace(s[0]) then
      var r := TrimStart(s[1..]);
      assert s[1..][|s| - 1 - |r|..] == s[|s| - |r|..];
      assert forall i :: 1 <= i < |s| ==> s[1..][i - 1] == s[i];
      r
    else s
  }

  /** `trimEnd`: drops the trailing white space, and only that. */
  function TrimEnd(s: string): (r: string)
    ensures |r| <= |s| && r == s[..|r|]
    ensures forall i :: |r| <= i < |s| ==> IsWhiteSpace(s[i])
    ensures r != [] ==> !IsWhiteSpace(r[|r| - 1])
  {
    if s != [] && IsWhiteSpace(s[|s| - 1]) then
      var r := TrimEnd(s[..|s| - 1]);
      assert s[..|s| - 1][..|r|] == s[..|r|];
      assert forall i :: 0 <= i < |s| - 1 ==> s[..|s| - 1][i] == s[i];
      r
    else s
  }

  /**
   * `trim`: the result is the slice of `s` between its leading and its
   * trailing white space, and neither of its ends is white space.
   */
  function Trim(s: string): (r: string)
    ensures var a := |s| - |TrimStart(s)|; a + |r| <= |s| && r == s[a..a + |r|]
    ensures var a := |s| - |TrimStart(s)|;
      forall i :: 0 <= i < |s| && !(a <= i < a + |r|) ==> IsWhiteSpace(s[i])
    ensures r != [] ==> !IsWhiteSpace(r[0]) && !IsWhiteSpace(r[|r| - 1])
  {
    TrimEnd(TrimStart(s))
  }

  /** A string neither of whose ends is white space is its own trim. */
  lemma TrimFixpoint(s: string)
    requires s != [] ==> !IsWhiteSpace(s[0]) && !IsWhiteSpace(s[|s| - 1])
    ensures Trim(s) == s
  {
  }

  /** `s` with every white-space character removed: the text that white-space handling keeps. */
  function Visible(s: string): string {
    if s == [] then [] else (if IsWhiteSpace(s[0]) then [] else [s[0]]) + Visible(s[1..])
  }

  lemma {:induction false} VisibleAppend(a: string, b: string)
    ensures Visible(a + b) == Visible(a) + Visible(b)
  {
    if a != [] {
      var h := if IsWhiteSpace(a[0]) then [] else [a[0]];
      assert (a + b)[0] == a[0];
      assert (a + b)[1..] == a[1..] + b;
      VisibleAppend(a[1..], b);
      calc {
        Visible(a + b);
        h + Visible(a[1..] + b);
        h + (Visible(a[1..]) + Visible(b));
        (h + Visible(a[1..])) + Visible(b);
        Visible(a) + Visible(b);
      }
    } else {
      assert a + b == b;
    }
  }

  lemma {:induction false} VisibleTrimStart(s: string)
    ensures Visible(TrimStart(s)) == Visible(s)
  {
    if s != [] && IsWhiteSpace(s[0]) {
      VisibleTrimStart(s[1..]);
    }
  }

  /**
   * `s.replace(/\s+/g, " ")`: each maximal run of white space becomes one
   * space; everything else is kept in order.
   */
  function CollapseWhiteSpace(s: string): (r: string)
    ensures |r| <= |s| && (r == []) == (s == [])
    ensures r != [] ==> (IsWhiteSpace(r[0]) <==> IsWhiteSpace(s[0]))
    ensures forall i :: 0 <= i < |r| && IsWhiteSpace(r[i]) ==> r[i] == ' '
    ensures forall i :: 0 < i < |r| && IsWhiteSpace(r[i]) ==> !IsWhiteSpace(r[i - 1])
    decreases |s|
  {
    if s == [] then []
    else if IsWhiteSpace(s[0]) then " " + CollapseWhiteSpace(TrimStart(s))
    else [s[0]] + CollapseWhiteSpace(s[1..])
  }

  lemma {:induction false} CollapseKeepsVisible(s: string)
    ensures Visible(CollapseWhiteSpace(s)) == Visible(s)
    decreases |s|
  {
    if s == [] {
    } else if IsWhiteSpace(s[0]) {
      var t := TrimStart(s);
      CollapseKeepsVisible(t);
      VisibleAppend(" ", CollapseWhiteSpace(t));
      VisibleTrimStart(s);
    } else {
      CollapseKeepsVisible(s[1..]);
      VisibleAppend([s[0]], CollapseWhiteSpace(s[1..]));
    }
  }

  /**
   * The shape `.replace(/\s+/g, " ").trim()` produces: every white-space
   * character is a single space with visible characters on both sides (so
   * there is none at either end).
   */
  predicate IsNormalized(s: string) {
    forall i :: 0 <= i < |s| && IsWhiteSpace(s[i]) ==>
      s[i] == ' ' && 0 < i < |s| - 1 && !IsWhiteSpace(s[i - 1]) && !IsWhiteSpace(s[i + 1])
  }

  /** `s.replace(/\s+/g, " ").trim()`. */
  function Normalize(s: string): string {
    Trim(CollapseWhiteSpace(s))
  }

  /** Trimming a collapsed string leaves it in normal form. */
  lemma TrimCollapsedNormalized(c: string)
    requires forall i :: 0 <= i < |c| && IsWhiteSpace(c[i]) ==> c[i] == ' '
    requires forall i :: 0 < i < |c| && IsWhiteSpace(c[i]) ==> !IsWhiteSpace(c[i - 1])
    ensures IsNormalized(Trim(c))
  {
    var r := Trim(c);
    var a := |c| - |TrimStart(c)|;
    forall i | 0 <= i < |r| && IsWhiteSpace(r[i])
      ensures r[i] == ' ' && 0 < i < |r| - 1 && !IsWhiteSpace(r[i - 1]) && !IsWhiteSpace(r[i + 1])
    {
      assert r[i] == c[a + i];
      assert 0 < i < |r| - 1;
      assert r[i - 1] == c[a + i - 1];
      assert r[i + 1] == c[a + i + 1];
    }
  }

  /** White space around a string adds nothing visible. */
  lemma VisibleAround(pre: string, mid: string, post: string)
    requires forall i :: 0 <= i < |pre| ==> IsWhiteSpace(pre[i])
    requires forall i :: 0 <= i < |post| ==> IsWhiteSpace(post[i])
    ensures Visible(pre + mid + post) == Visible(mid)
  {
    VisibleAppend(pre + mid, post);
    VisibleAppend(pre, mid);
    AllWhiteInvisible(pre);
    AllWhiteInvisible(post);
  }

  /** A string is its trim with white space before and after. */
  lemma TrimSplit(c: string) returns (pre: string, post: string)
    ensures c == pre + Trim(c) + post
    ensures forall i :: 0 <= i < |pre| ==> IsWhiteSpace(pre[i])
    ensures forall i :: 0 <= i < |post| ==> IsWhiteSpace(post[i])
  {
    var r := Trim(c);
    var a := |c| - |TrimStart(c)|;
    var b := a + |r|;
    pre, post := c[..a], c[b..];
    SliceThree(c, a, b);
    forall i | 0 <= i < |pre| ensures IsWhiteSpace(pre[i]) {
      assert pre[i] == c[i];
    }
    forall i | 0 <= i < |post| ensures IsWhiteSpace(post[i]) {
      assert post[i] == c[b + i];
    }
  }

  /** A string is the concatenation of its three slices at `i` and `j`. */
  lemma SliceThree(c: string, i: nat, j: nat)
    requires i <= j <= |c|
    ensures c == c[..i] + c[i..j] + c[j..]
  {
  }

  /** Trimming removes only white space. */
  lemma TrimKeepsVisible(c: string)
    ensures Visible(Trim(c)) == Visible(c)
  {
    var pre, post := TrimSplit(c);
    VisibleAround(pre, Trim(c), post);
  }

  /** The normalised text is in normal form and keeps every visible character of `s`, in order. */
  lemma NormalizeSpec(s: string)
    ensures IsNormalized(Normalize(s))
    ensures Visible(Normalize(s)) == Visible(s)
  {
    TrimCollapsedNormalized(CollapseWhiteSpace(s));
    TrimKeepsVisible(CollapseWhiteSpace(s));
    CollapseKeepsVisible(s);
  }

  lemma {:induction false} AllWhiteInvisible(s: string)
    requires forall i :: 0 <= i < |s| ==> IsWhiteSpace(s[i])
    ensures Visible(s) == []
  {
    if s != [] {
      AllWhiteInvisible(s[1..]);
    }
  }

  /** Collapsing white space changes nothing in a string whose white space is all single spaces. */
  lemma {:induction false} CollapseFixpoint(s: string)
    requires forall i :: 0 <= i < |s| && IsWhiteSpace(s[i]) ==> s[i] == ' '
    requires forall i :: 0 <= i < |s| - 1 && IsWhiteSpace(s[i]) ==> !IsWhiteSpace(s[i + 1])
    ensures CollapseWhiteSpace(s) == s
  {
    if s != [] {
      var t := s[1..];
      forall i | 0 <= i < |t| && IsWhiteSpace(t[i]) ensures t[i] == ' ' {
        assert t[i] == s[i + 1];
      }
      forall i | 0 <= i < |t| - 1 && IsWhiteSpace(t[i]) ensures !IsWhiteSpace(t[i + 1]) {
        assert t[i] == s[i + 1] && t[i + 1] == s[i + 2];
      }
      CollapseFixpoint(t);
      if IsWhiteSpace(s[0]) {
        assert t == [] || !IsWhiteSpace(t[0]);
        assert TrimStart(s) == TrimStart(t) == t;
        assert CollapseWhiteSpace(s) == " " + t;
      } else {
        assert CollapseWhiteSpace(s) == [s[0]] + t;
      }
    }
  }

  /** Normalising a normalised string gives it back: the final `replace`/`trim` pair is idempotent. */
  lemma NormalizeFixpoint(s: string)
    requires IsNormalized(s)
    ensures Normalize(s) == s
  {
    CollapseFixpoint(s);
    TrimFixpoint(s);
  }

  /** `parts.join(sep)`. */
  function Join(parts: seq<string>, sep: string): string {
    if |parts| == 0 then ""
    else if |parts| == 1 then parts[0]
    else parts[0] + sep + Join(parts[1..], sep)
  }

  /** Space-joining non-empty normalised parts yields a normalised string. */
  lemma {:induction false} JoinNormalized(parts: seq<string>)
    requires forall k :: 0 <= k < |parts| ==> parts[k] != [] && IsNormalized(parts[k])
    ensures IsNormalized(Join(parts, " "))
    ensures Join(parts, " ") == [] <==> parts == []
  {
    if |parts| > 1 {
      JoinNormalized(parts[1..]);
      var a, b := parts[0], Join(parts[1..], " ");
      var r := a + " " + b;
      forall i | 0 <= i < |r| && IsWhiteSpace(r[i])
        ensures r[i] == ' ' && 0 < i < |r| - 1 && !IsWhiteSpace(r[i - 1]) && !IsWhiteSpace(r[i + 1])
      {
        if i < |a| {
          assert r[i] == a[i] && r[i + 1] == a[i + 1] && r[i - 1] == a[i - 1];
        } else if i > |a| {
          var j := i - |a| - 1;
          assert r[i] == b[j];
          assert 0 < j by { assert IsWhiteSpace(b[j]); }
          assert r[i - 1] == b[j - 1];
          assert r[i + 1] == b[j + 1];
        }
      }
    }
  }

  /** `pat` occurs in `s` at position `p`. */
  predicate MatchAt(s: string, pat: string, p: int) {
    0 <= p && p + |pat| <= |s| && s[p..p + |pat|] == pat
  }

  /** `s.indexOf(pat, from)`: the first occurrence at or after `from`, or -1. */
  function IndexOf(s: string, pat: string, from: nat): (r: int)
    requires from <= |s|
    ensures r == -1 || (from <= r && MatchAt(s, pat, r))
    ensures forall p :: from <= p && (r == -1 || p < r) ==> !MatchAt(s, pat, p)
    decreases |s| - from
  {
    if MatchAt(s, pat, from) then from
    else if from == |s| then -1
    else IndexOf(s, pat, from + 1)
  }

  /** The last occurrence of `pat` at or before `upto`, or -1. */
  function LastIndexOfUpTo(s: string, pat: string, upto: nat): (r: int)
    requires upto <= |s|
    ensures r == -1 || (r <= upto && MatchAt(s, pat, r))
    ensures forall p :: r < p <= upto ==> !MatchAt(s, pat, p)
  {
    if MatchAt(s, pat, upto) then upto
    else if upto == 0 then -1
    else LastIndexOfUpTo(s, pat, upto - 1)
  }

  /** `s.lastIndexOf(pat)`. */
  function LastIndexOf(s: string, pat: string): int {
    LastIndexOfUpTo(s, pat, |s|)
  }

  /** `s.includes(pat)`. */
  predicate Contains(s: string, pat: string) {
    IndexOf(s, pat, 0) >= 0
  }

  lemma ContainsIff(s: string, pat: string)
    ensures Contains(s, pat) <==> exists p :: MatchAt(s, pat, p)
  {
  }

  /** `s.startsWith(pre)`. */
  predicate StartsWith(s: string, pre: string) {
    |pre| <= |s| && s[..|pre|] == pre
  }

  /** `s.endsWith(suf)`. */
  predicate EndsWith(s: string, suf: string) {
    |suf| <= |s| && s[|s| - |suf|..] == suf
  }

  /** `s.slice(from).split(sep)` for a non-empty separator: the pieces between successive occurrences. */
  function SplitFrom(s: string, sep: string, from: nat): (r: seq<string>)
    requires |sep| > 0 && from <= |s|
    ensures |r| >= 1
    decreases |s| - from
  {
    var p := IndexOf(s, sep, from);
    if p < 0 then [s[from..]] else [s[from..p]] + SplitFrom(s, sep, p + |sep|)
  }

  /** `s.split(sep)` for a non-empty separator. */
  function Split(s: string, sep: string): seq<string>
    requires |sep| > 0
  {
    SplitFrom(s, sep, 0)
  }

  /**
   * GetSubstitution for a string pattern (no capture groups): `$$` gives
   * `$`, `$&` the matched text, `` $` `` the text before the match, `$'` the
   * text after it; any other `$` stays as it is.
   */
  function Substitution(matched: string, str: string, position: nat, replacement: string): string
    requires position + |matched| <= |str|
    decreases |replacement|
  {
    if replacement == [] then ""
    else if replacement[0] == '$' && |replacement| >= 2 then
      var rest := Substitution(matched, str, position, replacement[2..]);
      match replacement[1]
      case '$' => "$" + rest
      case '&' => matched + rest
      case '`' => str[..position] + rest
      case '\'' => str[position + |matched|..] + rest
      case _ => "$" + Substitution(matched, str, position, replacement[1..])
    else [replacement[0]] + Substitution(matched, str, position, replacement[1..])
  }

  /** A replacement without `$` is inserted literally. */
  lemma {:induction false} SubstitutionLiteral(matched: string, str: string, position: nat, replacement: string)
    requires position + |matched| <= |str|
    requires '$' !in replacement
    ensures Substitution(matched, str, position, replacement) == replacement
    decreases |replacement|
  {
    if replacement != [] {
      assert replacement[0] != '$';
      SubstitutionLiteral(matched, str, position, replacement[1..]);
    }
  }

  /** `s.replace(pat, rep)` with a string pattern: only the first occurrence is replaced. */
  function Replace(s: string, pat: string, rep: string): string
    requires |pat| > 0
  {
    var p := IndexOf(s, pat, 0);
    if p < 0 then s else s[..p] + Substitution(pat, s, p, rep) + s[p + |pat|..]
  }

  /** `s.slice(from).replaceAll(pat, rep)`, scanning `s` for successive non-overlapping occurrences. */
  function ReplaceAllFrom(s: string, pat: string, rep: string, from: nat): string
    requires |pat| > 0 && from <= |s|
    decreases |s| - from
  {
    var p := IndexOf(s, pat, from);
    if p < 0 then s[from..]
    else s[from..p] + Substitution(pat, s, p, rep) + ReplaceAllFrom(s, pat, rep, p + |pat|)
  }

  /** `s.replaceAll(pat, rep)` with a non-empty string pattern and a string replacement. */
  function ReplaceAll(s: string, pat: string, rep: string): string
    requires |pat| > 0
  {
    ReplaceAllFrom(s, pat, rep, 0)
  }

  /** With a `$`-free replacement, `replaceAll` is `split` followed by `join`. */
  lemma {:induction false} ReplaceAllFromIsSplitJoin(s: string, pat: string, rep: string, from: nat)
    requires |pat| > 0 && from <= |s|
    requires '$' !in rep
    ensures ReplaceAllFrom(s, pat, rep, from) == Join(SplitFrom(s, pat, from), rep)
    decreases |s| - from
  {
    var p := IndexOf(s, pat, from);
    if p >= 0 {
      ReplaceAllFromIsSplitJoin(s, pat, rep, p + |pat|);
      SplitJoinStep(s, pat, rep, from);
    } else {
      ReplaceAllFromStep(s, pat, rep, from);
      SplitFromStep(s, pat, from);
    }
  }

  /** The inductive step of `ReplaceAllFromIsSplitJoin`: at an occurrence, both sides add the text before it and `rep`. */
  lemma SplitJoinStep(s: string, pat: string, rep: string, from: nat)
    requires |pat| > 0 && from <= |s| && '$' !in rep
    requires var p := IndexOf(s, pat, from);
      p >= 0 && ReplaceAllFrom(s, pat, rep, p + |pat|) == Join(SplitFrom(s, pat, p + |pat|), rep)
    ensures ReplaceAllFrom(s, pat, rep, from) == Join(SplitFrom(s, pat, from), rep)
  {
    var p := IndexOf(s, pat, from);
    var x, rest := s[from..p], SplitFrom(s, pat, p + |pat|);
    ReplaceAllFromStep(s, pat, rep, from);
    SubstitutionLiteral(pat, s, p, rep);
    JoinCons(x, rest, rep);
    SplitFromStep(s, pat, from);
  }

  /** One step of `replaceAll`: the text before the next occurrence, its substitution, then the rest. */
  lemma ReplaceAllFromStep(s: string, pat: string, rep: string, from: nat)
    requires |pat| > 0 && from <= |s|
    ensures var p := IndexOf(s, pat, from);
      ReplaceAllFrom(s, pat, rep, from)
        == if p < 0 then s[from..] else s[from..p] + Substitution(pat, s, p, rep) + ReplaceAllFrom(s, pat, rep, p + |pat|)
  {
  }

  /** One step of `split`: the text before the next occurrence, then the pieces after it. */
  lemma SplitFromStep(s: string, pat: string, from: nat)
    requires |pat| > 0 && from <= |s|
    ensures var p := IndexOf(s, pat, from);
      SplitFrom(s, pat, from) == if p < 0 then [s[from..]] else [s[from..p]] + SplitFrom(s, pat, p + |pat|)
  {
  }

  /** Joining one more part in front. */
  lemma JoinCons(x: string, rest: seq<string>, sep: string)
    requires |rest| >= 1
    ensures Join([x] + rest, sep) == x + sep + Join(rest, sep)
  {
    assert ([x] + rest)[1..] == rest;
  }

  lemma ReplaceAllIsSplitJoin(s: string, pat: string, rep: string)
    requires |pat| > 0
    requires '$' !in rep
    ensures ReplaceAll(s, pat, rep) == Join(Split(s, pat), rep)
  {
    ReplaceAllFromIsSplitJoin(s, pat, rep, 0);
  }

  /** Without an occurrence of the pattern, `replaceAll` returns the string unchanged. */
  lemma NoMatchUnchanged(s: string, pat: string, rep: string)
    requires |pat| > 0
    requires forall p :: !MatchAt(s, pat, p)
    ensures ReplaceAll(s, pat, rep) == s
  {
    assert IndexOf(s, pat, 0) == -1;
  }

  /** Total length of the pieces. */
  function SumLengths(parts: seq<string>): nat {
    if parts == [] then 0 else |parts[0]| + SumLengths(parts[1..])
  }

  lemma {:induction false} JoinLength(parts: seq<string>, sep: string)
    requires |parts| >= 1
    ensures |Join(parts, sep)| == SumLengths(parts) + (|parts| - 1) * |sep|
  {
    if |parts| > 1 {
      JoinLength(parts[1..], sep);
      MulStep(|parts| - 2, |sep|);
    }
  }

  lemma MulStep(k: int, w: int)
    ensures (k + 1) * w == k * w + w
  {
  }

  /** The pieces of a split and the occurrences between them make up the whole string. */
  lemma {:induction false} SplitFromLength(s: string, sep: string, from: nat)
    requires |sep| > 0 && from <= |s|
    ensures |s| - from + |sep| == SumLengths(SplitFrom(s, sep, from)) + |SplitFrom(s, sep, from)| * |sep|
    decreases |s| - from
  {
    var p := IndexOf(s, sep, from);
    var parts := SplitFrom(s, sep, from);
    if p < 0 {
      assert parts == [s[from..]];
      assert SumLengths(parts) == |s| - from by { assert parts[1..] == []; }
    } else {
      var rest := SplitFrom(s, sep, p + |sep|);
      SplitFromLength(s, sep, p + |sep|);
      assert parts == [s[from..p]] + rest;
      assert parts[1..] == rest;
      assert SumLengths(parts) == p - from + SumLengths(rest);
      MulStep(|rest|, |sep|);
    }
  }

  /** The number of occurrences `replaceAll` replaces. */
  function Occurrences(s: string, pat: string): nat
    requires |pat| > 0
  {
    |Split(s, pat)| - 1
  }

  /** With a `$`-free replacement each replaced occurrence changes the length by `|rep| - |pat|`. */
  lemma ReplaceAllLength(s: string, pat: string, rep: string)
    requires |pat| > 0
    requires '$' !in rep
    ensures |ReplaceAll(s, pat, rep)| == |s| + Occurrences(s, pat) * (|rep| - |pat|)
  {
    ReplaceAllIsSplitJoin(s, pat, rep);
    JoinLength(Split(s, pat), rep);
    SplitFromLength(s, pat, 0);
    var n := Occurrences(s, pat);
    MulStep(n, |pat|);
    assert n * (|rep| - |pat|) == n * |rep| - n * |pat|;
  }
}
