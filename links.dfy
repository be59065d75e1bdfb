/**
 * The input side of `pull.ts`: the usable lines of the links file, and the
 * video id of one line. The WHATWG URL parser is a parameter that yields the
 * host name, the path and the query pairs of a URL, or `None` when the
 * `URL` constructor throws.
 */
module Links {
  import opened Wrappers
  import opened JsString
  import opened Seqs

  /** A usable line: not empty and not a `#` comment. */
  predicate IsLink(l: string) {
    l != "" && !StartsWith(l, "#")
  }

  /** `lines.map(l => l.trim()).filter(l => l && !l.startsWith("#"))`. */
  function LinkLines(lines: seq<string>): seq<string> {
    Filter(Map(lines, Trim), IsLink)
  }

  /** The links of the file contents `raw`, split at `\n`. */
  function Links(raw: string): seq<string> {
    LinkLines(Split(raw, "\n"))
  }

  /** A link is the trimmed form of one of the lines, and every line whose trimmed form is usable gives one. */
  lemma LinkLinesMembership(lines: seq<string>)
    ensures forall x :: x in LinkLines(lines) <==> IsLink(x) && exists l :: l in lines && Trim(l) == x
  {
    FilterMembership(Map(lines, Trim), IsLink);
    forall x ensures x in Map(lines, Trim) <==> exists l :: l in lines && Trim(l) == x {
      if x in Map(lines, Trim) {
        var k :| 0 <= k < |lines| && Map(lines, Trim)[k] == x;
        assert lines[k] in lines;
      }
      if exists l :: l in lines && Trim(l) == x {
        var l :| l in lines && Trim(l) == x;
        var k :| 0 <= k < |lines| && lines[k] == l;
        assert Map(lines, Trim)[k] == x;
      }
    }
  }

  /** The filter keeps the file order: the links of two blocks of lines are the links of the first, then of the second. */
  lemma LinkLinesAppend(a: seq<string>, b: seq<string>)
    ensures LinkLines(a + b) == LinkLines(a) + LinkLines(b)
  {
    MapAppend(a, b, Trim);
    FilterAppend(Map(a, Trim), Map(b, Trim), IsLink);
  }

  /** Every link is non-empty, has no white space at either end and does not start with `#`. */
  lemma LinksWellFormed(raw: string)
    ensures forall x :: x in Links(raw) ==>
      x != [] && !IsWhiteSpace(x[0]) && !IsWhiteSpace(x[|x| - 1]) && x[0] != '#'
  {
    var lines := Split(raw, "\n");
    LinkLinesMembership(lines);
    forall x | x in Links(raw)
      ensures x != [] && !IsWhiteSpace(x[0]) && !IsWhiteSpace(x[|x| - 1]) && x[0] != '#'
    {
      var l :| l in lines && Trim(l) == x;
      assert x[..1] == [x[0]];
    }
  }

  /** `[a-zA-Z0-9_-]`. */
  predicate IsIdChar(c: char) {
    ('a' <= c <= 'z') || ('A' <= c <= 'Z') || ('0' <= c <= '9') || c == '_' || c == '-'
  }

  /** `/^[a-zA-Z0-9_-]{11}$/`: the shape of a bare video id. */
  predicate IsRawVideoId(s: string) {
    |s| == 11 && forall i :: 0 <= i < |s| ==> IsIdChar(s[i])
  }

  /** What `new URL(s)` exposes to `extractVideoId`: host name, path and the decoded query pairs in order. */
  datatype Url = Url(hostname: string, pathname: string, query: seq<(string, string)>)

  /** `searchParams.get(name)`: the value of the first pair with that name. */
  function QueryGet(query: seq<(string, string)>, name: string): (r: Option<string>)
    ensures r.Some? <==> exists k :: 0 <= k < |query| && query[k].0 == name
  {
    if query == [] then None
    else if query[0].0 == name then Some(query[0].1)
    else
      var r := QueryGet(query[1..], name);
      assert forall k :: 1 <= k < |query| ==> query[k] == query[1..][k - 1];
      r
  }

  /** The value found is the value of the first pair with the name. */
  lemma {:induction false} QueryGetFirst(query: seq<(string, string)>, name: string)
    requires QueryGet(query, name).Some?
    ensures exists k :: 0 <= k < |query| && query[k] == (name, QueryGet(query, name).value) &&
                        forall j :: 0 <= j < k ==> query[j].0 != name
  {
    if query[0].0 != name {
      var rest := query[1..];
      QueryGetFirst(rest, name);
      var k :| 0 <= k < |rest| && rest[k] == (name, QueryGet(rest, name).value) &&
        forall j :: 0 <= j < k ==> rest[j].0 != name;
      assert query[k + 1] == rest[k];
      assert forall j :: 1 <= j < k + 1 ==> query[j] == rest[j - 1];
    }
  }

  /**
   * `extractVideoId(urlOrId)`. `parseUrl` stands for `new URL`; `None`
   * stands for the `TypeError` it throws on an unparsable string.
   */
  function ExtractVideoId(urlOrId: string, parseUrl: string -> Option<Url>): (r: Result<string>)
    ensures r.Ok? ==> r.value != []
  {
    var s := Trim(urlOrId);
    if IsRawVideoId(s) then Ok(s)
    else
      match parseUrl(s)
      case None => Err("Invalid URL: " + s)
      case Some(u) =>
        if Contains(u.hostname, "youtu.be") then
          var id := Trim(Replace(u.pathname, "/", ""));
          if id == "" then Err("Could not parse youtu.be id from: " + s) else Ok(id)
        else
          var v := QueryGet(u.query, "v");
          if v.None? || v.value == "" then Err("No video id found in: " + s) else Ok(v.value)
  }

  /** A line that is a bare id after trimming is its own id, whatever the URL parser would say. */
  lemma RawIdTakenAsIs(urlOrId: string, parseUrl: string -> Option<Url>)
    requires IsRawVideoId(Trim(urlOrId))
    ensures ExtractVideoId(urlOrId, parseUrl) == Ok(Trim(urlOrId))
    ensures forall other: string -> Option<Url> :: ExtractVideoId(urlOrId, other) == ExtractVideoId(urlOrId, parseUrl)
  {
  }

  /** A short link `https://youtu.be/<id>` gives the path after its leading `/`. */
  lemma ShortLinkId(urlOrId: string, parseUrl: string -> Option<Url>, id: string)
    requires !IsRawVideoId(Trim(urlOrId))
    requires parseUrl(Trim(urlOrId)).Some?
    requires Contains(parseUrl(Trim(urlOrId)).value.hostname, "youtu.be")
    requires parseUrl(Trim(urlOrId)).value.pathname == "/" + id
    requires id != [] && !IsWhiteSpace(id[0]) && !IsWhiteSpace(id[|id| - 1])
    ensures ExtractVideoId(urlOrId, parseUrl) == Ok(id)
  {
    var path := "/" + id;
    assert MatchAt(path, "/", 0);
    assert IndexOf(path, "/", 0) == 0;
    assert path[1..] == id;
    TrimFixpoint(id);
  }

  /** A watch link gives the first `v` parameter when it is not empty, and an error otherwise. */
  lemma WatchLinkId(urlOrId: string, parseUrl: string -> Option<Url>)
    requires !IsRawVideoId(Trim(urlOrId))
    requires parseUrl(Trim(urlOrId)).Some?
    requires !Contains(parseUrl(Trim(urlOrId)).value.hostname, "youtu.be")
    ensures var v := QueryGet(parseUrl(Trim(urlOrId)).value.query, "v");
      ExtractVideoId(urlOrId, parseUrl) == if v.Some? && v.value != "" then Ok(v.value) else Err("No video id found in: " + Trim(urlOrId))
  {
  }
}
