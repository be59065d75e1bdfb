/**
 * The two preference orders of src/pull.ts: caption tracks (English first,
 * then human-made before automatic) and the subtitle files already on disk
 * (`.en` first, then non-`auto`). Both sort by a small score with
 * `Array.prototype.sort`, which ECMA-262 requires to be stable, so ties keep
 * their original order.
 */
module TrackOrder {
  import opened Wrappers
  import opened JsString
  import opened Seqs
  import opened Vtt

  /** A track of the timedtext list; absent attributes are `None`. */
  datatype CaptionTrack = CaptionTrack(langCode: string, kind: Option<string>, name: Option<string>)

  /** `langCode.toLowerCase().startsWith("en")`. */
  predicate IsEnglish(langCode: string) {
    |langCode| >= 2 && (langCode[0] == 'e' || langCode[0] == 'E') && (langCode[1] == 'n' || langCode[1] == 'N')
  }

  /** The score of a track: 0 for English, else 10; plus 5 for speech recognition (`kind === "asr"`). */
  function TrackScore(t: CaptionTrack): int {
    (if IsEnglish(t.langCode) then 0 else 10) + (if t.kind == Some("asr") then 5 else 0)
  }

  /** The score of a subtitle file name: 0 when it contains `.en`, else 10; plus 5 when it contains `auto`. */
  function VttScore(f: string): int {
    (if Contains(f, ".en") then 0 else 10) + (if Contains(f, "auto") then 5 else 0)
  }

  /**
   * Inserting `x` at the end of `s` and moving it left past every element
   * of larger key: one step of a stable insertion sort.
   */
  function Insert<T>(s: seq<T>, x: T, key: T -> int): seq<T> {
    if s == [] then [x]
    else if key(s[|s| - 1]) > key(x) then Insert(s[..|s| - 1], x, key) + [s[|s| - 1]]
    else s + [x]
  }

  /** A stable sort of `xs` by `key`: `xs.sort((a, b) => key(a) - key(b))`. */
  function SortByKey<T>(xs: seq<T>, key: T -> int): seq<T> {
    if xs == [] then [] else Insert(SortByKey(xs[..|xs| - 1], key), xs[|xs| - 1], key)
  }

  /** Keys never decrease along `s`. */
  predicate SortedBy<T>(s: seq<T>, key: T -> int) {
    forall i, j :: 0 <= i < j < |s| ==> key(s[i]) <= key(s[j])
  }

  /** Having key `v`, as a predicate. */
  function HasKey<T>(key: T -> int, v: int): T -> bool {
    x => key(x) == v
  }

  /** The elements of key `v`, in order. */
  function WithKey<T>(s: seq<T>, key: T -> int, v: int): seq<T> {
    Filter(s, HasKey(key, v))
  }

  lemma {:induction false} InsertPermutes<T>(s: seq<T>, x: T, key: T -> int)
    ensures multiset(Insert(s, x, key)) == multiset(s) + multiset{x}
  {
    if s != [] && key(s[|s| - 1]) > key(x) {
      var init := s[..|s| - 1];
      InsertPermutes(init, x, key);
      assert s == init + [s[|s| - 1]];
    }
  }

  lemma {:induction false} InsertSorted<T>(s: seq<T>, x: T, key: T -> int)
    requires SortedBy(s, key)
    ensures SortedBy(Insert(s, x, key), key)
  {
    if s != [] && key(s[|s| - 1]) > key(x) {
      var init := s[..|s| - 1];
      var last := s[|s| - 1];
      InsertSorted(init, x, key);
      InsertPermutes(init, x, key);
      var m := Insert(init, x, key);
      forall i | 0 <= i < |m| ensures key(m[i]) <= key(last) {
        assert m[i] in multiset(init) + multiset{x};
        if m[i] in init {
          var j :| 0 <= j < |init| && init[j] == m[i];
          assert s[j] == init[j];
        }
      }
    }
  }

  /** Inserting `x` appends it to the elements of its own key and leaves the others as they were. */
  lemma {:induction false} InsertWithKey<T>(s: seq<T>, x: T, key: T -> int, v: int)
    ensures WithKey(Insert(s, x, key), key, v) == WithKey(s, key, v) + (if key(x) == v then [x] else [])
  {
    var p := HasKey(key, v);
    if s == [] {
      assert [x][..0] == [];
    } else if key(s[|s| - 1]) > key(x) {
      var init := s[..|s| - 1];
      var last := s[|s| - 1];
      var m := Insert(init, x, key);
      InsertWithKey(init, x, key, v);
      assert (m + [last])[..|m + [last]| - 1] == m;
      assert WithKey(m + [last], key, v) == Filter(m, p) + (if p(last) then [last] else []);
    } else {
      assert (s + [x])[..|s + [x]| - 1] == s;
    }
  }

  /** The sort is a permutation of its input. */
  lemma {:induction false} SortPermutes<T>(xs: seq<T>, key: T -> int)
    ensures multiset(SortByKey(xs, key)) == multiset(xs)
  {
    if xs != [] {
      var init := xs[..|xs| - 1];
      SortPermutes(init, key);
      InsertPermutes(SortByKey(init, key), xs[|xs| - 1], key);
      assert xs == init + [xs[|xs| - 1]];
    }
  }

  /** The sort orders by non-decreasing key. */
  lemma {:induction false} SortSorted<T>(xs: seq<T>, key: T -> int)
    ensures SortedBy(SortByKey(xs, key), key)
  {
    if xs != [] {
      SortSorted(xs[..|xs| - 1], key);
      InsertSorted(SortByKey(xs[..|xs| - 1], key), xs[|xs| - 1], key);
    }
  }

  /** The sort is stable: the elements of each key keep their relative order. */
  lemma {:induction false} SortStable<T>(xs: seq<T>, key: T -> int, v: int)
    ensures WithKey(SortByKey(xs, key), key, v) == WithKey(xs, key, v)
  {
    if xs != [] {
      var init := xs[..|xs| - 1];
      SortStable(init, key, v);
      InsertWithKey(SortByKey(init, key), xs[|xs| - 1], key, v);
    }
  }

  /**
   * The element the sort puts first has the least key, and it is the
   * earliest element of the input with that key.
   */
  lemma SortHead<T>(xs: seq<T>, key: T -> int)
    requires xs != []
    ensures var r := SortByKey(xs, key);
      |r| == |xs| && (forall j :: 0 <= j < |xs| ==> key(r[0]) <= key(xs[j]))
      && exists i :: 0 <= i < |xs| && xs[i] == r[0] && forall j :: 0 <= j < i ==> key(xs[j]) > key(r[0])
  {
    var r := SortByKey(xs, key);
    SortPermutes(xs, key);
    SortSorted(xs, key);
    assert |r| == |multiset(r)| == |multiset(xs)| == |xs|;
    forall j | 0 <= j < |xs| ensures key(r[0]) <= key(xs[j]) {
      assert xs[j] in multiset(r);
      var k :| 0 <= k < |r| && r[k] == xs[j];
    }
    var v := key(r[0]);
    var p := HasKey(key, v);
    SortStable(xs, key, v);
    assert p(r[0]);
    SomeKept(r, p, 0);
    var k := FirstKept(r, p);
    assert k == 0;
    var i := FirstKept(xs, p);
  }

  /** `preferred`: a sorted copy of the track list. */
  function PreferredTracks(tracks: seq<CaptionTrack>): seq<CaptionTrack> {
    SortByKey(tracks, TrackScore)
  }

  /**
   * The preferred order holds the same tracks, by non-decreasing score,
   * with tracks of equal score in list order.
   */
  lemma PreferredTracksSpec(tracks: seq<CaptionTrack>)
    ensures multiset(PreferredTracks(tracks)) == multiset(tracks)
    ensures SortedBy(PreferredTracks(tracks), TrackScore)
    ensures forall v :: WithKey(PreferredTracks(tracks), TrackScore, v) == WithKey(tracks, TrackScore, v)
  {
    SortPermutes(tracks, TrackScore);
    SortSorted(tracks, TrackScore);
    forall v ensures WithKey(PreferredTracks(tracks), TrackScore, v) == WithKey(tracks, TrackScore, v) {
      SortStable(tracks, TrackScore, v);
    }
  }

  /** When the list has an English track that is not speech recognition, the first such track is tried first. */
  lemma EnglishHumanFirst(tracks: seq<CaptionTrack>, i: nat)
    requires i < |tracks| && IsEnglish(tracks[i].langCode) && tracks[i].kind != Some("asr")
    requires forall j :: 0 <= j < i ==> !(IsEnglish(tracks[j].langCode) && tracks[j].kind != Some("asr"))
    ensures PreferredTracks(tracks)[0] == tracks[i]
  {
    SortHead(tracks, TrackScore);
    var r := PreferredTracks(tracks);
    assert TrackScore(r[0]) <= TrackScore(tracks[i]) == 0;
    var k :| 0 <= k < |tracks| && tracks[k] == r[0] && forall j :: 0 <= j < k ==> TrackScore(tracks[j]) > TrackScore(r[0]);
    assert TrackScore(tracks[k]) == 0;
    assert k == i;
  }

  /**
   * Where `x` lands: after the last element whose key is no larger than its
   * own, that is before the run of larger keys that ends `s`.
   */
  lemma {:induction false} InsertAt<T>(s: seq<T>, x: T, key: T -> int, j: nat)
    requires j <= |s|
    requires forall k :: j <= k < |s| ==> key(s[k]) > key(x)
    requires j == 0 || key(s[j - 1]) <= key(x)
    ensures Insert(s, x, key) == s[..j] + [x] + s[j..]
    decreases |s|
  {
    if |s| == j {
      assert s[..j] == s && s[j..] == [];
    } else {
      var init := s[..|s| - 1];
      InsertAt(init, x, key, j);
      assert init[..j] == s[..j];
      assert init[j..] + [s[|s| - 1]] == s[j..];
    }
  }

  /**
   * One pass of the insertion sort: `a[i]` moves left past the elements of
   * `a[..i]` with a larger key, which move one place right.
   */
  method InsertInPlace<T>(a: array<T>, i: nat, key: T -> int)
    requires i < a.Length
    modifies a
    ensures a[..i + 1] == Insert(old(a[..i]), old(a[i]), key)
    ensures a[i + 1..] == old(a[i + 1..])
  {
    ghost var s := a[..i];
    var x := a[i];
    var j := i;
    while j > 0 && key(a[j - 1]) > key(x)
      invariant 0 <= j <= i
      invariant forall k :: 0 <= k < j ==> a[k] == s[k]
      invariant forall k :: j < k <= i ==> a[k] == s[k - 1]
      invariant forall k :: i < k < a.Length ==> a[k] == old(a[k])
      invariant forall k :: j <= k < i ==> key(s[k]) > key(x)
    {
      a[j] := a[j - 1];
      j := j - 1;
    }
    a[j] := x;
    InsertAt(s, x, key, j);
    Shifted(a[..], s, x, j);
    assert a[i + 1..] == old(a[i + 1..]);
  }

  /** The array after a pass: the elements before the gap, then `x`, then the shifted elements. */
  lemma Shifted<T>(arr: seq<T>, s: seq<T>, x: T, j: nat)
    requires j <= |s| < |arr| && arr[j] == x
    requires forall k :: 0 <= k < j ==> arr[k] == s[k]
    requires forall k :: j < k <= |s| ==> arr[k] == s[k - 1]
    ensures arr[..|s| + 1] == s[..j] + [x] + s[j..]
  {
    var t := s[..j] + [x] + s[j..];
    forall k | 0 <= k <= |s| ensures arr[k] == t[k] {
      if k > j {
        assert t[k] == s[j..][k - j - 1];
      }
    }
  }

  /** `vtts.sort(...)` on the array in place: a stable insertion sort by `key`. */
  method SortInPlace<T>(a: array<T>, key: T -> int)
    modifies a
    ensures a[..] == SortByKey(old(a[..]), key)
  {
    ghost var input := a[..];
    for i := 0 to a.Length
      invariant a[..i] == SortByKey(input[..i], key)
      invariant a[i..] == input[i..]
    {
      assert input[..i + 1][..i] == input[..i] && input[i] == a[i];
      InsertInPlace(a, i, key);
    }
    assert a[..a.Length] == a[..] && input[..a.Length] == input;
  }

  /** The test of the filter: a subtitle file of the video. */
  function IsVttOf(videoId: string): string -> bool {
    f => StartsWith(f, videoId) && EndsWith(f, ".vtt")
  }

  /** `files.filter(...)`: the subtitle files of one video, in directory order. */
  function VttCandidates(videoId: string, files: seq<string>): seq<string> {
    Filter(files, IsVttOf(videoId))
  }

  /** Reading and cleaning the chosen file: `None` when the read fails or the transcript is empty. */
  function TranscriptOf(read: string -> Option<string>, chosen: string): Option<string> {
    var contents := read("data/" + chosen);
    if contents.None? then None
    else
      var transcript := VttText(contents.value);
      if |transcript| > 0 then Some(transcript) else None
  }

  /**
   * The result of `findBestLocalVtt`: `listing` is the directory listing
   * (`None` when `readdir` fails) and `read` the file contents (`None` when
   * the read fails); either failure gives `null`, as does an empty transcript.
   */
  function BestLocalVtt(videoId: string, listing: Option<seq<string>>, read: string -> Option<string>): Option<string> {
    if listing.None? then None
    else
      var vtts := VttCandidates(videoId, listing.value);
      if vtts == [] then None else TranscriptOf(read, SortByKey(vtts, VttScore)[0])
  }

  /** `findBestLocalVtt(videoId)`: filter, sort the copy in place, read the first file and clean it. */
  method FindBestLocalVtt(videoId: string, listing: Option<seq<string>>, read: string -> Option<string>)
    returns (r: Option<string>)
    ensures r == BestLocalVtt(videoId, listing, read)
  {
    if listing.None? {
      return None;
    }
    var vtts := VttCandidates(videoId, listing.value);
    if |vtts| == 0 {
      return None;
    }
    var a := new string[|vtts|](k requires 0 <= k < |vtts| => vtts[k]);
    assert a[..] == vtts;
    SortInPlace(a, VttScore);
    var chosen := a[0];
    var contents := read("data/" + chosen);
    if contents.None? {
      return None;
    }
    var transcript := VttToText(contents.value);
    r := if |transcript| > 0 then Some(transcript) else None;
  }

  /**
   * `xs[i]` is selected by `p`, no selected element has a smaller key, and
   * every selected element before it has a larger key: the element a
   * stable sort of the selection puts first.
   */
  predicate IsBestOf<T>(xs: seq<T>, p: T -> bool, key: T -> int, i: nat) {
    i < |xs| && p(xs[i]) &&
    forall j :: 0 <= j < |xs| && p(xs[j]) ==> key(xs[i]) <= key(xs[j]) && (j < i ==> key(xs[i]) < key(xs[j]))
  }

  /**
   * A transcript found on disk is the non-empty cleaned text of the best
   * subtitle file of the video: of the least score, and the first of that
   * score in directory order.
   */
  lemma BestLocalVttSpec(videoId: string, listing: Option<seq<string>>, read: string -> Option<string>)
    ensures BestLocalVtt(videoId, listing, read).Some? ==>
      listing.Some? &&
      exists i: nat :: IsBestOf(listing.value, IsVttOf(videoId), VttScore, i) &&
        BestLocalVtt(videoId, listing, read) == TranscriptOf(read, listing.value[i])
    ensures BestLocalVtt(videoId, listing, read).Some? ==> BestLocalVtt(videoId, listing, read).value != []
  {
    if BestLocalVtt(videoId, listing, read).Some? {
      var files := listing.value;
      var vtts := VttCandidates(videoId, files);
      var i := FirstOfSortedFilter(files, IsVttOf(videoId), VttScore);
      assert BestLocalVtt(videoId, listing, read) == TranscriptOf(read, files[i]);
    }
  }

  /** The first element of the sorted selection is the best selected element of the input. */
  lemma FirstOfSortedFilter<T>(xs: seq<T>, p: T -> bool, key: T -> int) returns (i: nat)
    requires Filter(xs, p) != []
    ensures IsBestOf(xs, p, key, i) && xs[i] == SortByKey(Filter(xs, p), key)[0]
  {
    var sel := Filter(xs, p);
    var chosen := SortByKey(sel, key)[0];
    SortHead(sel, key);
    var k :| 0 <= k < |sel| && sel[k] == chosen && forall j :: 0 <= j < k ==> key(sel[j]) > key(chosen);
    CandidateIndex(xs, p, k);
    i :| 0 <= i < |xs| && xs[i] == chosen && |Filter(xs[..i], p)| == k;
    BestAt(xs, p, key, i, k);
  }

  /** The selected element at `i`, the `k`-th of the selection, is the best one when its key is least and every earlier selected key is larger. */
  lemma BestAt<T>(xs: seq<T>, p: T -> bool, key: T -> int, i: nat, k: nat)
    requires k < |Filter(xs, p)| && i < |xs| && xs[i] == Filter(xs, p)[k] && |Filter(xs[..i], p)| == k
    requires forall j :: 0 <= j < |Filter(xs, p)| ==> key(xs[i]) <= key(Filter(xs, p)[j])
    requires forall j :: 0 <= j < k ==> key(Filter(xs, p)[j]) > key(xs[i])
    ensures IsBestOf(xs, p, key, i)
  {
    var sel := Filter(xs, p);
    assert p(sel[k]);
    forall j | 0 <= j < |xs| && p(xs[j])
      ensures key(xs[i]) <= key(xs[j]) && (j < i ==> key(xs[i]) < key(xs[j]))
    {
      SomeKept(xs, p, j);
      var m :| 0 <= m < |sel| && sel[m] == xs[j];
      if j < i {
        EarlierCandidate(xs, p, i, j);
        var m' :| 0 <= m' < |Filter(xs[..i], p)| <= |sel| && sel[m'] == xs[j];
      }
    }
  }

  /** The `k`-th kept element sits at some index `i` of the input with exactly `k` kept elements before it. */
  lemma {:induction false} CandidateIndex<T>(xs: seq<T>, p: T -> bool, k: nat)
    requires k < |Filter(xs, p)|
    ensures exists i :: 0 <= i < |xs| && xs[i] == Filter(xs, p)[k] && |Filter(xs[..i], p)| == k
  {
    var init := xs[..|xs| - 1];
    if k < |Filter(init, p)| {
      CandidateIndex(init, p, k);
      var i :| 0 <= i < |init| && init[i] == Filter(init, p)[k] && |Filter(init[..i], p)| == k;
      assert xs[..i] == init[..i];
    } else {
      assert xs[..|xs| - 1] == init;
    }
  }

  /** A kept element at an index before `i` is one of the first `|Filter(xs[..i], p)|` kept elements. */
  lemma {:induction false} EarlierCandidate<T>(xs: seq<T>, p: T -> bool, i: nat, j: nat)
    requires j < i <= |xs| && p(xs[j])
    ensures exists m :: 0 <= m < |Filter(xs[..i], p)| <= |Filter(xs, p)| && Filter(xs, p)[m] == xs[j]
  {
    FilterAppend(xs[..i], xs[i..], p);
    assert xs[..i] + xs[i..] == xs;
    FilterMembership(xs[..i], p);
    assert xs[j] in xs[..i];
    var m :| 0 <= m < |Filter(xs[..i], p)| && Filter(xs[..i], p)[m] == xs[j];
    assert Filter(xs, p)[m] == Filter(xs[..i], p)[m];
  }
}
