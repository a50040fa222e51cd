/**
 * Tweet-ID extraction from `sort-tweets.js`. The regular expression
 * `status\/(\d+)` is modelled directly: the leftmost position where
 * `status/` is followed by a digit, and the longest run of ASCII digits
 * there, which is the capture group.
 */
module Tweets {
  import opened Results
  import Text

  const Marker: string := "status/"

  /** The pattern matches at `i`: `status/` starts there and a digit follows it. */
  predicate MatchesAt(url: string, i: int) {
    && 0 <= i
    && i + |Marker| < |url|
    && url[i..i + |Marker|] == Marker
    && Text.IsDigit(url[i + |Marker|])
  }

  /** `\d+` at the front of `s`, taken greedily: the longest prefix of ASCII digits. */
  function DigitRun(s: string): (run: string)
    ensures run <= s
    ensures forall k :: 0 <= k < |run| ==> Text.IsDigit(run[k])
    ensures |run| < |s| ==> !Text.IsDigit(s[|run|])
  {
    if s != [] && Text.IsDigit(s[0]) then [s[0]] + DigitRun(s[1..]) else []
  }

  /** The leftmost match position at or after `from`, as the regular expression engine scans. */
  function Search(url: string, from: nat): (k: Option<nat>)
    ensures k.Some? ==> from <= k.value && MatchesAt(url, k.value)
    ensures k.Some? ==> forall i :: from <= i < k.value ==> !MatchesAt(url, i)
    ensures k.None? ==> forall i :: from <= i ==> !MatchesAt(url, i)
    decreases |url| - from
  {
    if from + |Marker| >= |url| then None
    else if MatchesAt(url, from) then Some(from)
    else Search(url, from + 1)
  }

  /** `url.match(ID_REGEX)`: the whole match and its one capture group, or nothing. */
  function Match(url: string): (m: Option<seq<string>>)
    ensures m.Some? <==> exists i :: MatchesAt(url, i)
    ensures m.Some? ==> |m.value| == 2 && m.value[0] == Marker + m.value[1]
  {
    match Search(url, 0) {
      case None => None
      case Some(i) =>
        var id := DigitRun(url[i + |Marker|..]);
        Some([Marker + id, id])
    }
  }

  /**
   * `id` is the capture of the leftmost match, which starts at `i`: no match
   * starts earlier, and `id` is the whole digit run after `status/`.
   */
  ghost predicate IdAt(url: string, i: int, id: string) {
    && MatchesAt(url, i)
    && (forall j :: 0 <= j < i ==> !MatchesAt(url, j))
    && id != []
    && (forall k :: 0 <= k < |id| ==> Text.IsDigit(id[k]))
    && i + |Marker| + |id| <= |url|
    && url[i + |Marker|..i + |Marker| + |id|] == id
    && (i + |Marker| + |id| == |url| || !Text.IsDigit(url[i + |Marker| + |id|]))
  }

  /**
   * `extractId(url)`: the capture group of the leftmost match; an error when
   * there is no match. The second check of the source, on the length of the
   * match, never fails, so only the first error message can appear.
   */
  function ExtractId(url: string): (r: Result<string>)
    ensures r.Ok? <==> exists i :: MatchesAt(url, i)
    ensures r.Ok? ==> exists i :: IdAt(url, i, r.value)
    ensures r.Err? ==> r.message == "No ID pattern: " + url
  {
    match Match(url) {
      case None => Err("No ID pattern: " + url)
      case Some(results) =>
        if |results| != 2 then Err("No ID found: " + url)
        else
          var i := Search(url, 0).value;
          var rest := url[i + |Marker|..];
          assert rest[0] == url[i + |Marker|];
          assert IdAt(url, i, results[1]);
          Ok(results[1])
    }
  }

  /** A tweet: its URL and the ID taken from it. */
  datatype TweetItem = TweetItem(id: string, url: string)

  /** `buildTweetItem(url)`: the URL kept as it is, with its ID; the extraction error passes through. */
  function BuildTweetItem(url: string): (r: Result<TweetItem>)
    ensures r.Ok? <==> ExtractId(url).Ok?
    ensures r.Ok? ==> r.value.url == url && IdAt(url, Search(url, 0).value, r.value.id)
    ensures r.Err? ==> r.message == "No ID pattern: " + url
  {
    match ExtractId(url) {
      case Err(message) => Err(message)
      case Ok(id) => Ok(TweetItem(id, url))
    }
  }

  /** A text with no match of its own gains none by writing `status/` and more after it. */
  lemma NoEarlierMatch(p: string, id: string, rest: string, i: int)
    requires forall j :: 0 <= j < |p| ==> !MatchesAt(p, j)
    requires 0 <= i < |p|
    ensures !MatchesAt(p + Marker + id + rest, i)
  {
    var url := p + Marker + id + rest;
    if i + |Marker| < |p| {
      assert url[i..i + |Marker|] == p[i..i + |Marker|];
      assert url[i + |Marker|] == p[i + |Marker|];
      assert !MatchesAt(p, i);
    } else if i + |Marker| == |p| {
      assert url[i + |Marker|] == 's';
    } else {
      assert url[i..i + |Marker|][6] == url[i + 6] == Marker[i + 6 - |p|] != '/';
    }
  }

  /** The digit run of a digit string followed by a non-digit (or nothing) is that digit string. */
  lemma {:induction false} DigitRunOf(id: string, rest: string)
    requires forall k :: 0 <= k < |id| ==> Text.IsDigit(id[k])
    requires rest == [] || !Text.IsDigit(rest[0])
    ensures DigitRun(id + rest) == id
  {
    if id != [] {
      assert (id + rest)[1..] == id[1..] + rest;
      DigitRunOf(id[1..], rest);
      assert [id[0]] + id[1..] == id;
    }
  }

  /**
   * Round trip: writing an ID after `status/`, behind a text without a match
   * and before a non-digit, and extracting it gives the ID back.
   */
  lemma ExtractIdRoundTrip(p: string, id: string, rest: string)
    requires forall j :: 0 <= j < |p| ==> !MatchesAt(p, j)
    requires id != [] && forall k :: 0 <= k < |id| ==> Text.IsDigit(id[k])
    requires rest == [] || !Text.IsDigit(rest[0])
    ensures ExtractId(p + Marker + id + rest) == Ok(id)
  {
    var url := p + Marker + id + rest;
    forall i | 0 <= i < |p|
      ensures !MatchesAt(url, i)
    {
      NoEarlierMatch(p, id, rest, i);
    }
    assert url[|p|..|p| + |Marker|] == Marker;
    assert url[|p| + |Marker|] == id[0];
    assert MatchesAt(url, |p|);
    var k := Search(url, 0);
    assert k == Some(|p|);
    assert url[|p| + |Marker|..] == id + rest;
    DigitRunOf(id, rest);
  }
}
