/**
 * Video-ID extraction: `re.search(r'(?:v=|\/)([0-9A-Za-z_-]{11}).*', url)`
 * and its first group, written as the left-to-right scan that the regular
 * expression engine performs. A URL without a match yields None (the
 * application reports "Invalid YouTube URL." at that point).
 */
module VideoId {
  import opened Wrappers

  /** The repetition count `{11}` of the identifier group. */
  const IdLength := 11

  /** The character class `[0-9A-Za-z_-]`. */
  predicate IsIdChar(c: char)
  {
    ('0' <= c <= '9') || ('A' <= c <= 'Z') || ('a' <= c <= 'z') || c == '_' || c == '-'
  }

  predicate IsVideoId(id: string)
  {
    |id| == IdLength && forall k :: 0 <= k < |id| ==> IsIdChar(id[k])
  }

  // ---------------------------------------------------------------------------
  // What the pattern means, position by position
  // ---------------------------------------------------------------------------

  /** Eleven identifier characters start at position `k` of `url`. */
  predicate IdRunAt(url: string, k: nat)
  {
    k + IdLength <= |url| && IsVideoId(url[k..k + IdLength])
  }

  /** The pattern matches with its marker at position `i`: either `v=` or `/`
      starts there and is followed by eleven identifier characters (the
      trailing `.*` matches anything, including nothing). */
  predicate MatchesAt(url: string, i: nat)
  {
    || (i + 2 <= |url| && url[i..i + 2] == "v=" && IdRunAt(url, i + 2))
    || (i < |url| && url[i] == '/' && IdRunAt(url, i + 1))
  }

  /** The text of group 1 for a match at position `i`. */
  function CaptureAt(url: string, i: nat): (id: string)
    requires MatchesAt(url, i)
    ensures IsVideoId(id)
  {
    if url[i] == '/' then url[i + 1..i + 1 + IdLength] else url[i + 2..i + 2 + IdLength]
  }

  /** A match at `i`, and none further left: the one `re.search` reports. */
  predicate IsLeftmostMatch(url: string, i: nat)
  {
    MatchesAt(url, i) && forall j: nat :: j < i ==> !MatchesAt(url, j)
  }

  // ---------------------------------------------------------------------------
  // The scan
  // ---------------------------------------------------------------------------

  /** Whether `n` identifier characters follow position `k`: the repetition
      `[0-9A-Za-z_-]{n}`, consumed one character at a time. */
  function IdCharsFrom(url: string, k: nat, n: nat): (b: bool)
    ensures b <==> k + n <= |url| && forall j :: k <= j < k + n ==> IsIdChar(url[j])
    decreases n
  {
    if n == 0 then k <= |url|
    else k < |url| && IsIdChar(url[k]) && IdCharsFrom(url, k + 1, n - 1)
  }

  /** One attempt of the engine at position `i`: the alternative `v=` first,
      then `/`; on success, group 1. */
  function TryAt(url: string, i: nat): (r: Option<string>)
    ensures r.Some? <==> MatchesAt(url, i)
    ensures r.Some? ==> r.value == CaptureAt(url, i) && IsVideoId(r.value)
  {
    if i + 2 <= |url| && url[i] == 'v' && url[i + 1] == '=' && IdCharsFrom(url, i + 2, IdLength) then
      assert url[i..i + 2] == "v=";
      assert forall j :: i + 2 <= j < i + 2 + IdLength ==> url[i + 2..i + 2 + IdLength][j - (i + 2)] == url[j];
      Some(url[i + 2..i + 2 + IdLength])
    else if i < |url| && url[i] == '/' && IdCharsFrom(url, i + 1, IdLength) then
      assert forall j :: i + 1 <= j < i + 1 + IdLength ==> url[i + 1..i + 1 + IdLength][j - (i + 1)] == url[j];
      Some(url[i + 1..i + 1 + IdLength])
    else
      assert IdRunAt(url, i + 2) ==> IdCharsFrom(url, i + 2, IdLength) by {
        if IdRunAt(url, i + 2) {
          assert forall j :: i + 2 <= j < i + 2 + IdLength ==> url[j] == url[i + 2..i + 2 + IdLength][j - (i + 2)];
        }
      }
      assert IdRunAt(url, i + 1) ==> IdCharsFrom(url, i + 1, IdLength) by {
        if IdRunAt(url, i + 1) {
          assert forall j :: i + 1 <= j < i + 1 + IdLength ==> url[j] == url[i + 1..i + 1 + IdLength][j - (i + 1)];
        }
      }
      assert i + 2 <= |url| && url[i..i + 2] == "v=" ==> url[i] == 'v' && url[i + 1] == '=';
      None
  }

  /** The search from position `i` onwards: the first position that matches. */
  function SearchFrom(url: string, i: nat): (r: Option<string>)
    requires i <= |url|
    ensures r.None? <==> forall j: nat :: i <= j ==> !MatchesAt(url, j)
    ensures r.Some? ==> exists j: nat :: i <= j && MatchesAt(url, j) && r.value == CaptureAt(url, j)
                                       && forall l: nat :: i <= l < j ==> !MatchesAt(url, l)
    decreases |url| - i
  {
    if i == |url| then None
    else
      match TryAt(url, i)
      case Some(id) => Some(id)
      case None => SearchFrom(url, i + 1)
  }

  /** `extract_video_id`: group 1 of the leftmost match, or None. */
  function ExtractVideoId(url: string): (r: Option<string>)
    ensures r.Some? ==> IsVideoId(r.value)
    ensures r.None? <==> forall i: nat :: !MatchesAt(url, i)
    ensures r.Some? ==> exists i: nat :: IsLeftmostMatch(url, i) && r.value == CaptureAt(url, i)
  {
    var r := SearchFrom(url, 0);
    assert r.Some? ==> exists i: nat :: IsLeftmostMatch(url, i) && r.value == CaptureAt(url, i) by {
      if r.Some? {
        var j: nat :| MatchesAt(url, j) && r.value == CaptureAt(url, j)
                      && forall l: nat :: 0 <= l < j ==> !MatchesAt(url, l);
        assert IsLeftmostMatch(url, j);
      }
    }
    r
  }

  /** The leftmost match decides the result. */
  lemma LeftmostDecides(url: string, i: nat)
    requires IsLeftmostMatch(url, i)
    ensures ExtractVideoId(url) == Some(CaptureAt(url, i))
  {
    var r := ExtractVideoId(url);
    var j: nat :| IsLeftmostMatch(url, j) && r.value == CaptureAt(url, j);
    assert !(j < i) && !(i < j);
  }

  // ---------------------------------------------------------------------------
  // The usual URL shapes
  // ---------------------------------------------------------------------------

  const WatchPrefix := "https://www.youtube.com/watch?v="
  const ShortPrefix := "https://youtu.be/"

  /** A watch-page URL yields the ID after `v=`, whatever follows it. */
  lemma WatchUrl(id: string, rest: string)
    requires IsVideoId(id)
    ensures ExtractVideoId(WatchPrefix + id + rest) == Some(id)
  {
    var url := WatchPrefix + id + rest;
    assert |WatchPrefix| == 32;
    assert forall k :: 0 <= k < 32 ==> url[k] == WatchPrefix[k];
    assert url[30..32] == "v=";
    assert url[32..32 + IdLength] == id;
    forall j: nat | j < 30 ensures !MatchesAt(url, j) {
      NoMatchInWatchPrefix(url, j);
    }
    LeftmostDecides(url, 30);
  }

  lemma NoMatchInWatchPrefix(url: string, j: nat)
    requires |url| >= 32 && url[..32] == WatchPrefix && j < 30
    ensures !MatchesAt(url, j)
  {
    assert forall k :: 0 <= k < 32 ==> url[k] == WatchPrefix[k];
    assert url[j] != 'v';
    assert j + 2 <= |url| ==> url[j..j + 2][0] != 'v';
    if url[j] == '/' {
      assert j == 6 || j == 7 || j == 23;
      var bad := if j == 6 then 7 else if j == 7 then 11 else 29;
      assert !IsIdChar(url[bad]);
      if j + 1 + IdLength <= |url| {
        assert url[j + 1..j + 1 + IdLength][bad - j - 1] == url[bad];
      }
    }
  }

  /** A short link yields the ID after the final `/`, whatever follows it. */
  lemma ShortUrl(id: string, rest: string)
    requires IsVideoId(id)
    ensures ExtractVideoId(ShortPrefix + id + rest) == Some(id)
  {
    var url := ShortPrefix + id + rest;
    assert |ShortPrefix| == 17;
    assert forall k :: 0 <= k < 17 ==> url[k] == ShortPrefix[k];
    assert url[17..17 + IdLength] == id;
    forall j: nat | j < 16 ensures !MatchesAt(url, j) {
      assert url[j] != 'v';
      assert j + 2 <= |url| ==> url[j..j + 2][0] != 'v';
      if url[j] == '/' {
        assert j == 6 || j == 7;
        var bad := if j == 6 then 7 else 13;
        assert !IsIdChar(url[bad]);
        assert url[j + 1..j + 1 + IdLength][bad - j - 1] == url[bad];
      }
    }
    LeftmostDecides(url, 16);
  }

  /** A watch-page URL whose `v=` value is shorter than eleven characters has
      no match at all. */
  lemma TruncatedWatchUrl(s: string)
    requires |s| < IdLength
    ensures ExtractVideoId(WatchPrefix + s) == None
  {
    var url := WatchPrefix + s;
    assert url[..32] == WatchPrefix;
    forall j: nat ensures !MatchesAt(url, j) {
      if j < 30 {
        NoMatchInWatchPrefix(url, j);
      }
    }
  }
}
