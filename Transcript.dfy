/**
 * The transcript text: the `text` of every segment returned by the
 * transcript service, joined with single spaces, in order. The service call
 * itself is outside the model; its segments are the input here.
 */
module Transcript {
  import opened Text

  /** One timed caption chunk as the transcript service returns it. Only the
      text is used; the timing is carried along unread. */
  datatype Segment = Segment(text: string, start: real, duration: real)

  function Texts(segments: seq<Segment>): seq<string>
  {
    seq(|segments|, k requires 0 <= k < |segments| => segments[k].text)
  }

  /** `" ".join([segment['text'] for segment in transcript_list])` */
  function FullTranscript(segments: seq<Segment>): (r: string)
    ensures segments == [] ==> r == []
    ensures |segments| == 1 ==> r == segments[0].text
  {
    JoinWith(Texts(segments), " ")
  }

  function TotalLength(parts: seq<string>): nat
  {
    if parts == [] then 0 else |parts[0]| + TotalLength(parts[1..])
  }

  function TotalWords(parts: seq<string>): nat
  {
    if parts == [] then 0 else WordCount(parts[0]) + TotalWords(parts[1..])
  }

  /** Where the `k`-th part begins in the joined text: the parts before it
      and one separating space after each of them. */
  function Offset(parts: seq<string>, k: nat): nat
    requires k <= |parts|
  {
    TotalLength(parts[..k]) + k
  }

  /** The joined text is as long as all parts together plus one space
      between each neighbouring pair. */
  lemma {:induction false} JoinLength(parts: seq<string>)
    requires parts != []
    ensures |JoinWith(parts, " ")| == TotalLength(parts) + |parts| - 1
  {
    if |parts| > 1 {
      JoinLength(parts[1..]);
    }
  }

  /** Each part appears, unchanged, at its offset, and the character before
      every part but the first is the separating space: the parts are kept
      in order. */
  lemma {:induction false} JoinPlacesParts(parts: seq<string>, k: nat)
    requires k < |parts|
    ensures Offset(parts, k) + |parts[k]| <= |JoinWith(parts, " ")|
    ensures JoinWith(parts, " ")[Offset(parts, k)..Offset(parts, k) + |parts[k]|] == parts[k]
    ensures k > 0 ==> JoinWith(parts, " ")[Offset(parts, k) - 1] == ' '
  {
    var j := JoinWith(parts, " ");
    if k == 0 {
      assert parts[..0] == [];
    } else {
      var rest := parts[1..];
      JoinPlacesParts(rest, k - 1);
      assert parts[..k][1..] == rest[..k - 1];
      assert parts[..k][0] == parts[0];
      var o := Offset(rest, k - 1);
      assert Offset(parts, k) == |parts[0]| + 1 + o;
      var jr := JoinWith(rest, " ");
      assert j == parts[0] + " " + jr;
      assert j[|parts[0]| + 1..] == jr;
      assert j[Offset(parts, k)..Offset(parts, k) + |parts[k]|] == jr[o..o + |rest[k - 1]|];
      if k > 1 {
        assert j[Offset(parts, k) - 1] == jr[o - 1];
      }
    }
  }

  /** Joining with spaces neither merges nor splits words: the transcript has
      as many words as its segments together. */
  lemma {:induction false} JoinWordCount(parts: seq<string>)
    ensures WordCount(JoinWith(parts, " ")) == TotalWords(parts)
  {
    if |parts| == 1 {
      assert parts[1..] == [];
    } else if |parts| > 1 {
      JoinWordCount(parts[1..]);
      var rest := JoinWith(parts[1..], " ");
      assert parts[0] + " " + rest == parts[0] + [' '] + rest;
      WordCountSplitAt(parts[0], ' ', rest);
    }
  }

  /** The statements above, for the transcript assembled from service segments. */
  lemma TranscriptFacts(segments: seq<Segment>)
    ensures segments != [] ==> |FullTranscript(segments)| == TotalLength(Texts(segments)) + |segments| - 1
    ensures WordCount(FullTranscript(segments)) == TotalWords(Texts(segments))
    ensures forall k :: 0 <= k < |segments| ==>
              var o := Offset(Texts(segments), k);
              o + |segments[k].text| <= |FullTranscript(segments)| &&
              FullTranscript(segments)[o..o + |segments[k].text|] == segments[k].text &&
              (k > 0 ==> FullTranscript(segments)[o - 1] == ' ')
  {
    var parts := Texts(segments);
    if segments != [] { JoinLength(parts); }
    JoinWordCount(parts);
    forall k | 0 <= k < |segments|
      ensures Offset(parts, k) + |segments[k].text| <= |FullTranscript(segments)|
      ensures FullTranscript(segments)[Offset(parts, k)..Offset(parts, k) + |segments[k].text|] == segments[k].text
      ensures k > 0 ==> FullTranscript(segments)[Offset(parts, k) - 1] == ' '
    {
      JoinPlacesParts(parts, k);
    }
  }
}
