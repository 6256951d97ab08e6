/**
 * How many cards are shown and which: the transcript's word count divided
 * by 200, kept within [8, 12], bounds a prefix of the formatted cards, and
 * each card of that prefix is rendered once, in order.
 */
module CardSelector {
  import opened Text
  import opened NoteCards

  const MinCards := 8
  const MaxCards := 12
  const WordsPerCard := 200

  function Min(a: int, b: int): int
  {
    if a <= b then a else b
  }

  function Max(a: int, b: int): int
  {
    if a >= b then a else b
  }

  function Distance(a: int, b: int): nat
  {
    if a >= b then a - b else b - a
  }

  /** `min(max(lo, x), hi)`: the point of [lo, hi] nearest to `x`. */
  function Clamp(x: int, lo: int, hi: int): (r: int)
    requires lo <= hi
    ensures lo <= r <= hi
    ensures forall y :: lo <= y <= hi ==> Distance(r, x) <= Distance(y, x)
  {
    Min(Max(lo, x), hi)
  }

  /** `num_cards = min(max(min_cards, int(video_length / 200)), max_cards)`
      for a transcript of `words` words. */
  function NumCards(words: nat): (n: nat)
    ensures MinCards <= n <= MaxCards
    ensures MinCards <= words / WordsPerCard <= MaxCards ==> n == words / WordsPerCard
    ensures words / WordsPerCard < MinCards ==> n == MinCards
    ensures words / WordsPerCard > MaxCards ==> n == MaxCards
  {
    Clamp(words / WordsPerCard, MinCards, MaxCards)
  }

  /** A longer transcript never gets fewer cards. */
  lemma NumCardsMonotone(a: nat, b: nat)
    requires a <= b
    ensures NumCards(a) <= NumCards(b)
  {
    assert a / WordsPerCard <= b / WordsPerCard;
  }

  lemma NumCardsExamples()
    ensures NumCards(1000) == 8
    ensures NumCards(1800) == 9
    ensures NumCards(3000) == 12
  {
  }

  /** Python's `s[:n]` for `n >= 0`: the first `n` elements, or all of them
      when there are fewer. */
  function Take<T>(s: seq<T>, n: nat): (r: seq<T>)
    ensures |r| == Min(n, |s|)
    ensures r == s[..|r|]
  {
    if n <= |s| then s[..n] else s
  }

  /** `for card in formatted_note_cards[:num_cards]: st.markdown(card, ...)`:
      the markup passed to `st.markdown`, one element per call. */
  method RenderCards(cards: seq<NoteCard>, numCards: nat) returns (shown: seq<string>)
    ensures |shown| == Min(numCards, |cards|)
    ensures forall k :: 0 <= k < |shown| ==> shown[k] == CardHtml(cards[k])
  {
    var visible := Take(cards, numCards);
    shown := [];
    for i := 0 to |visible|
      invariant |shown| == i
      invariant forall k :: 0 <= k < i ==> shown[k] == CardHtml(visible[k])
    {
      shown := shown + [CardHtml(visible[i])];
    }
  }

  /** The step from the model's response to the rendered cards: format,
      choose the count from the transcript's length, show that prefix. Never
      more cards are shown than the bound allows or than were formatted. */
  method ShowNoteCards(transcript: string, response: string) returns (cards: seq<NoteCard>, shown: seq<string>)
    ensures |cards| == |Expected(response)|
    ensures forall k :: 0 <= k < |cards| ==> Formats(cards[k], Expected(response)[k])
    ensures |shown| == Min(NumCards(WordCount(transcript)), |cards|)
    ensures |shown| <= MaxCards && |shown| <= Occurrences(response, Delimiter)
    ensures forall k :: 0 <= k < |shown| ==> shown[k] == CardHtml(cards[k])
  {
    cards := FormatNoteCards(response);
    var numCards := NumCards(WordCount(transcript));
    shown := RenderCards(cards, numCards);
    CardCountBound(response);
  }
}
