/**
 * `format_note_cards`: the model's text is split on the literal
 * "Note Card ", the text before the first occurrence is dropped, and every
 * later piece that is non-empty once stripped becomes a card. A card keeps
 * the 1-based position of its piece as its headline number (so skipped
 * pieces leave gaps), has every ". " in its body replaced by ".<br>", and
 * gets a background colour drawn from a fixed palette of ten.
 */
module NoteCards {
  import opened Text

  const Delimiter := "Note Card "

  const Palette: seq<string> :=
    ["#FFCDD2", "#F8BBD0", "#E1BEE7", "#D1C4E9", "#C5CAE9",
     "#BBDEFB", "#B3E5FC", "#B2EBF2", "#B2DFDB", "#C8E6C9"]

  /** One formatted card: headline number, background colour, body text. */
  datatype NoteCard = NoteCard(number: nat, color: string, body: string)

  /** A piece that becomes a card: its 1-based position and its stripped text. */
  datatype Entry = Entry(number: nat, text: string)

  /** `note_cards[1:]`: the pieces after the preamble. */
  function Pieces(content: string): (r: seq<string>)
    ensures |r| == Occurrences(content, Delimiter)
  {
    DelimiterOverlapFree();
    SplitCount(content, Delimiter);
    Split(content, Delimiter)[1..]
  }

  /** Every piece stripped, in order (`note_card.strip()` for each piece). */
  function StripAll(pieces: seq<string>): (r: seq<string>)
    ensures |r| == |pieces|
  {
    seq(|pieces|, k requires 0 <= k < |pieces| => Strip(pieces[k]))
  }

  /** The stripped pieces that survive the emptiness filter, in order, each
      with the 1-based position it has among all pieces. */
  function Survivors(stripped: seq<string>): (r: seq<Entry>)
    ensures |r| <= |stripped|
    decreases |stripped|
  {
    if stripped == [] then []
    else
      var prev := Survivors(stripped[..|stripped| - 1]);
      var t := stripped[|stripped| - 1];
      if t == [] then prev else prev + [Entry(|stripped|, t)]
  }

  /** One more piece: Survivors grows by at most that piece's entry. */
  lemma SurvivorsSnoc(init: seq<string>, t: string)
    ensures Survivors(init + [t]) ==
              if t == [] then Survivors(init) else Survivors(init) + [Entry(|init| + 1, t)]
  {
    var all := init + [t];
    assert all[..|all| - 1] == init && all[|all| - 1] == t;
  }

  function Spaces(n: nat): string
  {
    seq(n, _ => ' ')
  }

  /** The fixed text of the card markup, between the colour, the number and
      the body. */
  const HtmlOpen := "\n" + Spaces(16) + "<div class=\"note-card\" style=\"background-color: "
  const HtmlHeadline := ";\">\n" + Spaces(20) + "<h3>Note Card "
  const HtmlBodyOpen := "</h3>\n" + Spaces(20) + "<ul>\n" + Spaces(24)
  const HtmlClose := "\n" + Spaces(20) + "</ul>\n" + Spaces(16) + "</div>\n" + Spaces(12)

  /** The markup `format_note_cards` builds for one card: a `div` with the
      card's background colour, the headline "Note Card N" and the body. The
      colour follows the opening text and the body comes right before the
      closing text. */
  function CardHtml(card: NoteCard): (r: string)
    ensures |HtmlOpen| + |card.color| + |HtmlClose| + |card.body| <= |r|
    ensures r[|HtmlOpen|..|HtmlOpen| + |card.color|] == card.color
    ensures r[|r| - |HtmlClose| - |card.body|..|r| - |HtmlClose|] == card.body
  {
    HtmlOpen + (card.color + (HtmlHeadline + (Decimal(card.number) + (HtmlBodyOpen + (card.body + HtmlClose)))))
  }

  lemma CancelPrefix(a: string, x: string, y: string)
    requires a + x == a + y
    ensures x == y
  {
    assert x == (a + x)[|a|..];
    assert y == (a + y)[|a|..];
  }

  lemma SplitAtSameLength(x1: string, r1: string, x2: string, r2: string)
    requires |x1| == |x2| && x1 + r1 == x2 + r2
    ensures x1 == x2 && r1 == r2
  {
    assert x1 == (x1 + r1)[..|x1|];
    assert x2 == (x2 + r2)[..|x2|];
    assert r1 == (x1 + r1)[|x1|..];
    assert r2 == (x2 + r2)[|x2|..];
  }

  lemma CancelSuffix(x: string, y: string, c: string)
    requires x + c == y + c
    ensures x == y
  {
    assert x == (x + c)[..|x|];
    assert y == (y + c)[..|y|];
  }

  /** A run of digits followed by a non-digit ends at the same place in two
      equal texts. */
  lemma DigitsThenOther(d1: string, t1: string, d2: string, t2: string)
    requires forall k :: 0 <= k < |d1| ==> IsDigit(d1[k])
    requires forall k :: 0 <= k < |d2| ==> IsDigit(d2[k])
    requires t1 != [] && t2 != [] && !IsDigit(t1[0]) && !IsDigit(t2[0])
    requires d1 + t1 == d2 + t2
    ensures d1 == d2 && t1 == t2
  {
    var w := d1 + t1;
    assert forall k :: 0 <= k < |d2| ==> w[k] == d2[k];
    assert forall k :: 0 <= k < |d1| ==> w[k] == d1[k];
    assert w[|d1|] == t1[0];
    assert (d2 + t2)[|d2|] == t2[0];
    assert |d1| == |d2|;
    SplitAtSameLength(d1, t1, d2, t2);
  }

  /** Distinct cards with palette colours render to distinct markup: the
      colour, the number and the body can all be read back. */
  lemma CardHtmlInjective(c1: NoteCard, c2: NoteCard)
    requires c1.color in Palette && c2.color in Palette
    requires CardHtml(c1) == CardHtml(c2)
    ensures c1 == c2
  {
    assert |c1.color| == 7 && |c2.color| == 7;
    var tail1 := HtmlBodyOpen + (c1.body + HtmlClose);
    var tail2 := HtmlBodyOpen + (c2.body + HtmlClose);
    var num1 := Decimal(c1.number) + tail1;
    var num2 := Decimal(c2.number) + tail2;
    CancelPrefix(HtmlOpen, c1.color + (HtmlHeadline + num1), c2.color + (HtmlHeadline + num2));
    SplitAtSameLength(c1.color, HtmlHeadline + num1, c2.color, HtmlHeadline + num2);
    CancelPrefix(HtmlHeadline, num1, num2);
    assert tail1[0] == '<' && tail2[0] == '<';
    DigitsThenOther(Decimal(c1.number), tail1, Decimal(c2.number), tail2);
    DecimalRoundTrip(c1.number);
    DecimalRoundTrip(c2.number);
    CancelPrefix(HtmlBodyOpen, c1.body + HtmlClose, c2.body + HtmlClose);
    CancelSuffix(c1.body, c2.body, HtmlClose);
  }

  /** The cards that the model's text `content` gives rise to, colour aside. */
  function Expected(content: string): (r: seq<Entry>)
    ensures |r| <= Occurrences(content, Delimiter)
  {
    Survivors(StripAll(Pieces(content)))
  }

  /** `card` is the formatting of `e`. */
  predicate Formats(card: NoteCard, e: Entry)
  {
    card.number == e.number && card.body == BreakSentences(e.text) && card.color in Palette
  }

  /** Appending a card that formats the next entry keeps the cards in step
      with the entries. */
  lemma FormatsSnoc(cards: seq<NoteCard>, entries: seq<Entry>, card: NoteCard, e: Entry)
    requires |cards| == |entries|
    requires forall k :: 0 <= k < |cards| ==> Formats(cards[k], entries[k])
    requires forall k :: 0 <= k < |cards| ==> Absent(cards[k].body, SentenceGap)
    requires Formats(card, e) && Absent(card.body, SentenceGap)
    ensures forall k :: 0 <= k < |cards| + 1 ==> Formats((cards + [card])[k], (entries + [e])[k])
    ensures forall k :: 0 <= k < |cards| + 1 ==> Absent((cards + [card])[k].body, SentenceGap)
  {
    forall k | 0 <= k < |cards| + 1
      ensures Formats((cards + [card])[k], (entries + [e])[k])
      ensures Absent((cards + [card])[k].body, SentenceGap)
    {
      if k < |cards| {
        assert (cards + [card])[k] == cards[k] && (entries + [e])[k] == entries[k];
      }
    }
  }

  /** The loop of `format_note_cards`. The colour of each card is any palette
      entry, standing for `random.choice(colors)`. */
  method FormatNoteCards(content: string) returns (cards: seq<NoteCard>)
    ensures |cards| == |Expected(content)|
    ensures forall k :: 0 <= k < |cards| ==> Formats(cards[k], Expected(content)[k])
    ensures forall k :: 0 <= k < |cards| ==> Absent(cards[k].body, SentenceGap)
  {
    var pieces := Pieces(content);
    ghost var stripped := StripAll(pieces);
    cards := [];
    var i := 0;
    while i < |pieces|
      invariant 0 <= i <= |pieces|
      invariant |cards| == |Survivors(stripped[..i])|
      invariant forall k :: 0 <= k < |cards| ==> Formats(cards[k], Survivors(stripped[..i])[k])
      invariant forall k :: 0 <= k < |cards| ==> Absent(cards[k].body, SentenceGap)
    {
      var piece := Strip(pieces[i]);
      ghost var prev := Survivors(stripped[..i]);
      assert stripped[..i + 1] == stripped[..i] + [piece];
      SurvivorsSnoc(stripped[..i], piece);
      if piece != [] {
        assert Palette[0] in Palette;
        var color :| color in Palette;
        var card := NoteCard(i + 1, color, BreakSentences(piece));
        BreakSentencesRemovesGaps(piece);
        FormatsSnoc(cards, prev, card, Entry(i + 1, piece));
        cards := cards + [card];
      }
      i := i + 1;
    }
    assert stripped[..|pieces|] == stripped;
  }

  // ---------------------------------------------------------------------------
  // What the formatting promises
  // ---------------------------------------------------------------------------

  /** Every entry is a non-empty stripped piece under its 1-based position. */
  lemma {:induction false} SurvivorsSound(stripped: seq<string>)
    ensures forall k :: 0 <= k < |Survivors(stripped)| ==>
              var e := Survivors(stripped)[k];
              1 <= e.number <= |stripped| && e.text == stripped[e.number - 1] && e.text != []
    decreases |stripped|
  {
    if stripped != [] {
      var init, last := stripped[..|stripped| - 1], stripped[|stripped| - 1];
      assert stripped == init + [last];
      SurvivorsSound(init);
      SurvivorsSnoc(init, last);
      assert forall j :: 0 <= j < |init| ==> init[j] == stripped[j];
    }
  }

  /** The entries keep the order of the pieces: their numbers strictly increase. */
  lemma {:induction false} SurvivorsIncreasing(stripped: seq<string>)
    ensures forall k, l :: 0 <= k < l < |Survivors(stripped)| ==>
              Survivors(stripped)[k].number < Survivors(stripped)[l].number
    decreases |stripped|
  {
    if stripped != [] {
      var init, last := stripped[..|stripped| - 1], stripped[|stripped| - 1];
      assert stripped == init + [last];
      SurvivorsIncreasing(init);
      SurvivorsSound(init);
      SurvivorsSnoc(init, last);
    }
  }

  /** Every non-empty stripped piece has its entry. */
  lemma {:induction false} SurvivorsComplete(stripped: seq<string>)
    ensures forall j :: 0 <= j < |stripped| && stripped[j] != [] ==>
              exists k :: 0 <= k < |Survivors(stripped)| && Survivors(stripped)[k].number == j + 1
    decreases |stripped|
  {
    if stripped != [] {
      var init, last := stripped[..|stripped| - 1], stripped[|stripped| - 1];
      assert stripped == init + [last];
      SurvivorsComplete(init);
      SurvivorsSnoc(init, last);
      var prev, s := Survivors(init), Survivors(stripped);
      forall j | 0 <= j < |stripped| && stripped[j] != []
        ensures exists k :: 0 <= k < |s| && s[k].number == j + 1
      {
        if j < |init| {
          assert init[j] == stripped[j];
          var k :| 0 <= k < |prev| && prev[k].number == j + 1;
          assert s[k] == prev[k];
        } else {
          assert s[|s| - 1].number == j + 1;
        }
      }
    }
  }

  /** When no piece is blank, the cards are numbered 1, 2, 3, ... without gaps. */
  lemma {:induction false} SurvivorsWithoutBlanks(stripped: seq<string>)
    requires forall j :: 0 <= j < |stripped| ==> stripped[j] != []
    ensures |Survivors(stripped)| == |stripped|
    ensures forall k :: 0 <= k < |stripped| ==> Survivors(stripped)[k] == Entry(k + 1, stripped[k])
    decreases |stripped|
  {
    if stripped != [] {
      var init := stripped[..|stripped| - 1];
      assert forall j :: 0 <= j < |init| ==> init[j] == stripped[j];
      SurvivorsWithoutBlanks(init);
    }
  }

  /** A stripped piece is empty exactly when the piece is all whitespace. */
  lemma StripAllBlank(pieces: seq<string>)
    ensures forall j :: 0 <= j < |pieces| ==>
              StripAll(pieces)[j] == Strip(pieces[j]) && (StripAll(pieces)[j] == [] <==> AllSpace(pieces[j]))
  {
    forall j | 0 <= j < |pieces|
      ensures StripAll(pieces)[j] == Strip(pieces[j]) && (Strip(pieces[j]) == [] <==> AllSpace(pieces[j]))
    {
      StripEmpty(pieces[j]);
    }
  }

  /** Every card of a response comes from a piece that is not all whitespace,
      is numbered by that piece's 1-based position and holds it stripped. */
  lemma ExpectedSound(content: string)
    ensures forall k :: 0 <= k < |Expected(content)| ==>
              var e := Expected(content)[k];
              1 <= e.number <= |Pieces(content)| &&
              e.text == Strip(Pieces(content)[e.number - 1]) && !AllSpace(Pieces(content)[e.number - 1])
  {
    var pieces := Pieces(content);
    var entries := Expected(content);
    var stripped := StripAll(pieces);
    SurvivorsSound(stripped);
    forall k | 0 <= k < |entries|
      ensures 1 <= entries[k].number <= |pieces|
      ensures entries[k].text == Strip(pieces[entries[k].number - 1])
      ensures !AllSpace(pieces[entries[k].number - 1])
    {
      var j := entries[k].number - 1;
      assert entries[k].text == stripped[j] == Strip(pieces[j]) != [];
      StripEmpty(pieces[j]);
    }
  }

  /** Every piece of a response that is not all whitespace has a card with
      its 1-based position as number. */
  lemma ExpectedComplete(content: string)
    ensures forall j :: 0 <= j < |Pieces(content)| && !AllSpace(Pieces(content)[j]) ==>
              exists k :: 0 <= k < |Expected(content)| && Expected(content)[k].number == j + 1
  {
    var pieces := Pieces(content);
    var stripped := StripAll(pieces);
    SurvivorsComplete(stripped);
    StripAllBlank(pieces);
    forall j | 0 <= j < |pieces| && !AllSpace(pieces[j])
      ensures exists k :: 0 <= k < |Expected(content)| && Expected(content)[k].number == j + 1
    {
      assert stripped[j] != [];
      var entries := Survivors(stripped);
      assert entries == Expected(content);
      var k :| 0 <= k < |entries| && entries[k].number == j + 1;
      assert Expected(content)[k].number == j + 1;
    }
  }

  /** The cards of a response keep the order of its pieces: their numbers
      strictly increase, so no piece yields two cards. */
  lemma ExpectedIncreasing(content: string)
    ensures forall k, l :: 0 <= k < l < |Expected(content)| ==>
              Expected(content)[k].number < Expected(content)[l].number
  {
    SurvivorsIncreasing(StripAll(Pieces(content)));
  }

  /** "Note Card " cannot overlap itself. */
  lemma DelimiterOverlapFree()
    ensures SelfOverlapFree(Delimiter)
  {
    forall k | 0 < k < |Delimiter| ensures Delimiter[k..] != Delimiter[..|Delimiter| - k] {
      assert Delimiter[k..][0] == Delimiter[k] != 'N';
    }
  }

  /** Never more cards than occurrences of "Note Card ", and the headline
      numbers never exceed that count. */
  lemma CardCountBound(content: string)
    ensures |Expected(content)| <= Occurrences(content, Delimiter)
    ensures forall k :: 0 <= k < |Expected(content)| ==>
              1 <= Expected(content)[k].number <= Occurrences(content, Delimiter)
  {
    SurvivorsSound(StripAll(Pieces(content)));
  }

  /** Text without "Note Card " gives no cards at all. */
  lemma NoDelimiterNoCards(content: string)
    requires Absent(content, Delimiter)
    ensures Expected(content) == []
  {
    OccurrencesZero(content, Delimiter);
    CardCountBound(content);
  }

  // ---------------------------------------------------------------------------
  // A worked example
  // ---------------------------------------------------------------------------

  /** A leading text without `'N'` is the first piece, ended by the delimiter. */
  lemma SplitAfterLead(lead: string, rest: string)
    requires forall j :: 0 <= j < |lead| ==> lead[j] != 'N'
    ensures Split(lead + Delimiter + rest, Delimiter) == [lead] + Split(rest, Delimiter)
  {
    var a := lead + Delimiter + rest;
    var n := |lead|;
    assert a[..n] == lead && a[n..n + |Delimiter|] == Delimiter && a[n + |Delimiter|..] == rest;
    forall j: nat | j < n ensures !OccursAt(a, Delimiter, j) {
      assert a[j] == lead[j] != 'N';
      if j + |Delimiter| <= |a| { assert a[j..j + |Delimiter|][0] == a[j]; }
    }
    SplitAtFirst(a, Delimiter, n);
  }

  /** The splitting step of the example below. */
  lemma ExamplePieces(a: string, b: string, c: string)
    requires c == "2: C." && b == "1: A. B. " + Delimiter + c && a == "preamble " + Delimiter + b
    ensures Pieces(a) == ["1: A. B. ", "2: C."]
  {
    SplitAfterLead("preamble ", b);
    SplitAfterLead("1: A. B. ", c);
    forall j: nat ensures !OccursAt(c, Delimiter, j) {
      if j + |Delimiter| <= |c| { assert false; }
    }
    SplitWithoutSeparator(c, Delimiter);
    assert Split(a, Delimiter) == ["preamble ", "1: A. B. ", c];
  }

  /** The stripping step of the example below. */
  lemma ExampleStripped(p: string, q: string)
    requires p == "1: A. B. " && q == "2: C."
    ensures StripAll([p, q]) == ["1: A. B.", "2: C."]
  {
    assert !IsSpace(p[0]) && IsSpace(p[8]) && !IsSpace(p[7]);
    assert TrimLeft(p) == p;
    assert TrimRight(p[..8]) == p[..8];
    assert TrimRight(p) == p[..8];
    assert !IsSpace(q[0]) && !IsSpace(q[4]);
    assert TrimLeft(q) == q && TrimRight(q) == q;
    assert Strip(p) == p[..8] == "1: A. B.";
    assert Strip(q) == q;
    var r := StripAll([p, q]);
    assert r[0] == Strip(p) && r[1] == Strip(q);
    assert r == [r[0], r[1]];
  }

  /** The filtering step of the example below. */
  lemma ExampleSurvivors(p: string, q: string)
    requires p == "1: A. B." && q == "2: C."
    ensures Survivors([p, q]) == [Entry(1, p), Entry(2, q)]
  {
    SurvivorsSnoc([], p);
    assert [] + [p] == [p];
    SurvivorsSnoc([p], q);
    assert [p] + [q] == [p, q];
  }

  /** The response "preamble Note Card 1: A. B. Note Card 2: C.", built up
      from its parts, gives two entries numbered 1 and 2. */
  lemma FormattingExample(a: string, b: string, c: string)
    requires c == "2: C." && b == "1: A. B. " + Delimiter + c && a == "preamble " + Delimiter + b
    ensures Expected(a) == [Entry(1, "1: A. B."), Entry(2, "2: C.")]
  {
    ExamplePieces(a, b, c);
    var pieces := Pieces(a);
    ExampleStripped(pieces[0], pieces[1]);
    var stripped := StripAll(pieces);
    ExampleSurvivors(stripped[0], stripped[1]);
    assert stripped == [stripped[0], stripped[1]];
  }

  /** The first body of the example: its one `". "` becomes `".<br>"`. */
  lemma ExampleBodyBreaks(s: string)
    requires s == "1: A. B."
    ensures BreakSentences(s) == "1: A.<br>B."
  {
    assert BreakSentences(s[7..]) == s[7..];
    assert BreakSentences(s[6..]) == [s[6]] + BreakSentences(s[7..]);
    assert s[4..6] == SentenceGap;
    assert BreakSentences(s[4..]) == LineBreak + BreakSentences(s[6..]);
    assert BreakSentences(s[3..]) == [s[3]] + BreakSentences(s[4..]);
    assert BreakSentences(s[2..]) == [s[2]] + BreakSentences(s[3..]);
    assert BreakSentences(s[1..]) == [s[1]] + BreakSentences(s[2..]);
    assert BreakSentences(s) == [s[0]] + BreakSentences(s[1..]);
    assert BreakSentences(s) == s[..4] + LineBreak + s[6..];
  }

  /** The second body of the example has no `". "` and stays as it is. */
  lemma ExampleBodyKeeps(t: string)
    requires t == "2: C."
    ensures BreakSentences(t) == t
  {
    forall j: nat ensures !OccursAt(t, SentenceGap, j) {
      if j + 2 <= |t| {
        assert t[j] != '.';
        assert t[j..j + 2][0] == t[j];
      }
    }
    ReplaceNoOccurrence(t, SentenceGap, LineBreak);
  }

  /** The pieces are the text between occurrences of the delimiter: none
      contains it, and putting the delimiter back between them, after the
      preamble, restores the model's text. */
  lemma PiecesRestoreContent(content: string)
    ensures forall k :: 0 <= k < |Pieces(content)| ==> Absent(Pieces(content)[k], Delimiter)
    ensures JoinWith([Split(content, Delimiter)[0]] + Pieces(content), Delimiter) == content
  {
    SplitPiecesFree(content, Delimiter);
    SplitJoin(content, Delimiter);
    var parts := Split(content, Delimiter);
    assert [parts[0]] + parts[1..] == parts;
  }
}
