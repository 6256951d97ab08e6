# YouTube note cards: a verified model of the text pipeline

The application is one Streamlit script (`app.py`). It takes a YouTube link,
fetches the video's transcript, asks a text-generation model for "note
cards", and renders them. This project models the deterministic string and
integer logic between those external calls:

- **Video-ID extraction** (`VideoId`). `extract_video_id` runs
  `re.search(r'(?:v=|\/)([0-9A-Za-z_-]{11}).*', url)` and returns group 1.
  The model is the regex engine's left-to-right scan. At each position it
  tries the `v=` alternative, then the `/` alternative, each followed by
  eleven identifier characters. It yields `None` where the application reports
  "Invalid YouTube URL.". The scan is proved equal to a position-wise
  reference definition: the result is the capture of the leftmost match, and
  it is `None` exactly when no position matches.
- **Transcript joining** (`Transcript`). The segment texts are joined with
  single spaces. The proofs cover the length, the place of each segment in
  the result, and the word count.
- **Card formatting** (`NoteCards`). `format_note_cards` is an imperative
  method with a loop. It is proved against a specification function
  (`Expected`): the pieces after the first are stripped (`StripAll`), and
  `Survivors` keeps the non-empty ones, in order. Each card is numbered by
  its piece's 1-based position. Its body has every `". "` replaced by
  `".<br>"`, and its colour is any member of the ten-colour palette.
- **Card selection** (`CardSelector`). The number of cards is
  `min(max(8, words / 200), 12)`. The display loop renders the prefix
  `formatted_note_cards[:num_cards]`, one card per `st.markdown` call.
- **String library** (`Text`). `Text` models the parts of Python's string
  library the code uses: `str.strip()`, `str.split(sep)`, `sep.join`,
  `str.replace`, `len(str.split())`, and `f"{i}"` for a natural number.
  Lemmas pin each one down: `strip` by the part it keeps, `split` by the
  leftmost occurrence, `replace` as `rep.join(s.split(pat))`, the word count
  by single words and whitespace boundaries, and the digits by reading them
  back.

Cards keep the 1-based position of their piece. `enumerate` runs over all
pieces after the preamble, and blank pieces are skipped inside the loop
(app.py:91-93, 97). So a skipped piece still uses up a number, and the
headline numbers can have gaps.

The function `NoteCards.CardHtml` writes out the f-string markup of
app.py:95-102. That includes its indentation and line breaks: the source
file has CRLF line endings, and Python reads them as `"\n"` inside a string
literal. The model keeps the formatted cards as `NoteCard` values and turns
them into markup in the display loop. The markup is a pure function of the
card, so the strings passed to `st.markdown` are the same.

## Model

| member | source | states |
|---|---|---|
| VideoId.IdCharsFrom | app.py:37 | true exactly when `n` characters of `[0-9A-Za-z_-]` follow position `k` (the `{11}` repetition) |
| VideoId.CaptureAt | app.py:37-40 | group 1 of a match is an 11-character string over the identifier alphabet, taken right after the `v=` or `/` marker |
| VideoId.TryAt | app.py:37-38 | one attempt at position `i` succeeds exactly when the pattern matches there, and then returns group 1 |
| VideoId.SearchFrom | app.py:38 | the scan from `i` returns None exactly when no position from `i` on matches; otherwise it returns the capture of the first matching position |
| VideoId.ExtractVideoId | app.py:35-43 | a returned ID has 11 identifier characters and is the capture of the leftmost match; None exactly when no position matches |
| VideoId.LeftmostDecides | app.py:38-40 | a URL's leftmost match decides the returned ID |
| VideoId.WatchUrl | app.py:37-40 | `https://www.youtube.com/watch?v=<id><anything>` yields `<id>` |
| VideoId.ShortUrl | app.py:37-40 | `https://youtu.be/<id><anything>` yields `<id>` |
| VideoId.TruncatedWatchUrl | app.py:37-43 | a watch URL whose `v=` value is shorter than 11 characters yields None |
| Text.JoinWith | app.py:49 | joining no parts gives the empty string; joining one part gives that part |
| Transcript.FullTranscript | app.py:49 | the segment texts joined with single spaces: no segments give the empty text and one segment gives its text; `TranscriptFacts` gives its length, the place of each segment and its word count |
| Transcript.JoinLength | app.py:49 | for n >= 1 parts the joined text is as long as the parts together plus n - 1 |
| Transcript.JoinPlacesParts | app.py:49 | each part appears unchanged at its offset, after a space unless it is the first, so the order is kept |
| Transcript.JoinWordCount | app.py:49 | the joined transcript has as many whitespace-separated words as its segments together |
| Transcript.TranscriptFacts | app.py:48-49 | the three facts above for the transcript built from the service's segments |
| Text.Strip | app.py:92 | `str.strip()` never lengthens its input; `StripSpec`, `StripEmpty` and `StripIdempotent` characterise it |
| Text.TrimLeft | app.py:92 | `lstrip` never lengthens its input |
| Text.TrimRight | app.py:92 | `rstrip` never lengthens its input |
| Text.TrimLeftSpec | app.py:92 | `lstrip` removes an all-whitespace prefix and stops at a non-whitespace character |
| Text.TrimRightSpec | app.py:92 | `rstrip` removes an all-whitespace suffix and stops at a non-whitespace character |
| Text.StripSpec | app.py:92 | `strip` keeps a contiguous part of its input with only whitespace around it, and that part starts and ends with non-whitespace |
| Text.StripEmpty | app.py:92-93 | a piece strips to the empty string exactly when it is all whitespace |
| Text.StripIdempotent | app.py:92 | stripping twice equals stripping once |
| Text.OccurrencesZero | app.py:88 | the count of positions where a pattern starts is zero exactly when the pattern occurs nowhere |
| Text.Split | app.py:88 | `split` returns at least one piece, and the first piece is a prefix of the text |
| Text.SplitJoin | app.py:88 | joining the pieces with the separator restores the text |
| Text.SplitPiecesFree | app.py:88 | no piece contains the separator |
| Text.SplitAtFirst | app.py:88 | the first piece ends at the leftmost occurrence of the separator, and splitting resumes after it |
| Text.SplitWithoutSeparator | app.py:88 | text without the separator is one piece |
| Text.SplitCount | app.py:88 | for a separator that cannot overlap itself, there is one piece more than there are occurrences |
| NoteCards.DelimiterOverlapFree | app.py:88 | `"Note Card "` cannot overlap itself |
| NoteCards.Pieces | app.py:88-91 | `content.split("Note Card ")[1:]`: there are exactly as many pieces after the preamble as occurrences of `"Note Card "`; `PiecesRestoreContent` and the `Split` lemmas characterise the pieces themselves |
| NoteCards.PiecesRestoreContent | app.py:88-91 | no piece contains `"Note Card "`, and the preamble and pieces joined with it restore the response |
| NoteCards.StripAll | app.py:92 | `note_card.strip()` for every piece, one result per piece; `StripAllBlank` relates each result to its piece |
| NoteCards.Survivors | app.py:89-93 | the filter of the loop over stripped pieces: it never yields more entries than pieces; `SurvivorsSnoc`, `SurvivorsSound`, `SurvivorsComplete`, `SurvivorsIncreasing` and `SurvivorsWithoutBlanks` characterise it |
| NoteCards.Expected | app.py:86-97 | the entries the formatter must produce for a response (the pieces stripped, then filtered): never more than the occurrences of `"Note Card "`; `ExpectedSound`, `ExpectedComplete` and `ExpectedIncreasing` characterise it in terms of the raw pieces |
| NoteCards.StripAllBlank | app.py:92-93 | each stripped piece is that piece stripped, and it is empty exactly when the piece is all whitespace |
| NoteCards.SurvivorsSnoc | app.py:91-93 | one more stripped piece adds its entry, numbered by its position, exactly when it is non-empty |
| NoteCards.CardHtml | app.py:95-102 | the f-string markup of one card, with its indentation and line breaks: the colour follows the fixed opening text and the body comes right before the fixed closing text |
| NoteCards.CardHtmlInjective | app.py:95-102 | two cards with palette colours and the same markup are the same card: colour, number and body can all be read back from the markup |
| NoteCards.FormatNoteCards | app.py:86-103 | the cards correspond one-to-one and in order to the specified entries: same number, body is the stripped piece with `". "` replaced, colour from the palette; no body contains `". "` |
| NoteCards.SurvivorsSound | app.py:91-97 | every entry's number is between 1 and the piece count, and its text is the stripped piece at that position, non-empty |
| NoteCards.SurvivorsIncreasing | app.py:89-97 | card numbers strictly increase, so the input order is kept |
| NoteCards.SurvivorsComplete | app.py:91-93 | every stripped piece that is non-empty has an entry with its number |
| NoteCards.SurvivorsWithoutBlanks | app.py:91-97 | with no empty stripped piece, the entries are numbered 1, 2, 3, ... without gaps and hold the pieces in order |
| NoteCards.ExpectedSound | app.py:88-97 | every card of a response comes from a piece that is not all whitespace, is numbered by that piece's 1-based position and holds the piece stripped |
| NoteCards.ExpectedComplete | app.py:88-97 | every piece of a response that is not all whitespace has a card with its 1-based position as number |
| NoteCards.ExpectedIncreasing | app.py:89-97 | the card numbers of a response strictly increase: the cards keep the order of the pieces and no piece yields two cards |
| NoteCards.CardCountBound | app.py:88-97 | there are never more cards than occurrences of `"Note Card "`, and no number exceeds that count |
| NoteCards.NoDelimiterNoCards | app.py:88-93 | text without `"Note Card "` gives no cards |
| NoteCards.ExamplePieces | app.py:88-91 | `"preamble Note Card 1: A. B. Note Card 2: C."` splits into the pieces `"1: A. B. "` and `"2: C."` after the preamble |
| NoteCards.ExampleStripped | app.py:92 | those two pieces strip to `"1: A. B."` and `"2: C."` |
| NoteCards.ExampleSurvivors | app.py:91-93 | the stripped pieces `"1: A. B."` and `"2: C."` give the entries 1 `"1: A. B."` and 2 `"2: C."` |
| NoteCards.FormattingExample | app.py:86-97 | that response gives exactly the entries 1 `"1: A. B."` and 2 `"2: C."` |
| NoteCards.ExampleBodyBreaks | app.py:99 | the body `"1: A. B."` becomes `"1: A.<br>B."` |
| NoteCards.ExampleBodyKeeps | app.py:99 | the body `"2: C."` stays as it is |
| Text.Replace | app.py:99 | `str.replace` replacing leftmost non-overlapping occurrences: never shortens the text when the replacement is at least as long as the pattern, and keeps the length when both are equally long; `ReplaceSplitJoin` determines it as `rep.join(s.split(pat))` |
| Text.BreakSentences | app.py:99 | `.replace(". ", ".<br>")` never shortens the body; it is `Replace` with these arguments, so `ReplaceSplitJoin` determines it, and `BreakSentencesRemovesGaps` and `BreakSentencesIdempotent` state what the substitution achieves |
| Text.ReplaceSplitJoin | app.py:99 | `s.replace(pat, rep)` equals `rep.join(s.split(pat))`: the text between occurrences is copied unchanged and each occurrence becomes `rep` |
| Text.ReplaceNoOccurrence | app.py:99 | `replace` leaves text without the pattern unchanged |
| Text.BreakSentencesFirst | app.py:99 | the substitution keeps the first character |
| Text.BreakSentencesRemovesGaps | app.py:99 | after replacing `". "` with `".<br>"` no `". "` remains |
| Text.BreakSentencesIdempotent | app.py:99 | applying the substitution twice equals applying it once |
| Text.Decimal | app.py:97 | the headline number is rendered as decimal digits without leading zeros |
| Text.DecimalRoundTrip | app.py:97 | reading the rendered digits back gives the number, so distinct numbers give distinct headlines |
| Text.LeadingWord | app.py:222 | the first word ends at the first whitespace character |
| Text.WordCount | app.py:222 | `len(s.split())` is zero exactly when `s` is all whitespace; with `OneWord` and `WordCountSplitAt` this determines the count |
| Text.OneWord | app.py:222 | a non-empty text without whitespace is one word |
| Text.WordCountSplitAt | app.py:222 | a whitespace character between two texts separates their words: the counts add up |
| CardSelector.Clamp | app.py:223 | `min(max(lo, x), hi)` lies in [lo, hi] and is the point of that range nearest to `x` |
| CardSelector.NumCards | app.py:220-223 | the card count lies in [8, 12]; it is `words / 200` inside that range, 8 below it, 12 above it |
| CardSelector.NumCardsMonotone | app.py:223 | more words never give fewer cards |
| CardSelector.NumCardsExamples | app.py:220-223 | 1000 words give 8 cards, 1800 give 9, 3000 give 12 |
| CardSelector.Take | app.py:224 | `s[:n]` is the prefix of length `min(n, len(s))` |
| CardSelector.RenderCards | app.py:224-225 | `st.markdown` is called `min(num_cards, len(cards))` times, in order, with each card's markup |
| CardSelector.ShowNoteCards | app.py:217-225 | the formatted cards are as the formatter specifies; the number shown is the minimum of the selected count and the formatted count; it is at most 12 and at most the number of `"Note Card "` occurrences |

## Left out

- The Streamlit user interface is not modelled (app.py:17, 137-215, 218, 226-229): page setup, CSS blocks, the video embed, the text inputs, the button, the spinners and the error messages. The error paths of the modelled functions return `None`. The request flow that chains them (including its checks that the link, transcript and response are non-empty) is not modelled.
- Loading and configuring the API key (app.py:19-31) is process configuration plus a foreign call.
- `analyze_text` (app.py:11-15) is never called.
- The two network calls are not modelled: `YouTubeTranscriptApi.get_transcript` (app.py:48) and `GenerativeModel.generate_content` (app.py:78-80). Their exceptions are left out too (app.py:51-53, 81-83). The segments and the response text are inputs of the model.
- Prompt construction (app.py:57-76) only pastes the transcript and keywords into a fixed template.
- `add_bg_from_local` (app.py:105-135) does file I/O and base64 encoding.
- `random.choice(colors)` is modelled as a nondeterministic choice of any palette member. The distribution is not modelled.
- The segments' timing fields are carried along but unused, as in the source.
- Text.IsSpace: the whitespace set of `strip()` and `split()` is a fixed list of characters. It follows Python's `str.isspace`. Unicode version differences are not modelled.
- CardSelector.NumCards: `int(video_length / 200)` is floating-point division followed by truncation. It is modelled as integer division on naturals. The two agree for every count below 2^53.
- NoteCards.FormatNoteCards: returns structured cards rather than HTML strings. `NoteCards.CardHtml` gives each card's markup, and the display loop applies it.
