/**
 * The parts of Python's string library that the note-card pipeline relies on:
 * `str.isspace`, `str.strip()`, `str.split(sep)`, `sep.join(parts)`,
 * `str.replace(old, new)`, `len(str.split())` and the decimal rendering of an
 * integer inside an f-string. Each is written as a function over `seq<char>`
 * and characterised by lemmas.
 */
module Text {

  // ---------------------------------------------------------------------------
  // Whitespace
  // ---------------------------------------------------------------------------

  /** The characters for which Python's `str.isspace()` holds: those that
      `strip()` with no argument removes and that `split()` with no argument
      splits on. */
  predicate IsSpace(c: char)
  {
    || ('\U{9}' <= c <= '\U{D}')      // \t \n \v \f \r
    || ('\U{1C}' <= c <= '\U{20}')    // file/group/record/unit separators, space
    || c == '\U{85}' || c == '\U{A0}'
    || c == '\U{1680}'
    || ('\U{2000}' <= c <= '\U{200A}')
    || c == '\U{2028}' || c == '\U{2029}'
    || c == '\U{202F}' || c == '\U{205F}' || c == '\U{3000}'
  }

  predicate AllSpace(s: string)
  {
    forall j :: 0 <= j < |s| ==> IsSpace(s[j])
  }

  // ---------------------------------------------------------------------------
  // str.strip()
  // ---------------------------------------------------------------------------

  /** `s.lstrip()`. */
  function TrimLeft(s: string): (r: string)
    ensures |r| <= |s|
    decreases |s|
  {
    if s != [] && IsSpace(s[0]) then TrimLeft(s[1..]) else s
  }

  /** `s.rstrip()`. */
  function TrimRight(s: string): (r: string)
    ensures |r| <= |s|
    decreases |s|
  {
    if s != [] && IsSpace(s[|s| - 1]) then TrimRight(s[..|s| - 1]) else s
  }

  /** `s.strip()`: whitespace removed from both ends. */
  function Strip(s: string): (r: string)
    ensures |r| <= |s|
  {
    TrimRight(TrimLeft(s))
  }

  /** `lstrip` removes an all-whitespace prefix and stops at the first
      character that is not whitespace. */
  lemma {:induction false} TrimLeftSpec(s: string)
    ensures s[|s| - |TrimLeft(s)|..] == TrimLeft(s)
    ensures AllSpace(s[..|s| - |TrimLeft(s)|])
    ensures TrimLeft(s) != [] ==> !IsSpace(TrimLeft(s)[0])
    decreases |s|
  {
    if s != [] && IsSpace(s[0]) {
      TrimLeftSpec(s[1..]);
      var n := |s| - |TrimLeft(s)|;
      assert s[..n] == [s[0]] + s[1..][..n - 1];
      assert s[n..] == s[1..][n - 1..];
    }
  }

  /** `rstrip` removes an all-whitespace suffix and stops at the last
      character that is not whitespace. */
  lemma {:induction false} TrimRightSpec(s: string)
    ensures s[..|TrimRight(s)|] == TrimRight(s)
    ensures AllSpace(s[|TrimRight(s)|..])
    ensures TrimRight(s) != [] ==> !IsSpace(TrimRight(s)[|TrimRight(s)| - 1])
    decreases |s|
  {
    if s != [] && IsSpace(s[|s| - 1]) {
      var t := s[..|s| - 1];
      TrimRightSpec(t);
      var n := |TrimRight(s)|;
      assert s[..n] == t[..n];
      assert s[n..] == t[n..] + [s[|s| - 1]];
    }
  }

  /** `strip` keeps a contiguous part of `s`: only whitespace lies before and
      after it, and it neither begins nor ends with whitespace. */
  lemma StripSpec(s: string)
    ensures var r, i := Strip(s), |s| - |TrimLeft(s)|;
      && i + |r| <= |s|
      && s[i..i + |r|] == r
      && AllSpace(s[..i])
      && AllSpace(s[i + |r|..])
      && (r != [] ==> !IsSpace(r[0]) && !IsSpace(r[|r| - 1]))
  {
    var t := TrimLeft(s);
    var r := Strip(s);
    var i := |s| - |t|;
    TrimLeftSpec(s);
    TrimRightSpec(t);
    assert s[i..i + |r|] == t[..|r|];
    assert s[i + |r|..] == t[|r|..];
    if r != [] {
      assert r[0] == t[0];
    }
  }

  /** A piece strips to nothing exactly when it is all whitespace. */
  lemma StripEmpty(s: string)
    ensures Strip(s) == [] <==> AllSpace(s)
  {
    StripSpec(s);
    var i := |s| - |TrimLeft(s)|;
    if Strip(s) == [] {
      assert s == s[..i] + s[i..];
      assert forall j :: i <= j < |s| ==> s[j] == s[i..][j - i];
    } else {
      assert !IsSpace(s[i]);
    }
  }

  /** Stripping a second time changes nothing. */
  lemma StripIdempotent(s: string)
    ensures Strip(Strip(s)) == Strip(s)
  {
    var r := Strip(s);
    StripSpec(s);
    if r != [] {
      assert TrimLeft(r) == r;
      assert TrimRight(r) == r;
    }
  }

  // ---------------------------------------------------------------------------
  // Occurrences of a pattern
  // ---------------------------------------------------------------------------

  predicate OccursAt(s: string, pat: string, i: nat)
  {
    i + |pat| <= |s| && s[i..i + |pat|] == pat
  }

  /** Positions in a suffix are positions in the whole text, shifted. */
  lemma OccursAtDrop(s: string, pat: string, m: nat, i: nat)
    requires m <= |s|
    ensures OccursAt(s[m..], pat, i) <==> OccursAt(s, pat, i + m)
  {
    if i + m + |pat| <= |s| {
      assert s[m..][i..i + |pat|] == s[i + m..i + m + |pat|];
    }
  }

  /** `pat` starts at no position of `s` (Python's `pat not in s`). */
  ghost predicate Absent(s: string, pat: string)
  {
    forall i: nat :: !OccursAt(s, pat, i)
  }

  /** The number of positions of `s` at which `pat` starts. */
  function Occurrences(s: string, pat: string): (n: nat)
    requires pat != []
    ensures n <= |s|
    decreases |s|
  {
    if |s| < |pat| then 0
    else (if s[..|pat|] == pat then 1 else 0) + Occurrences(s[1..], pat)
  }

  /** The count is zero exactly when the pattern occurs nowhere. */
  lemma {:induction false} OccurrencesZero(s: string, pat: string)
    requires pat != []
    ensures Occurrences(s, pat) == 0 <==> Absent(s, pat)
    decreases |s|
  {
    if |s| >= |pat| {
      OccurrencesZero(s[1..], pat);
      forall i: nat ensures OccursAt(s[1..], pat, i) <==> OccursAt(s, pat, i + 1) {
        OccursAtDrop(s, pat, 1, i);
      }
      if Absent(s, pat) {
        assert !OccursAt(s, pat, 0);
        assert Absent(s[1..], pat);
      }
      if Occurrences(s, pat) == 0 {
        assert !OccursAt(s, pat, 0);
        forall i: nat ensures !OccursAt(s, pat, i) {
          if i > 0 { assert !OccursAt(s[1..], pat, i - 1); }
        }
      }
    }
  }

  /** No proper suffix of `pat` is also a prefix of it, so two occurrences of
      `pat` can never overlap. */
  predicate SelfOverlapFree(pat: string)
  {
    forall k :: 0 < k < |pat| ==> pat[k..] != pat[..|pat| - k]
  }

  /** Positions that do not start an occurrence contribute nothing. */
  lemma {:induction false} OccurrencesSkip(s: string, pat: string, m: nat)
    requires pat != [] && m <= |s|
    requires forall i: nat :: i < m ==> !OccursAt(s, pat, i)
    ensures Occurrences(s, pat) == Occurrences(s[m..], pat)
    decreases m
  {
    if m > 0 {
      if |s| >= |pat| {
        assert !OccursAt(s, pat, 0);
        assert forall i: nat :: i < m - 1 ==> !OccursAt(s[1..], pat, i) by {
          forall i: nat | i < m - 1 ensures !OccursAt(s[1..], pat, i) {
            OccursAtDrop(s, pat, 1, i);
          }
        }
        OccurrencesSkip(s[1..], pat, m - 1);
        assert s[1..][m - 1..] == s[m..];
      }
    }
  }

  /** An overlap-free pattern does not start again inside one of its own occurrences. */
  lemma NoOccurrenceInside(s: string, pat: string, k: nat)
    requires SelfOverlapFree(pat) && OccursAt(s, pat, 0) && 0 < k < |pat|
    ensures !OccursAt(s, pat, k)
  {
    if k + |pat| <= |s| {
      var w := s[k..k + |pat|];
      assert w[..|pat| - k] == s[k..|pat|];
      assert s[k..|pat|] == pat[k..] by { assert s[..|pat|] == pat; }
      assert pat[k..] != pat[..|pat| - k];
      assert w[..|pat| - k] != pat[..|pat| - k];
    }
  }

  /** After an occurrence of an overlap-free pattern, scanning resumes just past it. */
  lemma OccurrencesAfterMatch(s: string, pat: string)
    requires pat != [] && SelfOverlapFree(pat) && OccursAt(s, pat, 0)
    ensures Occurrences(s, pat) == 1 + Occurrences(s[|pat|..], pat)
  {
    var t := s[1..];
    assert s[..|pat|] == pat;
    assert Occurrences(s, pat) == 1 + Occurrences(t, pat);
    forall i: nat | i < |pat| - 1 ensures !OccursAt(t, pat, i) {
      OccursAtDrop(s, pat, 1, i);
      NoOccurrenceInside(s, pat, i + 1);
    }
    OccurrencesSkip(t, pat, |pat| - 1);
    assert t[|pat| - 1..] == s[|pat|..];
  }

  // ---------------------------------------------------------------------------
  // sep.join(parts) and str.split(sep)
  // ---------------------------------------------------------------------------

  /** Python's `sep.join(parts)`. */
  function JoinWith(parts: seq<string>, sep: string): (r: string)
    ensures parts == [] ==> r == []
    ensures |parts| == 1 ==> r == parts[0]
    decreases |parts|
  {
    if parts == [] then []
    else if |parts| == 1 then parts[0]
    else parts[0] + sep + JoinWith(parts[1..], sep)
  }

  /** Python's `s.split(sep)` for a non-empty separator: the pieces between the
      leftmost non-overlapping occurrences of `sep`. */
  function Split(s: string, sep: string): (r: seq<string>)
    requires sep != []
    ensures |r| >= 1
    ensures |r[0]| <= |s| && r[0] == s[..|r[0]|]
    decreases |s|
  {
    if |s| < |sep| then [s]
    else if s[..|sep|] == sep then [""] + Split(s[|sep|..], sep)
    else
      var rest := Split(s[1..], sep);
      assert [s[0]] + rest[0] == s[..1 + |rest[0]|];
      [[s[0]] + rest[0]] + rest[1..]
  }

  /** The first piece ends where the leftmost occurrence of the separator
      begins, and splitting resumes after that occurrence. */
  lemma {:induction false} SplitAtFirst(s: string, sep: string, i: nat)
    requires sep != [] && OccursAt(s, sep, i)
    requires forall j: nat :: j < i ==> !OccursAt(s, sep, j)
    ensures Split(s, sep) == [s[..i]] + Split(s[i + |sep|..], sep)
    decreases i
  {
    if i == 0 {
      assert s[..|sep|] == sep;
    } else {
      assert !OccursAt(s, sep, 0);
      var t := s[1..];
      OccursAtDrop(s, sep, 1, i - 1);
      forall j: nat | j < i - 1 ensures !OccursAt(t, sep, j) {
        OccursAtDrop(s, sep, 1, j);
      }
      SplitAtFirst(t, sep, i - 1);
      var rest := Split(t, sep);
      assert t[i - 1 + |sep|..] == s[i + |sep|..];
      assert rest[0] == t[..i - 1] && rest[1..] == Split(s[i + |sep|..], sep);
      assert Split(s, sep) == [[s[0]] + rest[0]] + rest[1..];
      assert [s[0]] + t[..i - 1] == s[..i];
    }
  }

  /** Text without the separator is a single piece. */
  lemma {:induction false} SplitWithoutSeparator(s: string, sep: string)
    requires sep != [] && Absent(s, sep)
    ensures Split(s, sep) == [s]
    decreases |s|
  {
    if |s| >= |sep| {
      assert !OccursAt(s, sep, 0);
      assert Absent(s[1..], sep) by {
        forall i: nat ensures !OccursAt(s[1..], sep, i) { OccursAtDrop(s, sep, 1, i); }
      }
      SplitWithoutSeparator(s[1..], sep);
      assert [s[0]] + s[1..] == s;
    }
  }

  /** Joining a part in front of a non-empty list puts a separator after it. */
  lemma JoinCons(a: string, rest: seq<string>, sep: string)
    requires rest != []
    ensures JoinWith([a] + rest, sep) == a + sep + JoinWith(rest, sep)
  {
    assert ([a] + rest)[1..] == rest;
  }

  /** Extending the first part by a character extends the joined text by it. */
  lemma JoinExtendFirst(c: char, parts: seq<string>, sep: string)
    requires parts != []
    ensures JoinWith([[c] + parts[0]] + parts[1..], sep) == [c] + JoinWith(parts, sep)
  {
    if |parts| > 1 {
      JoinCons([c] + parts[0], parts[1..], sep);
      JoinCons(parts[0], parts[1..], sep);
      assert [parts[0]] + parts[1..] == parts;
    }
  }

  /** Joining the pieces back with the separator gives the original text. */
  lemma {:induction false} SplitJoin(s: string, sep: string)
    requires sep != []
    ensures JoinWith(Split(s, sep), sep) == s
    decreases |s|
  {
    if |s| < |sep| {
    } else if s[..|sep|] == sep {
      SplitJoin(s[|sep|..], sep);
      JoinCons("", Split(s[|sep|..], sep), sep);
      assert s == "" + sep + s[|sep|..];
    } else {
      SplitJoin(s[1..], sep);
      JoinExtendFirst(s[0], Split(s[1..], sep), sep);
      assert s == [s[0]] + s[1..];
    }
  }

  /** No piece contains the separator. */
  lemma {:induction false} SplitPiecesFree(s: string, sep: string)
    requires sep != []
    ensures forall k :: 0 <= k < |Split(s, sep)| ==> Absent(Split(s, sep)[k], sep)
    decreases |s|
  {
    var r := Split(s, sep);
    if |s| < |sep| {
      assert r == [s];
    } else if s[..|sep|] == sep {
      SplitPiecesFree(s[|sep|..], sep);
      assert r[0] == "";
      assert forall k :: 1 <= k < |r| ==> r[k] == Split(s[|sep|..], sep)[k - 1];
    } else {
      var rest := Split(s[1..], sep);
      SplitPiecesFree(s[1..], sep);
      var p := [s[0]] + rest[0];
      assert p == s[..|p|];
      forall i: nat ensures !OccursAt(p, sep, i) {
        if i == 0 {
          if |p| >= |sep| { assert p[..|sep|] == s[..|sep|]; }
        } else {
          assert p[1..] == rest[0];
          OccursAtDrop(p, sep, 1, i - 1);
        }
      }
      assert forall k :: 1 <= k < |r| ==> r[k] == rest[k];
    }
  }

  /** For a separator whose occurrences cannot overlap, splitting yields one
      piece more than there are occurrences of the separator. */
  lemma {:induction false} SplitCount(s: string, sep: string)
    requires sep != [] && SelfOverlapFree(sep)
    ensures |Split(s, sep)| == Occurrences(s, sep) + 1
    decreases |s|
  {
    if |s| < |sep| {
    } else if s[..|sep|] == sep {
      SplitCount(s[|sep|..], sep);
      OccurrencesAfterMatch(s, sep);
    } else {
      SplitCount(s[1..], sep);
    }
  }

  // ---------------------------------------------------------------------------
  // str.replace(old, new)
  // ---------------------------------------------------------------------------

  /** Python's `s.replace(pat, rep)`: every leftmost non-overlapping
      occurrence of `pat` replaced by `rep`. */
  function Replace(s: string, pat: string, rep: string): (r: string)
    requires pat != []
    ensures |pat| <= |rep| ==> |s| <= |r|
    ensures |pat| == |rep| ==> |r| == |s|
    decreases |s|
  {
    if |s| < |pat| then s
    else if s[..|pat|] == pat then rep + Replace(s[|pat|..], pat, rep)
    else [s[0]] + Replace(s[1..], pat, rep)
  }

  /** `s.replace(pat, rep) == rep.join(s.split(pat))`: the text between the
      occurrences is copied unchanged and each occurrence becomes `rep`. */
  lemma {:induction false} ReplaceSplitJoin(s: string, pat: string, rep: string)
    requires pat != []
    ensures Replace(s, pat, rep) == JoinWith(Split(s, pat), rep)
    decreases |s|
  {
    if |s| < |pat| {
    } else if s[..|pat|] == pat {
      ReplaceSplitJoin(s[|pat|..], pat, rep);
      JoinCons("", Split(s[|pat|..], pat), rep);
    } else {
      ReplaceSplitJoin(s[1..], pat, rep);
      JoinExtendFirst(s[0], Split(s[1..], pat), rep);
    }
  }

  /** A text with no occurrence of the pattern is left unchanged. */
  lemma {:induction false} ReplaceNoOccurrence(s: string, pat: string, rep: string)
    requires pat != [] && Absent(s, pat)
    ensures Replace(s, pat, rep) == s
    decreases |s|
  {
    if |s| >= |pat| {
      assert !OccursAt(s, pat, 0);
      assert Absent(s[1..], pat) by {
        forall i: nat ensures !OccursAt(s[1..], pat, i) { OccursAtDrop(s, pat, 1, i); }
      }
      ReplaceNoOccurrence(s[1..], pat, rep);
      assert s == [s[0]] + s[1..];
    }
  }

  /** The sentence-break substitution used on note-card bodies. */
  const SentenceGap := ". "
  const LineBreak := ".<br>"

  function BreakSentences(s: string): (r: string)
    ensures |s| <= |r|
  {
    Replace(s, SentenceGap, LineBreak)
  }

  lemma BreakSentencesFirst(s: string)
    requires s != []
    ensures BreakSentences(s) != [] && BreakSentences(s)[0] == s[0]
  {
    if |s| >= 2 && s[..2] == SentenceGap {
      assert s[0] == s[..2][0];
    }
  }

  /** Prefixing `".<br>"` cannot create a `". "`, since neither `'.'` nor
      `'>'` is followed by a space inside it. */
  lemma LineBreakPrefix(t: string)
    requires Absent(t, SentenceGap)
    ensures Absent(LineBreak + t, SentenceGap)
  {
    var r := LineBreak + t;
    forall i: nat ensures !OccursAt(r, SentenceGap, i) {
      if i < 4 {
        assert r[i + 1] != ' ';
        assert r[i..i + 2][1] != SentenceGap[1];
      } else if i == 4 {
        if i + 2 <= |r| { assert r[4] == '>'; assert r[i..i + 2][0] != SentenceGap[0]; }
      } else {
        assert r[5..] == t;
        OccursAtDrop(r, SentenceGap, 5, i - 5);
      }
    }
  }

  /** Prefixing one character creates no `". "` when the first two characters
      are not one. */
  lemma CharPrefix(c: char, t: string)
    requires Absent(t, SentenceGap)
    requires t != [] ==> [c, t[0]] != SentenceGap
    ensures Absent([c] + t, SentenceGap)
  {
    var r := [c] + t;
    forall i: nat ensures !OccursAt(r, SentenceGap, i) {
      if i == 0 {
        if 2 <= |r| { assert r[..2] == [c, t[0]]; }
      } else {
        assert r[1..] == t;
        OccursAtDrop(r, SentenceGap, 1, i - 1);
      }
    }
  }

  /** After the substitution no `". "` is left. */
  lemma {:induction false} BreakSentencesRemovesGaps(s: string)
    ensures Absent(BreakSentences(s), SentenceGap)
    decreases |s|
  {
    if |s| < 2 {
      assert BreakSentences(s) == s;
      assert forall i: nat :: !OccursAt(s, SentenceGap, i);
    } else if s[..2] == SentenceGap {
      BreakSentencesRemovesGaps(s[2..]);
      LineBreakPrefix(BreakSentences(s[2..]));
    } else {
      var t := BreakSentences(s[1..]);
      BreakSentencesRemovesGaps(s[1..]);
      if t != [] {
        BreakSentencesFirst(s[1..]);
        assert [s[0], t[0]] == s[..2];
      }
      CharPrefix(s[0], t);
    }
  }

  /** Applying the substitution twice is the same as applying it once. */
  lemma BreakSentencesIdempotent(s: string)
    ensures BreakSentences(BreakSentences(s)) == BreakSentences(s)
  {
    BreakSentencesRemovesGaps(s);
    ReplaceNoOccurrence(BreakSentences(s), SentenceGap, LineBreak);
  }

  // ---------------------------------------------------------------------------
  // len(s.split())
  // ---------------------------------------------------------------------------

  /** The length of the longest prefix of `s` without whitespace. */
  function LeadingWord(s: string): (n: nat)
    ensures n <= |s|
    ensures forall j :: 0 <= j < n ==> !IsSpace(s[j])
    ensures n < |s| ==> IsSpace(s[n])
  {
    if s == [] || IsSpace(s[0]) then 0 else 1 + LeadingWord(s[1..])
  }

  /** `len(s.split())`: the number of maximal runs of non-whitespace. */
  function WordCount(s: string): (n: nat)
    ensures n == 0 <==> AllSpace(s)
    decreases |s|
  {
    if s == [] then 0
    else if IsSpace(s[0]) then
      var n := WordCount(s[1..]);
      assert AllSpace(s) <==> AllSpace(s[1..]) by {
        assert forall j :: 1 <= j < |s| ==> s[j] == s[1..][j - 1];
      }
      n
    else 1 + WordCount(s[LeadingWord(s)..])
  }

  /** A non-empty run without whitespace is one word. */
  lemma OneWord(w: string)
    requires w != [] && forall j :: 0 <= j < |w| ==> !IsSpace(w[j])
    ensures WordCount(w) == 1
  {
    assert LeadingWord(w) == |w|;
    assert w[|w|..] == [];
  }

  /** A whitespace character between two texts separates their words. */
  lemma {:induction false} WordCountSplitAt(a: string, c: char, b: string)
    requires IsSpace(c)
    ensures WordCount(a + [c] + b) == WordCount(a) + WordCount(b)
    decreases |a|
  {
    var s := a + [c] + b;
    if a == [] {
      assert s[1..] == b;
    } else if IsSpace(a[0]) {
      assert s[1..] == a[1..] + [c] + b;
      WordCountSplitAt(a[1..], c, b);
    } else {
      var n := LeadingWord(a);
      assert LeadingWord(s) == n by {
        assert forall j :: 0 <= j < n ==> s[j] == a[j];
        assert s[n] == if n < |a| then a[n] else c;
      }
      assert s[n..] == a[n..] + [c] + b;
      WordCountSplitAt(a[n..], c, b);
    }
  }

  // ---------------------------------------------------------------------------
  // Decimal rendering of an integer, as in f"{i}"
  // ---------------------------------------------------------------------------

  predicate IsDigit(c: char)
  {
    '0' <= c <= '9'
  }

  function DigitChar(d: nat): (c: char)
    requires d < 10
    ensures IsDigit(c)
  {
    ('0' as int + d) as char
  }

  function DigitValue(c: char): (d: nat)
    requires IsDigit(c)
    ensures d < 10
  {
    (c as int - '0' as int)
  }

  /** The decimal digits of `n`, most significant first, without leading zeros. */
  function Decimal(n: nat): (r: string)
    ensures |r| >= 1
    ensures forall k :: 0 <= k < |r| ==> IsDigit(r[k])
    ensures r[0] == '0' ==> n == 0
  {
    if n < 10 then [DigitChar(n)] else Decimal(n / 10) + [DigitChar(n % 10)]
  }

  /** The value of a string of decimal digits. */
  function DecimalValue(s: string): nat
    requires forall k :: 0 <= k < |s| ==> IsDigit(s[k])
  {
    if s == [] then 0 else DecimalValue(s[..|s| - 1]) * 10 + DigitValue(s[|s| - 1])
  }

  /** Reading back the digits gives the number: distinct numbers render differently. */
  lemma {:induction false} DecimalRoundTrip(n: nat)
    ensures DecimalValue(Decimal(n)) == n
  {
    if n >= 10 {
      DecimalRoundTrip(n / 10);
      var r := Decimal(n);
      assert r[..|r| - 1] == Decimal(n / 10);
    } else {
      assert Decimal(n)[..0] == [];
    }
  }
}
