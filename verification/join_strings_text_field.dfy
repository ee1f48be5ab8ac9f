/** The word tokeniser of flips/flips/JoinStringsTextField.swift and the
    bookkeeping of its joined ranges. Text is a sequence of characters, one
    per index; a joined range is a location and a length in that text, and
    the characters it covers always count as a single word. */
module JoinStringsTextField {
  import opened Optionals
  import opened StringExtensions

  /** `NUM_WORDS_LIMIT`: the most words a message may hold. */
  const NUM_WORDS_LIMIT := 60
  /** `WHITESPACE_CHAR`: the only character that separates words. */
  const WHITESPACE := ' '

  /** `NSRange`. */
  datatype Range = Range(loc: nat, len: nat) {
    function End(): nat { loc + len }
    predicate Contains(i: int) { loc <= i < loc + len }
  }

  /** `substringWithRange`. */
  function Substring(text: string, range: Range): string
    requires range.End() <= |text|
  {
    text[range.loc..range.End()]
  }

  // ------------------------------------------------------------ char classes

  /** The class `[\w']`, read as ASCII letters, digits, underscore and the
      apostrophe. */
  predicate IsWordCharacter(c: char) {
    ('a' <= c <= 'z') || ('A' <= c <= 'Z') || ('0' <= c <= '9') || c == '_' || c == '\''
  }

  /** `isSpecialCharacter`: the character does not match `[\w']`. */
  predicate IsSpecialCharacter(c: char) {
    !IsWordCharacter(c)
  }

  // ------------------------------------------------------------ joined ranges

  /** `isPartOfJoinedTextRanges`: the first joined range that covers the
      index, if any covers it. */
  function IsPartOfJoinedTextRanges(ranges: seq<Range>, charIndex: int): (r: Option<Range>)
    ensures r.Some? <==> exists k :: 0 <= k < |ranges| && ranges[k].Contains(charIndex)
    ensures r.Some? ==> r.value.Contains(charIndex) && FirstCovering(ranges, charIndex, r.value)
  {
    if |ranges| == 0 then None
    else if ranges[0].Contains(charIndex) then Some(ranges[0])
    else
      var r := IsPartOfJoinedTextRanges(ranges[1..], charIndex);
      FirstCoveringCons(ranges, charIndex, r);
      r
  }

  /** `range` occurs in `ranges` and no earlier range covers the index. */
  predicate FirstCovering(ranges: seq<Range>, charIndex: int, range: Range) {
    exists k :: 0 <= k < |ranges| && ranges[k] == range && forall j :: 0 <= j < k ==> !ranges[j].Contains(charIndex)
  }

  lemma FirstCoveringCons(ranges: seq<Range>, charIndex: int, r: Option<Range>)
    requires |ranges| > 0 && !ranges[0].Contains(charIndex)
    requires r.Some? <==> exists k :: 0 <= k < |ranges[1..]| && ranges[1..][k].Contains(charIndex)
    requires r.Some? ==> r.value.Contains(charIndex) && FirstCovering(ranges[1..], charIndex, r.value)
    ensures r.Some? <==> exists k :: 0 <= k < |ranges| && ranges[k].Contains(charIndex)
    ensures r.Some? ==> FirstCovering(ranges, charIndex, r.value)
  {
    if r.Some? {
      var k :| 0 <= k < |ranges[1..]| && ranges[1..][k] == r.value
        && forall j :: 0 <= j < k ==> !ranges[1..][j].Contains(charIndex);
      assert ranges[k + 1] == r.value;
      forall j | 0 <= j < k + 1 ensures !ranges[j].Contains(charIndex) {
        if j > 0 {
          assert ranges[j] == ranges[1..][j - 1];
        }
      }
    } else {
      forall k | 0 <= k < |ranges| ensures !ranges[k].Contains(charIndex) {
        if k > 0 {
          assert ranges[k] == ranges[1..][k - 1];
        }
      }
    }
  }

  /** The index lies strictly inside a joined range: after its first
      character and before its end. */
  predicate InsideRange(ranges: seq<Range>, i: int) {
    exists k :: 0 <= k < |ranges| && ranges[k].loc < i < ranges[k].End()
  }

  /** No two joined ranges share an index. */
  predicate Disjoint(ranges: seq<Range>) {
    forall j, k :: 0 <= j < k < |ranges| ==> Apart(ranges[j], ranges[k])
  }

  /** The two ranges share no index. */
  predicate Apart(a: Range, b: Range) {
    a.End() <= b.loc || b.End() <= a.loc
  }

  /** Every non-empty joined range that starts inside the text also ends
      inside it, so every range the tokeniser can reach has a substring. */
  predicate Tokenizable(text: string, ranges: seq<Range>) {
    forall k :: 0 <= k < |ranges| && ranges[k].len > 0 && ranges[k].loc < |text| ==> ranges[k].End() <= |text|
  }

  // ---------------------------------------------------------------- tokeniser

  /** A word built outside the joined ranges: not empty, no space, and every
      character in the special/non-special class of the first one. */
  predicate IsPlainWord(w: string) {
    && |w| > 0
    && forall i :: 0 <= i < |w| ==> w[i] != WHITESPACE && IsSpecialCharacter(w[i]) == IsSpecialCharacter(w[0])
  }

  /** A word that is the substring of one of the joined ranges. */
  predicate IsJoinedWord(text: string, ranges: seq<Range>, w: string) {
    exists k :: 0 <= k < |ranges| && ranges[k].End() <= |text| && w == Substring(text, ranges[k])
  }

  /** The local variables of `getTextWords`'s loop. */
  datatype ScanState = ScanState(index: nat, words: seq<string>, word: string, limitIndex: Option<nat>)

  /** What `getTextWords(text:limit:)` returns. */
  datatype TextWords = TextWords(words: seq<string>, truncatedText: string)

  /** One iteration of the loop of `getTextWords(text:limit:)`: first record
      the index once `limit` words are collected; a joined range covering the
      index is one word and the scan resumes at its end; otherwise the current
      word is closed at a space or when the class of the character differs
      from that of the word's first character, and every character but the
      space is appended to the current word. */
  function Advance(text: string, ranges: seq<Range>, limit: int, s: ScanState): (r: ScanState)
    requires Tokenizable(text, ranges) && s.index < |text|
    requires s.limitIndex.Some? ==> s.limitIndex.value <= s.index
    ensures s.index < r.index <= |text|
    ensures r.limitIndex.Some? ==> r.limitIndex.value <= s.index
    ensures s.limitIndex.Some? ==> r.limitIndex == s.limitIndex
    ensures s.limitIndex.None? ==> (r.limitIndex.Some? <==> 0 <= limit <= |s.words|)
    ensures s.limitIndex.None? && r.limitIndex.Some? ==> r.limitIndex.value == s.index
    ensures s.words <= r.words
    ensures IsPartOfJoinedTextRanges(ranges, s.index).Some? ==>
      var range := IsPartOfJoinedTextRanges(ranges, s.index).value;
      && range.End() <= |text|
      && r.index == range.End()
      && r.words == Closed(s) + [Substring(text, range)]
      && r.word == ""
    ensures IsPartOfJoinedTextRanges(ranges, s.index).None? ==>
      var c := text[s.index];
      && r.index == s.index + 1
      && (r.words != s.words <==> s.word != "" && (c == WHITESPACE || IsSpecialCharacter(s.word[0]) != IsSpecialCharacter(c)))
      && (r.words != s.words ==> r.words == s.words + [s.word])
      && (c == WHITESPACE ==> r.word == "")
      && (c != WHITESPACE ==> r.word == (if r.words != s.words then [c] else s.word + [c]))
  {
    var limitIndex := if s.limitIndex.None? && limit >= 0 && |s.words| >= limit then Some(s.index) else s.limitIndex;
    match IsPartOfJoinedTextRanges(ranges, s.index)
    case Some(range) =>
      var words := (if |s.word| > 0 then s.words + [s.word] else s.words) + [Substring(text, range)];
      ScanState(range.End(), words, "", limitIndex)
    case None =>
      var c := text[s.index];
      var split := |s.word| > 0 && (c == WHITESPACE || IsSpecialCharacter(s.word[0]) != IsSpecialCharacter(c));
      var words := if split then s.words + [s.word] else s.words;
      var word := (if split then "" else s.word) + (if c != WHITESPACE then [c] else []);
      ScanState(s.index + 1, words, word, limitIndex)
  }

  /** The loop of `getTextWords(text:limit:)` from a given state, and what
      follows it: the last word is closed, and the text is cut at the index
      recorded when `limit` words were collected. */
  function Scan(text: string, ranges: seq<Range>, limit: int, s: ScanState): (r: TextWords)
    requires Tokenizable(text, ranges) && s.index <= |text|
    requires s.limitIndex.Some? ==> s.limitIndex.value <= s.index
    ensures s.words <= r.words
    ensures |r.truncatedText| <= |text| && r.truncatedText == text[..|r.truncatedText|]
    ensures s.limitIndex.Some? ==> r.truncatedText == text[..s.limitIndex.value]
    ensures s.limitIndex.None? && limit < 0 ==> r.truncatedText == text
    decreases |text| - s.index
  {
    if s.index == |text| then
      TextWords(if s.word != "" then s.words + [s.word] else s.words,
                if s.limitIndex.Some? then text[..s.limitIndex.value] else text)
    else
      Scan(text, ranges, limit, Advance(text, ranges, limit, s))
  }

  /** `getTextWords(text:limit:)`, with `-1` (no limit) as the default. */
  function GetTextWords(text: string, ranges: seq<Range>, limit: int := -1): (r: TextWords)
    requires Tokenizable(text, ranges)
    ensures |r.truncatedText| <= |text| && r.truncatedText == text[..|r.truncatedText|]
    ensures limit < 0 ==> r.truncatedText == text
    ensures |r.truncatedText| < |text| ==> 0 <= limit <= |r.words|
    ensures 0 <= limit && limit + 1 < |r.words| ==> |r.truncatedText| < |text|
  {
    var s := ScanState(0, [], "", None);
    ScanCutsOnlyAtLimit(text, ranges, limit, s);
    if 0 <= limit then
      ScanCutsPastLimit(text, ranges, limit, s);
      Scan(text, ranges, limit, s)
    else
      Scan(text, ranges, limit, s)
  }

  /** Every word the tokeniser emits is a plain word or the substring of a
      joined range. */
  lemma {:induction false} ScanWordShapes(text: string, ranges: seq<Range>, limit: int, s: ScanState)
    requires Tokenizable(text, ranges) && s.index <= |text|
    requires s.limitIndex.Some? ==> s.limitIndex.value <= s.index
    requires WellShaped(text, ranges, s)
    ensures forall w :: w in Scan(text, ranges, limit, s).words ==> IsPlainWord(w) || IsJoinedWord(text, ranges, w)
    decreases |text| - s.index
  {
    if s.index < |text| {
      AdvanceWordShapes(text, ranges, limit, s);
      ScanAdvance(text, ranges, limit, s);
      ScanWordShapes(text, ranges, limit, Advance(text, ranges, limit, s));
    }
  }

  /** The closed words are plain or joined, and the current word is empty or
      plain. */
  predicate WellShaped(text: string, ranges: seq<Range>, s: ScanState) {
    && (forall w :: w in s.words ==> IsPlainWord(w) || IsJoinedWord(text, ranges, w))
    && (s.word == "" || IsPlainWord(s.word))
  }

  lemma AdvanceWordShapes(text: string, ranges: seq<Range>, limit: int, s: ScanState)
    requires Tokenizable(text, ranges) && s.index < |text|
    requires s.limitIndex.Some? ==> s.limitIndex.value <= s.index
    requires WellShaped(text, ranges, s)
    ensures WellShaped(text, ranges, Advance(text, ranges, limit, s))
  {
    match IsPartOfJoinedTextRanges(ranges, s.index)
    case Some(range) =>
      var k :| 0 <= k < |ranges| && ranges[k] == range;
      assert IsJoinedWord(text, ranges, Substring(text, range));
    case None =>
  }

  lemma GetTextWordsShapes(text: string, ranges: seq<Range>, limit: int)
    requires Tokenizable(text, ranges)
    ensures forall w :: w in GetTextWords(text, ranges, limit).words ==> IsPlainWord(w) || IsJoinedWord(text, ranges, w)
  {
    ScanWordShapes(text, ranges, limit, ScanState(0, [], "", None));
  }

  /** The words of a list written one after the other. */
  function Flatten(words: seq<string>): string {
    if |words| == 0 then "" else Flatten(words[..|words| - 1]) + words[|words| - 1]
  }

  /** The text without its spaces. */
  function RemoveSpaces(text: string): (r: string)
    ensures forall i :: 0 <= i < |r| ==> r[i] != WHITESPACE
  {
    if |text| == 0 then "" else (if text[0] == WHITESPACE then "" else [text[0]]) + RemoveSpaces(text[1..])
  }

  /** Without joined ranges the tokeniser loses nothing but spaces: its
      words, written one after the other, are the text without spaces. */
  lemma {:induction false} ScanWithoutRanges(text: string, limit: int, s: ScanState)
    requires s.index <= |text|
    requires s.limitIndex.Some? ==> s.limitIndex.value <= s.index
    ensures Flatten(Scan(text, [], limit, s).words) == Flatten(s.words) + s.word + RemoveSpaces(text[s.index..])
    decreases |text| - s.index
  {
    if s.index == |text| {
      ScanWithoutRangesAtEnd(text, limit, s);
    } else {
      var next := Advance(text, [], limit, s);
      ScanWithoutRanges(text, limit, next);
      ScanAdvance(text, [], limit, s);
      AdvanceWithoutRanges(text, limit, s);
      RemoveSpacesStep(text, s.index);
      ConcatAssoc(Flatten(s.words) + s.word, if text[s.index] == WHITESPACE then "" else [text[s.index]], RemoveSpaces(text[s.index + 1..]));
    }
  }

  lemma ScanWithoutRangesAtEnd(text: string, limit: int, s: ScanState)
    requires s.index == |text|
    requires s.limitIndex.Some? ==> s.limitIndex.value <= s.index
    ensures Flatten(Scan(text, [], limit, s).words) == Flatten(s.words) + s.word + RemoveSpaces(text[s.index..])
  {
    assert text[s.index..] == "" && RemoveSpaces("") == "";
    if s.word != "" {
      FlattenSnoc(s.words, s.word);
    }
  }

  /** One iteration of the loop, unfolded. */
  lemma ScanAdvance(text: string, ranges: seq<Range>, limit: int, s: ScanState)
    requires Tokenizable(text, ranges) && s.index < |text|
    requires s.limitIndex.Some? ==> s.limitIndex.value <= s.index
    ensures Scan(text, ranges, limit, s) == Scan(text, ranges, limit, Advance(text, ranges, limit, s))
  {
  }

  /** Without joined ranges, one iteration moves one character from the
      text into the current word or drops it, if it is a space. */
  lemma AdvanceWithoutRanges(text: string, limit: int, s: ScanState)
    requires s.index < |text|
    requires s.limitIndex.Some? ==> s.limitIndex.value <= s.index
    ensures var next := Advance(text, [], limit, s);
      && next.index == s.index + 1
      && Flatten(next.words) + next.word == Flatten(s.words) + s.word + (if text[s.index] == WHITESPACE then "" else [text[s.index]])
  {
    assert IsPartOfJoinedTextRanges([], s.index) == None;
    var c := text[s.index];
    var split := |s.word| > 0 && (c == WHITESPACE || IsSpecialCharacter(s.word[0]) != IsSpecialCharacter(c));
    if split {
      FlattenSnoc(s.words, s.word);
    }
  }

  lemma ConcatAssoc<T>(a: seq<T>, b: seq<T>, c: seq<T>)
    ensures (a + b) + c == a + (b + c)
  {
  }

  lemma FlattenSnoc(words: seq<string>, w: string)
    ensures Flatten(words + [w]) == Flatten(words) + w
  {
    assert (words + [w])[..|words|] == words;
  }

  lemma RemoveSpacesStep(text: string, i: nat)
    requires i < |text|
    ensures RemoveSpaces(text[i..]) == (if text[i] == WHITESPACE then "" else [text[i]]) + RemoveSpaces(text[i + 1..])
  {
    assert text[i..][1..] == text[i + 1..];
  }

  /** With the joined ranges pairwise disjoint, the tokeniser never stops
      strictly inside a joined range, so the truncated text never cuts one. */
  lemma {:induction false} ScanCutsOutsideRanges(text: string, ranges: seq<Range>, limit: int, s: ScanState)
    requires Tokenizable(text, ranges) && Disjoint(ranges) && s.index <= |text|
    requires s.limitIndex.Some? ==> s.limitIndex.value <= s.index && !InsideRange(ranges, s.limitIndex.value)
    requires !InsideRange(ranges, s.index)
    ensures !InsideRange(ranges, |Scan(text, ranges, limit, s).truncatedText|)
    decreases |text| - s.index
  {
    if s.index < |text| {
      AdvanceStopsOutsideRanges(text, ranges, limit, s);
      ScanAdvance(text, ranges, limit, s);
      ScanCutsOutsideRanges(text, ranges, limit, Advance(text, ranges, limit, s));
    }
  }

  /** With disjoint joined ranges, an iteration that starts outside every
      range also ends outside every range. */
  lemma AdvanceStopsOutsideRanges(text: string, ranges: seq<Range>, limit: int, s: ScanState)
    requires Tokenizable(text, ranges) && Disjoint(ranges) && s.index < |text|
    requires s.limitIndex.Some? ==> s.limitIndex.value <= s.index
    requires !InsideRange(ranges, s.index)
    ensures var next := Advance(text, ranges, limit, s);
      && !InsideRange(ranges, next.index)
      && (next.limitIndex.Some? ==> next.limitIndex == s.limitIndex || next.limitIndex.value == s.index)
  {
    match IsPartOfJoinedTextRanges(ranges, s.index)
    case Some(range) =>
      var j :| 0 <= j < |ranges| && ranges[j] == range;
      forall k | 0 <= k < |ranges| ensures !(ranges[k].loc < range.End() < ranges[k].End()) {
        if k != j {
          assert ranges[j].End() <= ranges[k].loc || ranges[k].End() <= ranges[j].loc;
        }
      }
    case None =>
      forall k | 0 <= k < |ranges| ensures !(ranges[k].loc < s.index + 1 < ranges[k].End()) {
        assert !ranges[k].Contains(s.index);
      }
  }

  /** The text is cut only once `limit` words were collected. */
  lemma {:induction false} ScanCutsOnlyAtLimit(text: string, ranges: seq<Range>, limit: int, s: ScanState)
    requires Tokenizable(text, ranges) && s.index <= |text|
    requires s.limitIndex.Some? ==> s.limitIndex.value <= s.index
    ensures var r := Scan(text, ranges, limit, s);
      s.limitIndex.None? && |r.truncatedText| < |text| ==> 0 <= limit <= |r.words|
    decreases |text| - s.index
  {
    if s.index < |text| {
      ScanAdvance(text, ranges, limit, s);
      ScanCutsOnlyAtLimit(text, ranges, limit, Advance(text, ranges, limit, s));
    }
  }

  /** The text is cut once more than `limit + 1` words are found: by the
      iteration that starts with `limit` words closed, at most one more word
      has begun, so the words found later are reached only after the limit
      index is recorded. */
  lemma {:induction false} ScanCutsPastLimit(text: string, ranges: seq<Range>, limit: int, s: ScanState)
    requires Tokenizable(text, ranges) && s.index <= |text| && 0 <= limit
    requires s.limitIndex.Some? ==> s.limitIndex.value <= s.index && s.limitIndex.value < |text|
    requires s.limitIndex.None? ==> Begun(s) <= limit + 1
    ensures var r := Scan(text, ranges, limit, s);
      limit + 1 < |r.words| ==> |r.truncatedText| < |text|
    decreases |text| - s.index
  {
    if s.index < |text| {
      ScanAdvance(text, ranges, limit, s);
      AdvanceBegins(text, ranges, limit, s);
      ScanCutsPastLimit(text, ranges, limit, Advance(text, ranges, limit, s));
    }
  }

  /** Before the limit index is recorded, an iteration does what it does
      without a limit. */
  lemma AdvanceIgnoresLimit(text: string, ranges: seq<Range>, limit: int, s: ScanState)
    requires Tokenizable(text, ranges) && s.index < |text| && s.limitIndex.None?
    requires limit < 0 || |s.words| < limit
    ensures Advance(text, ranges, limit, s) == Advance(text, ranges, -1, s)
  {
  }

  /** The limit decides only where the text is cut, never which words are
      found. */
  lemma {:induction false} ScanWordsIgnoreLimit(text: string, ranges: seq<Range>, limit: int, s: ScanState)
    requires Tokenizable(text, ranges) && s.index <= |text|
    requires s.limitIndex.Some? ==> s.limitIndex.value <= s.index
    ensures Scan(text, ranges, limit, s).words == Scan(text, ranges, -1, s.(limitIndex := None)).words
    decreases |text| - s.index
  {
    if s.index < |text| {
      var next := Advance(text, ranges, limit, s);
      ScanWordsIgnoreLimit(text, ranges, limit, next);
      assert Advance(text, ranges, -1, s.(limitIndex := None)) == next.(limitIndex := None);
    }
  }

  /** What the as-written cut keeps, from a state before the limit index is
      recorded, outside every joined range: the cut text, scanned from that
      state, reads back the first `limit` words found and at most one more
      (which may be only the beginning of a word). */
  lemma {:induction false} ScanCutReadsBack(text: string, ranges: seq<Range>, limit: int, s: ScanState)
    requires Tokenizable(text, ranges) && Disjoint(ranges) && s.index <= |text| && 0 <= limit
    requires s.limitIndex.None? && !InsideRange(ranges, s.index)
    requires |s.words| <= limit || (|s.words| == limit + 1 && s.word == "")
    ensures var r := Scan(text, ranges, limit, s);
      var t := r.truncatedText;
      |t| < |text| ==>
        && s.index <= |t| && Tokenizable(t, ranges) && limit <= |r.words|
        && r.words[..limit] <= Scan(t, ranges, -1, s).words
        && |Scan(t, ranges, -1, s).words| <= limit + 1
    decreases |text| - s.index
  {
    if s.index < |text| {
      var next := Advance(text, ranges, limit, s);
      ScanAdvance(text, ranges, limit, s);
      if |s.words| >= limit {
        CutAtLimit(text, ranges, limit, s);
      } else {
        AdvanceStopsOutsideRanges(text, ranges, limit, s);
        ScanCutReadsBack(text, ranges, limit, next);
        var t := Scan(text, ranges, limit, s).truncatedText;
        if |t| < |text| {
          AdvanceIgnoresLimit(text, ranges, limit, s);
          AdvanceOnPrefix(text, t, ranges, s);
          ScanAdvance(t, ranges, -1, s);
        }
      }
    }
  }

  /** The case of `ScanCutReadsBack` where the limit index is recorded at
      the state: the text is cut right there. */
  lemma CutAtLimit(text: string, ranges: seq<Range>, limit: int, s: ScanState)
    requires Tokenizable(text, ranges) && s.index < |text| && 0 <= limit
    requires s.limitIndex.None? && !InsideRange(ranges, s.index)
    requires limit <= |s.words| && (|s.words| <= limit || (|s.words| == limit + 1 && s.word == ""))
    ensures var r := Scan(text, ranges, limit, s);
      var t := r.truncatedText;
      && t == text[..s.index] && Tokenizable(t, ranges) && limit <= |r.words|
      && r.words[..limit] <= Scan(t, ranges, -1, s).words
      && |Scan(t, ranges, -1, s).words| <= limit + 1
  {
    var next := Advance(text, ranges, limit, s);
    ScanAdvance(text, ranges, limit, s);
    var r := Scan(text, ranges, limit, next);
    assert r.truncatedText == text[..s.index];
    assert s.words <= next.words <= r.words;
    assert r.words[..limit] == s.words[..limit];
  }

  /** What the as-written cut keeps: over disjoint joined ranges, a cut
      text can be tokenised again and reads back the first `limit` words
      found and at most one more, which may be only the beginning of the
      word that follows (see `GetTextWordsOverrunsLimit`). */
  lemma GetTextWordsCutReadsBack(text: string, ranges: seq<Range>, limit: int)
    requires Tokenizable(text, ranges) && Disjoint(ranges) && 0 <= limit
    ensures var r := GetTextWords(text, ranges, limit);
      var t := r.truncatedText;
      |t| < |text| ==>
        && Tokenizable(t, ranges) && limit <= |r.words|
        && r.words[..limit] <= GetTextWords(t, ranges).words
        && |GetTextWords(t, ranges).words| <= limit + 1
  {
    ScanCutReadsBack(text, ranges, limit, ScanState(0, [], "", None));
  }

  // ------------------------------------------------------------------ editing

  /** The text of the field and its joined ranges. */
  datatype TextField = TextField(text: string, ranges: seq<Range>)

  /** What the field keeps true of its joined ranges: none is empty, none
      overlaps another, and each one the tokeniser can reach lies inside the
      text. */
  predicate WellFormed(f: TextField) {
    && Tokenizable(f.text, f.ranges)
    && Disjoint(f.ranges)
    && forall k :: 0 <= k < |f.ranges| ==> f.ranges[k].len > 0
  }

  /** The text once the characters of `edit` are replaced by `replacement`,
      as the text view applies an accepted change. */
  function Replace(text: string, edit: Range, replacement: string): (r: string)
    requires edit.End() <= |text|
    ensures |r| == |text| - edit.len + |replacement|
    ensures forall i :: 0 <= i < edit.loc ==> r[i] == text[i]
    ensures forall i :: 0 <= i < |replacement| ==> r[edit.loc + i] == replacement[i]
    ensures forall i :: edit.End() <= i < |text| ==> r[i - edit.len + |replacement|] == text[i]
  {
    ReplaceParts(text, edit, replacement);
    text[..edit.loc] + replacement + text[edit.End()..]
  }

  /** Where the three parts of the replaced text sit in it. */
  lemma ReplaceParts(text: string, edit: Range, replacement: string)
    requires edit.End() <= |text|
    ensures var r := text[..edit.loc] + replacement + text[edit.End()..];
      && (forall i :: 0 <= i < edit.loc ==> r[i] == text[i])
      && (forall i :: 0 <= i < |replacement| ==> r[edit.loc + i] == replacement[i])
      && (forall i :: edit.End() <= i < |text| ==> r[i - edit.len + |replacement|] == text[i])
  {
    var a, c := text[..edit.loc], text[edit.End()..];
    var r := a + replacement + c;
    forall i | edit.End() <= i < |text|
      ensures r[i - edit.len + |replacement|] == text[i]
    {
      assert r[|a| + |replacement| + (i - edit.End())] == c[i - edit.End()];
    }
  }

  /** `NSIntersectionRange(a, b).length`. */
  function IntersectionLength(a: Range, b: Range): nat {
    var lo := if a.loc < b.loc then b.loc else a.loc;
    var hi := if a.End() < b.End() then a.End() else b.End();
    if lo < hi then hi - lo else 0
  }

  /** One iteration of the range loop of `textViewDidChange`: a joined range
      at or after the end of the edit is first shifted by the change in
      length; after an insertion the (shifted) range is kept unless the
      insertion point falls inside it; after a replacement it is kept unless
      the original range meets the replaced one. Read as positions, a
      non-empty range wholly before the edit is kept as it is, one wholly
      after it is shifted (except that an empty insertion at its very start
      drops it), and every other range is dropped. */
  function AdjustRange(joined: Range, edit: Range, replacementLength: nat): (r: Option<Range>)
    ensures joined.len > 0 ==> r == AdjustedByPosition(joined, edit, replacementLength)
    ensures r.Some? ==> r.value.len == joined.len
  {
    var shifted := if edit.End() <= joined.loc then Range(joined.loc + replacementLength - edit.len, joined.len) else joined;
    if edit.len == 0 then
      if edit.loc < shifted.loc || edit.loc >= shifted.End() then Some(shifted) else None
    else
      if IntersectionLength(edit, joined) == 0 then Some(shifted) else None
  }

  /** Where a non-empty joined range ends up, read from its position
      relative to the edit. */
  function AdjustedByPosition(joined: Range, edit: Range, replacementLength: nat): Option<Range> {
    if joined.End() <= edit.loc then Some(joined)
    else if edit.End() <= joined.loc && (edit.len > 0 || edit.loc < joined.loc || replacementLength > 0) then
      Some(Range(joined.loc + replacementLength - edit.len, joined.len))
    else None
  }

  /** The range loop of `textViewDidChange`: every joined range adjusted, the
      dropped ones left out, the order kept. */
  function AdjustRanges(ranges: seq<Range>, edit: Range, replacementLength: nat): (r: seq<Range>)
    ensures |r| <= |ranges|
    ensures forall x :: x in r <==> exists k :: 0 <= k < |ranges| && AdjustRange(ranges[k], edit, replacementLength) == Some(x)
  {
    if |ranges| == 0 then []
    else
      var rest := AdjustRanges(ranges[1..], edit, replacementLength);
      var r := (match AdjustRange(ranges[0], edit, replacementLength) case Some(x) => [x] case None => []) + rest;
      AdjustRangesCons(ranges, edit, replacementLength, rest, r);
      r
  }

  lemma AdjustRangesCons(ranges: seq<Range>, edit: Range, replacementLength: nat, rest: seq<Range>, r: seq<Range>)
    requires |ranges| > 0
    requires forall x :: x in rest <==> exists k :: 0 <= k < |ranges[1..]| && AdjustRange(ranges[1..][k], edit, replacementLength) == Some(x)
    requires r == (match AdjustRange(ranges[0], edit, replacementLength) case Some(x) => [x] case None => []) + rest
    ensures forall x :: x in r <==> exists k :: 0 <= k < |ranges| && AdjustRange(ranges[k], edit, replacementLength) == Some(x)
  {
    forall x ensures x in r <== exists k :: 0 <= k < |ranges| && AdjustRange(ranges[k], edit, replacementLength) == Some(x) {
      if exists k :: 0 <= k < |ranges| && AdjustRange(ranges[k], edit, replacementLength) == Some(x) {
        var k :| 0 <= k < |ranges| && AdjustRange(ranges[k], edit, replacementLength) == Some(x);
        if k > 0 {
          assert ranges[1..][k - 1] == ranges[k];
        }
      }
    }
    forall x | x in r ensures exists k :: 0 <= k < |ranges| && AdjustRange(ranges[k], edit, replacementLength) == Some(x) {
      if x in rest {
        var k :| 0 <= k < |ranges[1..]| && AdjustRange(ranges[1..][k], edit, replacementLength) == Some(x);
        assert ranges[k + 1] == ranges[1..][k];
      } else {
        assert AdjustRange(ranges[0], edit, replacementLength) == Some(x);
      }
    }
  }

  /** A joined range that survives an edit still covers the same characters
      in the edited text. */
  lemma AdjustRangeKeepsSubstring(text: string, joined: Range, edit: Range, replacement: string)
    requires edit.End() <= |text| && joined.End() <= |text| && joined.len > 0
    requires AdjustRange(joined, edit, |replacement|).Some?
    ensures var moved := AdjustRange(joined, edit, |replacement|).value;
      var edited := Replace(text, edit, replacement);
      moved.End() <= |edited| && Substring(edited, moved) == Substring(text, joined)
  {
    var moved := AdjustRange(joined, edit, |replacement|).value;
    assert Some(moved) == AdjustedByPosition(joined, edit, |replacement|);
    if joined.End() <= edit.loc {
      assert moved == joined;
      SliceBeforeEdit(text, joined, edit, replacement);
    } else {
      assert moved == Range(joined.loc + |replacement| - edit.len, joined.len);
      SliceAfterEdit(text, joined, edit, replacement);
    }
  }

  /** A range wholly before the edit keeps its characters in place. */
  lemma SliceBeforeEdit(text: string, joined: Range, edit: Range, replacement: string)
    requires edit.End() <= |text| && joined.End() <= edit.loc
    ensures Substring(Replace(text, edit, replacement), joined) == Substring(text, joined)
  {
    ShiftedSlice(Replace(text, edit, replacement), text, joined.loc, joined.len, 0);
  }

  /** A range wholly after the edit keeps its characters, shifted by the
      change in length. */
  lemma SliceAfterEdit(text: string, joined: Range, edit: Range, replacement: string)
    requires edit.End() <= joined.loc && joined.End() <= |text|
    ensures var moved := Range(joined.loc + |replacement| - edit.len, joined.len);
      moved.End() <= |Replace(text, edit, replacement)| && Substring(Replace(text, edit, replacement), moved) == Substring(text, joined)
  {
    SliceAfterSplice(text, joined, edit, replacement, Replace(text, edit, replacement));
  }

  /** `SliceAfterEdit`, stated for the spliced text itself. */
  lemma SliceAfterSplice(text: string, joined: Range, edit: Range, replacement: string, edited: string)
    requires edit.End() <= joined.loc && joined.End() <= |text|
    requires edited == text[..edit.loc] + replacement + text[edit.End()..]
    ensures var moved := Range(joined.loc + |replacement| - edit.len, joined.len);
      moved.End() <= |edited| && Substring(edited, moved) == Substring(text, joined)
  {
    var front, back := text[..edit.loc] + replacement, text[edit.End()..];
    var lo, hi := joined.loc - edit.End(), joined.End() - edit.End();
    SliceOfBack(front, back, lo, hi);
    assert back[lo..hi] == text[joined.loc..joined.End()];
  }

  /** A slice of the back part of a concatenation. */
  lemma SliceOfBack(front: string, back: string, lo: nat, hi: nat)
    requires lo <= hi <= |back|
    ensures (front + back)[|front| + lo..|front| + hi] == back[lo..hi]
  {
    var x, y := (front + back)[|front| + lo..|front| + hi], back[lo..hi];
    forall k | 0 <= k < hi - lo ensures x[k] == y[k] {
      assert x[k] == (front + back)[|front| + lo + k];
    }
  }

  /** A stretch of `b` that reappears `d` positions further on in `a`. */
  lemma ShiftedSlice(a: string, b: string, lo: nat, len: nat, d: int)
    requires lo + len <= |b| && 0 <= lo + d && lo + d + len <= |a|
    requires forall i :: lo <= i < lo + len ==> a[i + d] == b[i]
    ensures a[lo + d..lo + d + len] == b[lo..lo + len]
  {
    var x, y := a[lo + d..lo + d + len], b[lo..lo + len];
    forall k | 0 <= k < len ensures x[k] == y[k] {
      assert a[(lo + k) + d] == b[lo + k];
    }
  }

  /** Two disjoint non-empty ranges stay disjoint when both survive an
      edit. */
  lemma AdjustKeepsApart(a: Range, b: Range, edit: Range, replacementLength: nat)
    requires a.len > 0 && b.len > 0 && Apart(a, b)
    requires AdjustRange(a, edit, replacementLength).Some? && AdjustRange(b, edit, replacementLength).Some?
    ensures Apart(AdjustRange(a, edit, replacementLength).value, AdjustRange(b, edit, replacementLength).value)
  {
  }

  lemma {:induction false} AdjustRangesDisjoint(ranges: seq<Range>, edit: Range, replacementLength: nat)
    requires Disjoint(ranges) && forall k :: 0 <= k < |ranges| ==> ranges[k].len > 0
    ensures Disjoint(AdjustRanges(ranges, edit, replacementLength))
  {
    if |ranges| > 0 {
      var tail := ranges[1..];
      assert Disjoint(tail) by {
        forall j, k | 0 <= j < k < |tail| ensures Apart(tail[j], tail[k]) {
          assert tail[j] == ranges[j + 1] && tail[k] == ranges[k + 1];
        }
      }
      AdjustRangesDisjoint(tail, edit, replacementLength);
      var rest := AdjustRanges(tail, edit, replacementLength);
      match AdjustRange(ranges[0], edit, replacementLength)
      case None =>
        assert AdjustRanges(ranges, edit, replacementLength) == rest;
      case Some(head) =>
        forall x | x in rest ensures Apart(head, x) {
          var k :| 0 <= k < |tail| && AdjustRange(tail[k], edit, replacementLength) == Some(x);
          assert tail[k] == ranges[k + 1];
          AdjustKeepsApart(ranges[0], tail[k], edit, replacementLength);
        }
        DisjointCons(head, rest);
    }
  }

  lemma DisjointCons(head: Range, rest: seq<Range>)
    requires Disjoint(rest) && forall x :: x in rest ==> Apart(head, x)
    ensures Disjoint([head] + rest)
  {
    var s := [head] + rest;
    forall j, k | 0 <= j < k < |s| ensures Apart(s[j], s[k]) {
      assert s[k] == rest[k - 1];
      if j > 0 {
        assert s[j] == rest[j - 1];
      }
    }
  }

  /** A surviving range the tokeniser can reach in the edited text lies
      inside it. */
  lemma AdjustKeepsTokenizable(textLength: nat, joined: Range, edit: Range, replacementLength: nat)
    requires edit.End() <= textLength && joined.len > 0
    requires joined.loc < textLength ==> joined.End() <= textLength
    requires AdjustRange(joined, edit, replacementLength).Some?
    ensures var moved := AdjustRange(joined, edit, replacementLength).value;
      var editedLength := textLength - edit.len + replacementLength;
      moved.loc < editedLength ==> moved.End() <= editedLength
  {
  }

  /** Adjusting the joined ranges to an edit keeps the field well formed. */
  lemma AdjustRangesWellFormed(f: TextField, edit: Range, replacement: string)
    requires WellFormed(f) && edit.End() <= |f.text|
    ensures WellFormed(TextField(Replace(f.text, edit, replacement), AdjustRanges(f.ranges, edit, |replacement|)))
  {
    var edited := Replace(f.text, edit, replacement);
    var ranges := AdjustRanges(f.ranges, edit, |replacement|);
    AdjustRangesDisjoint(f.ranges, edit, |replacement|);
    forall k | 0 <= k < |ranges| ensures ranges[k].len > 0 && (ranges[k].loc < |edited| ==> ranges[k].End() <= |edited|) {
      assert ranges[k] in ranges;
      var j :| 0 <= j < |f.ranges| && AdjustRange(f.ranges[j], edit, |replacement|) == Some(ranges[k]);
      AdjustKeepsTokenizable(|f.text|, f.ranges[j], edit, |replacement|);
    }
  }

  /** The text with every line feed replaced by a space. */
  function ReplaceNewlines(text: string): (r: string)
    ensures |r| == |text|
    ensures forall i :: 0 <= i < |r| ==> r[i] != '\n' && (text[i] != '\n' ==> r[i] == text[i])
  {
    seq(|text|, i requires 0 <= i < |text| => if text[i] == '\n' then WHITESPACE else text[i])
  }

  /** The tokeniser cuts the text only where no joined range is cut. */
  lemma GetTextWordsCutsOutsideRanges(text: string, ranges: seq<Range>, limit: int)
    requires Tokenizable(text, ranges) && Disjoint(ranges)
    ensures !InsideRange(ranges, |GetTextWords(text, ranges, limit).truncatedText|)
  {
    ScanCutsOutsideRanges(text, ranges, limit, ScanState(0, [], "", None));
  }

  // ------------------------------------------------------------ the word limit

  /** How many words a state has begun: the closed ones and the current
      one, if it is not empty. */
  function Begun(s: ScanState): nat {
    |s.words| + (if s.word != "" then 1 else 0)
  }

  /** The words of a state once its current word is closed. */
  function Closed(s: ScanState): seq<string> {
    if s.word != "" then s.words + [s.word] else s.words
  }

  /** As written, the limit is checked at the top of an iteration, before
      the iteration closes the current word. A word begun in the last
      iteration therefore escapes it: with limit 1, "a!" yields two words
      and is not cut. And a cut made once `limit` words are closed keeps
      the word still open: with limit 1, "a!b" is cut to "a!", which reads
      back as two words. */
  lemma GetTextWordsOverrunsLimit()
    ensures GetTextWords("a!", [], 1) == TextWords(["a", "!"], "a!")
    ensures GetTextWords("a!b", [], 1) == TextWords(["a", "!", "b"], "a!")
    ensures GetTextWords("a!", []).words == ["a", "!"]
    ensures GetTextWords("a!!", [], 1) == TextWords(["a", "!!"], "a!")
  {
    WordEscapesLimit(1);
    WordEscapesLimit(-1);
    CutKeepsOpenWord();
    CutSplitsWord();
  }

  /** "a!" with the given limit (1, or none): the second word begins in the
      last iteration, so the text is never cut. */
  lemma WordEscapesLimit(limit: int)
    requires limit == 1 || limit == -1
    ensures GetTextWords("a!", [], limit) == TextWords(["a", "!"], "a!")
  {
    var s0, s1, s2 := ScanState(0, [], "", None), ScanState(1, [], "a", None), ScanState(2, ["a"], "!", None);
    assert IsPartOfJoinedTextRanges([], 0) == None && IsPartOfJoinedTextRanges([], 1) == None;
    assert Advance("a!", [], limit, s0) == s1;
    assert Advance("a!", [], limit, s1) == s2;
    ScanAdvance("a!", [], limit, s0);
    ScanAdvance("a!", [], limit, s1);
  }

  /** "a!b" with limit 1: the index is recorded when "a" is closed, while
      "!" is still open, and the cut keeps it. */
  lemma CutKeepsOpenWord()
    ensures GetTextWords("a!b", [], 1) == TextWords(["a", "!", "b"], "a!")
  {
    var s0, s1, s2 := ScanState(0, [], "", None), ScanState(1, [], "a", None), ScanState(2, ["a"], "!", None);
    var s3 := ScanState(3, ["a", "!"], "b", Some(2));
    assert IsPartOfJoinedTextRanges([], 0) == None && IsPartOfJoinedTextRanges([], 1) == None;
    assert IsPartOfJoinedTextRanges([], 2) == None;
    assert Advance("a!b", [], 1, s0) == s1;
    assert Advance("a!b", [], 1, s1) == s2;
    assert Advance("a!b", [], 1, s2) == s3;
    ScanAdvance("a!b", [], 1, s0);
    ScanAdvance("a!b", [], 1, s1);
    ScanAdvance("a!b", [], 1, s2);
    assert "a!b"[..2] == "a!";
  }

  /** "a!!" with limit 1: the cut falls one character into the word "!!",
      so "a!" reads back a second word that was never found. */
  lemma CutSplitsWord()
    ensures GetTextWords("a!!", [], 1) == TextWords(["a", "!!"], "a!")
  {
    var s0, s1, s2 := ScanState(0, [], "", None), ScanState(1, [], "a", None), ScanState(2, ["a"], "!", None);
    var s3 := ScanState(3, ["a"], "!!", Some(2));
    assert IsPartOfJoinedTextRanges([], 0) == None && IsPartOfJoinedTextRanges([], 1) == None;
    assert IsPartOfJoinedTextRanges([], 2) == None;
    assert Advance("a!!", [], 1, s0) == s1;
    assert Advance("a!!", [], 1, s1) == s2;
    assert Advance("a!!", [], 1, s2) == s3;
    ScanAdvance("a!!", [], 1, s0);
    ScanAdvance("a!!", [], 1, s1);
    ScanAdvance("a!!", [], 1, s2);
    assert "a!!"[..2] == "a!";
  }

  /** One iteration begins at most one word, and an iteration that begins
      one has closed the current word first. */
  lemma AdvanceBegins(text: string, ranges: seq<Range>, limit: int, s: ScanState)
    requires Tokenizable(text, ranges) && s.index < |text|
    requires s.limitIndex.Some? ==> s.limitIndex.value <= s.index
    ensures var next := Advance(text, ranges, limit, s);
      && Begun(s) <= Begun(next) <= Begun(s) + 1
      && (Begun(next) > Begun(s) ==> Closed(s) <= next.words)
  {
  }

  /** The loop of `getTextWords(text:limit:)` with the limit check made
      after each iteration instead of before it: the text is cut where word
      `limit + 1` begins. */
  function ScanWithinLimit(text: string, ranges: seq<Range>, limit: int, s: ScanState): (r: TextWords)
    requires Tokenizable(text, ranges) && s.index <= |text|
    requires s.limitIndex.Some? ==> s.limitIndex.value <= s.index
    ensures s.words <= r.words && Begun(s) <= |r.words|
    ensures |r.truncatedText| <= |text| && r.truncatedText == text[..|r.truncatedText|]
    ensures s.limitIndex.Some? ==> r.truncatedText == text[..s.limitIndex.value]
    ensures s.limitIndex.None? ==> s.index <= |r.truncatedText|
    decreases |text| - s.index
  {
    if s.index == |text| then
      TextWords(Closed(s), if s.limitIndex.Some? then text[..s.limitIndex.value] else text)
    else
      var next := Advance(text, ranges, -1, s);
      AdvanceBegins(text, ranges, -1, s);
      var limitIndex := if s.limitIndex.None? && limit >= 0 && Begun(next) > limit then Some(s.index) else s.limitIndex;
      ScanWithinLimit(text, ranges, limit, next.(limitIndex := limitIndex))
  }

  /** The corrected loop finds the same words as the one written. */
  lemma {:induction false} ScanWithinLimitWords(text: string, ranges: seq<Range>, limit: int, s: ScanState)
    requires Tokenizable(text, ranges) && s.index <= |text|
    requires s.limitIndex.Some? ==> s.limitIndex.value <= s.index
    ensures ScanWithinLimit(text, ranges, limit, s).words == Scan(text, ranges, -1, s.(limitIndex := None)).words
    decreases |text| - s.index
  {
    if s.index < |text| {
      var next := Advance(text, ranges, -1, s);
      var limitIndex := if s.limitIndex.None? && limit >= 0 && Begun(next) > limit then Some(s.index) else s.limitIndex;
      ScanWithinLimitWords(text, ranges, limit, next.(limitIndex := limitIndex));
      assert Advance(text, ranges, -1, s.(limitIndex := None)) == next.(limitIndex := None);
      assert next.(limitIndex := limitIndex).(limitIndex := None) == next.(limitIndex := None);
    }
  }

  /** An iteration below the end of a prefix of the text, over joined
      ranges that fit the prefix, does what it does on the whole text. */
  lemma AdvanceOnPrefix(text: string, prefix: string, ranges: seq<Range>, s: ScanState)
    requires |prefix| <= |text| && prefix == text[..|prefix|]
    requires Tokenizable(text, ranges) && Tokenizable(prefix, ranges) && s.index < |prefix|
    requires s.limitIndex.Some? ==> s.limitIndex.value <= s.index
    ensures Advance(prefix, ranges, -1, s) == Advance(text, ranges, -1, s)
  {
    match IsPartOfJoinedTextRanges(ranges, s.index)
    case Some(range) =>
      var k :| 0 <= k < |ranges| && ranges[k] == range;
      assert Substring(prefix, range) == Substring(text, range);
    case None =>
      assert prefix[s.index] == text[s.index];
  }

  /** From a state with at most `limit` words begun, outside every joined
      range, the corrected cut reads back, from that state, as the first
      `limit` of the words found. */
  lemma {:induction false} ScanWithinLimitReadsBack(text: string, ranges: seq<Range>, limit: int, s: ScanState)
    requires Tokenizable(text, ranges) && Disjoint(ranges) && s.index <= |text|
    requires s.limitIndex.None? && 0 <= limit && Begun(s) <= limit
    requires !InsideRange(ranges, s.index)
    ensures var r := ScanWithinLimit(text, ranges, limit, s);
      var t := r.truncatedText;
      && s.index <= |t| && Tokenizable(t, ranges) && !InsideRange(ranges, |t|)
      && (|r.words| <= limit ==> t == text)
      && Scan(t, ranges, -1, s).words == r.words[..if |r.words| < limit then |r.words| else limit]
    decreases |text| - s.index
  {
    var r := ScanWithinLimit(text, ranges, limit, s);
    if s.index < |text| {
      var next := Advance(text, ranges, -1, s);
      AdvanceBegins(text, ranges, -1, s);
      AdvanceStopsOutsideRanges(text, ranges, -1, s);
      if Begun(next) > limit {
        CutWhereWordBegins(text, ranges, limit, s);
      } else {
        assert r == ScanWithinLimit(text, ranges, limit, next);
        ScanWithinLimitReadsBack(text, ranges, limit, next);
        var t := r.truncatedText;
        AdvanceOnPrefix(text, t, ranges, s);
        ScanAdvance(t, ranges, -1, s);
      }
    } else {
      assert !InsideRange(ranges, |text|);
    }
  }

  /** The case of `ScanWithinLimitReadsBack` where the iteration at the
      state begins word `limit + 1`: the text is cut right there. */
  lemma CutWhereWordBegins(text: string, ranges: seq<Range>, limit: int, s: ScanState)
    requires Tokenizable(text, ranges) && s.index < |text|
    requires s.limitIndex.None? && 0 <= limit && Begun(s) <= limit
    requires !InsideRange(ranges, s.index)
    requires Begun(Advance(text, ranges, -1, s)) > limit
    ensures var r := ScanWithinLimit(text, ranges, limit, s);
      var t := r.truncatedText;
      && s.index == |t| && Tokenizable(t, ranges) && !InsideRange(ranges, |t|)
      && limit < |r.words|
      && Scan(t, ranges, -1, s).words == r.words[..limit]
  {
    var next := Advance(text, ranges, -1, s);
    AdvanceBegins(text, ranges, -1, s);
    var r := ScanWithinLimit(text, ranges, limit, next.(limitIndex := Some(s.index)));
    assert r == ScanWithinLimit(text, ranges, limit, s);
    var t := text[..s.index];
    assert r.truncatedText == t;
    assert Closed(s) <= r.words && |Closed(s)| == limit;
    assert Scan(t, ranges, -1, s).words == Closed(s);
  }

  /** `getTextWords(text:limit:)` with the limit checked after each
      iteration. It finds the words the written loop finds. Over disjoint
      joined ranges and with a limit, the text is cut exactly when it holds
      more than `limit` words, never inside a joined range, and what is left
      reads back as exactly the first `limit` words. */
  function GetTextWordsWithinLimit(text: string, ranges: seq<Range>, limit: int): (r: TextWords)
    requires Tokenizable(text, ranges)
    ensures r.words == GetTextWords(text, ranges).words
    ensures |r.truncatedText| <= |text| && r.truncatedText == text[..|r.truncatedText|]
    ensures Disjoint(ranges) && 0 <= limit ==>
      && Tokenizable(r.truncatedText, ranges)
      && !InsideRange(ranges, |r.truncatedText|)
      && (r.truncatedText == text <==> |r.words| <= limit)
      && GetTextWords(r.truncatedText, ranges).words == (if |r.words| <= limit then r.words else r.words[..limit])
  {
    var s := ScanState(0, [], "", None);
    ScanWithinLimitWords(text, ranges, limit, s);
    assert s.(limitIndex := None) == s;
    var r := ScanWithinLimit(text, ranges, limit, s);
    if Disjoint(ranges) && 0 <= limit then
      ScanWithinLimitReadsBack(text, ranges, limit, s);
      r
    else
      r
  }

  /** What an edit leaves: the field, whether the text view accepted the
      change, and whether the word-limit alert was shown. */
  datatype EditOutcome = EditOutcome(field: TextField, accepted: bool, limitAlert: bool)

  /** `textView(_:shouldChangeTextInRange:replacementText:)` followed, when
      the change is accepted, by `textViewDidChange`: a lone line feed is
      refused (the delegate is told to move on instead); otherwise the text
      view replaces the characters of `edit`, line feeds become spaces, the
      joined ranges are adjusted to the edit, and a text of more than
      `NUM_WORDS_LIMIT` words is replaced, with an alert, by the truncated
      text `getTextWords` returns. That cut may keep more than
      `NUM_WORDS_LIMIT` words (see `GetTextWordsOverrunsLimit`); it is sure
      to shorten the text only once more than `NUM_WORDS_LIMIT + 1` words
      are found. */
  function Edit(f: TextField, edit: Range, replacement: string): (r: EditOutcome)
    requires WellFormed(f) && edit.End() <= |f.text|
    ensures WellFormed(r.field)
    ensures r.accepted <==> replacement != "\n"
    ensures !r.accepted ==> r.field == f && !r.limitAlert
    ensures r.accepted ==> r.field.ranges == AdjustRanges(f.ranges, edit, |replacement|)
    ensures r.accepted ==>
      var full := ReplaceNewlines(Replace(f.text, edit, replacement));
      && r.field.text <= full
      && Tokenizable(full, r.field.ranges)
      && var words := GetTextWords(full, r.field.ranges, NUM_WORDS_LIMIT).words;
      && (r.limitAlert <==> NUM_WORDS_LIMIT < |words|)
      && (!r.limitAlert ==> r.field.text == full)
      && (NUM_WORDS_LIMIT + 1 < |words| ==> |r.field.text| < |full|)
      && (r.limitAlert ==>
            && words[..NUM_WORDS_LIMIT] <= GetTextWords(r.field.text, r.field.ranges).words
            && |GetTextWords(r.field.text, r.field.ranges).words| <= NUM_WORDS_LIMIT + 1)
      && !InsideRange(r.field.ranges, |r.field.text|)
      && forall i :: 0 <= i < |r.field.text| ==> r.field.text[i] != '\n'
  {
    if replacement == "\n" then EditOutcome(f, false, false)
    else
      var ranges := AdjustRanges(f.ranges, edit, |replacement|);
      AdjustRangesWellFormed(f, edit, replacement);
      var text := ReplaceNewlines(Replace(f.text, edit, replacement));
      var textWords := GetTextWords(text, ranges, NUM_WORDS_LIMIT);
      if |textWords.words| > NUM_WORDS_LIMIT then
        GetTextWordsCutsOutsideRanges(text, ranges, NUM_WORDS_LIMIT);
        GetTextWordsCutReadsBack(text, ranges, NUM_WORDS_LIMIT);
        ScanWordsIgnoreLimit(text, ranges, NUM_WORDS_LIMIT, ScanState(0, [], "", None));
        EditOutcome(TextField(textWords.truncatedText, ranges), true, true)
      else
        EditOutcome(TextField(text, ranges), true, false)
  }

  /** `Edit` with the cut of `GetTextWordsWithinLimit` in place of the one
      `getTextWords` makes: the alert is shown exactly when the text holds
      more than `NUM_WORDS_LIMIT` words, and what is left is exactly the
      first `NUM_WORDS_LIMIT` of them, as the alert says. */
  function EditWithinLimit(f: TextField, edit: Range, replacement: string): (r: EditOutcome)
    requires WellFormed(f) && edit.End() <= |f.text|
    ensures WellFormed(r.field)
    ensures r.accepted <==> replacement != "\n"
    ensures !r.accepted ==> r.field == f && !r.limitAlert
    ensures r.accepted ==> r.field.ranges == AdjustRanges(f.ranges, edit, |replacement|)
    ensures r.accepted ==>
      var full := ReplaceNewlines(Replace(f.text, edit, replacement));
      && r.field.text <= full
      && Tokenizable(full, r.field.ranges)
      && (r.limitAlert <==> NUM_WORDS_LIMIT < |GetTextWords(full, r.field.ranges).words|)
      && (!r.limitAlert ==> r.field.text == full)
      && (r.limitAlert ==>
            GetTextWords(r.field.text, r.field.ranges).words == GetTextWords(full, r.field.ranges).words[..NUM_WORDS_LIMIT])
      && !InsideRange(r.field.ranges, |r.field.text|)
      && forall i :: 0 <= i < |r.field.text| ==> r.field.text[i] != '\n'
  {
    if replacement == "\n" then EditOutcome(f, false, false)
    else
      var ranges := AdjustRanges(f.ranges, edit, |replacement|);
      AdjustRangesWellFormed(f, edit, replacement);
      var text := ReplaceNewlines(Replace(f.text, edit, replacement));
      var textWords := GetTextWordsWithinLimit(text, ranges, NUM_WORDS_LIMIT);
      if |textWords.words| > NUM_WORDS_LIMIT then
        EditOutcome(TextField(textWords.truncatedText, ranges), true, true)
      else
        EditOutcome(TextField(text, ranges), true, false)
  }

  // ----------------------------------------------------------------- setWords

  /** `isCompoundText`: removing the white space changes the word. */
  predicate IsCompoundText(word: string) {
    RemoveWhiteSpaces(word) != word
  }

  /** A word is compound exactly when it holds white space. */
  lemma CompoundTextHasWhiteSpace(word: string)
    ensures IsCompoundText(word) <==> exists i :: 0 <= i < |word| && IsWhiteSpace(word[i])
  {
    RemoveWhiteSpacesUnchanged(word);
  }

  /** Where the `k`-th word starts when the words are written one after the
      other with one space between neighbours. */
  function Start(words: seq<string>, k: nat): nat
    requires k <= |words|
  {
    if k == 0 then 0 else Start(words, k - 1) + |words[k - 1]| + 1
  }

  /** The range the `k`-th word covers in that layout. */
  function Span(words: seq<string>, k: nat): Range
    requires k < |words|
  {
    Range(Start(words, k), |words[k]|)
  }

  /** Where the space after the `k`-th word goes. */
  function Gap(words: seq<string>, k: nat): nat
    requires k < |words|
  {
    Start(words, k) + |words[k]|
  }

  /** The text holds the first `n` words one after the other with one space
      between neighbours, and nothing else. */
  predicate LaidOut(text: string, words: seq<string>, n: nat)
    requires n <= |words|
  {
    && |text| == (if n == 0 then 0 else Start(words, n) - 1)
    && (forall k, m :: 0 <= k < n && 0 <= m < |words[k]| ==> CharAt(text, words, k, m))
    && (forall k :: 0 <= k < n - 1 ==> Gap(words, k) < |text| && text[Gap(words, k)] == WHITESPACE)
  }

  /** The `m`-th character of the `k`-th word sits where the layout puts
      it. */
  predicate CharAt(text: string, words: seq<string>, k: nat, m: nat)
    requires k < |words| && m < |words[k]|
  {
    Start(words, k) + m < |text| && text[Start(words, k) + m] == words[k][m]
  }

  /** The ranges are the spans of the compound words among the first `n`. */
  ghost predicate CompoundSpans(ranges: seq<Range>, words: seq<string>, n: nat)
    requires n <= |words|
  {
    && (forall x :: x in ranges <==> exists k {:trigger Span(words, k)} :: 0 <= k < n && IsCompoundText(words[k]) && x == Span(words, k))
  }

  /** `setWords`: the words written one after the other with one space
      between neighbours, and a joined range over each compound word. */
  function SetWords(words: seq<string>): (r: TextField)
    ensures LaidOut(r.text, words, |words|)
    ensures CompoundSpans(r.ranges, words, |words|)
  {
    SetWordsFrom(words, 0, TextField("", []))
  }

  /** The loop of `setWords` from its `n`-th word on. */
  function SetWordsFrom(words: seq<string>, n: nat, acc: TextField): (r: TextField)
    requires n <= |words| && LaidOut(acc.text, words, n) && CompoundSpans(acc.ranges, words, n)
    ensures LaidOut(r.text, words, |words|)
    ensures CompoundSpans(r.ranges, words, |words|)
    decreases |words| - n
  {
    if n == |words| then acc
    else
      var word := words[n];
      var text := if n > 0 then acc.text + [WHITESPACE] else acc.text;
      var next := TextField(text + word, acc.ranges + (if IsCompoundText(word) then [Range(|text|, |word|)] else []));
      LaidOutStep(words, n, acc.text, text);
      CompoundSpansStep(words, n, acc.ranges, |text|, next.ranges);
      SetWordsFrom(words, n + 1, next)
  }

  /** A word, with the space after it, ends before every later word
      starts. */
  lemma {:induction false} StartAfter(words: seq<string>, j: nat, k: nat)
    requires j < k <= |words|
    ensures Gap(words, j) < Start(words, k)
    decreases k
  {
    if j < k - 1 {
      StartAfter(words, j, k - 1);
    }
  }

  lemma LaidOutStep(words: seq<string>, n: nat, prevText: string, text: string)
    requires n < |words| && LaidOut(prevText, words, n)
    requires text == if n > 0 then prevText + [WHITESPACE] else prevText
    ensures LaidOut(text + words[n], words, n + 1)
  {
    var r := text + words[n];
    assert |text| == Start(words, n);
    assert |r| == Start(words, n + 1) - 1;
    forall k, m | 0 <= k < n + 1 && 0 <= m < |words[k]|
      ensures CharAt(r, words, k, m)
    {
      if k < n {
        StartAfter(words, k, n);
        assert CharAt(prevText, words, k, m);
        assert r[Start(words, k) + m] == prevText[Start(words, k) + m];
      } else {
        assert r[|text| + m] == words[n][m];
      }
    }
    forall k | 0 <= k < n ensures Gap(words, k) < |r| && r[Gap(words, k)] == WHITESPACE {
      StartAfter(words, k, n);
      if k < n - 1 {
        StartAfter(words, k + 1, n);
        assert Gap(words, k) < |prevText| && prevText[Gap(words, k)] == WHITESPACE;
        assert r[Gap(words, k)] == prevText[Gap(words, k)];
      } else {
        assert Gap(words, k) == |prevText|;
        assert r[|prevText|] == text[|prevText|];
      }
    }
  }

  lemma CompoundSpansStep(words: seq<string>, n: nat, prevRanges: seq<Range>, at: nat, ranges: seq<Range>)
    requires n < |words| && CompoundSpans(prevRanges, words, n)
    requires at == Start(words, n)
    requires ranges == prevRanges + (if IsCompoundText(words[n]) then [Range(at, |words[n]|)] else [])
    ensures CompoundSpans(ranges, words, n + 1)
  {
    forall x ensures x in ranges <==> exists k :: 0 <= k < n + 1 && IsCompoundText(words[k]) && x == Span(words, k) {
      if x in prevRanges {
        var k :| 0 <= k < n && IsCompoundText(words[k]) && x == Span(words, k);
        assert 0 <= k < n + 1 && IsCompoundText(words[k]) && x == Span(words, k);
      } else if exists k :: 0 <= k < n + 1 && IsCompoundText(words[k]) && x == Span(words, k) {
        var k :| 0 <= k < n + 1 && IsCompoundText(words[k]) && x == Span(words, k);
        assert k == n;
      }
    }
  }

  /** Each range ends before the next one starts. */
  predicate Ordered(ranges: seq<Range>) {
    forall i, j :: 0 <= i < j < |ranges| ==> ranges[i].End() < ranges[j].loc
  }

  /** `setWords` lays the joined ranges out in text order, so none overlaps
      another. */
  lemma {:induction false} SetWordsFromOrdered(words: seq<string>, n: nat, acc: TextField)
    requires n <= |words| && LaidOut(acc.text, words, n) && CompoundSpans(acc.ranges, words, n)
    requires Ordered(acc.ranges)
    ensures Ordered(SetWordsFrom(words, n, acc).ranges)
    decreases |words| - n
  {
    if n < |words| {
      var word := words[n];
      var text := if n > 0 then acc.text + [WHITESPACE] else acc.text;
      var next := TextField(text + word, acc.ranges + (if IsCompoundText(word) then [Range(|text|, |word|)] else []));
      LaidOutStep(words, n, acc.text, text);
      CompoundSpansStep(words, n, acc.ranges, |text|, next.ranges);
      OrderedStep(words, n, acc.ranges, |text|, next.ranges);
      SetWordsFromOrdered(words, n + 1, next);
    }
  }

  lemma OrderedStep(words: seq<string>, n: nat, prevRanges: seq<Range>, at: nat, ranges: seq<Range>)
    requires n < |words| && CompoundSpans(prevRanges, words, n) && Ordered(prevRanges)
    requires at == Start(words, n)
    requires ranges == prevRanges + (if IsCompoundText(words[n]) then [Range(at, |words[n]|)] else [])
    ensures Ordered(ranges)
  {
    forall i, j | 0 <= i < j < |ranges| ensures ranges[i].End() < ranges[j].loc {
      if j == |prevRanges| {
        assert prevRanges[i] in prevRanges;
        var k :| 0 <= k < n && IsCompoundText(words[k]) && prevRanges[i] == Span(words, k);
        StartAfter(words, k, n);
      }
    }
  }

  /** The field `setWords` builds is well formed. */
  lemma SetWordsWellFormed(words: seq<string>)
    ensures WellFormed(SetWords(words))
  {
    var f := SetWords(words);
    SetWordsFromOrdered(words, 0, TextField("", []));
    forall k | 0 <= k < |f.ranges| ensures f.ranges[k].len > 0 && f.ranges[k].End() <= |f.text| {
      assert f.ranges[k] in f.ranges;
      var j :| 0 <= j < |words| && IsCompoundText(words[j]) && f.ranges[k] == Span(words, j);
      StartAfter(words, j, |words|);
      assert words[j] != "";
    }
  }

  // ------------------------------------------------------ setWords round trip

  /** The position `m` of the `k`-th word, or the space after it, lies in no
      joined range when the word is not compound or `m` is the space. */
  lemma UncoveredInLayout(words: seq<string>, ranges: seq<Range>, k: nat, m: nat)
    requires CompoundSpans(ranges, words, |words|)
    requires k < |words| && m <= |words[k]| && (m == |words[k]| || !IsCompoundText(words[k]))
    ensures IsPartOfJoinedTextRanges(ranges, Start(words, k) + m) == None
  {
    var p := Start(words, k) + m;
    forall i | 0 <= i < |ranges| ensures !ranges[i].Contains(p) {
      assert ranges[i] in ranges;
      var j :| 0 <= j < |words| && IsCompoundText(words[j]) && ranges[i] == Span(words, j);
      if j < k {
        StartAfter(words, j, k);
      } else if j > k {
        StartAfter(words, k, j);
      }
    }
  }

  /** The start of a compound word is covered by its own span first. */
  lemma CoveredInLayout(words: seq<string>, ranges: seq<Range>, k: nat)
    requires CompoundSpans(ranges, words, |words|)
    requires k < |words| && IsCompoundText(words[k])
    ensures IsPartOfJoinedTextRanges(ranges, Start(words, k)) == Some(Span(words, k))
  {
    var p := Start(words, k);
    assert words[k] != "";
    assert Span(words, k) in ranges;
    var found := IsPartOfJoinedTextRanges(ranges, p).value;
    var i :| 0 <= i < |ranges| && ranges[i] == found;
    assert found in ranges;
    var j :| 0 <= j < |words| && IsCompoundText(words[j]) && found == Span(words, j);
    if j < k {
      StartAfter(words, j, k);
    } else if j > k {
      StartAfter(words, k, j);
    }
  }

  /** What `setWords` leaves behind, as the tokeniser sees it. */
  ghost predicate Layout(text: string, ranges: seq<Range>, words: seq<string>) {
    Tokenizable(text, ranges) && LaidOut(text, words, |words|) && CompoundSpans(ranges, words, |words|)
  }

  /** The state of the tokeniser at the start of the `k`-th word. */
  function AtWord(words: seq<string>, k: nat): ScanState
    requires k <= |words|
  {
    ScanState(Start(words, k), words[..k], "", None)
  }

  /** The state of the tokeniser after `m` characters of the plain `k`-th
      word. */
  function InWord(words: seq<string>, k: nat, m: nat): ScanState
    requires k < |words| && m <= |words[k]|
  {
    ScanState(Start(words, k) + m, words[..k], words[k][..m], None)
  }

  lemma AdvanceInPlainWord(text: string, ranges: seq<Range>, words: seq<string>, k: nat, m: nat)
    requires Tokenizable(text, ranges) && k < |words| && m < |words[k]|
    requires IsPlainWord(words[k])
    requires Start(words, k) + m < |text| && text[Start(words, k) + m] == words[k][m]
    requires IsPartOfJoinedTextRanges(ranges, Start(words, k) + m) == None
    ensures Advance(text, ranges, -1, InWord(words, k, m)) == InWord(words, k, m + 1)
  {
    assert words[k][..m] + [words[k][m]] == words[k][..m + 1];
  }

  lemma {:induction false} ScanPlainWord(text: string, ranges: seq<Range>, words: seq<string>, k: nat, m: nat)
    requires Layout(text, ranges, words)
    requires k < |words| && m <= |words[k]| && IsPlainWord(words[k]) && !IsCompoundText(words[k])
    requires Gap(words, k) <= |text|
    ensures Scan(text, ranges, -1, InWord(words, k, m)) == Scan(text, ranges, -1, InWord(words, k, |words[k]|))
    decreases |words[k]| - m
  {
    if m < |words[k]| {
      UncoveredInLayout(words, ranges, k, m);
      assert CharAt(text, words, k, m);
      AdvanceInPlainWord(text, ranges, words, k, m);
      ScanAdvance(text, ranges, -1, InWord(words, k, m));
      ScanPlainWord(text, ranges, words, k, m + 1);
    }
  }

  /** The span of a word covers exactly that word. */
  lemma SpanHoldsWord(text: string, words: seq<string>, k: nat)
    requires LaidOut(text, words, |words|) && k < |words| && Gap(words, k) <= |text|
    ensures Span(words, k).End() <= |text| && Substring(text, Span(words, k)) == words[k]
  {
    forall m | 0 <= m < |words[k]| ensures Substring(text, Span(words, k))[m] == words[k][m] {
      assert CharAt(text, words, k, m);
    }
  }

  /** Every word, with the space after it, ends inside the text. */
  lemma GapInText(text: string, words: seq<string>, k: nat)
    requires LaidOut(text, words, |words|) && k < |words|
    ensures Gap(words, k) <= |text|
    ensures k == |words| - 1 <==> Gap(words, k) == |text|
  {
    if k < |words| - 1 {
      StartAfter(words, k + 1, |words|);
    }
  }

  /** The tokeniser at the end of the `k`-th word, with the word either
      closed or still current, moves on to the next word, or finishes with
      every word. */
  lemma ScanAfterWord(text: string, ranges: seq<Range>, words: seq<string>, k: nat, s: ScanState)
    requires Layout(text, ranges, words) && k < |words| && words[k] != ""
    requires s == ScanState(Gap(words, k), words[..k + 1], "", None) || s == ScanState(Gap(words, k), words[..k], words[k], None)
    ensures s.index <= |text|
    ensures Scan(text, ranges, -1, s) == if k < |words| - 1 then Scan(text, ranges, -1, AtWord(words, k + 1)) else TextWords(words, text)
  {
    GapInText(text, words, k);
    if k < |words| - 1 {
      ScanAcrossGap(text, ranges, words, k, s);
    } else {
      assert words[..k] + [words[k]] == words[..k + 1] == words;
    }
  }

  /** The case of `ScanAfterWord` with a word still to come. */
  lemma ScanAcrossGap(text: string, ranges: seq<Range>, words: seq<string>, k: nat, s: ScanState)
    requires Layout(text, ranges, words) && k < |words| - 1 && words[k] != ""
    requires s == ScanState(Gap(words, k), words[..k + 1], "", None) || s == ScanState(Gap(words, k), words[..k], words[k], None)
    requires s.index < |text|
    ensures Scan(text, ranges, -1, s) == Scan(text, ranges, -1, AtWord(words, k + 1))
  {
    UncoveredInLayout(words, ranges, k, |words[k]|);
    assert text[Gap(words, k)] == WHITESPACE;
    AdvancePastGap(text, ranges, words, k, s);
    ScanAdvance(text, ranges, -1, s);
  }

  /** The space after a word closes it and the scan moves to the next
      word. */
  lemma AdvancePastGap(text: string, ranges: seq<Range>, words: seq<string>, k: nat, s: ScanState)
    requires Tokenizable(text, ranges) && k < |words| - 1 && words[k] != ""
    requires Gap(words, k) < |text| && text[Gap(words, k)] == WHITESPACE
    requires IsPartOfJoinedTextRanges(ranges, Gap(words, k)) == None
    requires s == ScanState(Gap(words, k), words[..k + 1], "", None) || s == ScanState(Gap(words, k), words[..k], words[k], None)
    ensures Advance(text, ranges, -1, s) == AtWord(words, k + 1)
  {
    assert words[..k] + [words[k]] == words[..k + 1];
  }

  /** A word that `setWords` writes and the tokeniser reads back as it was:
      compound (it gets a joined range), or a plain word. */
  predicate Rereadable(word: string) {
    IsCompoundText(word) || IsPlainWord(word)
  }

  /** From the start of the `k`-th word the tokeniser reads exactly that
      word and moves on to the next one. */
  lemma ScanOneWord(text: string, ranges: seq<Range>, words: seq<string>, k: nat)
    requires Layout(text, ranges, words) && k < |words| && Rereadable(words[k])
    ensures Start(words, k) <= |text|
    ensures k < |words| - 1 ==> Start(words, k + 1) <= |text|
    ensures Scan(text, ranges, -1, AtWord(words, k)) == if k < |words| - 1 then Scan(text, ranges, -1, AtWord(words, k + 1)) else TextWords(words, text)
  {
    GapInText(text, words, k);
    if IsCompoundText(words[k]) {
      ScanCompoundWord(text, ranges, words, k);
    } else {
      ScanWholePlainWord(text, ranges, words, k);
    }
  }

  lemma ScanCompoundWord(text: string, ranges: seq<Range>, words: seq<string>, k: nat)
    requires Layout(text, ranges, words) && k < |words| && IsCompoundText(words[k])
    requires Gap(words, k) <= |text|
    ensures Scan(text, ranges, -1, AtWord(words, k)) == if k < |words| - 1 then Scan(text, ranges, -1, AtWord(words, k + 1)) else TextWords(words, text)
  {
    assert words[k] != "";
    CoveredInLayout(words, ranges, k);
    SpanHoldsWord(text, words, k);
    var s := ScanState(Gap(words, k), words[..k + 1], "", None);
    assert Advance(text, ranges, -1, AtWord(words, k)) == s by {
      assert words[..k] + [words[k]] == words[..k + 1];
    }
    ScanAdvance(text, ranges, -1, AtWord(words, k));
    ScanAfterWord(text, ranges, words, k, s);
  }

  lemma ScanWholePlainWord(text: string, ranges: seq<Range>, words: seq<string>, k: nat)
    requires Layout(text, ranges, words) && k < |words| && IsPlainWord(words[k]) && !IsCompoundText(words[k])
    requires Gap(words, k) <= |text|
    ensures Scan(text, ranges, -1, AtWord(words, k)) == if k < |words| - 1 then Scan(text, ranges, -1, AtWord(words, k + 1)) else TextWords(words, text)
  {
    var w := words[k];
    assert AtWord(words, k) == InWord(words, k, 0);
    ScanPlainWord(text, ranges, words, k, 0);
    var s := ScanState(Gap(words, k), words[..k], w, None);
    assert InWord(words, k, |w|) == s by {
      assert w[..|w|] == w;
    }
    ScanAfterWord(text, ranges, words, k, s);
  }

  lemma {:induction false} ScanFromWord(text: string, ranges: seq<Range>, words: seq<string>, k: nat)
    requires Layout(text, ranges, words) && k < |words|
    requires forall j :: 0 <= j < |words| ==> Rereadable(words[j])
    ensures Start(words, k) <= |text|
    ensures Scan(text, ranges, -1, AtWord(words, k)) == TextWords(words, text)
    decreases |words| - k
  {
    ScanOneWord(text, ranges, words, k);
    if k < |words| - 1 {
      ScanFromWord(text, ranges, words, k + 1);
    }
  }

  /** `getTextWords` reads back the words `setWords` was given, as long as
      each of them is compound or a plain word. */
  lemma SetWordsRoundTrip(words: seq<string>)
    requires forall k :: 0 <= k < |words| ==> Rereadable(words[k])
    ensures WellFormed(SetWords(words))
    ensures GetTextWords(SetWords(words).text, SetWords(words).ranges) == TextWords(words, SetWords(words).text)
  {
    SetWordsWellFormed(words);
    var f := SetWords(words);
    if |words| > 0 {
      ScanFromWord(f.text, f.ranges, words, 0);
      assert AtWord(words, 0) == ScanState(0, [], "", None);
    }
  }
}
