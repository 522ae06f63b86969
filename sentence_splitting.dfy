/** Sentence splitting that keeps abbreviations, initials and decimal
    numbers inside their sentence (text_processing/sentence_splitting.rs;
    audio/segmentation.rs carries the same splitter as
    `split_sentences_smart`). */
module SentenceSplitting {
  import opened Wrappers
  import opened Text
  import opened Normalization

  /** Words that a period may follow without ending the sentence. */
  const Abbreviations: seq<string> := [
    "Dr", "Mr", "Mrs", "Ms", "Prof", "Sr", "Jr", "Ph.D", "M.D", "B.A", "M.A", "B.S", "M.S", "etc",
    "i.e", "e.g", "vs", "Inc", "Corp", "Ltd", "Ave", "St", "Rd", "Blvd", "Mt"
  ]

  // ---------------------------------------------------------------------------
  // The word before a period
  // ---------------------------------------------------------------------------

  /** The index of the last whitespace character (`rfind` of `is_whitespace`). */
  function LastWhitespace(s: string): (r: Option<nat>)
    ensures r.Some? ==> r.value < |s|
    decreases |s|
  {
    if s == [] then None
    else if IsWhitespace(s[|s| - 1]) then Some(|s| - 1)
    else LastWhitespace(s[..|s| - 1])
  }

  /** `rfind` finds a whitespace character with none after it, and finds
      nothing only in text without whitespace. */
  lemma {:induction false} LastWhitespaceSpec(s: string)
    ensures LastWhitespace(s).Some? ==>
      IsWhitespace(s[LastWhitespace(s).value]) && NoWhitespace(s[LastWhitespace(s).value + 1..])
    ensures LastWhitespace(s).None? ==> NoWhitespace(s)
    decreases |s|
  {
    if s != [] && !IsWhitespace(s[|s| - 1]) {
      var p := s[..|s| - 1];
      LastWhitespaceSpec(p);
      match LastWhitespace(p) {
        case Some(k) =>
          assert s[k + 1..] == p[k + 1..] + [s[|s| - 1]];
        case None =>
          assert s == p + [s[|s| - 1]];
      }
    }
  }

  /** The characters after the last whitespace character, or all of `before`. */
  function LastWord(before: string): string {
    match LastWhitespace(before)
    case Some(k) => before[k + 1..]
    case None => before
  }

  /** A listed abbreviation in any ASCII case, or a single capital letter. */
  predicate AbbreviationWord(word: string) {
    (exists j :: 0 <= j < |Abbreviations| && EqIgnoreAsciiCase(word, Abbreviations[j]))
    || (|word| == 1 && IsAsciiUpper(word[0]))
  }

  /** `is_abbreviation` on the characters before a period, searching the
      list in order. */
  method IsAbbreviation(before: string) returns (b: bool)
    ensures b == AbbreviationWord(LastWord(before))
  {
    var word := LastWord(before);
    for k := 0 to |Abbreviations|
      invariant forall j :: 0 <= j < k ==> !EqIgnoreAsciiCase(word, Abbreviations[j])
    {
      if EqIgnoreAsciiCase(word, Abbreviations[k]) {
        return true;
      }
    }
    b := |word| == 1 && IsAsciiUpper(word[0]);
  }

  /** The word before a period is the longest whitespace-free tail of the
      text before it. */
  lemma LastWordSpec(before: string)
    ensures NoWhitespace(LastWord(before))
    ensures |LastWord(before)| <= |before|
    ensures LastWord(before) == before[|before| - |LastWord(before)|..]
    ensures |LastWord(before)| < |before| ==> IsWhitespace(before[|before| - |LastWord(before)| - 1])
  {
    LastWhitespaceSpec(before);
  }

  // ---------------------------------------------------------------------------
  // The splitter
  // ---------------------------------------------------------------------------

  predicate IsTerminator(c: char) {
    c == '.' || c == '!' || c == '?'
  }

  /** Whether the character at `i` ends a sentence: a `!` or `?`, or a period
      followed by whitespace and a capital letter, unless the period closes an
      abbreviation or sits between two digits. */
  predicate Closes(text: string, i: nat)
    requires i < |text|
  {
    var ch := text[i];
    var nextIsSpace := i + 1 < |text| && IsWhitespace(text[i + 1]);
    var afterSpaceIsCapital := i + 2 < |text| && IsAsciiUpper(text[i + 2]);
    var isAbbrev := ch == '.' && AbbreviationWord(LastWord(text[..i]));
    var isDecimal := ch == '.' && i > 0 && IsAsciiDigit(text[i - 1]) && i + 1 < |text| && IsAsciiDigit(text[i + 1]);
    IsTerminator(ch) && !isAbbrev && !isDecimal && ((nextIsSpace && afterSpaceIsCapital) || ch != '.')
  }

  /** Appends the trimmed sentence, unless it is blank. */
  function Push(sentences: seq<string>, current: string): seq<string> {
    if Trim(current) == [] then sentences else sentences + [Trim(current)]
  }

  /** After reading `n` characters: the sentences finished and the current one. */
  function Scan(text: string, n: nat): (seq<string>, string)
    requires n <= |text|
  {
    if n == 0 then ([], [])
    else
      var st := Scan(text, n - 1);
      Step(st.0, st.1, text[n - 1], Closes(text, n - 1))
  }

  /** Reading one character: it joins the current sentence, which is pushed
      when the character closes it. */
  function Step(done: seq<string>, cur: string, c: char, closes: bool): (seq<string>, string) {
    if closes then (Push(done, cur + [c]), []) else (done, cur + [c])
  }

  function Sentences(text: string): seq<string> {
    var (done, cur) := Scan(text, |text|);
    Push(done, cur)
  }

  /** The boundary test of `split_sentences` at character `i`. */
  method ClosesAt(text: string, i: nat) returns (close: bool)
    requires i < |text|
    ensures close == Closes(text, i)
  {
    var ch := text[i];
    close := false;
    if ch == '.' || ch == '!' || ch == '?' {
      var nextIsSpace := i + 1 < |text| && IsWhitespace(text[i + 1]);
      var afterSpaceIsCapital := i + 2 < |text| && IsAsciiUpper(text[i + 2]);
      var isAbbrev := false;
      if ch == '.' {
        isAbbrev := IsAbbreviation(text[..i]);
      }
      var prevIsDigit := i > 0 && IsAsciiDigit(text[i - 1]);
      var nextIsDigit := i + 1 < |text| && IsAsciiDigit(text[i + 1]);
      var isDecimal := ch == '.' && prevIsDigit && nextIsDigit;
      close := !isAbbrev && !isDecimal && ((nextIsSpace && afterSpaceIsCapital) || ch != '.');
    }
  }

  /** `split_sentences`. */
  method SplitSentences(text: string) returns (sentences: seq<string>)
    ensures sentences == Sentences(text)
  {
    sentences := [];
    var current: string := [];
    var i := 0;
    while i < |text|
      invariant 0 <= i <= |text|
      invariant (sentences, current) == Scan(text, i)
    {
      sentences, current := ReadChar(text, i, sentences, current);
      i := i + 1;
    }
    var sentence := Trim(current);
    if sentence != [] {
      sentences := sentences + [sentence];
    }
  }

  /** One pass of the loop of `split_sentences`: character `i` joins the
      current sentence, which is pushed when the character closes it. */
  method ReadChar(text: string, i: nat, sentences: seq<string>, current: string)
    returns (sentences': seq<string>, current': string)
    requires i < |text| && (sentences, current) == Scan(text, i)
    ensures (sentences', current') == Scan(text, i + 1)
  {
    ScanStep(text, i);
    var close := ClosesAt(text, i);
    sentences', current' := sentences, current + [text[i]];
    if close {
      var sentence := Trim(current');
      if sentence != [] {
        sentences' := sentences' + [sentence];
      }
      current' := [];
    }
  }

  lemma ScanStep(text: string, i: nat)
    requires i < |text|
    ensures var (done, cur) := Scan(text, i);
      Scan(text, i + 1) == Step(done, cur, text[i], Closes(text, i))
  {
  }

  // ---------------------------------------------------------------------------
  // Properties
  // ---------------------------------------------------------------------------

  predicate Trimmed(s: string) {
    s != [] && !IsWhitespace(s[0]) && !IsWhitespace(s[|s| - 1])
  }

  /** A string ending in a non-whitespace character keeps that last
      character when trimmed. */
  lemma TrimKeepsLast(s: string)
    requires s != [] && !IsWhitespace(s[|s| - 1])
    ensures Trim(s) != [] && Trim(s)[|Trim(s)| - 1] == s[|s| - 1]
  {
    var t := TrimStart(s);
    assert t[|t| - 1] == s[|s| - 1];
  }

  lemma PushFacts(done: seq<string>, cur: string)
    ensures Push(done, cur) == done || Push(done, cur) == done + [Trim(cur)]
    ensures NonWs(Concat(Push(done, cur))) == NonWs(Concat(done) + cur)
    ensures Push(done, cur) != done ==> Trimmed(Trim(cur))
  {
    NonWsConcat(Concat(done), cur);
    NonWsTrim(cur);
    TrimBlank(cur);
    if Trim(cur) == [] {
      NonWsEmpty(cur);
    } else {
      ConcatAppend(done, Trim(cur));
      NonWsConcat(Concat(done), Trim(cur));
    }
  }

  /** The sentences finished so far: trimmed, and each ends with its
      terminator. */
  predicate Finished(done: seq<string>) {
    done == [] || (Finished(done[..|done| - 1]) && Complete(done[|done| - 1]))
  }

  predicate Complete(s: string) {
    Trimmed(s) && IsTerminator(s[|s| - 1])
  }

  lemma {:induction false} FinishedAt(done: seq<string>, k: nat)
    requires Finished(done) && k < |done|
    ensures Complete(done[k])
    decreases |done|
  {
    if k < |done| - 1 {
      FinishedAt(done[..|done| - 1], k);
    }
  }

  lemma StepFinished(done: seq<string>, cur: string, c: char, closes: bool)
    requires Finished(done) && (closes ==> IsTerminator(c))
    ensures Finished(Step(done, cur, c, closes).0)
  {
    if closes {
      var cur' := cur + [c];
      if Trim(cur') != [] {
        TrimComplete(cur');
        FinishedPush(done, Trim(cur'));
      }
    }
  }

  /** A sentence closed by a terminator is complete once trimmed. */
  lemma TrimComplete(s: string)
    requires s != [] && IsTerminator(s[|s| - 1])
    ensures Complete(Trim(s))
  {
    TrimEnds(s);
    TrimKeepsLast(s);
  }

  lemma FinishedPush(done: seq<string>, t: string)
    requires Finished(done) && Complete(t)
    ensures Finished(done + [t])
  {
    assert (done + [t])[..|done|] == done;
  }

  lemma StepContent(done: seq<string>, cur: string, c: char, closes: bool)
    ensures NonWs(Concat(Step(done, cur, c, closes).0) + Step(done, cur, c, closes).1)
         == NonWs(Concat(done) + cur) + NonWs([c])
  {
    var cur' := cur + [c];
    assert Concat(done) + cur' == (Concat(done) + cur) + [c];
    NonWsConcat(Concat(done) + cur, [c]);
    if closes {
      PushFacts(done, cur');
      assert Concat(Push(done, cur')) + [] == Concat(Push(done, cur'));
    }
  }

  lemma {:induction false} ScanSentences(text: string, n: nat)
    requires n <= |text|
    ensures Finished(Scan(text, n).0)
  {
    if n > 0 {
      ScanSentences(text, n - 1);
      var st := Scan(text, n - 1);
      StepFinished(st.0, st.1, text[n - 1], Closes(text, n - 1));
    }
  }

  /** The scan loses no non-whitespace character. */
  lemma {:induction false} ScanContent(text: string, n: nat)
    requires n <= |text|
    ensures NonWs(Concat(Scan(text, n).0) + Scan(text, n).1) == NonWs(text[..n])
  {
    if n > 0 {
      ScanContent(text, n - 1);
      var (done, cur) := Scan(text, n - 1);
      var c := text[n - 1];
      assert text[..n] == text[..n - 1] + [c];
      NonWsConcat(text[..n - 1], [c]);
      StepContent(done, cur, c, Closes(text, n - 1));
    }
  }

  /** Every sentence is non-empty and trimmed. */
  lemma SentencesTrimmed(text: string)
    ensures forall k :: 0 <= k < |Sentences(text)| ==> Trimmed(Sentences(text)[k])
  {
    ScanSentences(text, |text|);
    var st := Scan(text, |text|);
    PushFacts(st.0, st.1);
    forall k | 0 <= k < |Sentences(text)| ensures Trimmed(Sentences(text)[k]) {
      if k < |st.0| {
        FinishedAt(st.0, k);
      }
    }
  }

  /** Every sentence but the last ends with `.`, `!` or `?`. */
  lemma SentencesTerminated(text: string)
    ensures forall k :: 0 <= k < |Sentences(text)| - 1 ==> Complete(Sentences(text)[k])
  {
    ScanSentences(text, |text|);
    var st := Scan(text, |text|);
    PushFacts(st.0, st.1);
    var ss := Sentences(text);
    forall k | 0 <= k < |ss| - 1 ensures Complete(ss[k]) {
      assert ss[k] == st.0[k];
      FinishedAt(st.0, k);
    }
  }

  /** The sentences hold every non-whitespace character of the text, in
      order. */
  lemma SentencesContent(text: string)
    ensures NonWs(Concat(Sentences(text))) == NonWs(text)
  {
    ScanContent(text, |text|);
    var st := Scan(text, |text|);
    PushFacts(st.0, st.1);
    assert text[..|text|] == text;
  }

  /** Blank text has no sentences, and text with any other character has at
      least one. */
  lemma SentencesBlank(text: string)
    ensures Sentences(text) == [] <==> AllWhitespace(text)
  {
    SentencesTrimmed(text);
    SentencesContent(text);
    NonWsEmpty(text);
    var ss := Sentences(text);
    if ss != [] {
      assert Concat(ss) == ss[0] + Concat(ss[1..]);
      NonWsConcat(ss[0], Concat(ss[1..]));
      assert NonWs(ss[0]) != [] by {
        NonWsEmpty(ss[0]);
      }
    }
  }

  /** With no terminator the scan never closes a sentence. */
  lemma {:induction false} ScanWithoutTerminator(text: string, n: nat)
    requires n <= |text|
    requires forall i :: 0 <= i < |text| ==> !IsTerminator(text[i])
    ensures Scan(text, n) == ([], text[..n])
  {
    if n > 0 {
      ScanWithoutTerminator(text, n - 1);
      assert text[..n] == text[..n - 1] + [text[n - 1]];
    }
  }

  /** Text without `.`, `!` or `?` is one sentence, trimmed. */
  lemma SentencesWithoutTerminator(text: string)
    requires forall i :: 0 <= i < |text| ==> !IsTerminator(text[i])
    ensures Sentences(text) == if Trim(text) == [] then [] else [Trim(text)]
  {
    ScanWithoutTerminator(text, |text|);
    assert text[..|text|] == text;
  }

  /** A `!` or `?` always ends its sentence, whatever follows. */
  lemma ExclamationCloses(text: string, i: nat)
    requires i < |text| && (text[i] == '!' || text[i] == '?')
    ensures Closes(text, i)
    ensures Scan(text, i + 1).1 == []
  {
  }

  /** A period after a listed abbreviation never ends a sentence. */
  lemma AbbreviationDoesNotClose(text: string, i: nat, j: nat)
    requires i < |text| && text[i] == '.' && j < |Abbreviations|
    requires EqIgnoreAsciiCase(LastWord(text[..i]), Abbreviations[j])
    ensures !Closes(text, i)
  {
  }

  /** A period between two digits never ends a sentence. */
  lemma DecimalDoesNotClose(text: string, i: nat)
    requires 0 < i && i + 1 < |text| && text[i] == '.'
    requires IsAsciiDigit(text[i - 1]) && IsAsciiDigit(text[i + 1])
    ensures !Closes(text, i)
  {
  }

  // ---------------------------------------------------------------------------
  // The abbreviation check as called
  // ---------------------------------------------------------------------------

  /** `is_abbreviation(&text[..i + 1], i)` as written: the character index
      `i` is used as a byte offset twice, and the word starts one byte after
      the last whitespace character. Each slice panics off a character
      boundary. */
  function AbbreviationAsWritten(text: string, i: nat): Outcome<bool> {
    match ByteSlice(text, 0, i + 1)
    case Panicked => Panicked
    case Returned(prefix) =>
      match ByteSlice(prefix, 0, i)
      case Panicked => Panicked
      case Returned(before) =>
        match WordAsWritten(before)
        case Panicked => Panicked
        case Returned(word) => Returned(AbbreviationWord(word))
  }

  function WordAsWritten(before: string): Outcome<string> {
    match LastWhitespace(before)
    case Some(k) => ByteSlice(before, ByteOffset(before, k) + 1, ByteLen(before))
    case None => Returned(before)
  }

  lemma AsciiOffset(s: string, k: nat)
    requires IsAscii(s) && k <= |s|
    ensures ByteOffset(s, k) == k
  {
    ByteLenAscii(s[..k]);
  }

  /** On ASCII text byte offsets are character indices, so the slices land
      where characters start. */
  lemma AsciiSlice(s: string, a: nat, b: nat)
    requires IsAscii(s) && a <= b <= |s|
    ensures ByteSlice(s, a, b) == Returned(s[a..b])
  {
    AsciiOffset(s, a);
    AsciiOffset(s, b);
    ByteSliceAt(s, a, b);
  }

  /** On ASCII text the check as called agrees with the check on the
      characters before the period. */
  lemma AbbreviationAsciiAgrees(text: string, i: nat)
    requires IsAscii(text) && i < |text|
    ensures AbbreviationAsWritten(text, i) == Returned(AbbreviationWord(LastWord(text[..i])))
  {
    AsciiSlice(text, 0, i + 1);
    var prefix := text[..i + 1];
    assert text[0..i + 1] == prefix;
    AsciiSlice(prefix, 0, i);
    assert prefix[0..i] == text[..i];
    WordAsciiAgrees(text[..i]);
  }

  lemma WordAsciiAgrees(before: string)
    requires IsAscii(before)
    ensures WordAsWritten(before) == Returned(LastWord(before))
  {
    match LastWhitespace(before) {
      case Some(k) =>
        AsciiOffset(before, k);
        ByteLenAscii(before);
        AsciiSlice(before, k + 1, |before|);
        assert before[k + 1..|before|] == before[k + 1..];
        assert WordAsWritten(before) == ByteSlice(before, k + 1, |before|);
      case None =>
    }
  }

  /** A period after a two-byte letter, as in "café. The", makes the check
      as called slice through that letter, so the splitter panics. */
  lemma AbbreviationAsWrittenPanics()
    ensures AbbreviationAsWritten("café. The", 4) == Panicked
  {
    var text := "café. The";
    assert text[..4] == "café";
    assert ByteOffset(text, 4) == 5;
    CharBoundaryAt(text, 4);
    assert ByteSlice(text, 0, 5) == Returned(text[..4]);
    var prefix := "café";
    assert prefix[1..][1..][1..] == "é";
    assert CharIndexOf(prefix, 4) == None;
  }

  /** Off ASCII the slices can also land on a boundary at the wrong place:
      in "\U{00E9} Jo. Bob" the check as called reads the word "J", a
      single capital, and keeps the sentence going, while the period after
      "Jo" ends a sentence. */
  lemma AbbreviationAsWrittenShifted()
    ensures AbbreviationAsWritten("\U{00E9} Jo. Bob", 4) == Returned(true)
    ensures Closes("\U{00E9} Jo. Bob", 4)
  {
    var text := "\U{00E9} Jo. Bob";
    assert text[..5] == "\U{00E9} Jo.";
    assert ByteOffset(text, 5) == 6 by {
      ByteOffsetSlice(text, 0, 5);
      assert text[..0] == [];
    }
    var prefix := text[..4];
    assert prefix == "\U{00E9} Jo";
    ShiftedPrefix(text);
    ShiftedWord(prefix);
    assert LastWord(text[..4]) == "Jo";
    assert ToLower("Jo")[1] == 'o';
    forall j | 0 <= j < |Abbreviations| ensures !EqIgnoreAsciiCase("Jo", Abbreviations[j]) {
      NoSecondO(j);
    }
  }

  /** No two-letter abbreviation has `o` second. */
  lemma NoSecondO(j: nat)
    requires j < |Abbreviations|
    ensures |Abbreviations[j]| == 2 ==> ToLower(Abbreviations[j])[1] != 'o'
  {
    var w := Abbreviations[j];
    if |w| == 2 {
      assert ToLower(w)[1] == AsciiLower(w[1]);
      assert w[1] in "rstd";
    }
  }

  lemma ShiftedPrefix(text: string)
    requires text == "\U{00E9} Jo. Bob"
    ensures ByteSlice(text, 0, 5) == Returned(text[..4])
  {
    assert text[..4][..3] == text[..3];
    ByteOffsetStep(text, 0);
    ByteOffsetStep(text, 1);
    ByteOffsetStep(text, 2);
    ByteOffsetStep(text, 3);
    assert text[..0] == [];
    CharBoundaryAt(text, 4);
    CharBoundaryAt(text, 0);
  }

  lemma ShiftedWord(prefix: string)
    requires prefix == "\U{00E9} Jo"
    ensures ByteSlice(prefix, 0, 4) == Returned("\U{00E9} J")
    ensures WordAsWritten("\U{00E9} J") == Returned("J")
  {
    ByteOffsetStep(prefix, 0);
    ByteOffsetStep(prefix, 1);
    ByteOffsetStep(prefix, 2);
    assert prefix[..0] == [];
    CharBoundaryAt(prefix, 3);
    CharBoundaryAt(prefix, 0);
    assert prefix[..3] == "\U{00E9} J";
    ShiftedLastWord("\U{00E9} J");
  }

  lemma ShiftedLastWord(before: string)
    requires before == "\U{00E9} J"
    ensures WordAsWritten(before) == Returned("J")
  {
    assert before[..2] == "\U{00E9} ";
    assert LastWhitespace(before) == Some(1);
    ByteOffsetStep(before, 0);
    ByteOffsetStep(before, 1);
    ByteOffsetStep(before, 2);
    assert before[..0] == [];
    assert before[..3] == before;
    CharBoundaryAt(before, 2);
    CharBoundaryAt(before, 3);
  }
}
