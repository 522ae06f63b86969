/** Word and phrase segmentation for timing metadata (audio/segmentation.rs):
    configuration presets, dash and quote clean-up, two word segmenters and
    phrase segmentation that splits long sentences or clauses into chunks
    of at most `max_phrase_words` words. */
module Segmentation {
  import opened Wrappers
  import opened Text
  import opened Normalization
  import opened SentenceSplitting

  datatype SegmentationConfig = SegmentationConfig(
    maxPhraseWords: nat,
    normalizeUnicode: bool,
    respectCommaBoundaries: bool,
    separatePunctuation: bool,
    emdashAsBoundary: bool)

  /** The preset for speech, which is also the default configuration. */
  const ForTts := SegmentationConfig(8, true, true, false, false)
  const ForLinguisticAnalysis := SegmentationConfig(10, true, true, true, false)
  const ForSubtitles := SegmentationConfig(6, true, true, false, true)
  const ForReading := SegmentationConfig(12, true, false, false, false)

  // ---------------------------------------------------------------------------
  // Character clean-up
  // ---------------------------------------------------------------------------

  const EmDash: char := '\U{2014}'
  const EnDash: char := '\U{2013}'

  /** Marks that become an ASCII apostrophe. */
  const SingleQuoteMarks: set<char> := {
    '\U{2018}', '\U{2019}', '\U{02BC}', '\U{02BB}', '\U{02BD}',
    '\U{02C8}', '\U{02CA}', '\U{02CB}', '\U{0060}', '\U{00B4}'
  }

  /** Marks that become an ASCII double quote. */
  const DoubleQuoteMarks: set<char> := { '\U{201C}', '\U{201D}', '\U{201E}', '\U{201F}' }

  /** `preprocess_dashes`: an em dash becomes a sentence break ". " when dashes
      are boundaries, and every other dash becomes a hyphen. */
  function PreprocessDashes(text: string, emdashAsBoundary: bool): string {
    if emdashAsBoundary then ReplaceChars(ReplaceChars(text, {EmDash}, ". "), {EnDash}, "-")
    else ReplaceChars(text, {EnDash, EmDash}, "-")
  }

  /** `normalize_unicode`: quote marks become ASCII quotes, the ellipsis
      character becomes three periods, and then four periods become three. */
  function NormalizeUnicode(text: string): string {
    var quotes := ReplaceChars(ReplaceChars(text, SingleQuoteMarks, "'"), DoubleQuoteMarks, "\"");
    Replace(ReplaceChars(quotes, {Ellipsis}, "..."), "....", "...")
  }

  /** Dash handling works character by character: it distributes over
      concatenation, and each dash becomes the text its mode gives it. */
  lemma PreprocessDashesSpec(a: string, b: string, emdashAsBoundary: bool)
    ensures PreprocessDashes(a + b, emdashAsBoundary) == PreprocessDashes(a, emdashAsBoundary) + PreprocessDashes(b, emdashAsBoundary)
    ensures PreprocessDashes([EmDash], emdashAsBoundary) == if emdashAsBoundary then ". " else "-"
    ensures PreprocessDashes([EnDash], emdashAsBoundary) == "-"
    ensures (forall i :: 0 <= i < |a| ==> a[i] != EmDash && a[i] != EnDash) ==> PreprocessDashes(a, emdashAsBoundary) == a
  {
    assert ReplaceChars([EmDash], {EmDash}, ". ") == ". " + ReplaceChars([], {EmDash}, ". ");
    assert ReplaceChars([EnDash], {EmDash}, ". ") == [EnDash] + ReplaceChars([], {EmDash}, ". ");
    assert ReplaceChars([EnDash], {EnDash}, "-") == "-" + ReplaceChars([], {EnDash}, "-");
    assert ReplaceChars([EmDash], {EnDash, EmDash}, "-") == "-" + ReplaceChars([], {EnDash, EmDash}, "-");
    assert ReplaceChars([EnDash], {EnDash, EmDash}, "-") == "-" + ReplaceChars([], {EnDash, EmDash}, "-");
    if emdashAsBoundary {
      ReplaceCharsConcat(a, b, {EmDash}, ". ");
      ReplaceCharsConcat(ReplaceChars(a, {EmDash}, ". "), ReplaceChars(b, {EmDash}, ". "), {EnDash}, "-");
      assert ReplaceChars(". ", {EnDash}, "-") == ". " by {
        ReplaceCharsAbsent(". ", {EnDash}, "-");
      }
      assert ReplaceChars([EmDash], {EmDash}, ". ") == ". ";
    } else {
      ReplaceCharsConcat(a, b, {EnDash, EmDash}, "-");
    }
    if forall i :: 0 <= i < |a| ==> a[i] != EmDash && a[i] != EnDash {
      ReplaceCharsAbsent(a, {EmDash}, ". ");
      ReplaceCharsAbsent(a, {EnDash}, "-");
      ReplaceCharsAbsent(a, {EnDash, EmDash}, "-");
    }
  }

  /** No dash survives either mode. */
  lemma PreprocessDashesClean(text: string, emdashAsBoundary: bool)
    ensures EnDash !in PreprocessDashes(text, emdashAsBoundary)
    ensures EmDash !in PreprocessDashes(text, emdashAsBoundary)
  {
    ReplaceCharsContent(text, {EmDash}, ". ");
    ReplaceCharsContent(ReplaceChars(text, {EmDash}, ". "), {EnDash}, "-");
    ReplaceCharsContent(text, {EnDash, EmDash}, "-");
  }

  predicate FancyMark(c: char) {
    c in SingleQuoteMarks || c in DoubleQuoteMarks || c == Ellipsis
  }

  /** No listed quote mark and no ellipsis character is left. */
  lemma NormalizeUnicodeClean(text: string)
    ensures forall c :: c in NormalizeUnicode(text) ==> !FancyMark(c)
  {
    var s1 := ReplaceChars(text, SingleQuoteMarks, "'");
    var s2 := ReplaceChars(s1, DoubleQuoteMarks, "\"");
    var s3 := ReplaceChars(s2, {Ellipsis}, "...");
    ReplaceCharsClears(text, SingleQuoteMarks, "'");
    ReplaceCharsClears(s1, DoubleQuoteMarks, "\"");
    ReplaceCharsKeepsOut(s1, DoubleQuoteMarks, "\"", SingleQuoteMarks);
    ReplaceCharsClears(s2, {Ellipsis}, "...");
    ReplaceCharsKeepsOut(s2, {Ellipsis}, "...", SingleQuoteMarks);
    ReplaceCharsKeepsOut(s2, {Ellipsis}, "...", DoubleQuoteMarks);
    ReplaceContent(s3, "....", "...");
  }

  lemma ReplaceCharsClears(s: string, cs: set<char>, rep: string)
    requires forall c :: c in rep ==> c !in cs
    ensures forall c :: c in ReplaceChars(s, cs, rep) ==> c !in cs
  {
    ReplaceCharsContent(s, cs, rep);
  }

  lemma ReplaceCharsKeepsOut(s: string, cs: set<char>, rep: string, bad: set<char>)
    requires forall c :: c in s ==> c !in bad
    requires forall c :: c in rep ==> c !in bad
    ensures forall c :: c in ReplaceChars(s, cs, rep) ==> c !in bad
  {
    ReplaceCharsContent(s, cs, rep);
  }

  /** Text without those marks and without four periods in a row is left
      as it is. */
  lemma NormalizeUnicodePlain(text: string)
    requires forall i :: 0 <= i < |text| ==> !FancyMark(text[i])
    requires !Contains(text, "....")
    ensures NormalizeUnicode(text) == text
  {
    ReplaceCharsAbsent(text, SingleQuoteMarks, "'");
    ReplaceCharsAbsent(text, DoubleQuoteMarks, "\"");
    ReplaceCharsAbsent(text, {Ellipsis}, "...");
    ReplaceAbsent(text, "....", "...");
  }

  // ---------------------------------------------------------------------------
  // Word segmentation
  // ---------------------------------------------------------------------------

  /** `segment_words_preserve_punctuation`: whitespace ends a word; every
      other character is added to it. */
  method SegmentWordsPreservePunctuation(text: string) returns (words: seq<string>)
    ensures words == SplitWhitespace(text)
  {
    words := [];
    var current: string := [];
    for i := 0 to |text|
      invariant (words, current) == WordScan(text[..i])
    {
      assert text[..i + 1][..i] == text[..i];
      var ch := text[i];
      if IsWhitespace(ch) {
        if current != [] {
          words := words + [current];
          current := [];
        }
      } else {
        current := current + [ch];
      }
    }
    assert text[..|text|] == text;
    if current != [] {
      words := words + [current];
    }
  }

  /** Sentence punctuation and other punctuation, each split off as a token. */
  predicate IsPunctuation(c: char) {
    c == '.' || c == '!' || c == '?'
    || c == ',' || c == ';' || c == ':' || c == '"' || c == '\'' || c == '(' || c == ')'
    || c == '[' || c == ']' || c == '{' || c == '}'
  }

  function Flush(done: seq<string>, cur: string): seq<string> {
    if cur == [] then done else done + [cur]
  }

  /** Reads `s` left to right: the tokens completed so far and the word being
      read. Whitespace ends the word; punctuation ends it and is a token of
      its own. */
  function TokenScan(s: string): (seq<string>, string)
    decreases |s|
  {
    if s == [] then ([], [])
    else
      var st := TokenScan(s[..|s| - 1]);
      var c := s[|s| - 1];
      if IsWhitespace(c) then (Flush(st.0, st.1), [])
      else if IsPunctuation(c) then (Flush(st.0, st.1) + [[c]], [])
      else (st.0, st.1 + [c])
  }

  function SeparatedTokens(s: string): seq<string> {
    Flush(TokenScan(s).0, TokenScan(s).1)
  }

  /** `segment_words_separate_punctuation`. */
  method SegmentWordsSeparatePunctuation(text: string) returns (words: seq<string>)
    ensures words == SeparatedTokens(text)
  {
    words := [];
    var current: string := [];
    for i := 0 to |text|
      invariant (words, current) == TokenScan(text[..i])
    {
      assert text[..i + 1][..i] == text[..i];
      var ch := text[i];
      if IsWhitespace(ch) {
        if current != [] {
          words := words + [current];
          current := [];
        }
      } else if IsPunctuation(ch) {
        if current != [] {
          words := words + [current];
          current := [];
        }
        words := words + [[ch]];
      } else {
        current := current + [ch];
      }
    }
    assert text[..|text|] == text;
    if current != [] {
      words := words + [current];
    }
  }

  predicate NoPunctuation(w: string) {
    forall i :: 0 <= i < |w| ==> !IsPunctuation(w[i])
  }

  /** A token is a word free of punctuation, or one punctuation character. */
  predicate IsToken(t: string) {
    IsWord(t) && (NoPunctuation(t) || (|t| == 1 && IsPunctuation(t[0])))
  }

  lemma FlushFacts(done: seq<string>, cur: string)
    requires forall k :: 0 <= k < |done| ==> IsToken(done[k])
    requires NoWhitespace(cur) && NoPunctuation(cur)
    ensures forall k :: 0 <= k < |Flush(done, cur)| ==> IsToken(Flush(done, cur)[k])
    ensures Concat(Flush(done, cur)) == Concat(done) + cur
  {
    if cur != [] {
      ConcatAppend(done, cur);
    }
  }

  lemma {:induction false} TokenScanInvariant(s: string)
    ensures forall k :: 0 <= k < |TokenScan(s).0| ==> IsToken(TokenScan(s).0[k])
    ensures NoWhitespace(TokenScan(s).1) && NoPunctuation(TokenScan(s).1)
    ensures Concat(TokenScan(s).0) + TokenScan(s).1 == NonWs(s)
    decreases |s|
  {
    if s != [] {
      var p := s[..|s| - 1];
      var c := s[|s| - 1];
      TokenScanInvariant(p);
      assert s == p + [c];
      NonWsConcat(p, [c]);
      var st := TokenScan(p);
      FlushFacts(st.0, st.1);
      if !IsWhitespace(c) && IsPunctuation(c) {
        ConcatAppend(Flush(st.0, st.1), [c]);
      }
    }
  }

  /** Every token is a punctuation-free word or a single punctuation
      character, and the tokens concatenate to the input without its
      whitespace, so each punctuation character is a token of its own. */
  lemma SeparatedTokensSpec(s: string)
    ensures forall k :: 0 <= k < |SeparatedTokens(s)| ==> IsToken(SeparatedTokens(s)[k])
    ensures Concat(SeparatedTokens(s)) == NonWs(s)
  {
    TokenScanInvariant(s);
    FlushFacts(TokenScan(s).0, TokenScan(s).1);
  }

  /** The words `segment_words_with_config` returns. */
  function WordsWithConfig(text: string, config: SegmentationConfig): seq<string> {
    var t := if config.normalizeUnicode then NormalizeUnicode(text) else text;
    if config.separatePunctuation then SeparatedTokens(t) else SplitWhitespace(t)
  }

  /** `segment_words_with_config`. */
  method SegmentWordsWithConfig(text: string, config: SegmentationConfig) returns (words: seq<string>)
    ensures words == WordsWithConfig(text, config)
  {
    var t := if config.normalizeUnicode then NormalizeUnicode(text) else text;
    if config.separatePunctuation {
      words := SegmentWordsSeparatePunctuation(t);
    } else {
      words := SegmentWordsPreservePunctuation(t);
    }
  }

  /** `segment_words`, with the default configuration. */
  method SegmentWords(text: string) returns (words: seq<string>)
    ensures words == WordsWithConfig(text, ForTts)
  {
    words := SegmentWordsWithConfig(text, ForTts);
  }

  lemma OccursAtHead(s: string, p: string, k: nat)
    requires p != [] && OccursAt(s, p, k)
    ensures s[k] == p[0]
  {
    assert s[k..k + |p|][0] == s[k];
  }

  lemma BlankPlain(text: string)
    requires AllWhitespace(text)
    ensures NormalizeUnicode(text) == text
  {
    forall i | 0 <= i < |text| ensures !FancyMark(text[i]) {
      assert IsWhitespace(text[i]);
    }
    if Contains(text, "....") {
      OccursAtHead(text, "....", Find(text, "....").value);
      assert false;
    }
    NormalizeUnicodePlain(text);
  }

  /** Every configuration yields non-empty, whitespace-free tokens that
      concatenate to the prepared text without its whitespace; blank text
      yields none. */
  lemma WordsWithConfigSpec(text: string, config: SegmentationConfig)
    ensures forall k :: 0 <= k < |WordsWithConfig(text, config)| ==> IsWord(WordsWithConfig(text, config)[k])
    ensures Concat(WordsWithConfig(text, config)) == NonWs(if config.normalizeUnicode then NormalizeUnicode(text) else text)
    ensures AllWhitespace(text) ==> WordsWithConfig(text, config) == []
  {
    var t := if config.normalizeUnicode then NormalizeUnicode(text) else text;
    SeparatedTokensSpec(t);
    SplitWhitespaceWords(t);
    var ws := WordsWithConfig(text, config);
    forall k | 0 <= k < |ws| ensures IsWord(ws[k]) {
      if !config.separatePunctuation {
        assert ws[k] in SplitWhitespace(t);
      }
    }
    if AllWhitespace(text) {
      BlankPlain(text);
      NonWsEmpty(text);
    }
  }

  // ---------------------------------------------------------------------------
  // Chunks of words
  // ---------------------------------------------------------------------------

  /** `chunks(n)`: consecutive groups of `n`, the last one possibly shorter. */
  function Chunks(words: seq<string>, n: nat): seq<seq<string>>
    requires n > 0
    decreases |words|
  {
    if words == [] then []
    else if |words| <= n then [words]
    else [words[..n]] + Chunks(words[n..], n)
  }

  function Flatten(cs: seq<seq<string>>): seq<string> {
    if cs == [] then [] else cs[0] + Flatten(cs[1..])
  }

  /** The chunks hold the words in order; each has between one and `n`
      words, and all but the last exactly `n`. */
  lemma {:induction false} ChunksSpec(words: seq<string>, n: nat)
    requires n > 0
    ensures Flatten(Chunks(words, n)) == words
    ensures forall k :: 0 <= k < |Chunks(words, n)| ==> 1 <= |Chunks(words, n)[k]| <= n
    ensures forall k :: 0 <= k < |Chunks(words, n)| - 1 ==> |Chunks(words, n)[k]| == n
    decreases |words|
  {
    if |words| > n {
      ChunksSpec(words[n..], n);
      var cs := Chunks(words, n);
      assert cs[1..] == Chunks(words[n..], n);
      assert words == words[..n] + words[n..];
    }
  }

  /** Every word of a chunk is a word of the input. */
  lemma {:induction false} ChunkWords(words: seq<string>, n: nat, k: nat)
    requires n > 0 && k < |Chunks(words, n)|
    ensures forall w :: w in Chunks(words, n)[k] ==> w in words
    decreases |words|
  {
    if |words| > n && k > 0 {
      ChunkWords(words[n..], n, k - 1);
    }
  }

  /** Each chunk joined by single spaces. */
  function JoinAll(cs: seq<seq<string>>): (r: seq<string>)
    ensures |r| == |cs|
  {
    seq(|cs|, i requires 0 <= i < |cs| => Join(cs[i], " "))
  }

  lemma {:induction false} JoinAllWords(cs: seq<seq<string>>)
    requires forall k, w :: 0 <= k < |cs| && w in cs[k] ==> IsWord(w)
    ensures WordsOf(JoinAll(cs)) == Flatten(cs)
    ensures forall k :: 0 <= k < |cs| ==> SplitWhitespace(JoinAll(cs)[k]) == cs[k]
    decreases |cs|
  {
    forall k | 0 <= k < |cs| ensures SplitWhitespace(JoinAll(cs)[k]) == cs[k] {
      forall j | 0 <= j < |cs[k]| ensures IsWord(cs[k][j]) {
        assert cs[k][j] in cs[k];
      }
      SplitJoin(cs[k]);
    }
    if cs != [] {
      JoinAllWords(cs[1..]);
      assert JoinAll(cs)[1..] == JoinAll(cs[1..]);
    }
  }

  // ---------------------------------------------------------------------------
  // Phrases
  // ---------------------------------------------------------------------------

  /** The phrases of one sentence or clause: the piece itself when it has at
      most `maxWords` words, else its word chunks joined by spaces. Chunking
      by zero words panics. */
  function PhrasesOf(piece: string, maxWords: nat): Outcome<seq<string>> {
    var words := SplitWhitespace(piece);
    if |words| <= maxWords then Returned([piece])
    else if maxWords == 0 then Panicked
    else Returned(JoinAll(Chunks(words, maxWords)))
  }

  /** Appends the results of `f` on each piece, one piece after another;
      the first panic ends the run. */
  function Collect(f: string -> Outcome<seq<string>>, pieces: seq<string>): Outcome<seq<string>> {
    if pieces == [] then Returned([])
    else Extend(Collect(f, pieces[..|pieces| - 1]), f(pieces[|pieces| - 1]))
  }

  function PhraseMap(maxWords: nat): string -> Outcome<seq<string>> {
    piece => PhrasesOf(piece, maxWords)
  }

  /** The phrases of `pieces`, one piece after another. */
  function PhrasesOfAll(pieces: seq<string>, maxWords: nat): Outcome<seq<string>> {
    Collect(PhraseMap(maxWords), pieces)
  }

  function Extend(o: Outcome<seq<string>>, more: Outcome<seq<string>>): Outcome<seq<string>> {
    match o
    case Panicked => Panicked
    case Returned(ps) =>
      match more
      case Panicked => Panicked
      case Returned(qs) => Returned(ps + qs)
  }

  predicate WithinWords(ps: seq<string>, maxWords: nat) {
    forall k :: 0 <= k < |ps| ==> |SplitWhitespace(ps[k])| <= maxWords
  }

  /** A piece with at most `maxWords` words is one phrase, verbatim; a longer
      one is split so that every phrase but the last has exactly `maxWords`
      words and none has more. The phrases keep the piece's words in order,
      and only a zero word limit with a non-blank piece panics. */
  lemma PhrasesOfSpec(piece: string, maxWords: nat)
    ensures PhrasesOf(piece, maxWords).Panicked? <==> maxWords == 0 && SplitWhitespace(piece) != []
    ensures |SplitWhitespace(piece)| <= maxWords ==> PhrasesOf(piece, maxWords) == Returned([piece])
    ensures PhrasesOf(piece, maxWords).Returned? ==> WithinWords(PhrasesOf(piece, maxWords).value, maxWords)
    ensures PhrasesOf(piece, maxWords).Returned? ==> WordsOf(PhrasesOf(piece, maxWords).value) == SplitWhitespace(piece)
    ensures |SplitWhitespace(piece)| > maxWords && PhrasesOf(piece, maxWords).Returned? ==>
      forall k :: 0 <= k < |PhrasesOf(piece, maxWords).value| - 1 ==> |SplitWhitespace(PhrasesOf(piece, maxWords).value[k])| == maxWords
  {
    var words := SplitWhitespace(piece);
    if |words| <= maxWords {
      assert WordsOf([piece]) == words + [];
    } else if maxWords > 0 {
      var cs := Chunks(words, maxWords);
      ChunksSpec(words, maxWords);
      SplitWhitespaceWords(piece);
      forall k, w | 0 <= k < |cs| && w in cs[k] ensures IsWord(w) {
        ChunkWords(words, maxWords, k);
      }
      JoinAllWords(cs);
    }
  }

  /** The phrases of many pieces keep within the word limit and keep the
      pieces' words in order; they panic only for a zero limit with some
      word to place. */
  lemma {:induction false} PhrasesOfAllSpec(pieces: seq<string>, maxWords: nat)
    ensures PhrasesOfAll(pieces, maxWords).Panicked? <==> maxWords == 0 && WordsOf(pieces) != []
    ensures PhrasesOfAll(pieces, maxWords).Returned? ==> WithinWords(PhrasesOfAll(pieces, maxWords).value, maxWords)
    ensures PhrasesOfAll(pieces, maxWords).Returned? ==> WordsOf(PhrasesOfAll(pieces, maxWords).value) == WordsOf(pieces)
    decreases |pieces|
  {
    if pieces != [] {
      var p := pieces[..|pieces| - 1];
      var last := pieces[|pieces| - 1];
      PhrasesOfAllSpec(p, maxWords);
      PhrasesOfSpec(last, maxWords);
      CollectStep(PhraseMap(maxWords), pieces, |pieces| - 1);
      assert pieces[..|pieces| - 1 + 1] == pieces;
      WordsOfLast(pieces);
      ExtendKeeps(PhrasesOfAll(p, maxWords), PhrasesOf(last, maxWords), WordsOf(p), SplitWhitespace(last), maxWords);
    }
  }

  lemma WordsOfLast(pieces: seq<string>)
    requires pieces != []
    ensures WordsOf(pieces) == WordsOf(pieces[..|pieces| - 1]) + SplitWhitespace(pieces[|pieces| - 1])
  {
    var p, last := pieces[..|pieces| - 1], pieces[|pieces| - 1];
    assert p + [last] == pieces;
    WordsOfAppend(p, [last]);
    var w := SplitWhitespace(last);
    assert [last][1..] == [];
    assert WordsOf([last]) == w + WordsOf([]);
    assert w + [] == w;
  }

  /** Appending two runs of phrases keeps the word limit and appends
      their words; it panics when either does. */
  lemma ExtendKeeps(a: Outcome<seq<string>>, b: Outcome<seq<string>>, wa: seq<string>, wb: seq<string>, maxWords: nat)
    requires a.Returned? ==> WithinWords(a.value, maxWords) && WordsOf(a.value) == wa
    requires b.Returned? ==> WithinWords(b.value, maxWords) && WordsOf(b.value) == wb
    ensures Extend(a, b).Panicked? <==> a.Panicked? || b.Panicked?
    ensures Extend(a, b).Returned? ==> WithinWords(Extend(a, b).value, maxWords) && WordsOf(Extend(a, b).value) == wa + wb
  {
    if a.Returned? && b.Returned? {
      var ps, qs := a.value, b.value;
      WordsOfAppend(ps, qs);
      forall k | 0 <= k < |ps + qs| ensures |SplitWhitespace((ps + qs)[k])| <= maxWords {
        if k < |ps| {
          assert (ps + qs)[k] == ps[k];
        } else {
          assert (ps + qs)[k] == qs[k - |ps|];
        }
      }
    }
  }

  lemma CollectStep(f: string -> Outcome<seq<string>>, pieces: seq<string>, i: nat)
    requires i < |pieces|
    ensures Collect(f, pieces[..i + 1]) == Extend(Collect(f, pieces[..i]), f(pieces[i]))
  {
    assert pieces[..i + 1][..i] == pieces[..i];
  }

  /** Once a prefix panics, so does the whole. */
  lemma {:induction false} CollectPanicPersists(f: string -> Outcome<seq<string>>, pieces: seq<string>, i: nat)
    requires i <= |pieces| && Collect(f, pieces[..i]).Panicked?
    ensures Collect(f, pieces).Panicked?
    decreases |pieces| - i
  {
    if i < |pieces| {
      CollectStep(f, pieces, i);
      CollectPanicPersists(f, pieces, i + 1);
    } else {
      assert pieces[..i] == pieces;
    }
  }

  /** Pushes the phrases of one piece after `phrases`: the piece itself, or
      its chunks joined by spaces. */
  method PushPhrases(phrases: seq<string>, piece: string, maxWords: nat) returns (r: Outcome<seq<string>>)
    ensures r == Extend(Returned(phrases), PhrasesOf(piece, maxWords))
  {
    var words := SegmentWordsPreservePunctuation(piece);
    if |words| <= maxWords {
      return Returned(phrases + [piece]);
    }
    if maxWords == 0 {
      return Panicked;
    }
    var cs := Chunks(words, maxWords);
    var out := phrases;
    for k := 0 to |cs|
      invariant out == phrases + JoinAll(cs)[..k]
    {
      out := out + [Join(cs[k], " ")];
    }
    assert JoinAll(cs)[..|cs|] == JoinAll(cs);
    r := Returned(out);
  }

  /** `segment_phrases_simple`. */
  function SimplePhrases(text: string, maxWords: nat): Outcome<seq<string>> {
    PhrasesOfAll(Sentences(text), maxWords)
  }

  method SegmentPhrasesSimple(text: string, maxWords: nat) returns (r: Outcome<seq<string>>)
    ensures r == SimplePhrases(text, maxWords)
  {
    var sentences := SplitSentences(text);
    var phrases: seq<string> := [];
    for i := 0 to |sentences|
      invariant PhrasesOfAll(sentences[..i], maxWords) == Returned(phrases)
    {
      CollectStep(PhraseMap(maxWords), sentences, i);
      var next := PushPhrases(phrases, sentences[i], maxWords);
      if next.Panicked? {
        CollectPanicPersists(PhraseMap(maxWords), sentences, i + 1);
        return Panicked;
      }
      phrases := next.value;
    }
    assert sentences[..|sentences|] == sentences;
    r := Returned(phrases);
  }

  /** The pieces of a sentence between commas and semicolons, trimmed, with
      blank ones dropped. */
  function Clauses(sentence: string): seq<string> {
    NonBlank(SplitOn(sentence, {',', ';'}))
  }

  function NonBlank(pieces: seq<string>): seq<string> {
    if pieces == [] then []
    else (if Trim(pieces[0]) == [] then [] else [Trim(pieces[0])]) + NonBlank(pieces[1..])
  }

  /** The results of `f` on each element, one after another. */
  function FlatMap(f: string -> seq<string>, ss: seq<string>): seq<string> {
    if ss == [] then [] else FlatMap(f, ss[..|ss| - 1]) + f(ss[|ss| - 1])
  }

  function CommaAwarePhrases(text: string, maxWords: nat): Outcome<seq<string>> {
    PhrasesOfAll(FlatMap(Clauses, Sentences(text)), maxWords)
  }

  lemma ExtendAssoc(x: Outcome<seq<string>>, y: Outcome<seq<string>>, z: Outcome<seq<string>>)
    ensures Extend(x, Extend(y, z)) == Extend(Extend(x, y), z)
  {
    if x.Returned? && y.Returned? && z.Returned? {
      assert x.value + (y.value + z.value) == (x.value + y.value) + z.value;
    }
  }

  /** The results on two runs of pieces are the results on each, one after
      the other. */
  lemma {:induction false} CollectConcat(f: string -> Outcome<seq<string>>, a: seq<string>, b: seq<string>)
    ensures Collect(f, a + b) == Extend(Collect(f, a), Collect(f, b))
    decreases |b|
  {
    if b == [] {
      assert a + b == a;
      match Collect(f, a) {
        case Returned(ps) => assert ps + [] == ps;
        case Panicked =>
      }
    } else {
      var b' := b[..|b| - 1];
      var last := b[|b| - 1];
      assert (a + b)[..|a + b| - 1] == a + b';
      assert (a + b)[|a + b| - 1] == last;
      CollectConcat(f, a, b');
      ExtendAssoc(Collect(f, a), Collect(f, b'), f(last));
    }
  }

  lemma {:induction false} FlatMapConcat(g: string -> seq<string>, a: seq<string>, b: seq<string>)
    ensures FlatMap(g, a + b) == FlatMap(g, a) + FlatMap(g, b)
    decreases |b|
  {
    if b == [] {
      assert a + b == a;
      assert FlatMap(g, a) + [] == FlatMap(g, a);
    } else {
      var b', last := b[..|b| - 1], b[|b| - 1];
      var ab := a + b;
      assert ab[..|ab| - 1] == a + b';
      assert ab[|ab| - 1] == last;
      assert FlatMap(g, ab) == FlatMap(g, a + b') + g(last);
      assert FlatMap(g, b) == FlatMap(g, b') + g(last);
      FlatMapConcat(g, a, b');
      var x, y, z := FlatMap(g, a), FlatMap(g, b'), g(last);
      assert (x + y) + z == x + (y + z);
    }
  }

  lemma CollectFlatMapStep(f: string -> Outcome<seq<string>>, g: string -> seq<string>, ss: seq<string>, i: nat)
    requires i < |ss|
    ensures Collect(f, FlatMap(g, ss[..i + 1])) == Extend(Collect(f, FlatMap(g, ss[..i])), Collect(f, g(ss[i])))
  {
    assert ss[..i + 1][..i] == ss[..i];
    CollectConcat(f, FlatMap(g, ss[..i]), g(ss[i]));
  }

  /** Once the pieces of a prefix panic, so do all. */
  lemma CollectFlatMapPanic(f: string -> Outcome<seq<string>>, g: string -> seq<string>, ss: seq<string>, i: nat)
    requires i <= |ss| && Collect(f, FlatMap(g, ss[..i])).Panicked?
    ensures Collect(f, FlatMap(g, ss)).Panicked?
  {
    assert ss == ss[..i] + ss[i..];
    FlatMapConcat(g, ss[..i], ss[i..]);
    CollectConcat(f, FlatMap(g, ss[..i]), FlatMap(g, ss[i..]));
  }

  /** The inner loop of `segment_phrases_comma_aware`: the phrases of each
      clause of one sentence, pushed after `phrases`. */
  method PushClauses(phrases: seq<string>, clauses: seq<string>, maxWords: nat) returns (r: Outcome<seq<string>>)
    ensures r == Extend(Returned(phrases), PhrasesOfAll(clauses, maxWords))
  {
    var out := phrases;
    assert phrases + [] == phrases;
    for j := 0 to |clauses|
      invariant Extend(Returned(phrases), PhrasesOfAll(clauses[..j], maxWords)) == Returned(out)
    {
      CollectStep(PhraseMap(maxWords), clauses, j);
      ExtendAssoc(Returned(phrases), PhrasesOfAll(clauses[..j], maxWords), PhrasesOf(clauses[j], maxWords));
      var next := PushPhrases(out, clauses[j], maxWords);
      if next.Panicked? {
        CollectPanicPersists(PhraseMap(maxWords), clauses, j + 1);
        return Panicked;
      }
      out := next.value;
    }
    assert clauses[..|clauses|] == clauses;
    r := Returned(out);
  }

  /** `segment_phrases_comma_aware`. */
  method SegmentPhrasesCommaAware(text: string, maxWords: nat) returns (r: Outcome<seq<string>>)
    ensures r == CommaAwarePhrases(text, maxWords)
  {
    var sentences := SplitSentences(text);
    var phrases: seq<string> := [];
    for i := 0 to |sentences|
      invariant PhrasesOfAll(FlatMap(Clauses, sentences[..i]), maxWords) == Returned(phrases)
    {
      CollectFlatMapStep(PhraseMap(maxWords), Clauses, sentences, i);
      var next := PushClauses(phrases, Clauses(sentences[i]), maxWords);
      if next.Panicked? {
        CollectFlatMapPanic(PhraseMap(maxWords), Clauses, sentences, i + 1);
        return Panicked;
      }
      phrases := next.value;
    }
    assert sentences[..|sentences|] == sentences;
    r := Returned(phrases);
  }

  /** No character of `p` is in `seps`. */
  predicate Avoids(p: string, seps: set<char>) {
    forall i :: 0 <= i < |p| ==> p[i] !in seps
  }

  lemma TrimAvoids(s: string, seps: set<char>)
    requires Avoids(s, seps)
    ensures Avoids(Trim(s), seps)
  {
    var u := TrimStart(s);
    forall i | 0 <= i < |u| ensures u[i] !in seps {
      assert u[i] == s[|s| - |u| + i];
    }
    var t := TrimEnd(u);
    forall i | 0 <= i < |t| ensures t[i] !in seps {
      assert t[i] == u[i];
    }
  }

  /** A clause as `Clauses` leaves it: trimmed, non-empty and free of
      the separators. */
  predicate CleanClause(p: string, seps: set<char>) {
    Trimmed(p) && Avoids(p, seps)
  }

  lemma {:induction false} NonBlankSpec(pieces: seq<string>, seps: set<char>)
    requires forall k :: 0 <= k < |pieces| ==> Avoids(pieces[k], seps)
    ensures forall k :: 0 <= k < |NonBlank(pieces)| ==> CleanClause(NonBlank(pieces)[k], seps)
    decreases |pieces|
  {
    if pieces != [] {
      var first := pieces[0];
      NonBlankSpec(pieces[1..], seps);
      var head := if Trim(first) == [] then [] else [Trim(first)];
      var rest := NonBlank(pieces[1..]);
      assert NonBlank(pieces) == head + rest;
      if head != [] {
        TrimBlank(first);
        TrimAvoids(first, seps);
        assert CleanClause(Trim(first), seps);
      }
      forall k | 0 <= k < |head + rest| ensures CleanClause((head + rest)[k], seps) {
        if k < |head| {
          assert (head + rest)[k] == Trim(first);
        } else {
          assert (head + rest)[k] == rest[k - |head|];
        }
      }
    }
  }

  /** Every clause is non-empty, trimmed and free of `,` and `;`; a sentence
      without either is its own single clause. */
  lemma ClausesSpec(sentence: string)
    ensures forall k :: 0 <= k < |Clauses(sentence)| ==> Trimmed(Clauses(sentence)[k]) && Avoids(Clauses(sentence)[k], {',', ';'})
    ensures Avoids(sentence, {',', ';'}) ==> Clauses(sentence) == if Trim(sentence) == [] then [] else [Trim(sentence)]
  {
    var pieces := SplitOn(sentence, {',', ';'});
    SplitOnPieces(sentence, {',', ';'});
    forall k | 0 <= k < |pieces| ensures Avoids(pieces[k], {',', ';'}) {
      assert pieces[k] in pieces;
    }
    NonBlankSpec(pieces, {',', ';'});
    forall k | 0 <= k < |Clauses(sentence)| ensures Trimmed(Clauses(sentence)[k]) && Avoids(Clauses(sentence)[k], {',', ';'}) {
      assert CleanClause(Clauses(sentence)[k], {',', ';'});
    }
    if Avoids(sentence, {',', ';'}) {
      assert pieces == [sentence];
      assert NonBlank(pieces) == (if Trim(sentence) == [] then [] else [Trim(sentence)]) + NonBlank([]);
    }
  }

  /** `segment_phrases_with_config`: dashes first, then quotes, then the
      comma-aware or the simple segmentation. */
  function PhrasesWithConfig(text: string, config: SegmentationConfig): Outcome<seq<string>> {
    var t := PreprocessDashes(text, config.emdashAsBoundary);
    var t' := if config.normalizeUnicode then NormalizeUnicode(t) else t;
    if config.respectCommaBoundaries then CommaAwarePhrases(t', config.maxPhraseWords)
    else SimplePhrases(t', config.maxPhraseWords)
  }

  method SegmentPhrasesWithConfig(text: string, config: SegmentationConfig) returns (r: Outcome<seq<string>>)
    ensures r == PhrasesWithConfig(text, config)
  {
    var t := PreprocessDashes(text, config.emdashAsBoundary);
    if config.normalizeUnicode {
      t := NormalizeUnicode(t);
    }
    if config.respectCommaBoundaries {
      r := SegmentPhrasesCommaAware(t, config.maxPhraseWords);
    } else {
      r := SegmentPhrasesSimple(t, config.maxPhraseWords);
    }
  }

  /** `segment_phrases`, with the default configuration. */
  method SegmentPhrases(text: string) returns (r: Outcome<seq<string>>)
    ensures r == PhrasesWithConfig(text, ForTts)
  {
    r := SegmentPhrasesWithConfig(text, ForTts);
  }

  /** Without comma boundaries, the phrases hold exactly the non-whitespace
      characters of the text, each phrase within the word limit; with a
      positive limit nothing panics. */
  lemma SimplePhrasesSpec(text: string, maxWords: nat)
    ensures maxWords > 0 ==> SimplePhrases(text, maxWords).Returned?
    ensures SimplePhrases(text, maxWords).Returned? ==> WithinWords(SimplePhrases(text, maxWords).value, maxWords)
    ensures SimplePhrases(text, maxWords).Returned? ==> Concat(WordsOf(SimplePhrases(text, maxWords).value)) == NonWs(text)
  {
    var ss := Sentences(text);
    PhrasesOfAllSpec(ss, maxWords);
    SentencesContent(text);
    ConcatWordsOf(ss);
    match SimplePhrases(text, maxWords) {
      case Returned(ps) => ConcatWordsOf(ps);
      case Panicked =>
    }
  }

  /** With comma boundaries, each phrase keeps within the word limit and the
      phrases hold the clauses' words in order. */
  lemma CommaAwarePhrasesSpec(text: string, maxWords: nat)
    ensures maxWords > 0 ==> CommaAwarePhrases(text, maxWords).Returned?
    ensures CommaAwarePhrases(text, maxWords).Returned? ==> WithinWords(CommaAwarePhrases(text, maxWords).value, maxWords)
    ensures CommaAwarePhrases(text, maxWords).Returned? ==>
      WordsOf(CommaAwarePhrases(text, maxWords).value) == WordsOf(FlatMap(Clauses, Sentences(text)))
  {
    PhrasesOfAllSpec(FlatMap(Clauses, Sentences(text)), maxWords);
  }

  /** Blank text has no phrases under any configuration. */
  lemma PhrasesOfBlank(text: string, config: SegmentationConfig)
    requires AllWhitespace(text)
    ensures PhrasesWithConfig(text, config) == Returned([])
  {
    PreprocessDashesSpec(text, [], config.emdashAsBoundary);
    forall i | 0 <= i < |text| ensures text[i] != EmDash && text[i] != EnDash {
      assert IsWhitespace(text[i]);
    }
    var t := PreprocessDashes(text, config.emdashAsBoundary);
    BlankPlain(t);
    SentencesBlank(t);
    assert FlatMap(Clauses, []) == [];
  }

  /** `segment_phrases("")` is empty. */
  lemma SegmentPhrasesEmpty()
    ensures PhrasesWithConfig("", ForTts) == Returned([])
  {
    PhrasesOfBlank("", ForTts);
  }
}
