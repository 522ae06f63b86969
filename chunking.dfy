/** Size-bounded chunking of long requests (chunking.rs): the text is split
    into sentences, sentences are packed into chunks of at most
    `max_chunk_size` bytes, and an over-long sentence is split at commas and
    semicolons and, failing that, between words. Sizes are UTF-8 byte
    lengths, as `str::len` counts them. */
module Chunking {
  import opened Wrappers
  import opened Text
  import opened SentenceSplitting

  datatype ChunkingConfig = ChunkingConfig(maxChunkSize: nat, minChunkSize: nat)

  const DefaultConfig := ChunkingConfig(200, 50)

  // ---------------------------------------------------------------------------
  // Sentences
  // ---------------------------------------------------------------------------

  /** The first index at or after `j` of a non-whitespace character. */
  function NextNonWs(text: string, j: nat): (r: Option<nat>)
    requires j <= |text|
    ensures r.Some? ==> j <= r.value < |text| && !IsWhitespace(text[r.value])
    ensures r.Some? ==> forall k :: j <= k < r.value ==> IsWhitespace(text[k])
    ensures r.None? ==> forall k :: j <= k < |text| ==> IsWhitespace(text[k])
    decreases |text| - j
  {
    if j == |text| then None
    else if !IsWhitespace(text[j]) then Some(j)
    else NextNonWs(text, j + 1)
  }

  /** The end-of-sentence test of `split_into_sentences` at index `i`: a
      terminator at the end of the text, or one followed by whitespace and
      then an uppercase letter, a digit or nothing more. */
  predicate EndsSentence(text: string, i: nat)
    requires i < |text|
  {
    IsTerminator(text[i])
    && (i + 1 == |text|
        || (IsWhitespace(text[i + 1])
            && match NextNonWs(text, i + 1)
               case None => true
               case Some(j) => IsUppercase(text[j]) || IsAsciiDigit(text[j])))
  }

  /** After reading `n` characters: the sentences finished and the current
      one. */
  function SentenceScan(text: string, n: nat): (seq<string>, string)
    requires n <= |text|
  {
    if n == 0 then ([], [])
    else
      var st := SentenceScan(text, n - 1);
      Step(st.0, st.1, text[n - 1], EndsSentence(text, n - 1))
  }

  /** The sentences `split_into_sentences` returns. */
  function TextSentences(text: string): seq<string> {
    var st := SentenceScan(text, |text|);
    Push(st.0, st.1)
  }

  lemma SentenceScanStep(text: string, i: nat)
    requires i < |text|
    ensures SentenceScan(text, i + 1) == Step(SentenceScan(text, i).0, SentenceScan(text, i).1, text[i], EndsSentence(text, i))
  {
  }

  /** One character of the scan: a sentence end pushes the trimmed current
      sentence, which is never empty, and starts a new one. */
  lemma SentenceScanNext(text: string, i: nat, isEnd: bool)
    requires i < |text| && isEnd == EndsSentence(text, i)
    ensures var (done, cur) := SentenceScan(text, i);
      SentenceScan(text, i + 1) == if isEnd then (done + [Trim(cur + [text[i]])], []) else (done, cur + [text[i]])
  {
    SentenceScanStep(text, i);
    if isEnd {
      TrimKeepsLast(SentenceScan(text, i).1 + [text[i]]);
    }
  }

  /** The look-ahead of `split_into_sentences` after a character. */
  method EndsAt(text: string, i: nat) returns (isEnd: bool)
    requires i < |text|
    ensures isEnd == EndsSentence(text, i)
  {
    isEnd := false;
    var ch := text[i];
    if ch == '.' || ch == '!' || ch == '?' {
      if i + 1 == |text| {
        isEnd := true;
      } else if IsWhitespace(text[i + 1]) {
        var j := i + 2;
        while j < |text| && IsWhitespace(text[j])
          invariant i + 2 <= j <= |text|
          invariant NextNonWs(text, i + 1) == NextNonWs(text, j)
        {
          j := j + 1;
        }
        isEnd := true;
        if j < |text| {
          isEnd := IsUppercase(text[j]) || IsAsciiDigit(text[j]);
        }
      }
    }
  }

  /** The body of the loop of `split_into_sentences`: the character at `i`
      joins the current sentence, which is pushed, trimmed, at a sentence
      end. */
  method ScanChar(text: string, i: nat, sentences: seq<string>, current: string) returns (sentences': seq<string>, current': string)
    requires i < |text| && (sentences, current) == SentenceScan(text, i)
    ensures (sentences', current') == SentenceScan(text, i + 1)
  {
    var isEnd := EndsAt(text, i);
    SentenceScanNext(text, i, isEnd);
    sentences', current' := sentences, current + [text[i]];
    if isEnd {
      sentences' := sentences' + [Trim(current')];
      current' := [];
    }
  }

  /** `split_into_sentences`. */
  method SplitIntoSentences(text: string) returns (sentences: seq<string>)
    ensures sentences == TextSentences(text)
  {
    sentences := [];
    var current: string := [];
    var i := 0;
    while i < |text|
      invariant 0 <= i <= |text|
      invariant (sentences, current) == SentenceScan(text, i)
    {
      sentences, current := ScanChar(text, i, sentences, current);
      i := i + 1;
    }
    if Trim(current) != [] {
      sentences := sentences + [Trim(current)];
    }
  }

  lemma {:induction false} SentenceScanFinished(text: string, n: nat)
    requires n <= |text|
    ensures Finished(SentenceScan(text, n).0)
  {
    if n > 0 {
      SentenceScanFinished(text, n - 1);
      var st := SentenceScan(text, n - 1);
      StepFinished(st.0, st.1, text[n - 1], EndsSentence(text, n - 1));
    }
  }

  lemma {:induction false} SentenceScanContent(text: string, n: nat)
    requires n <= |text|
    ensures NonWs(Concat(SentenceScan(text, n).0) + SentenceScan(text, n).1) == NonWs(text[..n])
  {
    if n > 0 {
      SentenceScanContent(text, n - 1);
      var st := SentenceScan(text, n - 1);
      var c := text[n - 1];
      assert text[..n] == text[..n - 1] + [c];
      NonWsConcat(text[..n - 1], [c]);
      StepContent(st.0, st.1, c, EndsSentence(text, n - 1));
    }
  }

  /** Every sentence is non-empty and trimmed, every sentence but the last
      ends with a terminator, and the sentences hold the text's
      non-whitespace characters in order. */
  lemma TextSentencesSpec(text: string)
    ensures forall k :: 0 <= k < |TextSentences(text)| ==> Trimmed(TextSentences(text)[k])
    ensures forall k :: 0 <= k < |TextSentences(text)| - 1 ==> Complete(TextSentences(text)[k])
    ensures NonWs(Concat(TextSentences(text))) == NonWs(text)
  {
    SentenceScanFinished(text, |text|);
    SentenceScanContent(text, |text|);
    var st := SentenceScan(text, |text|);
    PushFacts(st.0, st.1);
    var ss := TextSentences(text);
    forall k | 0 <= k < |ss| ensures Trimmed(ss[k]) {
      if k < |st.0| {
        FinishedAt(st.0, k);
      }
    }
    forall k | 0 <= k < |ss| - 1 ensures Complete(ss[k]) {
      assert ss[k] == st.0[k];
      FinishedAt(st.0, k);
    }
    assert text[..|text|] == text;
  }

  /** A capital outside Latin-1 starts a sentence too: in
      "\U{041F}\U{0440}\U{0438}\U{0432}\U{0435}\U{0442}. \U{041C}\U{0438}\U{0440}"
      the period ends a sentence, as `char::is_uppercase` has it. */
  lemma CyrillicCapitalEnds()
    ensures EndsSentence("\U{041F}\U{0440}\U{0438}\U{0432}\U{0435}\U{0442}. \U{041C}\U{0438}\U{0440}", 6)
  {
    var text := "\U{041F}\U{0440}\U{0438}\U{0432}\U{0435}\U{0442}. \U{041C}\U{0438}\U{0440}";
    assert NextNonWs(text, 7) == NextNonWs(text, 8) == Some(8);
  }

  /** A sentence end closes the current sentence, which then ends with that
      terminator. */
  lemma EndsSentenceCloses(text: string, i: nat)
    requires i < |text| && EndsSentence(text, i)
    ensures SentenceScan(text, i + 1).1 == []
    ensures SentenceScan(text, i + 1).0 == SentenceScan(text, i).0 + [Trim(SentenceScan(text, i).1 + [text[i]])]
    ensures Complete(Trim(SentenceScan(text, i).1 + [text[i]]))
  {
    var cur := SentenceScan(text, i).1 + [text[i]];
    TrimKeepsLast(cur);
    TrimEnds(cur);
  }

  // ---------------------------------------------------------------------------
  // Packing pieces into chunks
  // ---------------------------------------------------------------------------

  /** Adds `piece` to the chunk being built, or closes that chunk and starts
      a new one with `piece` when the two would exceed `max` bytes. With
      `countSpace` the test counts the space that joins them, as
      `hard_split_by_words` does; `chunk_text` and `split_long_sentence`
      leave it out. */
  function Add(done: seq<string>, cur: string, piece: string, max: nat, countSpace: bool): (seq<string>, string) {
    if cur != [] && ByteLen(cur) + (if countSpace then 1 else 0) + ByteLen(piece) > max then (done + [Trim(cur)], piece)
    else (done, if cur == [] then piece else cur + " " + piece)
  }

  /** Pushes the chunk being built, if there is one. */
  function Close(done: seq<string>, cur: string): seq<string> {
    if cur == [] then done else done + [Trim(cur)]
  }

  /** Packs `pieces` one after another. */
  function PackAll(pieces: seq<string>, max: nat, countSpace: bool): (seq<string>, string) {
    if pieces == [] then ([], [])
    else
      var st := PackAll(pieces[..|pieces| - 1], max, countSpace);
      Add(st.0, st.1, pieces[|pieces| - 1], max, countSpace)
  }

  lemma PackAllStep(pieces: seq<string>, i: nat, max: nat, countSpace: bool)
    requires i < |pieces|
    ensures var (done, cur) := PackAll(pieces[..i], max, countSpace);
      PackAll(pieces[..i + 1], max, countSpace) == Add(done, cur, pieces[i], max, countSpace)
  {
    var p := pieces[..i + 1];
    assert p[..|p| - 1] == pieces[..i] && p[|p| - 1] == pieces[i];
  }

  /** The packing step shared by `hard_split_by_words`, `split_long_sentence`
      and `chunk_text`: a piece that would overflow the chunk being built
      closes it; otherwise the piece joins it after a space. */
  method AddPiece(chunks: seq<string>, current: string, piece: string, max: nat, countSpace: bool)
    returns (chunks': seq<string>, current': string)
    ensures (chunks', current') == Add(chunks, current, piece, max, countSpace)
  {
    chunks', current' := chunks, current;
    if current != [] && ByteLen(current) + (if countSpace then 1 else 0) + ByteLen(piece) > max {
      chunks' := chunks' + [Trim(current')];
      current' := piece;
    } else {
      if current' != [] {
        current' := current' + " ";
      } else {
        assert current' + piece == piece;
      }
      current' := current' + piece;
    }
  }

  /** A chunk is within `max` bytes, or is a single word. */
  predicate FitsOrWord(c: string, max: nat) {
    ByteLen(c) <= max || NoWhitespace(c)
  }

  predicate AllFit(cs: seq<string>, max: nat) {
    forall k :: 0 <= k < |cs| ==> FitsOrWord(cs[k], max)
  }

  lemma SliceBytes(s: string, a: nat, b: nat)
    requires a <= b <= |s|
    ensures ByteLen(s[a..b]) <= ByteLen(s)
  {
    assert s == (s[..a] + s[a..b]) + s[b..];
    ByteLenConcat(s[..a] + s[a..b], s[b..]);
    ByteLenConcat(s[..a], s[a..b]);
  }

  lemma TrimIsSlice(s: string) returns (a: nat)
    ensures a + |Trim(s)| <= |s| && Trim(s) == s[a..a + |Trim(s)|]
  {
    var u := TrimStart(s);
    a := |s| - |u|;
    var t := TrimEnd(u);
    assert t == u[..|t|];
    assert u == s[a..];
  }

  lemma TrimFits(s: string, max: nat)
    requires FitsOrWord(s, max)
    ensures FitsOrWord(Trim(s), max)
  {
    if NoWhitespace(s) {
      TrimOfWord(s);
    } else {
      TrimBytes(s);
    }
  }

  lemma TrimOfWord(s: string)
    requires NoWhitespace(s)
    ensures Trim(s) == s
  {
    if s != [] {
      assert !IsWhitespace(s[0]) && !IsWhitespace(s[|s| - 1]);
    }
  }

  lemma TrimBytes(s: string)
    ensures ByteLen(Trim(s)) <= ByteLen(s)
  {
    var a := TrimIsSlice(s);
    SliceBytes(s, a, a + |Trim(s)|);
  }

  lemma AllFitAppend(cs: seq<string>, ds: seq<string>, max: nat)
    requires AllFit(cs, max) && AllFit(ds, max)
    ensures AllFit(cs + ds, max)
  {
    forall k | 0 <= k < |cs + ds| ensures FitsOrWord((cs + ds)[k], max) {
      if k >= |cs| {
        assert (cs + ds)[k] == ds[k - |cs|];
      }
    }
  }

  lemma CloseFits(done: seq<string>, cur: string, max: nat)
    requires AllFit(done, max) && (cur == [] || FitsOrWord(cur, max))
    ensures AllFit(Close(done, cur), max)
  {
    if cur != [] {
      TrimFits(cur, max);
    }
  }

  /** When the joining space is counted, a chunk that fits stays within
      `max` bytes after a piece is added. */
  lemma AddFits(done: seq<string>, cur: string, piece: string, max: nat)
    requires AllFit(done, max) && (cur == [] || FitsOrWord(cur, max)) && FitsOrWord(piece, max)
    ensures AllFit(Add(done, cur, piece, max, true).0, max)
    ensures FitsOrWord(Add(done, cur, piece, max, true).1, max)
  {
    if cur != [] {
      TrimFits(cur, max);
      ByteLenConcat(cur, " ");
      ByteLenConcat(cur + " ", piece);
    }
  }

  lemma {:induction false} PackAllFits(pieces: seq<string>, max: nat)
    requires AllFit(pieces, max)
    ensures AllFit(PackAll(pieces, max, true).0, max)
    ensures PackAll(pieces, max, true).1 == [] || FitsOrWord(PackAll(pieces, max, true).1, max)
  {
    if pieces != [] {
      var p := pieces[..|pieces| - 1];
      assert AllFit(p, max) by {
        forall k | 0 <= k < |p| ensures FitsOrWord(p[k], max) {
          assert p[k] == pieces[k];
        }
      }
      PackAllFits(p, max);
      var st := PackAll(p, max, true);
      AddFits(st.0, st.1, pieces[|pieces| - 1], max);
    }
  }

  // ---------------------------------------------------------------------------
  // Splitting between words
  // ---------------------------------------------------------------------------

  /** The chunks `hard_split_by_words` returns. */
  function WordChunks(text: string, max: nat): seq<string> {
    var st := PackAll(SplitWhitespace(text), max, true);
    Close(st.0, st.1)
  }

  /** `hard_split_by_words`. */
  method HardSplitByWords(text: string, max: nat) returns (chunks: seq<string>)
    ensures chunks == WordChunks(text, max)
  {
    var words := SplitWhitespace(text);
    chunks := [];
    var current: string := [];
    for i := 0 to |words|
      invariant (chunks, current) == PackAll(words[..i], max, true)
    {
      PackAllStep(words, i, max, true);
      chunks, current := AddPiece(chunks, current, words[i], max, true);
    }
    TakeWhole(words);
    if current != [] {
      chunks := chunks + [Trim(current)];
    }
  }

  lemma TrimOfTrimmed(s: string)
    requires Trimmed(s)
    ensures Trim(s) == s
  {
    var u := TrimStart(s);
    var t := TrimEnd(u);
  }

  lemma SplitWord(w: string)
    requires IsWord(w)
    ensures SplitWhitespace(w) == [w]
  {
    SplitJoin([w]);
  }

  /** Adding a word to a chunk of words keeps the words in order. */
  lemma AddWord(done: seq<string>, cur: string, w: string, max: nat)
    requires IsWord(w) && (cur == [] || Trimmed(cur))
    ensures WordsOf(Add(done, cur, w, max, true).0) + SplitWhitespace(Add(done, cur, w, max, true).1)
         == WordsOf(done) + SplitWhitespace(cur) + [w]
    ensures Trimmed(Add(done, cur, w, max, true).1)
  {
    SplitWord(w);
    if cur == [] {
      assert SplitWhitespace(cur) == [];
      assert WordsOf(done) + [] + [w] == WordsOf(done) + [w];
    } else if ByteLen(cur) + 1 + ByteLen(w) > max {
      TrimOfTrimmed(cur);
      WordsOfClose(done, cur);
    } else {
      SplitAppendWord(cur, w);
      assert WordsOf(done) + (SplitWhitespace(cur) + [w]) == WordsOf(done) + SplitWhitespace(cur) + [w];
    }
  }

  /** Closing a chunk adds its words after those of the chunks before. */
  lemma WordsOfClose(done: seq<string>, cur: string)
    ensures WordsOf(done + [cur]) == WordsOf(done) + SplitWhitespace(cur)
  {
    WordsOfAppend(done, [cur]);
    assert WordsOf([cur]) == SplitWhitespace(cur) + WordsOf([]);
  }

  lemma SplitAppendWord(cur: string, w: string)
    requires IsWord(w)
    ensures SplitWhitespace(cur + " " + w) == SplitWhitespace(cur) + [w]
  {
    WordScanSpace(cur);
    WordScanAppendWord(cur + " ", w);
    assert [] + w == w;
  }

  lemma {:induction false} WordPackInvariant(words: seq<string>, max: nat)
    requires forall k :: 0 <= k < |words| ==> IsWord(words[k])
    ensures WordsOf(PackAll(words, max, true).0) + SplitWhitespace(PackAll(words, max, true).1) == words
    ensures PackAll(words, max, true).1 == [] || Trimmed(PackAll(words, max, true).1)
  {
    if words != [] {
      var p, w := words[..|words| - 1], words[|words| - 1];
      WordPackInvariant(p, max);
      assert p + [w] == words;
      WordPackAppend(p, w, max);
    }
  }

  lemma WordPackAppend(p: seq<string>, w: string, max: nat)
    requires IsWord(w)
    requires WordsOf(PackAll(p, max, true).0) + SplitWhitespace(PackAll(p, max, true).1) == p
    requires PackAll(p, max, true).1 == [] || Trimmed(PackAll(p, max, true).1)
    ensures WordsOf(PackAll(p + [w], max, true).0) + SplitWhitespace(PackAll(p + [w], max, true).1) == p + [w]
    ensures PackAll(p + [w], max, true).1 == [] || Trimmed(PackAll(p + [w], max, true).1)
  {
    var st := PackAll(p, max, true);
    AddWord(st.0, st.1, w, max);
    assert (p + [w])[..|p|] == p;
  }

  /** The chunks hold the words of the text in order, and a chunk over
      `max` bytes is a single word. */
  lemma WordChunksSpec(text: string, max: nat)
    ensures WordsOf(WordChunks(text, max)) == SplitWhitespace(text)
    ensures AllFit(WordChunks(text, max), max)
    ensures forall k :: 0 <= k < |WordChunks(text, max)| ==> Trimmed(WordChunks(text, max)[k])
  {
    var words := SplitWhitespace(text);
    SplitWhitespaceWords(text);
    forall k | 0 <= k < |words| ensures IsWord(words[k]) && FitsOrWord(words[k], max) {
      assert words[k] in words;
    }
    WordPackInvariant(words, max);
    PackAllFits(words, max);
    var st := PackAll(words, max, true);
    CloseFits(st.0, st.1, max);
    if st.1 != [] {
      TrimOfTrimmed(st.1);
      WordsOfAppend(st.0, [st.1]);
      assert WordsOf([st.1]) == SplitWhitespace(st.1) + WordsOf([]);
    }
    WordChunksTrimmed(words, max);
  }

  lemma {:induction false} WordChunksTrimmed(words: seq<string>, max: nat)
    requires forall k :: 0 <= k < |words| ==> IsWord(words[k])
    ensures forall k :: 0 <= k < |Close(PackAll(words, max, true).0, PackAll(words, max, true).1)| ==>
      Trimmed(Close(PackAll(words, max, true).0, PackAll(words, max, true).1)[k])
  {
    PackTrimmed(words, max);
    WordPackInvariant(words, max);
    var st := PackAll(words, max, true);
    if st.1 != [] {
      TrimOfTrimmed(st.1);
    }
  }

  lemma {:induction false} PackTrimmed(words: seq<string>, max: nat)
    requires forall k :: 0 <= k < |words| ==> IsWord(words[k])
    ensures forall k :: 0 <= k < |PackAll(words, max, true).0| ==> Trimmed(PackAll(words, max, true).0[k])
  {
    if words != [] {
      var p := words[..|words| - 1];
      PackTrimmed(p, max);
      WordPackInvariant(p, max);
      var st := PackAll(p, max, true);
      if st.1 != [] {
        TrimOfTrimmed(st.1);
      }
    }
  }

  // ---------------------------------------------------------------------------
  // Splitting an over-long sentence
  // ---------------------------------------------------------------------------

  /** `f` applied to each part. */
  function MapAll(f: string -> string, parts: seq<string>): (r: seq<string>)
    ensures |r| == |parts|
  {
    if parts == [] then [] else [f(parts[0])] + MapAll(f, parts[1..])
  }

  lemma {:induction false} MapAllAt(f: string -> string, parts: seq<string>, i: nat)
    requires i < |parts|
    ensures MapAll(f, parts)[i] == f(parts[i])
  {
    if i > 0 {
      MapAllAt(f, parts[1..], i - 1);
      assert parts[1..][i - 1] == parts[i];
    }
  }

  /** The parts, each but the last followed by a comma. */
  function Punctuate(parts: seq<string>): (r: seq<string>)
    ensures |r| == |parts|
  {
    if parts == [] then []
    else if |parts| == 1 then parts
    else [parts[0] + ","] + Punctuate(parts[1..])
  }

  lemma {:induction false} PunctuateAt(parts: seq<string>, i: nat)
    requires i < |parts|
    ensures Punctuate(parts)[i] == if i < |parts| - 1 then parts[i] + "," else parts[i]
  {
    if i > 0 {
      PunctuateAt(parts[1..], i - 1);
      assert parts[1..][i - 1] == parts[i];
    }
  }

  /** The pieces between commas and semicolons, trimmed, each but the last
      followed by a comma. */
  function ClausePieces(sentence: string): seq<string> {
    Punctuate(MapAll(Trim, SplitOn(sentence, {',', ';'})))
  }

  /** Each chunk within `max` bytes is kept; a longer one is split between
      words. */
  function Refine(chunks: seq<string>, max: nat): seq<string> {
    if chunks == [] then []
    else
      var c := chunks[|chunks| - 1];
      Refine(chunks[..|chunks| - 1], max) + (if ByteLen(c) > max then WordChunks(c, max) else [c])
  }

  /** The chunks `split_long_sentence` returns. */
  function LongSentenceChunks(sentence: string, max: nat): seq<string> {
    var st := PackAll(ClausePieces(sentence), max, false);
    Refine(Close(st.0, st.1), max)
  }

  /** The `i`th clause piece: the `i`th part, trimmed, with a comma unless
      it is the last. */
  lemma ClausePieceAt(sentence: string, i: nat)
    requires i < |SplitOn(sentence, {',', ';'})|
    ensures var parts := SplitOn(sentence, {',', ';'});
      ClausePieces(sentence)[i] == if i < |parts| - 1 then Trim(parts[i]) + "," else Trim(parts[i])
  {
    var parts := SplitOn(sentence, {',', ';'});
    MapAllAt(Trim, parts, i);
    PunctuateAt(MapAll(Trim, parts), i);
  }

  /** The packing loop of `split_long_sentence`. */
  method PackClauses(sentence: string, max: nat) returns (chunks: seq<string>)
    ensures chunks == Close(PackAll(ClausePieces(sentence), max, false).0, PackAll(ClausePieces(sentence), max, false).1)
  {
    var parts := SplitOn(sentence, {',', ';'});
    ghost var pieces := ClausePieces(sentence);
    chunks := [];
    var current: string := [];
    for i := 0 to |parts|
      invariant (chunks, current) == PackAll(pieces[..i], max, false)
    {
      PackAllStep(pieces, i, max, false);
      var partWithPunct := if i < |parts| - 1 then Trim(parts[i]) + "," else Trim(parts[i]);
      ClausePieceAt(sentence, i);
      chunks, current := AddPiece(chunks, current, partWithPunct, max, false);
    }
    TakeWhole(pieces);
    if current != [] {
      chunks := chunks + [Trim(current)];
    }
  }

  lemma TakeWhole<T>(s: seq<T>)
    ensures s[..|s|] == s
  {
  }

  /** `split_long_sentence`. */
  method SplitLongSentence(sentence: string, max: nat) returns (finalChunks: seq<string>)
    ensures finalChunks == LongSentenceChunks(sentence, max)
  {
    var chunks := PackClauses(sentence, max);
    finalChunks := RefineChunks(chunks, max);
  }

  /** The final pass of `split_long_sentence`. */
  method RefineChunks(chunks: seq<string>, max: nat) returns (finalChunks: seq<string>)
    ensures finalChunks == Refine(chunks, max)
  {
    finalChunks := [];
    for k := 0 to |chunks|
      invariant finalChunks == Refine(chunks[..k], max)
    {
      assert chunks[..k + 1][..k] == chunks[..k];
      var chunk := chunks[k];
      if ByteLen(chunk) > max {
        var words := HardSplitByWords(chunk, max);
        finalChunks := finalChunks + words;
      } else {
        finalChunks := finalChunks + [chunk];
      }
    }
    TakeWhole(chunks);
  }

  lemma {:induction false} RefineFits(chunks: seq<string>, max: nat)
    ensures AllFit(Refine(chunks, max), max)
  {
    if chunks != [] {
      var c := chunks[|chunks| - 1];
      RefineFits(chunks[..|chunks| - 1], max);
      if ByteLen(c) > max {
        WordChunksSpec(c, max);
      }
      AllFitAppend(Refine(chunks[..|chunks| - 1], max), if ByteLen(c) > max then WordChunks(c, max) else [c], max);
    }
  }

  /** Every chunk of an over-long sentence is within `max` bytes or is a
      single word. */
  lemma LongSentenceChunksFit(sentence: string, max: nat)
    ensures AllFit(LongSentenceChunks(sentence, max), max)
  {
    var st := PackAll(ClausePieces(sentence), max, false);
    RefineFits(Close(st.0, st.1), max);
  }

  /** Adding a piece keeps the non-whitespace characters: the joining space
      adds none and closing a chunk only trims it. */
  lemma AddContent(done: seq<string>, cur: string, piece: string, max: nat, countSpace: bool)
    ensures NonWs(Concat(Add(done, cur, piece, max, countSpace).0) + Add(done, cur, piece, max, countSpace).1)
         == NonWs(Concat(done) + cur) + NonWs(piece)
  {
    var d := Concat(done);
    if cur != [] && ByteLen(cur) + (if countSpace then 1 else 0) + ByteLen(piece) > max {
      ConcatAppend(done, Trim(cur));
      NonWsConcat(d + Trim(cur), piece);
      NonWsConcat(d, Trim(cur));
      NonWsConcat(d, cur);
      NonWsTrim(cur);
    } else if cur == [] {
      assert d + cur == d;
      NonWsConcat(d, piece);
    } else {
      assert d + (cur + " " + piece) == (d + cur) + " " + piece;
      NonWsConcat((d + cur) + " ", piece);
      NonWsConcat(d + cur, " ");
      assert NonWs(" ") == [] + NonWs([]);
    }
  }

  lemma CloseContent(done: seq<string>, cur: string)
    ensures NonWs(Concat(Close(done, cur))) == NonWs(Concat(done) + cur)
  {
    if cur == [] {
      assert Concat(done) + cur == Concat(done);
    } else {
      ConcatAppend(done, Trim(cur));
      NonWsConcat(Concat(done), Trim(cur));
      NonWsConcat(Concat(done), cur);
      NonWsTrim(cur);
    }
  }

  /** Packing keeps the non-whitespace characters of the pieces, in order. */
  lemma {:induction false} PackAllContent(pieces: seq<string>, max: nat, countSpace: bool)
    ensures NonWs(Concat(PackAll(pieces, max, countSpace).0) + PackAll(pieces, max, countSpace).1) == NonWs(Concat(pieces))
    decreases |pieces|
  {
    if pieces != [] {
      var p, x := pieces[..|pieces| - 1], pieces[|pieces| - 1];
      PackAllContent(p, max, countSpace);
      var st := PackAll(p, max, countSpace);
      AddContent(st.0, st.1, x, max, countSpace);
      ConcatLast(pieces);
      NonWsConcat(Concat(p), x);
    }
  }

  /** The word chunks hold the text's non-whitespace characters in order. */
  lemma WordChunksContent(text: string, max: nat)
    ensures NonWs(Concat(WordChunks(text, max))) == NonWs(text)
  {
    WordChunksSpec(text, max);
    ConcatWordsOf(WordChunks(text, max));
    SplitWhitespaceWords(text);
  }

  /** Two runs of chunks that hold `x` and `y` together hold `x + y`. */
  lemma AppendContent(a: seq<string>, b: seq<string>, x: string, y: string)
    requires NonWs(Concat(a)) == NonWs(x) && NonWs(Concat(b)) == NonWs(y)
    ensures NonWs(Concat(a + b)) == NonWs(x + y)
  {
    ConcatConcat(a, b);
    NonWsConcat(Concat(a), Concat(b));
    NonWsConcat(x, y);
  }

  lemma {:induction false} RefineContent(chunks: seq<string>, max: nat)
    ensures NonWs(Concat(Refine(chunks, max))) == NonWs(Concat(chunks))
    decreases |chunks|
  {
    if chunks != [] {
      RefineContent(chunks[..|chunks| - 1], max);
      RefineStepContent(chunks, max);
    }
  }

  lemma RefineStepContent(chunks: seq<string>, max: nat)
    requires chunks != []
    requires NonWs(Concat(Refine(chunks[..|chunks| - 1], max))) == NonWs(Concat(chunks[..|chunks| - 1]))
    ensures NonWs(Concat(Refine(chunks, max))) == NonWs(Concat(chunks))
  {
    var p, c := chunks[..|chunks| - 1], chunks[|chunks| - 1];
    var r := Refine(p, max);
    var last := if ByteLen(c) > max then WordChunks(c, max) else [c];
    assert Refine(chunks, max) == r + last;
    RefinedChunkContent(c, max);
    AppendContent(r, last, Concat(p), c);
    ConcatLast(chunks);
  }

  /** What the final pass makes of one chunk keeps its non-whitespace
      characters. */
  lemma RefinedChunkContent(c: string, max: nat)
    ensures NonWs(Concat(if ByteLen(c) > max then WordChunks(c, max) else [c])) == NonWs(c)
  {
    if ByteLen(c) > max {
      WordChunksContent(c, max);
    } else {
      assert Concat([c]) == c + Concat([]) == c;
    }
  }

  /** The punctuated parts are the parts joined by commas. */
  lemma {:induction false} PunctuateJoin(parts: seq<string>)
    ensures Concat(Punctuate(parts)) == Join(parts, ",")
    decreases |parts|
  {
    if |parts| == 1 {
      assert Concat(parts) == parts[0] + Concat([]) == parts[0];
    } else if |parts| > 1 {
      PunctuateJoin(parts[1..]);
      var ps := Punctuate(parts);
      assert ps[1..] == Punctuate(parts[1..]);
    }
  }

  /** Trimming each part keeps the non-whitespace characters of the joined
      parts. */
  lemma {:induction false} TrimAllContent(parts: seq<string>)
    ensures NonWs(Join(MapAll(Trim, parts), ",")) == NonWs(Join(parts, ","))
    decreases |parts|
  {
    if parts != [] {
      var ts := MapAll(Trim, parts);
      assert ts[0] == Trim(parts[0]) && ts[1..] == MapAll(Trim, parts[1..]);
      NonWsTrim(parts[0]);
      if |parts| > 1 {
        TrimAllContent(parts[1..]);
        NonWsConcat(ts[0] + ",", Join(ts[1..], ","));
        NonWsConcat(ts[0], ",");
        NonWsConcat(parts[0] + ",", Join(parts[1..], ","));
        NonWsConcat(parts[0], ",");
      }
    }
  }

  lemma {:induction false} CommasKept(s: string)
    ensures ReplaceChars(s, {',', ';'}, ",") == ReplaceChars(s, {';'}, ",")
    decreases |s|
  {
    if s != [] {
      CommasKept(s[1..]);
    }
  }

  /** The chunks of an over-long sentence hold its non-whitespace
      characters in order, each semicolon written as a comma. */
  lemma LongSentenceChunksContent(sentence: string, max: nat)
    ensures NonWs(Concat(LongSentenceChunks(sentence, max))) == NonWs(ReplaceChars(sentence, {';'}, ","))
  {
    var st := PackAll(ClausePieces(sentence), max, false);
    RefineContent(Close(st.0, st.1), max);
    CloseContent(st.0, st.1);
    PackAllContent(ClausePieces(sentence), max, false);
    PunctuateJoin(MapAll(Trim, SplitOn(sentence, {',', ';'})));
    TrimAllContent(SplitOn(sentence, {',', ';'}));
    SplitOnJoin(sentence, {',', ';'}, ',');
    CommasKept(sentence);
  }

  // ---------------------------------------------------------------------------
  // Chunking a text
  // ---------------------------------------------------------------------------

  /** One sentence of `chunk_text`: an over-long sentence closes the chunk
      being built and is split on its own; any other is packed. */
  function ChunkStep(done: seq<string>, cur: string, sentence: string, max: nat, countSpace: bool): (seq<string>, string) {
    if ByteLen(sentence) > max then (Close(done, cur) + LongSentenceChunks(sentence, max), [])
    else Add(done, cur, sentence, max, countSpace)
  }

  function ChunkScan(sentences: seq<string>, max: nat, countSpace: bool): (seq<string>, string) {
    if sentences == [] then ([], [])
    else
      var st := ChunkScan(sentences[..|sentences| - 1], max, countSpace);
      ChunkStep(st.0, st.1, sentences[|sentences| - 1], max, countSpace)
  }

  /** `chunk_text`, with the packing test as `countSpace` says: a short text
      is returned whole, and when no chunk results the text is returned
      whole. */
  function ChunkWith(text: string, config: ChunkingConfig, countSpace: bool): seq<string> {
    if ByteLen(text) <= config.maxChunkSize then [text]
    else
      var st := ChunkScan(TextSentences(text), config.maxChunkSize, countSpace);
      var chunks := Close(st.0, st.1);
      if chunks == [] then [text] else chunks
  }

  /** `chunk_text` as written: the test for a full chunk leaves out the
      joining space. */
  function TextChunksAsWritten(text: string, config: ChunkingConfig): seq<string> {
    ChunkWith(text, config, false)
  }

  /** `chunk_text` with the joining space counted, as `hard_split_by_words`
      counts it. */
  function TextChunks(text: string, config: ChunkingConfig): seq<string> {
    ChunkWith(text, config, true)
  }

  lemma ChunkScanStep(sentences: seq<string>, i: nat, max: nat, countSpace: bool)
    requires i < |sentences|
    ensures var (done, cur) := ChunkScan(sentences[..i], max, countSpace);
      ChunkScan(sentences[..i + 1], max, countSpace) == ChunkStep(done, cur, sentences[i], max, countSpace)
  {
    assert sentences[..i + 1][..i] == sentences[..i];
  }

  /** One sentence of the loop of `chunk_text`, with the joining space
      counted. */
  method ChunkSentence(chunks: seq<string>, currentChunk: string, sentence: string, max: nat)
    returns (chunks': seq<string>, currentChunk': string)
    ensures (chunks', currentChunk') == ChunkStep(chunks, currentChunk, sentence, max, true)
  {
    if ByteLen(sentence) > max {
      chunks' := chunks;
      if currentChunk != [] {
        chunks' := chunks' + [Trim(currentChunk)];
      }
      var subChunks := SplitLongSentence(sentence, max);
      chunks' := chunks' + subChunks;
      currentChunk' := [];
    } else {
      chunks', currentChunk' := AddPiece(chunks, currentChunk, sentence, max, true);
    }
  }

  /** `chunk_text`, with the joining space counted. */
  method ChunkText(text: string, config: ChunkingConfig) returns (chunks: seq<string>)
    ensures chunks == TextChunks(text, config)
  {
    var max := config.maxChunkSize;
    if ByteLen(text) <= max {
      return [text];
    }
    chunks := [];
    var currentChunk: string := [];
    var sentences := SplitIntoSentences(text);
    for i := 0 to |sentences|
      invariant (chunks, currentChunk) == ChunkScan(sentences[..i], max, true)
    {
      ChunkScanStep(sentences, i, max, true);
      chunks, currentChunk := ChunkSentence(chunks, currentChunk, sentences[i], max);
    }
    TakeWhole(sentences);
    if currentChunk != [] {
      chunks := chunks + [Trim(currentChunk)];
    }
    if chunks == [] {
      chunks := [text];
    }
  }

  lemma {:induction false} ChunkScanFits(sentences: seq<string>, max: nat)
    ensures AllFit(ChunkScan(sentences, max, true).0, max)
    ensures ChunkScan(sentences, max, true).1 == [] || FitsOrWord(ChunkScan(sentences, max, true).1, max)
  {
    if sentences != [] {
      var p := sentences[..|sentences| - 1];
      var s := sentences[|sentences| - 1];
      ChunkScanFits(p, max);
      var st := ChunkScan(p, max, true);
      if ByteLen(s) > max {
        CloseFits(st.0, st.1, max);
        LongSentenceChunksFit(s, max);
        AllFitAppend(Close(st.0, st.1), LongSentenceChunks(s, max), max);
      } else {
        AddFits(st.0, st.1, s, max);
      }
    }
  }

  /** A text within the limit is its own single chunk; there is always at
      least one chunk; and unless the text is returned whole, every chunk
      is within the limit or is a single word. */
  lemma TextChunksSpec(text: string, config: ChunkingConfig)
    ensures ByteLen(text) <= config.maxChunkSize ==> TextChunks(text, config) == [text]
    ensures TextChunks(text, config) != []
    ensures TextChunks(text, config) == [text] || AllFit(TextChunks(text, config), config.maxChunkSize)
  {
    var st := ChunkScan(TextSentences(text), config.maxChunkSize, true);
    ChunkScanFits(TextSentences(text), config.maxChunkSize);
    CloseFits(st.0, st.1, config.maxChunkSize);
  }

  /** One sentence without a semicolon keeps the non-whitespace
      characters. */
  lemma ChunkStepContent(done: seq<string>, cur: string, sentence: string, max: nat, countSpace: bool)
    requires ';' !in sentence
    ensures NonWs(Concat(ChunkStep(done, cur, sentence, max, countSpace).0) + ChunkStep(done, cur, sentence, max, countSpace).1)
         == NonWs(Concat(done) + cur) + NonWs(sentence)
  {
    if ByteLen(sentence) > max {
      forall i | 0 <= i < |sentence| ensures sentence[i] !in {';'} {
        assert sentence[i] in sentence;
      }
      ReplaceCharsAbsent(sentence, {';'}, ",");
      LongSentenceChunksContent(sentence, max);
      CloseContent(done, cur);
      var cs := Close(done, cur) + LongSentenceChunks(sentence, max);
      assert Concat(cs) + [] == Concat(cs);
      ConcatConcat(Close(done, cur), LongSentenceChunks(sentence, max));
      NonWsConcat(Concat(Close(done, cur)), Concat(LongSentenceChunks(sentence, max)));
    } else {
      AddContent(done, cur, sentence, max, countSpace);
    }
  }

  lemma {:induction false} ChunkScanContent(sentences: seq<string>, max: nat, countSpace: bool)
    requires forall k :: 0 <= k < |sentences| ==> ';' !in sentences[k]
    ensures NonWs(Concat(ChunkScan(sentences, max, countSpace).0) + ChunkScan(sentences, max, countSpace).1)
         == NonWs(Concat(sentences))
    decreases |sentences|
  {
    if sentences != [] {
      var n := |sentences| - 1;
      var p, s := sentences[..n], sentences[n];
      forall k | 0 <= k < |p| ensures ';' !in p[k] {
        assert p[k] == sentences[k];
      }
      ChunkScanContent(p, max, countSpace);
      var st := ChunkScan(p, max, countSpace);
      ChunkScanStep(sentences, n, max, countSpace);
      ChunkStepContent(st.0, st.1, s, max, countSpace);
      assert sentences[..n + 1] == sentences;
      ConcatLast(sentences);
      NonWsConcat(Concat(p), s);
    }
  }

  /** The sentences of a text without a semicolon have none either. */
  lemma SentencesWithoutSemicolon(text: string)
    requires ';' !in text
    ensures forall k :: 0 <= k < |TextSentences(text)| ==> ';' !in TextSentences(text)[k]
  {
    var ss := TextSentences(text);
    TextSentencesSpec(text);
    forall k | 0 <= k < |ss| ensures ';' !in ss[k] {
      if ';' in ss[k] {
        InConcat(ss, k, ';');
        NonWsKeeps(Concat(ss), ';');
        NonWsSubset(text, ';');
      }
    }
  }

  /** Unless the text holds a semicolon, which an over-long sentence writes
      as a comma, the chunks hold the text's non-whitespace characters in
      order: chunking only splits the text and drops whitespace. */
  lemma TextChunksContent(text: string, config: ChunkingConfig)
    requires ';' !in text
    ensures NonWs(Concat(TextChunks(text, config))) == NonWs(text)
  {
    var max := config.maxChunkSize;
    assert Concat([text]) == text + Concat([]) == text;
    if ByteLen(text) > max {
      TextSentencesSpec(text);
      SentencesWithoutSemicolon(text);
      ScanChunksContent(TextSentences(text), max, text);
    }
  }

  /** The chunks packed from sentences that hold the text's non-whitespace
      characters, or the text itself when there are none, hold them too. */
  lemma ScanChunksContent(sentences: seq<string>, max: nat, text: string)
    requires forall k :: 0 <= k < |sentences| ==> ';' !in sentences[k]
    requires NonWs(Concat(sentences)) == NonWs(text)
    requires Concat([text]) == text
    ensures var st := ChunkScan(sentences, max, true);
      NonWs(Concat(if Close(st.0, st.1) == [] then [text] else Close(st.0, st.1))) == NonWs(text)
  {
    ChunkScanContent(sentences, max, true);
    var st := ChunkScan(sentences, max, true);
    CloseContent(st.0, st.1);
  }

  // ---------------------------------------------------------------------------
  // The packing test of chunk_text
  // ---------------------------------------------------------------------------

  /** After the first of two sentences, the chunk being built is that
      sentence, whichever packing test is used. */
  lemma PackFirst(a: string, b: string, max: nat, countSpace: bool)
    requires Trimmed(a) && ByteLen(a) <= max
    ensures ChunkScan([a, b][..1], max, countSpace) == ([], a)
  {
    ChunkScanStep([a, b], 0, max, countSpace);
    assert [a, b][..1][..0] == [];
  }

  /** Two sentences whose sizes add up to exactly the limit: as written,
      `chunk_text` packs them into one chunk a byte over the limit. */
  lemma PackPairJoined(a: string, b: string, max: nat)
    requires a != [] && b != [] && Trimmed(a) && Trimmed(b)
    requires ByteLen(a) + ByteLen(b) == max
    ensures ChunkScan([a, b], max, false) == ([], a + " " + b)
    ensures ByteLen(a + " " + b) == max + 1
  {
    ByteLenAtLeast(a);
    ByteLenAtLeast(b);
    PackFirst(a, b, max, false);
    ChunkScanStep([a, b], 1, max, false);
    assert [a, b][..2] == [a, b];
    ByteLenConcat(a, " ");
    ByteLenConcat(a + " ", b);
    ByteLenAscii(" ");
  }

  /** With the joining space counted, the same two sentences stay apart. */
  lemma PackPairApart(a: string, b: string, max: nat)
    requires a != [] && b != [] && Trimmed(a) && Trimmed(b)
    requires ByteLen(a) + ByteLen(b) == max
    ensures ChunkScan([a, b], max, true) == ([a], b)
  {
    ByteLenAtLeast(a);
    ByteLenAtLeast(b);
    TrimOfTrimmed(a);
    PackFirst(a, b, max, true);
    ChunkScanStep([a, b], 1, max, true);
    assert [a, b][..2] == [a, b];
    assert Add([], a, b, max, true) == ([] + [a], b);
    assert [] + [a] == [a];
  }

  /** The text "A. B.": two sentences of two bytes each. */
  predicate IsExample(text: string) {
    |text| == 5 && text[0] == 'A' && text[1] == '.' && text[2] == ' ' && text[3] == 'B' && text[4] == '.'
  }

  lemma ExampleEnds(text: string)
    requires IsExample(text)
    ensures !EndsSentence(text, 0) && EndsSentence(text, 1)
    ensures !EndsSentence(text, 2) && !EndsSentence(text, 3) && EndsSentence(text, 4)
  {
    assert NextNonWs(text, 2) == NextNonWs(text, 3) == Some(3);
  }

  lemma ExampleScan1(text: string)
    requires IsExample(text)
    ensures SentenceScan(text, 1) == ([], text[..1])
  {
    ExampleEnds(text);
    SentenceScanStep(text, 0);
    assert [] + [text[0]] == text[..1];
  }

  lemma ExampleScan2(text: string)
    requires IsExample(text)
    ensures SentenceScan(text, 2).0 == [text[..2]] && SentenceScan(text, 2).1 == []
  {
    ExampleEnds(text);
    ExampleScan1(text);
    SentenceScanStep(text, 1);
    PrefixNext(text, 1, 2);
    TwoCharsTrimmed(text[..2]);
  }

  lemma TwoCharsTrimmed(s: string)
    requires |s| == 2 && !IsWhitespace(s[0]) && !IsWhitespace(s[1])
    ensures Trimmed(s) && Trim(s) == s
  {
    TrimOfTrimmed(s);
  }

  lemma ExampleScan4(text: string)
    requires IsExample(text)
    ensures SentenceScan(text, 4).0 == [text[..2]] && SentenceScan(text, 4).1 == text[2..4]
  {
    ExampleEnds(text);
    ExampleScan2(text);
    SentenceScanStep(text, 2);
    SliceNext(text, 2, 2, 3);
    SentenceScanStep(text, 3);
    SliceNext(text, 2, 3, 4);
  }

  lemma TrimLeadingSpace(s: string)
    requires |s| >= 2 && s[0] == ' ' && Trimmed(s[1..])
    ensures Trim(s) == s[1..]
  {
    assert TrimStart(s) == TrimStart(s[1..]);
    TrimOfTrimmed(s[1..]);
  }

  /** The last sentence of the example: " B." trimmed. */
  lemma ExampleLast(text: string)
    requires IsExample(text)
    ensures text[2..4] + [text[4]] == text[2..] && Trim(text[2..]) == text[3..] && text[3..] != []
  {
    SliceNext(text, 2, 4, 5);
    assert text[2..5] == text[2..];
    TrimLeadingSpace(text[2..]);
    assert text[2..][1..] == text[3..];
  }

  lemma ExampleScan5(text: string)
    requires IsExample(text)
    ensures SentenceScan(text, 5) == ([text[..2], text[3..]], [])
  {
    ExampleEnds(text);
    ExampleScan4(text);
    SentenceScanStep(text, 4);
    ExampleLast(text);
    assert [text[..2]] + [text[3..]] == [text[..2], text[3..]];
  }

  /** `split_into_sentences` splits "A. B." into its two sentences. */
  lemma ExampleSentences(text: string)
    requires IsExample(text)
    ensures TextSentences(text) == [text[..2], text[3..]]
  {
    ExampleScan5(text);
    assert Trim([]) == [];
  }

  /** A text over the limit whose sentences are two that fill the limit
      exactly: as written, one chunk holding both. */
  lemma ChunkPairJoined(text: string, a: string, b: string, max: nat)
    requires TextSentences(text) == [a, b] && ByteLen(text) > max
    requires a != [] && b != [] && Trimmed(a) && Trimmed(b) && Trimmed(a + " " + b)
    requires ByteLen(a) + ByteLen(b) == max
    ensures ChunkWith(text, ChunkingConfig(max, 50), false) == [a + " " + b]
  {
    PackPairJoined(a, b, max);
    TrimOfTrimmed(a + " " + b);
    assert Close([], a + " " + b) == [a + " " + b];
  }

  /** The same text with the joining space counted: one chunk per
      sentence. */
  lemma ChunkPairApart(text: string, a: string, b: string, max: nat)
    requires TextSentences(text) == [a, b] && ByteLen(text) > max
    requires a != [] && b != [] && Trimmed(a) && Trimmed(b)
    requires ByteLen(a) + ByteLen(b) == max
    ensures ChunkWith(text, ChunkingConfig(max, 50), true) == [a, b]
  {
    PackPairApart(a, b, max);
    TrimOfTrimmed(b);
    assert ChunkScan(TextSentences(text), max, true) == ([a], b);
    assert Close([a], b) == [a] + [b] == [a, b];
  }

  /** The example is ASCII: its sizes in bytes are its lengths. */
  lemma ExampleBytes(text: string)
    requires IsExample(text)
    ensures ByteLen(text) == 5 && ByteLen(text[..2]) == 2 && ByteLen(text[3..]) == 2
  {
    assert IsAscii(text) by {
      forall i | 0 <= i < |text| ensures text[i] as int < 0x80 {
      }
    }
    ByteLenAscii(text);
    AsciiSubrange(text, 0, 2);
    assert text[0..2] == text[..2];
    ByteLenAscii(text[..2]);
    AsciiSubrange(text, 3, 5);
    assert text[3..5] == text[3..];
    ByteLenAscii(text[3..]);
  }

  /** The example's two sentences, joined by its one space. */
  lemma ExampleParts(text: string)
    requires IsExample(text)
    ensures text[..2] + " " + text[3..] == text && !NoWhitespace(text)
    ensures Trimmed(text) && Trimmed(text[..2]) && Trimmed(text[3..])
  {
    assert IsWhitespace(text[2]);
    assert |text[..2] + " " + text[3..]| == 5;
  }

  /** With a limit of 4 bytes, `chunk_text` as written returns "A. B."
      whole, a chunk of 5 bytes that is more than one word; counting the
      joining space splits it into its two sentences. */
  lemma ChunkOverflowAsWritten(text: string)
    requires IsExample(text)
    ensures TextChunksAsWritten(text, ChunkingConfig(4, 50)) == [text]
    ensures ByteLen(text) > 4 && !NoWhitespace(text)
    ensures TextChunks(text, ChunkingConfig(4, 50)) == [text[..2], text[3..]]
  {
    var a, b := text[..2], text[3..];
    ExampleSentences(text);
    ExampleBytes(text);
    ExampleParts(text);
    ChunkPairJoined(text, a, b, 4);
    ChunkPairApart(text, a, b, 4);
  }
}
