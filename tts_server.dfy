/** The request handling of the HTTP server that does not depend on the
    engine (`server/src/server.rs`): request defaults, the checks of
    `generate_tts`, the choice of the chunked path, and the phrase
    segmenter used for timing metadata. `segment_words` and the multipart
    builders in the same file repeat code modelled once in `Segmentation`
    and `Streaming`. */
module TtsServer {
  import opened Wrappers
  import opened Text
  import opened Errors
  import opened Normalization
  import opened SentenceSplitting
  import Segmentation
  import Chunking
  import Streaming

  // ---------------------------------------------------------------------------
  // Requests
  // ---------------------------------------------------------------------------

  /** A request body as sent: the fields other than `text` may be absent. */
  datatype RequestBody = RequestBody(text: string, voice: Option<string>, speed: Option<real>, enableChunking: Option<bool>)

  /** `TTSRequest` once deserialised. */
  datatype TtsRequest = TtsRequest(text: string, voice: string, speed: real, enableChunking: bool)

  const DefaultVoice: string := "bf_lily"
  const DefaultSpeed: real := 1.0
  const DefaultEnableChunking: bool := true

  /** Deserialisation with the `serde(default = …)` functions filling the
      absent fields. */
  function Deserialize(body: RequestBody): TtsRequest {
    TtsRequest(
      body.text,
      if body.voice.Some? then body.voice.value else DefaultVoice,
      if body.speed.Some? then body.speed.value else DefaultSpeed,
      if body.enableChunking.Some? then body.enableChunking.value else DefaultEnableChunking)
  }

  /** A field that is present is kept as sent; an absent one takes its
      default: the voice "bf_lily", the speed 1.0 and chunking on. */
  lemma DeserializeSpec(body: RequestBody)
    ensures Deserialize(body).text == body.text
    ensures Deserialize(body).voice == (if body.voice == None then "bf_lily" else body.voice.value)
    ensures Deserialize(body).speed == (if body.speed == None then 1.0 else body.speed.value)
    ensures Deserialize(body).enableChunking == (body.enableChunking != Some(false))
  {
  }

  // ---------------------------------------------------------------------------
  // Validation and the chunking decision
  // ---------------------------------------------------------------------------

  /** The checks of `generate_tts`: blank text, then the speed range. */
  function ValidateTts(req: TtsRequest): Result<(), TtsError> {
    if Trim(req.text) == [] then Err(EmptyText)
    else if req.speed <= 0.0 || req.speed > 3.0 then Err(InvalidSpeed(req.speed))
    else Ok(())
  }

  /** A request passes exactly when its text is not blank and its speed
      lies in (0, 3]; blank text is reported first. The length of the text
      is not limited here. */
  lemma ValidateTtsSpec(req: TtsRequest)
    ensures ValidateTts(req).Ok? <==> !AllWhitespace(req.text) && 0.0 < req.speed <= 3.0
    ensures ValidateTts(req) == Err(EmptyText) <==> AllWhitespace(req.text)
    ensures ValidateTts(req) == Err(InvalidSpeed(req.speed)) <==>
      !AllWhitespace(req.text) && (req.speed <= 0.0 || req.speed > 3.0)
  {
    TrimBlank(req.text);
  }

  /** The streaming endpoint checks everything this one does and adds the
      length limit; up to that limit the two give the same answer. */
  lemma StreamingIsStricter(req: TtsRequest)
    ensures Streaming.ValidateRequest(req.text, req.speed).Ok? ==> ValidateTts(req).Ok?
    ensures ByteLen(req.text) <= Streaming.MaxTextLength ==> Streaming.ValidateRequest(req.text, req.speed) == ValidateTts(req)
    ensures ByteLen(req.text) > Streaming.MaxTextLength && ValidateTts(req).Ok? ==>
      Streaming.ValidateRequest(req.text, req.speed) == Err(InvalidRequest(Streaming.TooLongMessage(ByteLen(req.text))))
  {
    var n := ByteLen(req.text);
    if Trim(req.text) == [] {
      assert Streaming.ValidateRequest(req.text, req.speed) == Err(EmptyText);
    } else if n > Streaming.MaxTextLength {
      assert Streaming.ValidateRequest(req.text, req.speed) == Err(InvalidRequest(Streaming.TooLongMessage(n)));
    } else {
      assert Streaming.ValidateRequest(req.text, req.speed) == ValidateTts(req);
    }
  }

  /** Whether `generate_tts` takes the chunked path. */
  predicate UseChunking(req: TtsRequest) {
    req.enableChunking && ByteLen(req.text) > 200
  }

  /** The requests the chunked path makes, one per chunk of the text with
      the request's voice and speed. */
  function ChunkRequests(req: TtsRequest): seq<TtsRequest> {
    var chunks := Chunking.TextChunks(req.text, Chunking.DefaultConfig);
    seq(|chunks|, i requires 0 <= i < |chunks| => TtsRequest(chunks[i], req.voice, req.speed, false))
  }

  /** The chunked path is taken exactly when chunking is enabled and the
      text is longer than the chunker's limit; a shorter text would come
      out of the chunker whole. Each chunk's request keeps the voice and
      the speed and never takes the chunked path again. */
  lemma ChunkingDecision(req: TtsRequest)
    ensures UseChunking(req) <==> req.enableChunking && ByteLen(req.text) > Chunking.DefaultConfig.maxChunkSize
    ensures !UseChunking(req) && req.enableChunking ==> Chunking.TextChunks(req.text, Chunking.DefaultConfig) == [req.text]
    ensures UseChunking(req) ==> |ChunkRequests(req)| >= 1
    ensures forall i :: 0 <= i < |ChunkRequests(req)| ==>
      && !UseChunking(ChunkRequests(req)[i])
      && ChunkRequests(req)[i].voice == req.voice && ChunkRequests(req)[i].speed == req.speed
      && ChunkRequests(req)[i].text == Chunking.TextChunks(req.text, Chunking.DefaultConfig)[i]
  {
    Chunking.TextChunksSpec(req.text, Chunking.DefaultConfig);
  }

  // ---------------------------------------------------------------------------
  // segment_phrases
  // ---------------------------------------------------------------------------

  const Terminators: set<char> := {'.', '!', '?'}

  /** The most words a phrase of `segment_phrases` has. */
  const PhraseWords: nat := 5

  /** The sentences of `segment_phrases`: the text split at every
      terminator, blank pieces dropped, the rest trimmed. */
  function Pieces(text: string): seq<string> {
    Segmentation.NonBlank(SplitOn(text, Terminators))
  }

  /** The phrases of `segment_phrases`: each sentence whole when it has at
      most five words, otherwise its five-word groups. */
  function ServerPhrases(text: string): seq<string> {
    // With a limit of five words nothing panics, so the second case does
    // not arise (`ServerPhrasesSpec`).
    match Segmentation.PhrasesOfAll(Pieces(text), PhraseWords)
    case Returned(ps) => ps
    case Panicked => []
  }

  /** `segment_phrases`. */
  method SegmentPhrases(text: string) returns (phrases: seq<string>)
    ensures phrases == ServerPhrases(text)
  {
    var sentences := Pieces(text);
    phrases := [];
    for i := 0 to |sentences|
      invariant Segmentation.PhrasesOfAll(sentences[..i], PhraseWords) == Returned(phrases)
    {
      phrases := PushSentence(sentences, i, phrases);
    }
    WholePrefix(sentences);
  }

  /** One round of the loop of `segment_phrases`. */
  method PushSentence(sentences: seq<string>, i: nat, phrases: seq<string>) returns (phrases': seq<string>)
    requires i < |sentences| && Segmentation.PhrasesOfAll(sentences[..i], PhraseWords) == Returned(phrases)
    ensures Segmentation.PhrasesOfAll(sentences[..i + 1], PhraseWords) == Returned(phrases')
  {
    Segmentation.CollectStep(Segmentation.PhraseMap(PhraseWords), sentences, i);
    FiveNeverPanics(sentences[i]);
    var next := Segmentation.PushPhrases(phrases, sentences[i], PhraseWords);
    phrases' := next.value;
  }

  /** Every sentence is non-empty, trimmed and free of terminators; a text
      without terminators is one sentence, its trimmed self, unless it is
      blank. */
  lemma PiecesSpec(text: string)
    ensures forall k :: 0 <= k < |Pieces(text)| ==> Segmentation.CleanClause(Pieces(text)[k], Terminators)
    ensures Segmentation.Avoids(text, Terminators) ==>
      Pieces(text) == if AllWhitespace(text) then [] else [Trim(text)]
  {
    var pieces := SplitOn(text, Terminators);
    SplitOnPieces(text, Terminators);
    forall k | 0 <= k < |pieces| ensures Segmentation.Avoids(pieces[k], Terminators) {
      assert pieces[k] in pieces;
    }
    Segmentation.NonBlankSpec(pieces, Terminators);
    if Segmentation.Avoids(text, Terminators) {
      assert pieces == [text];
      NonBlankOne(text);
      TrimBlank(text);
    }
  }

  /** Every phrase has at most five words; the words of the phrases, put
      together, are the text's non-whitespace characters with the
      terminators taken out, in order. */
  lemma ServerPhrasesSpec(text: string)
    ensures Segmentation.WithinWords(ServerPhrases(text), PhraseWords)
    ensures Concat(WordsOf(ServerPhrases(text))) == NonWs(ReplaceChars(text, Terminators, []))
    ensures Segmentation.Avoids(Concat(WordsOf(ServerPhrases(text))), Terminators)
  {
    var pieces := Pieces(text);
    Segmentation.PhrasesOfAllSpec(pieces, PhraseWords);
    var ps := ServerPhrases(text);
    ConcatWordsOf(ps);
    ConcatWordsOf(pieces);
    NonBlankContent(SplitOn(text, Terminators));
    SplitOnContent(text, Terminators);
    DroppedStayOut(text, Terminators);
  }

  /** A sentence of at most five words is one phrase, as trimmed; a longer
      one becomes its five-word groups, each joined by single spaces. */
  lemma OneSentence(text: string)
    requires Segmentation.Avoids(text, Terminators) && !AllWhitespace(text)
    ensures |SplitWhitespace(Trim(text))| <= 5 ==> ServerPhrases(text) == [Trim(text)]
    ensures |SplitWhitespace(Trim(text))| > 5 ==>
      ServerPhrases(text) == Segmentation.JoinAll(Segmentation.Chunks(SplitWhitespace(Trim(text)), PhraseWords))
  {
    PiecesSpec(text);
    PhrasesOfOne(Trim(text), PhraseWords);
  }

  /** Text with no words has no phrases. */
  lemma BlankText(text: string)
    requires AllWhitespace(text)
    ensures ServerPhrases(text) == []
  {
    var pieces := Pieces(text);
    PiecesSpec(text);
    NonBlankContent(SplitOn(text, Terminators));
    SplitOnContent(text, Terminators);
    ReplaceCharsBlank(text, Terminators);
    NonWsEmpty(ReplaceChars(text, Terminators, []));
    if pieces != [] {
      assert Segmentation.CleanClause(pieces[0], Terminators);
      NonWsConcat(pieces[0], Concat(pieces[1..]));
      assert false;
    }
  }

  // ---------------------------------------------------------------------------
  // Helper lemmas
  // ---------------------------------------------------------------------------

  lemma WholePrefix(s: seq<string>)
    ensures s[..|s|] == s
  {
  }

  lemma NonBlankOne(s: string)
    ensures Segmentation.NonBlank([s]) == if Trim(s) == [] then [] else [Trim(s)]
  {
    var one := [s];
    assert one[1..] == [];
    var head: seq<string> := if Trim(s) == [] then [] else [Trim(s)];
    assert Segmentation.NonBlank(one) == head + Segmentation.NonBlank([]);
    assert head + [] == head;
  }

  lemma FiveNeverPanics(piece: string)
    ensures Segmentation.PhrasesOf(piece, PhraseWords).Returned?
  {
  }

  /** The phrases of a single piece are the piece's phrases. */
  lemma PhrasesOfOne(p: string, maxWords: nat)
    ensures Segmentation.PhrasesOfAll([p], maxWords) == Segmentation.PhrasesOf(p, maxWords)
  {
    var one := [p];
    var f := Segmentation.PhraseMap(maxWords);
    Segmentation.CollectStep(f, one, 0);
    assert one[..1] == one;
    assert one[..0] == [];
    assert Segmentation.Collect(f, []) == Returned([]);
    assert f(p) == Segmentation.PhrasesOf(p, maxWords);
    match Segmentation.PhrasesOf(p, maxWords) {
      case Returned(r) => assert [] + r == r;
      case Panicked =>
    }
  }

  /** Splitting and putting the pieces back together drops just the
      separators. */
  lemma {:induction false} SplitOnContent(s: string, seps: set<char>)
    ensures Concat(SplitOn(s, seps)) == ReplaceChars(s, seps, [])
    decreases |s|
  {
    if s == [] {
      var e: seq<string> := [[]];
      assert SplitOn(s, seps) == e;
      assert e[1..] == [];
    } else {
      var p, c := s[..|s| - 1], s[|s| - 1];
      SplitOnContent(p, seps);
      SplitOnLast(s, seps);
      ReplaceCharsLast(s, seps);
    }
  }

  function Kept(c: char, seps: set<char>): string {
    if c in seps then [] else [c]
  }

  lemma SplitOnLast(s: string, seps: set<char>)
    requires s != []
    ensures Concat(SplitOn(s, seps)) == Concat(SplitOn(s[..|s| - 1], seps)) + Kept(s[|s| - 1], seps)
  {
    var init := SplitOn(s[..|s| - 1], seps);
    var c := s[|s| - 1];
    if c in seps {
      ConcatAppend(init, []);
    } else {
      var k := |init| - 1;
      assert init == init[..k] + [init[k]];
      ConcatAppend(init[..k], init[k]);
      ConcatAppend(init[..k], init[k] + [c]);
    }
  }

  lemma ReplaceCharsLast(s: string, seps: set<char>)
    requires s != []
    ensures ReplaceChars(s, seps, []) == ReplaceChars(s[..|s| - 1], seps, []) + Kept(s[|s| - 1], seps)
  {
    var p, c := s[..|s| - 1], s[|s| - 1];
    assert s == p + [c];
    ReplaceCharsConcat(p, [c], seps, []);
    assert [c][1..] == [];
  }

  /** Dropping blank pieces and trimming the rest keeps the non-whitespace
      characters. */
  lemma {:induction false} NonBlankContent(pieces: seq<string>)
    ensures NonWs(Concat(Segmentation.NonBlank(pieces))) == NonWs(Concat(pieces))
    decreases |pieces|
  {
    if pieces != [] {
      NonBlankContent(pieces[1..]);
      NonBlankHead(pieces);
      NonWsConcat(pieces[0], Concat(pieces[1..]));
    }
  }

  lemma NonBlankHead(pieces: seq<string>)
    requires pieces != []
    ensures NonWs(Concat(Segmentation.NonBlank(pieces))) == NonWs(pieces[0]) + NonWs(Concat(Segmentation.NonBlank(pieces[1..])))
  {
    var first := pieces[0];
    var rest := Concat(Segmentation.NonBlank(pieces[1..]));
    ConcatNonBlank(pieces);
    NonWsConcat(if Trim(first) == [] then [] else Trim(first), rest);
    NonWsTrim(first);
    if Trim(first) == [] {
      TrimBlank(first);
      NonWsEmpty(first);
    }
  }

  lemma ConcatNonBlank(pieces: seq<string>)
    requires pieces != []
    ensures Concat(Segmentation.NonBlank(pieces)) ==
      (if Trim(pieces[0]) == [] then [] else Trim(pieces[0])) + Concat(Segmentation.NonBlank(pieces[1..]))
  {
    var first := pieces[0];
    var head: seq<string> := if Trim(first) == [] then [] else [Trim(first)];
    var rest := Segmentation.NonBlank(pieces[1..]);
    assert Segmentation.NonBlank(pieces) == head + rest;
    ConcatConcat(head, rest);
    if head != [] {
      assert head[1..] == [];
      assert Concat(head) == Trim(first) + [];
    }
  }

  /** No separator survives in what is left. */
  lemma DroppedStayOut(s: string, seps: set<char>)
    ensures Segmentation.Avoids(NonWs(ReplaceChars(s, seps, [])), seps)
  {
    var r := ReplaceChars(s, seps, []);
    ReplaceCharsContent(s, seps, []);
    var n := NonWs(r);
    forall i | 0 <= i < |n| ensures n[i] !in seps {
      NonWsSubset(r, n[i]);
    }
  }

  lemma {:induction false} ReplaceCharsBlank(s: string, seps: set<char>)
    requires AllWhitespace(s)
    ensures AllWhitespace(ReplaceChars(s, seps, []))
    decreases |s|
  {
    if s != [] {
      assert AllWhitespace(s[1..]) by {
        forall i | 0 <= i < |s| - 1 ensures IsWhitespace(s[1..][i]) { assert s[1..][i] == s[i + 1]; }
      }
      ReplaceCharsBlank(s[1..], seps);
      var h := if s[0] in seps then [] else [s[0]];
      var t := ReplaceChars(s[1..], seps, []);
      forall i | 0 <= i < |h + t| ensures IsWhitespace((h + t)[i]) {
        if i >= |h| { assert (h + t)[i] == t[i - |h|]; }
      }
    }
  }
}
