/** The timing metadata of one synthesized chunk: the phrases of the
    normalized text with their byte offsets, their share of the audio's
    duration and their original wording, and the consistency check run over
    them (`server/src/services/metadata_builder.rs`).

    Offsets are byte offsets into the normalized text, as `str::find` and
    `str::len` give them. Durations are real numbers. */
module MetadataBuilder {
  import opened Wrappers
  import opened Text
  import opened Normalization
  import opened Segmentation
  import opened Errors
  import opened SemanticNormalization

  datatype PhraseMetadata = PhraseMetadata(
    text: string,
    originalText: Option<string>,
    words: seq<string>,
    startMs: real,
    durationMs: real,
    charOffsetStart: Option<nat>,
    charOffsetEnd: Option<nat>)

  datatype ValidationError = ValidationError(phraseIndex: nat, errorType: string, message: string)

  datatype ValidationWarning = ValidationWarning(phraseIndex: nat, warningType: string, message: string)

  datatype ValidationResult = ValidationResult(
    valid: bool, errors: seq<ValidationError>, warnings: seq<ValidationWarning>)

  datatype DebugInfo = DebugInfo(
    ttsEngine: string,
    textLengthOriginal: nat,
    textLengthNormalized: nat,
    normalizationChanges: nat,
    phraseCount: nat,
    totalDurationMs: real)

  datatype ChunkMetadata = ChunkMetadata(
    version: Option<string>,
    chunkIndex: nat,
    text: string,
    originalText: Option<string>,
    phrases: seq<PhraseMetadata>,
    durationMs: real,
    startOffsetMs: real,
    validation: Option<ValidationResult>,
    debugInfo: Option<DebugInfo>)

  /** Rust's rendering of an `f64` with `{}` and with `{:.1}`. */
  datatype RealFormat = RealFormat(plain: real -> string, oneDecimal: real -> string)

  // ---------------------------------------------------------------------------
  // Phrase offsets
  // ---------------------------------------------------------------------------

  /** The byte range a phrase is given. */
  datatype Span = Span(start: nat, end: nat)

  /** Where the next search starts: the end of the last range, or 0. */
  function EndOf(spans: seq<Span>): nat {
    if spans == [] then 0 else spans[|spans| - 1].end
  }

  /** The search for a phrase from byte `cur` on: `&normalized[cur..]` (which
      panics off a character boundary) searched with `str::find`. */
  function Search(normalized: string, cur: nat, phrase: string): Outcome<Option<nat>> {
    match ByteSlice(normalized, cur, ByteLen(normalized))
    case Panicked => Panicked
    case Returned(rest) => Returned(FindByte(rest, phrase))
  }

  /** The start given to a phrase: where it was found, or `cur` itself. */
  function Locate(normalized: string, cur: nat, phrase: string): Outcome<nat> {
    match Search(normalized, cur, phrase)
    case Panicked => Panicked
    case Returned(found) => Returned(match found case Some(pos) => cur + pos case None => cur)
  }

  /** The ranges of the phrases, each search starting where the previous
      range ended. */
  function Offsets(normalized: string, phrases: seq<string>): (r: Outcome<seq<Span>>)
    ensures r.Returned? ==> |r.value| == |phrases|
  {
    if phrases == [] then Returned([])
    else
      match Offsets(normalized, phrases[..|phrases| - 1])
      case Panicked => Panicked
      case Returned(spans) =>
        var p := phrases[|phrases| - 1];
        match Locate(normalized, EndOf(spans), p)
        case Panicked => Panicked
        case Returned(s) => Returned(spans + [Span(s, s + ByteLen(p))])
  }

  /** The phrase sits at byte `s` of the text. */
  predicate MatchesAt(normalized: string, s: nat, phrase: string) {
    ByteSlice(normalized, s, s + ByteLen(phrase)) == Returned(phrase)
  }

  /** The suffix taken from a character boundary. */
  lemma SuffixSlice(s: string, cur: nat)
    requires IsCharBoundary(s, cur)
    ensures ByteSlice(s, cur, ByteLen(s)) == Returned(s[CharIndexOf(s, cur).value..])
  {
    var k := CharIndexOf(s, cur).value;
    CharIndexOfSpec(s, cur);
    ByteOffsetEnd(s);
    ByteSliceAt(s, k, |s|);
    assert s[k..|s|] == s[k..];
  }

  /** Byte offsets in a suffix taken at a character boundary, relative to
      the whole text. */
  lemma SuffixOffsets(s: string, cur: nat)
    requires IsCharBoundary(s, cur)
    ensures forall j :: 0 <= j <= |s| - CharIndexOf(s, cur).value ==>
      ByteOffset(s, CharIndexOf(s, cur).value + j) == cur + ByteOffset(s[CharIndexOf(s, cur).value..], j)
  {
    var k := CharIndexOf(s, cur).value;
    CharIndexOfSpec(s, cur);
    forall j | 0 <= j <= |s| - k
      ensures ByteOffset(s, k + j) == cur + ByteOffset(s[k..], j)
    {
      ByteOffsetSlice(s, k, k + j);
      assert s[k..k + j] == s[k..][..j];
    }
  }

  /** The search panics exactly off a character boundary. */
  lemma SearchPanics(normalized: string, cur: nat, phrase: string)
    ensures Search(normalized, cur, phrase).Panicked? <==> !IsCharBoundary(normalized, cur)
  {
    CharBoundaryAt(normalized, |normalized|);
    ByteOffsetEnd(normalized);
    if IsCharBoundary(normalized, cur) {
      SuffixSlice(normalized, cur);
    }
  }

  /** A phrase the search finds sits where it was found. */
  lemma SearchFound(normalized: string, cur: nat, phrase: string)
    requires Search(normalized, cur, phrase).Returned? && Search(normalized, cur, phrase).value.Some?
    ensures MatchesAt(normalized, cur + Search(normalized, cur, phrase).value.value, phrase)
  {
    SearchPanics(normalized, cur, phrase);
    SuffixSlice(normalized, cur);
    SuffixOffsets(normalized, cur);
    var k := CharIndexOf(normalized, cur).value;
    var rest := normalized[k..];
    var j := Find(rest, phrase).value;
    assert OccursAt(normalized, phrase, k + j) by {
      assert normalized[k + j..k + j + |phrase|] == rest[j..j + |phrase|];
    }
    OccurrencePlace(normalized, phrase, k + j);
  }

  /** A matched phrase ends on a character boundary. */
  lemma MatchEndsOnBoundary(normalized: string, s: nat, phrase: string)
    requires MatchesAt(normalized, s, phrase)
    ensures IsCharBoundary(normalized, s + ByteLen(phrase))
  {
  }

  /** One range per phrase, as long as its phrase. */
  predicate Sized(phrases: seq<string>, spans: seq<Span>) {
    |spans| == |phrases| && forall k :: 0 <= k < |spans| ==> spans[k].end == spans[k].start + ByteLen(phrases[k])
  }

  /** The ranges come in order without overlapping. */
  predicate Ordered(spans: seq<Span>) {
    forall k :: 0 < k < |spans| ==> spans[k - 1].end <= spans[k].start
  }

  /** Each range is where its phrase was found or, when it was not found,
      where the previous range ended. */
  predicate Anchored(normalized: string, phrases: seq<string>, spans: seq<Span>)
    requires |spans| == |phrases|
  {
    forall k :: 0 <= k < |spans| ==>
      MatchesAt(normalized, spans[k].start, phrases[k]) || spans[k].start == EndOf(spans[..k])
  }

  predicate WellPlaced(normalized: string, phrases: seq<string>, spans: seq<Span>) {
    Sized(phrases, spans) && Ordered(spans) && Anchored(normalized, phrases, spans)
  }

  /** Where `Locate` puts a phrase: at or after `cur`, where the phrase was
      found or at `cur` itself. */
  lemma LocateSpec(normalized: string, cur: nat, p: string)
    requires Locate(normalized, cur, p).Returned?
    ensures var s := Locate(normalized, cur, p).value;
      cur <= s && (MatchesAt(normalized, s, p) || s == cur)
  {
    if Search(normalized, cur, p).value.Some? {
      SearchFound(normalized, cur, p);
    }
  }

  lemma SizedStep(phrases: seq<string>, spans: seq<Span>, p: string, s: nat)
    requires Sized(phrases, spans)
    ensures Sized(phrases + [p], spans + [Span(s, s + ByteLen(p))])
  {
    var all := spans + [Span(s, s + ByteLen(p))];
    var ps := phrases + [p];
    forall k | 0 <= k < |all| ensures all[k].end == all[k].start + ByteLen(ps[k]) {
      if k < |spans| {
        assert all[k] == spans[k] && ps[k] == phrases[k];
      }
    }
  }

  lemma OrderedStep(spans: seq<Span>, s: nat, e: nat)
    requires Ordered(spans) && EndOf(spans) <= s
    ensures Ordered(spans + [Span(s, e)])
  {
  }

  lemma AnchoredStep(normalized: string, phrases: seq<string>, spans: seq<Span>, p: string, s: nat)
    requires |spans| == |phrases| && Anchored(normalized, phrases, spans)
    requires MatchesAt(normalized, s, p) || s == EndOf(spans)
    ensures Anchored(normalized, phrases + [p], spans + [Span(s, s + ByteLen(p))])
  {
    var all := spans + [Span(s, s + ByteLen(p))];
    var ps := phrases + [p];
    assert all[..|spans|] == spans;
    forall k | 0 <= k < |all|
      ensures MatchesAt(normalized, all[k].start, ps[k]) || all[k].start == EndOf(all[..k])
    {
      if k < |spans| {
        assert all[..k] == spans[..k];
        assert all[k] == spans[k] && ps[k] == phrases[k];
      }
    }
  }

  lemma PlaceStep(normalized: string, phrases: seq<string>, spans: seq<Span>, p: string, s: nat)
    requires WellPlaced(normalized, phrases, spans)
    requires EndOf(spans) <= s && (MatchesAt(normalized, s, p) || s == EndOf(spans))
    ensures WellPlaced(normalized, phrases + [p], spans + [Span(s, s + ByteLen(p))])
  {
    SizedStep(phrases, spans, p, s);
    OrderedStep(spans, s, s + ByteLen(p));
    AnchoredStep(normalized, phrases, spans, p, s);
  }

  /** The ranges `Offsets` gives are well placed. */
  lemma {:induction false} OffsetsSpec(normalized: string, phrases: seq<string>)
    ensures Offsets(normalized, phrases).Returned? ==>
      WellPlaced(normalized, phrases, Offsets(normalized, phrases).value)
  {
    if phrases != [] && Offsets(normalized, phrases).Returned? {
      var p := phrases[..|phrases| - 1];
      var last := phrases[|phrases| - 1];
      OffsetsSpec(normalized, p);
      var spans := Offsets(normalized, p).value;
      var s := Locate(normalized, EndOf(spans), last).value;
      var all := spans + [Span(s, s + ByteLen(last))];
      assert Offsets(normalized, phrases).value == all;
      LocateSpec(normalized, EndOf(spans), last);
      PlaceStep(normalized, p, spans, last, s);
      assert p + [last] == phrases;
    }
  }

  /** The first `n` ranges are those of the first `n` phrases. */
  lemma {:induction false} OffsetsPrefix(normalized: string, phrases: seq<string>, n: nat)
    requires n <= |phrases| && Offsets(normalized, phrases).Returned?
    ensures Offsets(normalized, phrases[..n]).Returned?
    ensures Offsets(normalized, phrases[..n]).value == Offsets(normalized, phrases).value[..n]
    decreases |phrases|
  {
    OffsetsSpec(normalized, phrases);
    if n < |phrases| {
      var p := phrases[..|phrases| - 1];
      OffsetsSpec(normalized, p);
      assert p[..n] == phrases[..n];
      OffsetsPrefix(normalized, p, n);
    } else {
      assert phrases[..n] == phrases;
    }
  }

  /** The search after the last range cannot panic when that range is
      where its phrase was found: a found phrase ends on a character
      boundary. */
  lemma LastFallback(normalized: string, phrases: seq<string>)
    requires phrases != [] && Offsets(normalized, phrases).Returned?
    requires !IsCharBoundary(normalized, EndOf(Offsets(normalized, phrases).value))
    ensures Offsets(normalized, phrases[..|phrases| - 1]).Returned?
    ensures Search(normalized, EndOf(Offsets(normalized, phrases[..|phrases| - 1]).value), phrases[|phrases| - 1]) == Returned(None)
  {
    var before := Offsets(normalized, phrases[..|phrases| - 1]).value;
    var p := phrases[|phrases| - 1];
    var cur := EndOf(before);
    var found := Search(normalized, cur, p);
    if found.value.Some? {
      SearchFound(normalized, cur, p);
      assert false;
    }
  }

  /** Phrase `k` was searched for, after the ranges of the phrases before
      it, and not found. */
  predicate MissedAt(normalized: string, phrases: seq<string>, k: nat) {
    && k < |phrases|
    && Offsets(normalized, phrases[..k]).Returned?
    && Search(normalized, EndOf(Offsets(normalized, phrases[..k]).value), phrases[k]) == Returned(None)
  }

  lemma MissedAtExtends(normalized: string, phrases: seq<string>, k: nat)
    requires phrases != [] && MissedAt(normalized, phrases[..|phrases| - 1], k)
    ensures MissedAt(normalized, phrases, k)
  {
    assert phrases[..|phrases| - 1][..k] == phrases[..k];
  }

  /** A panic in the last search comes right after a miss. */
  lemma MissedBeforeLast(normalized: string, phrases: seq<string>)
    requires phrases != [] && Offsets(normalized, phrases).Panicked?
    requires Offsets(normalized, phrases[..|phrases| - 1]).Returned?
    ensures |phrases| >= 2 && MissedAt(normalized, phrases, |phrases| - 2)
  {
    var p := phrases[..|phrases| - 1];
    var spans := Offsets(normalized, p).value;
    SearchPanics(normalized, EndOf(spans), phrases[|phrases| - 1]);
    CharBoundaryAt(normalized, 0);
    assert p != [];
    LastFallback(normalized, p);
    var m := |p| - 1;
    assert p[..m] == phrases[..m];
  }

  /** The search panics only after a phrase that was not found. */
  lemma {:induction false} OffsetsPanic(normalized: string, phrases: seq<string>)
    ensures Offsets(normalized, phrases).Panicked? ==> exists k :: MissedAt(normalized, phrases, k)
  {
    if phrases != [] && Offsets(normalized, phrases).Panicked? {
      var p := phrases[..|phrases| - 1];
      OffsetsPanic(normalized, p);
      if Offsets(normalized, p).Panicked? {
        var k :| MissedAt(normalized, p, k);
        MissedAtExtends(normalized, phrases, k);
      } else {
        MissedBeforeLast(normalized, phrases);
      }
    }
  }

  // ---------------------------------------------------------------------------
  // Phrase timing and metadata
  // ---------------------------------------------------------------------------

  /** A phrase's share of the duration, weighted by its length in bytes. */
  function PhraseDuration(durationMs: real, totalChars: nat, phrase: string): real {
    if totalChars == 0 then 0.0 else durationMs * (ByteLen(phrase) as real / totalChars as real)
  }

  /** How a phrase's duration is found from its text. */
  type Share = string -> real

  /** The byte-weighted share of `durationMs` out of `totalChars` bytes. */
  function ShareOf(durationMs: real, totalChars: nat): Share {
    (p: string) => PhraseDuration(durationMs, totalChars, p)
  }

  /** The durations of the phrases before, added up. */
  function Elapsed(share: Share, phrases: seq<string>): real {
    if phrases == [] then 0.0
    else Elapsed(share, phrases[..|phrases| - 1]) + share(phrases[|phrases| - 1])
  }

  /** How a phrase's original wording is found from its text and its start. */
  type Extract = (string, nat) -> Outcome<string>

  /** `extract_original_phrase` on the normalization result, with the
      phrase's start as the hint. */
  function OriginalIn(r: NormalizationResult): Extract {
    (p: string, start: nat) => ExtractOriginalPhrase(p, r, Some(start))
  }

  /** The metadata of phrase `k`, or a panic from `extract_original_phrase`. */
  function PhraseAt(extract: Extract, phrases: seq<string>, k: nat, span: Span, share: Share): Outcome<PhraseMetadata>
    requires k < |phrases|
  {
    var p := phrases[k];
    match extract(p, span.start)
    case Panicked => Panicked
    case Returned(original) =>
      Returned(PhraseMetadata(
        p,
        if original != p then Some(original) else None,
        WordsWithConfig(p, ForTts),
        Elapsed(share, phrases[..k]),
        share(p),
        Some(span.start),
        Some(span.end)))
  }

  /** The metadata of the first `n` phrases, given the ranges of (at least)
      those phrases. */
  function PhraseMetas(extract: Extract, phrases: seq<string>, spans: seq<Span>, n: nat, share: Share): (ms: Outcome<seq<PhraseMetadata>>)
    requires n <= |phrases| && n <= |spans|
    ensures ms.Returned? ==> |ms.value| == n
  {
    if n == 0 then Returned([])
    else
      match PhraseMetas(extract, phrases, spans, n - 1, share)
      case Panicked => Panicked
      case Returned(ms) =>
        match PhraseAt(extract, phrases, n - 1, spans[n - 1], share)
        case Panicked => Panicked
        case Returned(m) => Returned(ms + [m])
  }

  /** The phrase loop of `build_metadata_with_options`. */
  function BuildPhrases(r: NormalizationResult, phrases: seq<string>, durationMs: real): Outcome<seq<PhraseMetadata>> {
    match Offsets(r.normalized, phrases)
    case Panicked => Panicked
    case Returned(spans) =>
      OffsetsSpec(r.normalized, phrases);
      PhraseMetas(OriginalIn(r), phrases, spans, |phrases|, ShareOf(durationMs, ByteLen(Concat(phrases))))
  }

  /** `m` is the metadata of phrase `k`: that phrase, its words, its range
      and its share of the duration; its original wording is recorded only
      when it differs. */
  predicate Describes(extract: Extract, phrases: seq<string>, spans: seq<Span>, k: nat, m: PhraseMetadata, share: Share)
    requires k < |phrases| && |spans| == |phrases|
  {
    && m.text == phrases[k]
    && m.words == WordsWithConfig(phrases[k], ForTts)
    && m.charOffsetStart == Some(spans[k].start)
    && m.charOffsetEnd == Some(spans[k].end)
    && m.startMs == Elapsed(share, phrases[..k])
    && m.durationMs == share(phrases[k])
    && (m.originalText.None? <==> extract(phrases[k], spans[k].start) == Returned(phrases[k]))
    && (m.originalText.Some? ==> extract(phrases[k], spans[k].start) == Returned(m.originalText.value))
  }

  lemma PhraseAtSpec(extract: Extract, phrases: seq<string>, spans: seq<Span>, k: nat, share: Share)
    requires k < |phrases| && |spans| == |phrases|
    requires PhraseAt(extract, phrases, k, spans[k], share).Returned?
    ensures Describes(extract, phrases, spans, k, PhraseAt(extract, phrases, k, spans[k], share).value, share)
  {
  }

  /** Entry `k` of the metadata list is the metadata of phrase `k`. */
  lemma {:induction false} PhraseMetasAt(extract: Extract, phrases: seq<string>, spans: seq<Span>, n: nat, k: nat, share: Share)
    requires k < n <= |phrases| && |spans| == |phrases|
    requires PhraseMetas(extract, phrases, spans, n, share).Returned?
    ensures PhraseAt(extract, phrases, k, spans[k], share) == Returned(PhraseMetas(extract, phrases, spans, n, share).value[k])
  {
    var ms := PhraseMetas(extract, phrases, spans, n - 1, share);
    var m := PhraseAt(extract, phrases, n - 1, spans[n - 1], share);
    assert PhraseMetas(extract, phrases, spans, n, share).value == ms.value + [m.value];
    if k < n - 1 {
      PhraseMetasAt(extract, phrases, spans, n - 1, k, share);
    }
  }

  /** The metadata list has one entry per phrase, each describing its
      phrase. */
  lemma PhraseMetasSpec(extract: Extract, phrases: seq<string>, spans: seq<Span>, n: nat, share: Share)
    requires n <= |phrases| && |spans| == |phrases|
    ensures PhraseMetas(extract, phrases, spans, n, share).Returned? ==>
      var ms := PhraseMetas(extract, phrases, spans, n, share).value;
      && |ms| == n
      && forall k :: 0 <= k < n ==> Describes(extract, phrases, spans, k, ms[k], share)
  {
    if PhraseMetas(extract, phrases, spans, n, share).Returned? {
      var ms := PhraseMetas(extract, phrases, spans, n, share).value;
      forall k | 0 <= k < n
        ensures Describes(extract, phrases, spans, k, ms[k], share)
      {
        PhraseMetasAt(extract, phrases, spans, n, k, share);
        PhraseAtSpec(extract, phrases, spans, k, share);
      }
    }
  }

  /** A non-negative duration gives every phrase a non-negative share. */
  lemma ShareNonNegative(durationMs: real, totalChars: nat, phrase: string)
    requires durationMs >= 0.0
    ensures PhraseDuration(durationMs, totalChars, phrase) >= 0.0
  {
    if totalChars > 0 {
      var w := ByteLen(phrase) as real / totalChars as real;
      assert w >= 0.0;
      assert durationMs * w >= 0.0;
    }
  }

  // ---------------------------------------------------------------------------
  // Validation
  // ---------------------------------------------------------------------------

  /** `chars().take(30)`. */
  function Take30(s: string): (r: string)
    ensures |r| <= 30 && r <= s
  {
    if |s| <= 30 then s else s[..30]
  }

  /** Check 1: the text at the phrase's range, when it has both offsets;
      slicing the text off a character boundary panics. */
  function OffsetErrors(p: PhraseMetadata, i: nat, text: string): Outcome<seq<ValidationError>> {
    if p.charOffsetStart.Some? && p.charOffsetEnd.Some? then
      var start, end, len := p.charOffsetStart.value, p.charOffsetEnd.value, ByteLen(text);
      if start < len && end <= len then
        match ByteSlice(text, start, end)
        case Panicked => Panicked
        case Returned(actual) =>
          Returned(if p.text != actual then
            [ValidationError(i, "text_mismatch", "Expected '" + Take30(p.text) + "...', found '" + Take30(actual) + "...'")]
          else [])
      else
        Returned([ValidationError(i, "offset_out_of_bounds",
          "Offsets [" + NatToDecimal(start) + ", " + NatToDecimal(end) + ") exceed text length " + NatToDecimal(len))])
    else Returned([])
  }

  /** Checks 2 and 3: overlap with and gap after the previous phrase. */
  function OrderWarnings(phrases: seq<PhraseMetadata>, i: nat): seq<ValidationWarning>
    requires i < |phrases|
  {
    if i > 0 && phrases[i - 1].charOffsetEnd.Some? && phrases[i].charOffsetStart.Some? then
      var prevEnd, currStart := phrases[i - 1].charOffsetEnd.value, phrases[i].charOffsetStart.value;
      var gap := if currStart > prevEnd then currStart - prevEnd else 0;
      (if prevEnd > currStart then
         [ValidationWarning(i, "overlapping_phrases", "Overlaps with previous phrase by " + NatToDecimal(prevEnd - currStart) + " chars")]
       else [])
      + (if gap > 50 then [ValidationWarning(i, "large_gap", "Gap of " + NatToDecimal(gap) + " chars before this phrase")] else [])
    else []
  }

  /** The errors found for phrase `i`. */
  function PhraseErrors(phrases: seq<PhraseMetadata>, i: nat, text: string, fmt: RealFormat): Outcome<seq<ValidationError>>
    requires i < |phrases|
  {
    var p := phrases[i];
    match OffsetErrors(p, i, text)
    case Panicked => Panicked
    case Returned(es) =>
      Returned(es + if p.durationMs < 0.0 then [ValidationError(i, "negative_duration", "Duration is negative: " + fmt.plain(p.durationMs))] else [])
  }

  /** The warnings found for phrase `i` (check 4 warns above a minute). */
  function PhraseWarnings(phrases: seq<PhraseMetadata>, i: nat, fmt: RealFormat): seq<ValidationWarning>
    requires i < |phrases|
  {
    var p := phrases[i];
    OrderWarnings(phrases, i)
    + if p.durationMs > 60000.0 then
        [ValidationWarning(i, "very_long_phrase", "Duration exceeds 60s: " + fmt.oneDecimal(p.durationMs / 1000.0) + "s")]
      else []
  }

  datatype Issues = Issues(errors: seq<ValidationError>, warnings: seq<ValidationWarning>)

  /** Everything found for phrase `i`. */
  function Findings(phrases: seq<PhraseMetadata>, i: nat, text: string, fmt: RealFormat): Outcome<Issues>
    requires i < |phrases|
  {
    match PhraseErrors(phrases, i, text, fmt)
    case Panicked => Panicked
    case Returned(es) => Returned(Issues(es, PhraseWarnings(phrases, i, fmt)))
  }

  /** `Findings` for every index (nothing past the last phrase). */
  function PhraseIssues(phrases: seq<PhraseMetadata>, text: string, fmt: RealFormat): nat -> Outcome<Issues> {
    (i: nat) => if i < |phrases| then Findings(phrases, i, text, fmt) else Returned(Issues([], []))
  }

  /** The findings for indices `0 .. n - 1`, in order; a panic stops it. */
  function Accumulate(f: nat -> Outcome<Issues>, n: nat): Outcome<Issues> {
    if n == 0 then Returned(Issues([], []))
    else
      match Accumulate(f, n - 1)
      case Panicked => Panicked
      case Returned(iss) =>
        match f(n - 1)
        case Panicked => Panicked
        case Returned(more) => Returned(Issues(iss.errors + more.errors, iss.warnings + more.warnings))
  }

  lemma {:induction false} AccumulatePanicPersists(f: nat -> Outcome<Issues>, i: nat, n: nat)
    requires i <= n && Accumulate(f, i).Panicked?
    ensures Accumulate(f, n).Panicked?
    decreases n - i
  {
    if i < n {
      AccumulatePanicPersists(f, i + 1, n);
    }
  }

  /** The errors and warnings of the first `n` phrases, in order. */
  function Checks(phrases: seq<PhraseMetadata>, text: string, fmt: RealFormat, n: nat): Outcome<Issues> {
    Accumulate(PhraseIssues(phrases, text, fmt), n)
  }

  /** `validate_phrases`. */
  function Validation(phrases: seq<PhraseMetadata>, text: string, fmt: RealFormat): Outcome<ValidationResult> {
    match Checks(phrases, text, fmt, |phrases|)
    case Panicked => Panicked
    case Returned(iss) => Returned(ValidationResult(iss.errors == [], iss.errors, iss.warnings))
  }

  // The meaning of the findings.

  /** Both offsets are set and the range does not fit: its start is not
      before the end of the text, or its end is past it. */
  predicate OutOfBounds(p: PhraseMetadata, text: string) {
    && p.charOffsetStart.Some? && p.charOffsetEnd.Some?
    && !(p.charOffsetStart.value < ByteLen(text) && p.charOffsetEnd.value <= ByteLen(text))
  }

  /** Both offsets are set, the range fits, and the text there is not the
      phrase's text. */
  predicate Mismatched(p: PhraseMetadata, text: string) {
    && p.charOffsetStart.Some? && p.charOffsetEnd.Some?
    && p.charOffsetStart.value < ByteLen(text) && p.charOffsetEnd.value <= ByteLen(text)
    && ByteSlice(text, p.charOffsetStart.value, p.charOffsetEnd.value) != Returned(p.text)
  }

  /** Reading the text at the phrase's range panics. */
  predicate SlicePanics(p: PhraseMetadata, text: string) {
    && p.charOffsetStart.Some? && p.charOffsetEnd.Some?
    && p.charOffsetStart.value < ByteLen(text) && p.charOffsetEnd.value <= ByteLen(text)
    && ByteSlice(text, p.charOffsetStart.value, p.charOffsetEnd.value).Panicked?
  }

  /** Phrase `i` starts before the previous phrase ends. */
  predicate Overlaps(phrases: seq<PhraseMetadata>, i: nat)
    requires i < |phrases|
  {
    && i > 0 && phrases[i - 1].charOffsetEnd.Some? && phrases[i].charOffsetStart.Some?
    && phrases[i - 1].charOffsetEnd.value > phrases[i].charOffsetStart.value
  }

  /** Phrase `i` starts more than 50 bytes after the previous phrase ends. */
  predicate GapBefore(phrases: seq<PhraseMetadata>, i: nat)
    requires i < |phrases|
  {
    && i > 0 && phrases[i - 1].charOffsetEnd.Some? && phrases[i].charOffsetStart.Some?
    && phrases[i].charOffsetStart.value > phrases[i - 1].charOffsetEnd.value + 50
  }

  predicate RaisesError(es: seq<ValidationError>, kind: string) {
    exists e :: e in es && e.errorType == kind
  }

  predicate RaisesWarning(ws: seq<ValidationWarning>, kind: string) {
    exists w :: w in ws && w.warningType == kind
  }

  /** An error of this kind was reported for phrase `i`. */
  predicate HasError(v: ValidationResult, i: nat, kind: string) {
    exists e :: e in v.errors && e.phraseIndex == i && e.errorType == kind
  }

  /** A warning of this kind was reported for phrase `i`. */
  predicate HasWarning(v: ValidationResult, i: nat, kind: string) {
    exists w :: w in v.warnings && w.phraseIndex == i && w.warningType == kind
  }

  /** Check 1 panics exactly when the slice does, reports
      `offset_out_of_bounds` exactly for a range that does not fit, and
      `text_mismatch` exactly for a range holding other text: at most one
      error, about phrase `i`. */
  lemma OffsetErrorsSpec(p: PhraseMetadata, i: nat, text: string)
    ensures OffsetErrors(p, i, text).Panicked? <==> SlicePanics(p, text)
    ensures OffsetErrors(p, i, text).Returned? ==>
      var es := OffsetErrors(p, i, text).value;
      && |es| <= 1
      && (forall e :: e in es ==> e.phraseIndex == i)
      && (RaisesError(es, "offset_out_of_bounds") <==> OutOfBounds(p, text))
      && (RaisesError(es, "text_mismatch") <==> Mismatched(p, text))
      && (forall e :: e in es ==> e.errorType == "offset_out_of_bounds" || e.errorType == "text_mismatch")
  {
    var r := OffsetErrors(p, i, text);
    if r.Returned? && r.value != [] {
      assert r.value[0] in r.value;
    }
  }

  /** Checks 2 and 3 warn about an overlap and about a gap over 50 bytes,
      and about nothing else. */
  lemma OrderWarningsSpec(phrases: seq<PhraseMetadata>, i: nat)
    requires i < |phrases|
    ensures var ws := OrderWarnings(phrases, i);
      && (forall w :: w in ws ==> w.phraseIndex == i)
      && (RaisesWarning(ws, "overlapping_phrases") <==> Overlaps(phrases, i))
      && (RaisesWarning(ws, "large_gap") <==> GapBefore(phrases, i))
      && (forall w :: w in ws ==> w.warningType == "overlapping_phrases" || w.warningType == "large_gap")
  {
    var ws := OrderWarnings(phrases, i);
    if Overlaps(phrases, i) {
      assert ws[0].warningType == "overlapping_phrases";
    }
    if GapBefore(phrases, i) {
      assert ws[|ws| - 1].warningType == "large_gap";
    }
  }

  /** The errors of one phrase: check 1's, then `negative_duration` exactly
      for a negative duration. */
  lemma PhraseErrorsSpec(phrases: seq<PhraseMetadata>, i: nat, text: string, fmt: RealFormat)
    requires i < |phrases|
    ensures PhraseErrors(phrases, i, text, fmt).Panicked? <==> SlicePanics(phrases[i], text)
    ensures PhraseErrors(phrases, i, text, fmt).Returned? ==>
      var es := PhraseErrors(phrases, i, text, fmt).value;
      && (forall e :: e in es ==> e.phraseIndex == i)
      && (RaisesError(es, "offset_out_of_bounds") <==> OutOfBounds(phrases[i], text))
      && (RaisesError(es, "text_mismatch") <==> Mismatched(phrases[i], text))
      && (RaisesError(es, "negative_duration") <==> phrases[i].durationMs < 0.0)
  {
    OffsetErrorsSpec(phrases[i], i, text);
    var r := PhraseErrors(phrases, i, text, fmt);
    if r.Returned? {
      var first := OffsetErrors(phrases[i], i, text).value;
      var es := r.value;
      assert forall e :: e in first ==> e in es;
      if phrases[i].durationMs < 0.0 {
        assert es[|es| - 1].errorType == "negative_duration";
      } else {
        assert es == first;
      }
    }
  }

  /** The warnings of one phrase: checks 2 and 3's, then `very_long_phrase`
      exactly above 60 000 ms. */
  lemma PhraseWarningsSpec(phrases: seq<PhraseMetadata>, i: nat, fmt: RealFormat)
    requires i < |phrases|
    ensures var ws := PhraseWarnings(phrases, i, fmt);
      && (forall w :: w in ws ==> w.phraseIndex == i)
      && (RaisesWarning(ws, "overlapping_phrases") <==> Overlaps(phrases, i))
      && (RaisesWarning(ws, "large_gap") <==> GapBefore(phrases, i))
      && (RaisesWarning(ws, "very_long_phrase") <==> phrases[i].durationMs > 60000.0)
  {
    OrderWarningsSpec(phrases, i);
    var first := OrderWarnings(phrases, i);
    var ws := PhraseWarnings(phrases, i, fmt);
    assert forall w :: w in first ==> w in ws;
    if phrases[i].durationMs > 60000.0 {
      assert ws[|ws| - 1].warningType == "very_long_phrase";
    } else {
      assert ws == first;
    }
  }

  /** The accumulated findings are exactly those of each index below `n`,
      and they exist only when no index panicked. */
  lemma {:induction false} AccumulateSpec(f: nat -> Outcome<Issues>, n: nat)
    ensures Accumulate(f, n).Returned? <==> forall i :: 0 <= i < n ==> f(i).Returned?
    ensures Accumulate(f, n).Returned? ==>
      && (forall e :: e in Accumulate(f, n).value.errors <==> exists i :: 0 <= i < n && e in f(i).value.errors)
      && (forall w :: w in Accumulate(f, n).value.warnings <==> exists i :: 0 <= i < n && w in f(i).value.warnings)
  {
    if n > 0 {
      AccumulateSpec(f, n - 1);
    }
  }

  /** When every index reports only about itself, the accumulated
      reports about index `i` are exactly its own. */
  lemma AccumulateErrorsAt(f: nat -> Outcome<Issues>, n: nat, i: nat, kind: string)
    requires i < n && Accumulate(f, n).Returned?
    requires forall j, e :: 0 <= j < n && f(j).Returned? && e in f(j).value.errors ==> e.phraseIndex == j
    ensures f(i).Returned?
    ensures (exists e :: e in Accumulate(f, n).value.errors && e.phraseIndex == i && e.errorType == kind)
        <==> RaisesError(f(i).value.errors, kind)
  {
    AccumulateSpec(f, n);
    var es := Accumulate(f, n).value.errors;
    if exists e :: e in es && e.phraseIndex == i && e.errorType == kind {
      var e :| e in es && e.phraseIndex == i && e.errorType == kind;
      var j :| 0 <= j < n && e in f(j).value.errors;
    }
    if RaisesError(f(i).value.errors, kind) {
      var e :| e in f(i).value.errors && e.errorType == kind;
      assert e in es;
    }
  }

  lemma AccumulateWarningsAt(f: nat -> Outcome<Issues>, n: nat, i: nat, kind: string)
    requires i < n && Accumulate(f, n).Returned?
    requires forall j, w :: 0 <= j < n && f(j).Returned? && w in f(j).value.warnings ==> w.phraseIndex == j
    ensures f(i).Returned?
    ensures (exists w :: w in Accumulate(f, n).value.warnings && w.phraseIndex == i && w.warningType == kind)
        <==> RaisesWarning(f(i).value.warnings, kind)
  {
    AccumulateSpec(f, n);
    var ws := Accumulate(f, n).value.warnings;
    if exists w :: w in ws && w.phraseIndex == i && w.warningType == kind {
      var w :| w in ws && w.phraseIndex == i && w.warningType == kind;
      var j :| 0 <= j < n && w in f(j).value.warnings;
    }
    if RaisesWarning(f(i).value.warnings, kind) {
      var w :| w in f(i).value.warnings && w.warningType == kind;
      assert w in ws;
    }
  }

  /** Every phrase's findings are about that phrase. */
  lemma FindingsIndexed(phrases: seq<PhraseMetadata>, text: string, fmt: RealFormat)
    ensures var f := PhraseIssues(phrases, text, fmt);
      forall j, e :: 0 <= j < |phrases| && f(j).Returned? && e in f(j).value.errors ==> e.phraseIndex == j
    ensures var f := PhraseIssues(phrases, text, fmt);
      forall j, w :: 0 <= j < |phrases| && f(j).Returned? && w in f(j).value.warnings ==> w.phraseIndex == j
  {
    var f := PhraseIssues(phrases, text, fmt);
    forall j | 0 <= j < |phrases|
      ensures f(j).Returned? ==> forall e :: e in f(j).value.errors ==> e.phraseIndex == j
      ensures f(j).Returned? ==> forall w :: w in f(j).value.warnings ==> w.phraseIndex == j
    {
      PhraseErrorsSpec(phrases, j, text, fmt);
      PhraseWarningsSpec(phrases, j, fmt);
    }
  }

  /** The reports about phrase `i` are exactly that phrase's own
      findings. */
  lemma FindingsAt(phrases: seq<PhraseMetadata>, text: string, fmt: RealFormat, i: nat, kind: string)
    requires i < |phrases| && Validation(phrases, text, fmt).Returned?
    ensures PhraseErrors(phrases, i, text, fmt).Returned?
    ensures HasError(Validation(phrases, text, fmt).value, i, kind) <==> RaisesError(PhraseErrors(phrases, i, text, fmt).value, kind)
    ensures HasWarning(Validation(phrases, text, fmt).value, i, kind) <==> RaisesWarning(PhraseWarnings(phrases, i, fmt), kind)
  {
    var f := PhraseIssues(phrases, text, fmt);
    FindingsIndexed(phrases, text, fmt);
    AccumulateErrorsAt(f, |phrases|, i, kind);
    AccumulateWarningsAt(f, |phrases|, i, kind);
  }

  /** `validate_phrases`: it panics exactly when reading some phrase's range
      does; otherwise the result is valid exactly when there are no errors,
      and for each phrase it reports `offset_out_of_bounds`,
      `text_mismatch`, `negative_duration`, `overlapping_phrases`,
      `large_gap` and `very_long_phrase` exactly when the condition of that
      check holds. */
  lemma ValidationSpec(phrases: seq<PhraseMetadata>, text: string, fmt: RealFormat)
    ensures Validation(phrases, text, fmt).Panicked? <==> exists i :: 0 <= i < |phrases| && SlicePanics(phrases[i], text)
    ensures Validation(phrases, text, fmt).Returned? ==>
      var v := Validation(phrases, text, fmt).value;
      && (v.valid <==> v.errors == [])
      && forall i :: 0 <= i < |phrases| ==>
           && (HasError(v, i, "offset_out_of_bounds") <==> OutOfBounds(phrases[i], text))
           && (HasError(v, i, "text_mismatch") <==> Mismatched(phrases[i], text))
           && (HasError(v, i, "negative_duration") <==> phrases[i].durationMs < 0.0)
           && (HasWarning(v, i, "overlapping_phrases") <==> Overlaps(phrases, i))
           && (HasWarning(v, i, "large_gap") <==> GapBefore(phrases, i))
           && (HasWarning(v, i, "very_long_phrase") <==> phrases[i].durationMs > 60000.0)
  {
    var f := PhraseIssues(phrases, text, fmt);
    AccumulateSpec(f, |phrases|);
    forall i | 0 <= i < |phrases|
      ensures f(i).Panicked? <==> SlicePanics(phrases[i], text)
    {
      PhraseErrorsSpec(phrases, i, text, fmt);
    }
    if Validation(phrases, text, fmt).Returned? {
      forall i | 0 <= i < |phrases|
        ensures var v := Validation(phrases, text, fmt).value;
           && (HasError(v, i, "offset_out_of_bounds") <==> OutOfBounds(phrases[i], text))
           && (HasError(v, i, "text_mismatch") <==> Mismatched(phrases[i], text))
           && (HasError(v, i, "negative_duration") <==> phrases[i].durationMs < 0.0)
           && (HasWarning(v, i, "overlapping_phrases") <==> Overlaps(phrases, i))
           && (HasWarning(v, i, "large_gap") <==> GapBefore(phrases, i))
           && (HasWarning(v, i, "very_long_phrase") <==> phrases[i].durationMs > 60000.0)
      {
        PhraseErrorsSpec(phrases, i, text, fmt);
        PhraseWarningsSpec(phrases, i, fmt);
        FindingsAt(phrases, text, fmt, i, "offset_out_of_bounds");
        FindingsAt(phrases, text, fmt, i, "text_mismatch");
        FindingsAt(phrases, text, fmt, i, "negative_duration");
        FindingsAt(phrases, text, fmt, i, "overlapping_phrases");
        FindingsAt(phrases, text, fmt, i, "large_gap");
        FindingsAt(phrases, text, fmt, i, "very_long_phrase");
      }
    }
  }

  /** `validate_phrases`: the loop over the phrases, stopping at a panic. */
  method ValidatePhrases(phrases: seq<PhraseMetadata>, text: string, fmt: RealFormat) returns (r: Outcome<ValidationResult>)
    ensures r == Validation(phrases, text, fmt)
  {
    var errors: seq<ValidationError> := [];
    var warnings: seq<ValidationWarning> := [];
    for i := 0 to |phrases|
      invariant Checks(phrases, text, fmt, i) == Returned(Issues(errors, warnings))
    {
      var found := Findings(phrases, i, text, fmt);
      if found.Panicked? {
        ChecksPanic(phrases, text, fmt, i);
        return Panicked;
      }
      ChecksAppend(phrases, text, fmt, i, Issues(errors, warnings), found.value);
      errors := errors + found.value.errors;
      warnings := warnings + found.value.warnings;
    }
    r := Returned(ValidationResult(errors == [], errors, warnings));
  }

  /** One more phrase checked without a panic. */
  lemma ChecksAppend(phrases: seq<PhraseMetadata>, text: string, fmt: RealFormat, i: nat, iss: Issues, more: Issues)
    requires i < |phrases| && Checks(phrases, text, fmt, i) == Returned(iss)
    requires Findings(phrases, i, text, fmt) == Returned(more)
    ensures Checks(phrases, text, fmt, i + 1) == Returned(Issues(iss.errors + more.errors, iss.warnings + more.warnings))
  {
    assert PhraseIssues(phrases, text, fmt)(i) == Returned(more);
  }

  /** A panic while checking one phrase is a panic of `validate_phrases`. */
  lemma ChecksPanic(phrases: seq<PhraseMetadata>, text: string, fmt: RealFormat, i: nat)
    requires i < |phrases| && Checks(phrases, text, fmt, i).Returned?
    requires Findings(phrases, i, text, fmt).Panicked?
    ensures Validation(phrases, text, fmt).Panicked?
  {
    assert PhraseIssues(phrases, text, fmt)(i).Panicked?;
    AccumulatePanicPersists(PhraseIssues(phrases, text, fmt), i + 1, |phrases|);
  }

  // ---------------------------------------------------------------------------
  // The chunk's metadata
  // ---------------------------------------------------------------------------

  /** `validate_phrases` when asked for. */
  function ValidationFor(includeValidation: bool, phrases: seq<PhraseMetadata>, text: string, fmt: RealFormat): Outcome<Option<ValidationResult>> {
    if includeValidation then
      match Validation(phrases, text, fmt)
      case Panicked => Panicked
      case Returned(v) => Returned(Some(v))
    else Returned(None)
  }

  /** The chunk's metadata record, from its parts. */
  function Assemble(r: NormalizationResult, phrases: seq<PhraseMetadata>, durationMs: real, chunkIndex: nat, startOffsetMs: real,
                    validation: Option<ValidationResult>, includeDebug: bool): ChunkMetadata {
    var info := GetNormalizationInfo(r);
    ChunkMetadata(
      Some("2.0"),
      chunkIndex,
      r.normalized,
      if r.original != r.normalized then Some(r.original) else None,
      phrases,
      durationMs,
      startOffsetMs,
      validation,
      if includeDebug then
        Some(DebugInfo("kokoro", info.originalLength, info.normalizedLength, info.changesCount, |phrases|, durationMs))
      else None)
  }

  /** `build_metadata_with_options` after normalization. */
  function MetadataFor(r: NormalizationResult, audioDuration: Result<real, TtsError>, chunkIndex: nat, startOffsetMs: real,
                       includeValidation: bool, includeDebug: bool, fmt: RealFormat): Outcome<Result<ChunkMetadata, TtsError>> {
    match audioDuration
    case Err(e) => Returned(Err(e))
    case Ok(durationMs) =>
      match PhrasesWithConfig(r.normalized, ForTts)
      case Panicked => Panicked
      case Returned(texts) =>
        match BuildPhrases(r, texts, durationMs)
        case Panicked => Panicked
        case Returned(phrases) =>
          match ValidationFor(includeValidation, phrases, r.normalized, fmt)
          case Panicked => Panicked
          case Returned(validation) =>
            Returned(Ok(Assemble(r, phrases, durationMs, chunkIndex, startOffsetMs, validation, includeDebug)))
  }

  /** The phrase loop gives one entry per phrase, each describing its
      phrase at a well-placed range; it panics when the search does. */
  lemma BuildPhrasesSpec(r: NormalizationResult, phrases: seq<string>, durationMs: real)
    ensures Offsets(r.normalized, phrases).Panicked? ==> BuildPhrases(r, phrases, durationMs).Panicked?
    ensures BuildPhrases(r, phrases, durationMs).Returned? ==>
      && Offsets(r.normalized, phrases).Returned?
      && var spans := Offsets(r.normalized, phrases).value;
         var ms := BuildPhrases(r, phrases, durationMs).value;
         && |spans| == |phrases| == |ms|
         && WellPlaced(r.normalized, phrases, spans)
         && forall k :: 0 <= k < |phrases| ==>
              Describes(OriginalIn(r), phrases, spans, k, ms[k], ShareOf(durationMs, ByteLen(Concat(phrases))))
  {
    if BuildPhrases(r, phrases, durationMs).Returned? {
      OffsetsSpec(r.normalized, phrases);
      var spans := Offsets(r.normalized, phrases).value;
      PhraseMetasSpec(OriginalIn(r), phrases, spans, |phrases|, ShareOf(durationMs, ByteLen(Concat(phrases))));
    }
  }

  /** The phrases built for a chunk come in order, so validating them never
      raises an overlap warning. */
  lemma BuiltPhrasesDoNotOverlap(r: NormalizationResult, phrases: seq<string>, durationMs: real, text: string, fmt: RealFormat)
    requires BuildPhrases(r, phrases, durationMs).Returned?
    ensures var ms := BuildPhrases(r, phrases, durationMs).value;
      && (forall i :: 0 <= i < |ms| ==> !Overlaps(ms, i))
      && (Validation(ms, text, fmt).Returned? ==>
            forall i :: 0 <= i < |ms| ==> !HasWarning(Validation(ms, text, fmt).value, i, "overlapping_phrases"))
  {
    BuildPhrasesSpec(r, phrases, durationMs);
    var spans := Offsets(r.normalized, phrases).value;
    var ms := BuildPhrases(r, phrases, durationMs).value;
    var share := ShareOf(durationMs, ByteLen(Concat(phrases)));
    forall i | 0 < i < |ms| ensures !Overlaps(ms, i) {
      assert Describes(OriginalIn(r), phrases, spans, i - 1, ms[i - 1], share);
      assert Describes(OriginalIn(r), phrases, spans, i, ms[i], share);
    }
    ValidationSpec(ms, text, fmt);
  }

  /** A failure to read the duration is the result; otherwise the record
      carries version "2.0", the chunk's index, offset and duration, the
      normalized text, the original only when it differs, validation and
      debug information exactly when asked for, and a phrase count equal to
      the number of phrases. */
  lemma MetadataForSpec(r: NormalizationResult, audioDuration: Result<real, TtsError>, chunkIndex: nat, startOffsetMs: real,
                        includeValidation: bool, includeDebug: bool, fmt: RealFormat)
    ensures audioDuration.Err? ==>
      MetadataFor(r, audioDuration, chunkIndex, startOffsetMs, includeValidation, includeDebug, fmt) == Returned(Err(audioDuration.error))
    ensures MetadataFor(r, audioDuration, chunkIndex, startOffsetMs, includeValidation, includeDebug, fmt).Returned? &&
            MetadataFor(r, audioDuration, chunkIndex, startOffsetMs, includeValidation, includeDebug, fmt).value.Ok? ==>
      var m := MetadataFor(r, audioDuration, chunkIndex, startOffsetMs, includeValidation, includeDebug, fmt).value.value;
      && audioDuration.Ok?
      && m.version == Some("2.0") && m.chunkIndex == chunkIndex && m.startOffsetMs == startOffsetMs
      && m.durationMs == audioDuration.value && m.text == r.normalized
      && (m.originalText.None? <==> r.original == r.normalized)
      && (m.originalText.Some? ==> m.originalText.value == r.original)
      && (m.validation.Some? <==> includeValidation)
      && (m.debugInfo.Some? <==> includeDebug)
      && (includeDebug ==> m.debugInfo.value.phraseCount == |m.phrases| && m.debugInfo.value.ttsEngine == "kokoro")
  {
  }

  /** `build_metadata_with_options`. `audioDuration` is the outcome of
      reading the duration from the WAV bytes. */
  function Metadata(audioDuration: Result<real, TtsError>, text: string, chunkIndex: nat, startOffsetMs: real,
                    includeValidation: bool, includeDebug: bool, pats: Patterns, sp: Speech, fmt: RealFormat): Outcome<Result<ChunkMetadata, TtsError>>
    requires ValidPatterns(pats)
  {
    MetadataFor(Normalize(text, pats, sp), audioDuration, chunkIndex, startOffsetMs, includeValidation, includeDebug, fmt)
  }

  /** The metadata of the first `n` phrases does not depend on the ranges
      after the first `n`. */
  lemma {:induction false} PhraseMetasExtend(extract: Extract, phrases: seq<string>, spans: seq<Span>, more: Span, n: nat, share: Share)
    requires n <= |phrases| && n <= |spans|
    ensures PhraseMetas(extract, phrases, spans + [more], n, share) == PhraseMetas(extract, phrases, spans, n, share)
  {
    if n > 0 {
      PhraseMetasExtend(extract, phrases, spans, more, n - 1, share);
      assert (spans + [more])[n - 1] == spans[n - 1];
    }
  }

  /** One more phrase in the loop of `build_metadata_with_options`. */
  lemma PhraseMetasStep(extract: Extract, phrases: seq<string>, spans: seq<Span>, k: nat, share: Share,
                        ms: seq<PhraseMetadata>, m: PhraseMetadata, original: string)
    requires k < |phrases| && |spans| == k
    requires PhraseMetas(extract, phrases, spans, k, share) == Returned(ms)
    requires m.charOffsetStart.Some? && m.charOffsetEnd.Some?
    requires extract(phrases[k], m.charOffsetStart.value) == Returned(original)
    requires m.text == phrases[k] && m.originalText == (if original != phrases[k] then Some(original) else None)
    requires m.words == WordsWithConfig(phrases[k], ForTts)
    requires m.startMs == Elapsed(share, phrases[..k])
    requires m.durationMs == share(phrases[k])
    requires m.charOffsetEnd.value == m.charOffsetStart.value + ByteLen(phrases[k])
    ensures PhraseMetas(extract, phrases, spans + [Span(m.charOffsetStart.value, m.charOffsetEnd.value)], k + 1, share)
      == Returned(ms + [m])
  {
    var all := spans + [Span(m.charOffsetStart.value, m.charOffsetEnd.value)];
    PhraseMetasExtend(extract, phrases, spans, all[k], k, share);
  }

  /** One more range in the loop of `build_metadata_with_options`. */
  lemma OffsetsStep(normalized: string, phrases: seq<string>, k: nat, spans: seq<Span>, s: nat, e: nat)
    requires k < |phrases| && Offsets(normalized, phrases[..k]) == Returned(spans)
    requires Locate(normalized, EndOf(spans), phrases[k]) == Returned(s) && e == s + ByteLen(phrases[k])
    ensures Offsets(normalized, phrases[..k + 1]) == Returned(spans + [Span(s, e)])
  {
    assert phrases[..k + 1][..k] == phrases[..k];
  }

  lemma {:induction false} OffsetsPanicGrows(normalized: string, phrases: seq<string>, n: nat)
    requires n <= |phrases| && Offsets(normalized, phrases[..n]).Panicked?
    ensures Offsets(normalized, phrases).Panicked?
    decreases |phrases| - n
  {
    if n < |phrases| {
      assert phrases[..n + 1][..n] == phrases[..n];
      OffsetsPanicGrows(normalized, phrases, n + 1);
    } else {
      assert phrases[..n] == phrases;
    }
  }

  /** A search that panics makes the whole phrase loop panic. */
  lemma OffsetsPanicAt(normalized: string, phrases: seq<string>, k: nat, spans: seq<Span>)
    requires k < |phrases| && Offsets(normalized, phrases[..k]) == Returned(spans)
    requires ByteSlice(normalized, EndOf(spans), ByteLen(normalized)).Panicked?
    ensures Offsets(normalized, phrases).Panicked?
  {
    assert phrases[..k + 1][..k] == phrases[..k];
    OffsetsPanicGrows(normalized, phrases, k + 1);
  }

  lemma {:induction false} MetasPanicGrows(extract: Extract, phrases: seq<string>, spans: seq<Span>, n: nat, m: nat, share: Share)
    requires n <= m <= |phrases| && m <= |spans|
    requires PhraseMetas(extract, phrases, spans, n, share).Panicked?
    ensures PhraseMetas(extract, phrases, spans, m, share).Panicked?
    decreases m - n
  {
    if n < m {
      MetasPanicGrows(extract, phrases, spans, n + 1, m, share);
    }
  }

  /** A panic from `extract_original_phrase` makes the whole phrase loop
      panic. */
  lemma BuildPanicsAt(r: NormalizationResult, phrases: seq<string>, spans: seq<Span>, k: nat, durationMs: real)
    requires k < |phrases| && |spans| == k + 1
    requires Offsets(r.normalized, phrases[..k + 1]) == Returned(spans)
    requires OriginalIn(r)(phrases[k], spans[k].start).Panicked?
    ensures BuildPhrases(r, phrases, durationMs).Panicked?
  {
    var share := ShareOf(durationMs, ByteLen(Concat(phrases)));
    if Offsets(r.normalized, phrases).Returned? {
      var all := Offsets(r.normalized, phrases).value;
      OffsetsPrefix(r.normalized, phrases, k + 1);
      assert all[k] == spans[k];
      assert PhraseAt(OriginalIn(r), phrases, k, all[k], share).Panicked?;
      MetasPanicGrows(OriginalIn(r), phrases, all, k + 1, |phrases|, share);
    }
  }

  /** The search for one phrase in the loop of
      `build_metadata_with_options`, from byte `current` on. */
  method PlacePhrase(normalized: string, current: nat, phraseText: string) returns (r: Outcome<nat>)
    ensures r == Locate(normalized, current, phraseText)
  {
    var rest := ByteSlice(normalized, current, ByteLen(normalized));
    if rest.Panicked? {
      return Panicked;
    }
    match FindByte(rest.value, phraseText) {
      case Some(pos) =>
        r := Returned(current + pos);
      case None =>
        var end := current + ByteLen(phraseText);
        r := Returned(end - ByteLen(phraseText));
    }
  }

  /** The state of the phrase loop of `build_metadata_with_options` after
      `k` phrases: their ranges, where the next search starts, the time
      elapsed and their metadata. */
  ghost predicate Assigned(norm: NormalizationResult, texts: seq<string>, durationMs: real, k: nat,
                           spans: seq<Span>, current: nat, cumulativeTime: real, phrases: seq<PhraseMetadata>)
    requires k <= |texts|
  {
    var share := ShareOf(durationMs, ByteLen(Concat(texts)));
    && |spans| == k
    && Offsets(norm.normalized, texts[..k]) == Returned(spans)
    && current == EndOf(spans)
    && cumulativeTime == Elapsed(share, texts[..k])
    && PhraseMetas(OriginalIn(norm), texts, spans, k, share) == Returned(phrases)
  }

  /** The time elapsed before phrase `k + 1`. */
  lemma ElapsedStep(share: Share, phrases: seq<string>, k: nat)
    requires k < |phrases|
    ensures Elapsed(share, phrases[..k + 1]) == Elapsed(share, phrases[..k]) + share(phrases[k])
  {
    assert phrases[..k + 1][..k] == phrases[..k];
  }

  /** One pass of the phrase loop of `build_metadata_with_options`: phrase
      `k` gets its range, its original wording, its words and its share of
      the duration; the new metadata, search start and elapsed time are
      returned, or the panic of the search or of the extraction. */
  method AssignPhrase(norm: NormalizationResult, texts: seq<string>, durationMs: real, totalChars: nat, k: nat,
                      ghost spans: seq<Span>, current: nat, cumulativeTime: real, phrases: seq<PhraseMetadata>)
    returns (r: Outcome<(seq<PhraseMetadata>, nat, real)>, ghost next: seq<Span>)
    requires k < |texts| && totalChars == ByteLen(Concat(texts))
    requires Assigned(norm, texts, durationMs, k, spans, current, cumulativeTime, phrases)
    ensures r.Panicked? ==> BuildPhrases(norm, texts, durationMs).Panicked?
    ensures r.Returned? ==> Assigned(norm, texts, durationMs, k + 1, next, r.value.1, r.value.2, r.value.0)
  {
    var share := ShareOf(durationMs, totalChars);
    var phraseText := texts[k];
    var words := SegmentWords(phraseText);
    var phraseDuration := PhraseDuration(durationMs, totalChars, phraseText);
    assert share(phraseText) == phraseDuration;
    next := spans;
    var placed := PlacePhrase(norm.normalized, current, phraseText);
    if placed.Panicked? {
      OffsetsPanicAt(norm.normalized, texts, k, spans);
      return Panicked, next;
    }
    var start := placed.value;
    var end := start + ByteLen(phraseText);
    OffsetsStep(norm.normalized, texts, k, spans, start, end);
    next := spans + [Span(start, end)];
    var original := ExtractOriginalPhrase(phraseText, norm, Some(start));
    assert OriginalIn(norm)(phraseText, start) == original;
    if original.Panicked? {
      assert next[k].start == start;
      BuildPanicsAt(norm, texts, next, k, durationMs);
      return Panicked, next;
    }
    var m := PhraseMetadata(phraseText, if original.value != phraseText then Some(original.value) else None,
                            words, cumulativeTime, phraseDuration, Some(start), Some(end));
    PhraseMetasStep(OriginalIn(norm), texts, spans, k, share, phrases, m, original.value);
    ElapsedStep(share, texts, k);
    r := Returned((phrases + [m], end, cumulativeTime + phraseDuration));
  }

  /** The phrase loop of `build_metadata_with_options`. */
  method AssignPhrases(norm: NormalizationResult, texts: seq<string>, durationMs: real) returns (r: Outcome<seq<PhraseMetadata>>)
    ensures r == BuildPhrases(norm, texts, durationMs)
  {
    var totalChars := ByteLen(Concat(texts));
    var phrases: seq<PhraseMetadata> := [];
    var cumulativeTime := 0.0;
    var current := 0;
    ghost var spans: seq<Span> := [];
    for k := 0 to |texts|
      invariant Assigned(norm, texts, durationMs, k, spans, current, cumulativeTime, phrases)
    {
      var step;
      step, spans := AssignPhrase(norm, texts, durationMs, totalChars, k, spans, current, cumulativeTime, phrases);
      if step.Panicked? {
        return Panicked;
      }
      phrases, current, cumulativeTime := step.value.0, step.value.1, step.value.2;
    }
    assert texts[..|texts|] == texts;
    r := Returned(phrases);
  }

  /** `build_metadata_with_options` after normalization. */
  method CompleteMetadata(norm: NormalizationResult, audioDuration: Result<real, TtsError>, chunkIndex: nat, startOffsetMs: real,
                          includeValidation: bool, includeDebug: bool, fmt: RealFormat)
    returns (result: Outcome<Result<ChunkMetadata, TtsError>>)
    ensures result == MetadataFor(norm, audioDuration, chunkIndex, startOffsetMs, includeValidation, includeDebug, fmt)
  {
    var info := GetNormalizationInfo(norm);
    if audioDuration.Err? {
      return Returned(Err(audioDuration.error));
    }
    var durationMs := audioDuration.value;
    var segmented := SegmentPhrases(norm.normalized);
    if segmented.Panicked? {
      return Panicked;
    }
    var built := AssignPhrases(norm, segmented.value, durationMs);
    if built.Panicked? {
      return Panicked;
    }
    var phrases := built.value;
    var validation: Option<ValidationResult> := None;
    if includeValidation {
      var checked := ValidatePhrases(phrases, norm.normalized, fmt);
      if checked.Panicked? {
        assert ValidationFor(includeValidation, phrases, norm.normalized, fmt).Panicked?;
        return Panicked;
      }
      validation := Some(checked.value);
    }
    assert ValidationFor(includeValidation, phrases, norm.normalized, fmt) == Returned(validation);
    var debugInfo: Option<DebugInfo> := None;
    if includeDebug {
      debugInfo := Some(DebugInfo("kokoro", info.originalLength, info.normalizedLength, info.changesCount, |phrases|, durationMs));
    }
    result := Returned(Ok(ChunkMetadata(
      Some("2.0"), chunkIndex, norm.normalized,
      if norm.original != norm.normalized then Some(norm.original) else None,
      phrases, durationMs, startOffsetMs, validation, debugInfo)));
    assert result.value.value == Assemble(norm, phrases, durationMs, chunkIndex, startOffsetMs, validation, includeDebug);
  }

  /** `build_metadata_with_options`: normalization, the duration, the
      phrases, then validation and debug information when asked for. */
  method BuildMetadataWithOptions(audioDuration: Result<real, TtsError>, text: string, chunkIndex: nat, startOffsetMs: real,
                                  includeValidation: bool, includeDebug: bool, pats: Patterns, sp: Speech, fmt: RealFormat)
    returns (result: Outcome<Result<ChunkMetadata, TtsError>>)
    requires ValidPatterns(pats)
    ensures result == Metadata(audioDuration, text, chunkIndex, startOffsetMs, includeValidation, includeDebug, pats, sp, fmt)
  {
    var norm := NormalizeForTts(text, pats, sp);
    result := CompleteMetadata(norm, audioDuration, chunkIndex, startOffsetMs, includeValidation, includeDebug, fmt);
  }

  /** `build_metadata`: validation and debug information included. */
  method BuildMetadata(audioDuration: Result<real, TtsError>, text: string, chunkIndex: nat, startOffsetMs: real,
                       pats: Patterns, sp: Speech, fmt: RealFormat)
    returns (result: Outcome<Result<ChunkMetadata, TtsError>>)
    requires ValidPatterns(pats)
    ensures result == Metadata(audioDuration, text, chunkIndex, startOffsetMs, true, true, pats, sp, fmt)
  {
    result := BuildMetadataWithOptions(audioDuration, text, chunkIndex, startOffsetMs, true, true, pats, sp, fmt);
  }
}
