/** The older typographic normalization: a per-character rewrite with a
    byte-position map, followed by untracked ellipsis and space rewrites, and
    a lookup back into the original that searches by text only. */
module LegacyNormalization {
  import opened Wrappers
  import opened Text
  import opened Normalization

  /** What the character pass writes for one character; the soft hyphen
      writes nothing, and the ellipsis is kept for the later rewrite. */
  function LegacyChar(c: char): Option<char> {
    if IsDoubleQuote(c) then Some('"')
    else if IsSingleQuote(c) then Some('\'')
    else if IsDash(c) then Some('-')
    else if c == NoBreakSpace then Some(' ')
    else if c == SoftHyphen then None
    else Some(c)
  }

  /** The character pass over `s`: every byte written is mapped to the first
      byte of the character it came from. */
  function CharScan(s: string): (string, seq<nat>) {
    if s == [] then ([], [])
    else
      var prev := CharScan(s[..|s| - 1]);
      match LegacyChar(s[|s| - 1])
      case None => prev
      case Some(d) => (prev.0 + [d], prev.1 + Repeat(ByteOffset(s, |s| - 1), Utf8Len(d)))
  }

  /** `normalize_for_tts` of the older module, NFC composition taken as the
      identity. The mapping is that of the character pass. */
  function LegacyNormalize(text: string): NormalizationResult {
    var scan := CharScan(text);
    NormalizationResult(text, CollapseSpaces(Replace(scan.0, [Ellipsis], "...")), scan.1)
  }

  method NormalizeForTts(text: string) returns (r: NormalizationResult)
    ensures r == LegacyNormalize(text)
  {
    var normalized: string := [];
    var charMapping: seq<nat> := [];
    var origIdx: nat := 0;
    for i := 0 to |text|
      invariant origIdx == ByteOffset(text, i)
      invariant (normalized, charMapping) == CharScan(text[..i])
    {
      var ch := text[i];
      assert text[..i + 1][..i] == text[..i];
      ByteOffsetStep(text, i);
      match LegacyChar(ch) {
        case None =>
        case Some(d) =>
          normalized := normalized + [d];
          charMapping := PushRepeat(charMapping, origIdx, Utf8Len(d));
      }
      origIdx := origIdx + Utf8Len(ch);
    }
    assert text[..|text|] == text;
    normalized := Replace(normalized, [Ellipsis], "...");
    normalized := CollapseDoubleSpaces(normalized);
    r := NormalizationResult(text, normalized, charMapping);
  }

  /** Only the ellipsis of the listed characters survives the character pass. */
  lemma LegacyCharClean(c: char)
    ensures LegacyChar(c).Some? ==> !IsTypographic(LegacyChar(c).value) || LegacyChar(c).value == Ellipsis
    ensures LegacyChar(c).None? <==> c == SoftHyphen
  {
  }

  /** One mapping entry per byte written; the entries never decrease, and
      each is the first byte of a character of the input. */
  lemma {:induction false} CharScanMapping(s: string)
    ensures |CharScan(s).1| == ByteLen(CharScan(s).0)
    ensures NonDecreasing(CharScan(s).1)
    ensures AllBelow(CharScan(s).1, ByteLen(s))
    ensures forall j :: 0 <= j < |CharScan(s).1| ==> IsCharBoundary(s, CharScan(s).1[j])
    decreases |s|
  {
    if s != [] {
      var n := |s| - 1;
      var p := s[..n];
      CharScanMapping(p);
      var prev := CharScan(p);
      var b := ByteOffset(s, n);
      assert b == ByteLen(p);
      ByteOffsetStep(s, n);
      ByteOffsetEnd(s);
      CharBoundaryAt(s, n);
      forall j | 0 <= j < |prev.1| ensures IsCharBoundary(s, prev.1[j]) {
        BoundaryOfPrefix(s, n, prev.1[j]);
      }
      match LegacyChar(s[n]) {
        case None =>
        case Some(d) =>
          ByteLenConcat(prev.0, [d]);
          assert CharScan(s).1 == prev.1 + Repeat(b, Utf8Len(d));
      }
    }
  }

  /** No quote, dash, no-break space or soft hyphen survives the character
      pass; the ellipsis may. */
  lemma {:induction false} CharScanClean(s: string)
    ensures forall i :: 0 <= i < |CharScan(s).0| ==>
      !IsTypographic(CharScan(s).0[i]) || CharScan(s).0[i] == Ellipsis
    decreases |s|
  {
    if s != [] {
      CharScanClean(s[..|s| - 1]);
      LegacyCharClean(s[|s| - 1]);
    }
  }

  /** ASCII text without typographic characters passes through the character
      pass unchanged, each byte mapped to itself. */
  lemma {:induction false} CharScanIdentity(s: string)
    requires IsAscii(s) && forall i :: 0 <= i < |s| ==> !IsTypographic(s[i])
    ensures CharScan(s) == (s, Range(0, |s|))
    decreases |s|
  {
    if s != [] {
      var n := |s| - 1;
      CharScanIdentity(s[..n]);
      ByteLenAscii(s[..n]);
      assert ByteOffset(s, n) == n;
      assert LegacyChar(s[n]) == Some(s[n]);
      assert Repeat(n, 1) == [n];
      assert Range(0, n + 1) == Range(0, n) + [n];
      assert s[..n] + [s[n]] == s;
    }
  }

  lemma SingleOccurrence(s: string, c: char, k: nat)
    requires OccursAt(s, [c], k)
    ensures k < |s| && s[k] == c
  {
    assert s[k..k + 1][0] == s[k];
  }

  lemma MissingCharNotContained(s: string, c: char)
    requires forall i :: 0 <= i < |s| ==> s[i] != c
    ensures !Contains(s, [c])
  {
    if Contains(s, [c]) {
      SingleOccurrence(s, c, Find(s, [c]).value);
      assert false;
    }
  }

  /** The result keeps the original; the normalized text has no double space
      and none of the listed characters; the mapping has one non-decreasing
      entry per byte of the character pass, each a character boundary of the
      original. */
  lemma LegacyNormalizeSpec(text: string)
    ensures LegacyNormalize(text).original == text
    ensures !Contains(LegacyNormalize(text).normalized, "  ")
    ensures forall i :: 0 <= i < |LegacyNormalize(text).normalized| ==>
      !IsTypographic(LegacyNormalize(text).normalized[i])
    ensures |LegacyNormalize(text).charMapping| == ByteLen(CharScan(text).0)
    ensures NonDecreasing(LegacyNormalize(text).charMapping)
    ensures forall j :: 0 <= j < |LegacyNormalize(text).charMapping| ==>
      IsCharBoundary(text, LegacyNormalize(text).charMapping[j])
  {
    var scan := CharScan(text);
    CharScanMapping(text);
    CharScanClean(text);
    var e := Replace(scan.0, [Ellipsis], "...");
    ReplaceCharContent(scan.0, Ellipsis, "...");
    CollapseSpacesSpec(e);
    var n := CollapseSpaces(e);
    forall i | 0 <= i < |n| ensures !IsTypographic(n[i]) {
      assert n[i] in e;
    }
  }

  /** Plain ASCII text without typographic characters or double spaces comes
      back unchanged, each byte mapped to itself, with no change counted. */
  lemma LegacyPlainText(text: string)
    requires IsAscii(text) && (forall i :: 0 <= i < |text| ==> !IsTypographic(text[i])) && !Contains(text, "  ")
    ensures LegacyNormalize(text) == NormalizationResult(text, text, Range(0, |text|))
    ensures GetNormalizationInfo(LegacyNormalize(text)).changesCount == 0
  {
    CharScanIdentity(text);
    MissingCharNotContained(text, Ellipsis);
    ReplaceAbsent(text, [Ellipsis], "...");
    CollapseSpacesSpec(text);
    ChangesCountSpec(text, text);
  }

  // ---------------------------------------------------------------------------
  // Lookups by text
  // ---------------------------------------------------------------------------

  /** An occurrence in the lowered original covers as many bytes of the
      original as the pattern has, when both keep their widths lowered. */
  lemma LowerOccurrence(s: string, t: string, k: nat, e: nat)
    requires LowerKeepsWidths(s) && LowerKeepsWidths(t)
    requires OccursAt(Lowercase(s), Lowercase(t), k) && e == k + |t|
    ensures e <= |s| && ByteOffset(s, e) == ByteOffset(s, k) + ByteLen(t)
  {
    var ls, lt := Lowercase(s), Lowercase(t);
    LowercaseWidths(t, 0);
    assert |lt| == |t| && ByteLen(lt) == ByteLen(t);
    LowercaseWidths(s, 0);
    assert |ls| == |s|;
    OccurrenceBytes(ls, lt, k, e);
    LowercaseWidths(s, k);
    LowercaseWidths(s, e);
  }

  /** A match found in the lowered original is a byte range of the original
      on character boundaries, when lowering keeps the width of every
      character of both. */
  lemma LowerFindPlace(s: string, t: string)
    ensures LowerKeepsWidths(s) && LowerKeepsWidths(t) && FindByte(Lowercase(s), Lowercase(t)).Some? ==>
      var pos := FindByte(Lowercase(s), Lowercase(t)).value;
      IsCharBoundary(s, pos) && IsCharBoundary(s, PastEnd(pos, t))
  {
    if LowerKeepsWidths(s) && LowerKeepsWidths(t) && Find(Lowercase(s), Lowercase(t)).Some? {
      var k := Find(Lowercase(s), Lowercase(t)).value;
      var pos := FindByte(Lowercase(s), Lowercase(t)).value;
      var e := k + |t|;
      LowerOccurrence(s, t, k, e);
      LowercaseWidths(s, k);
      BoundaryOf(s, k, pos);
      BoundaryOf(s, e, PastEnd(pos, t));
    }
  }

  /** The search of the older module: the text in the original, then
      case-insensitively, keeping a case-insensitive hit only when it ends
      inside the original. */
  function LegacySearch(t: string, r: NormalizationResult): Option<(nat, nat)> {
    match FindByte(r.original, t)
    case Some(pos) => Some((pos, PastEnd(pos, t)))
    case None =>
      match FindByte(Lowercase(r.original), Lowercase(t))
      case Some(pos) => if PastEnd(pos, t) <= ByteLen(r.original) then Some((pos, PastEnd(pos, t))) else None
      case None => None
  }

  /** `map_normalized_to_original` of the older module: the normalized text of
      the range searched for in the original. */
  function LegacyMapNormalizedToOriginal(start: nat, end: nat, r: NormalizationResult): Outcome<Option<(nat, nat)>> {
    if start >= ByteLen(r.normalized) || end > ByteLen(r.normalized) then Returned(None)
    else
      match ByteSlice(r.normalized, start, end)
      case Panicked => Panicked
      case Returned(t) => Returned(LegacySearch(t, r))
  }

  /** A range the search finds is as long as the text and inside the
      original; it is on the original's character boundaries when the
      original contains the text, or when lowering keeps the width of every
      character of both (the case-insensitive hit counts characters in the
      lowered text); when the original contains the text, the range found
      holds exactly that text. */
  lemma LegacySearchSpec(t: string, r: NormalizationResult)
    ensures LegacySearch(t, r).Some? ==>
      var (a, b) := LegacySearch(t, r).value;
      a <= b <= ByteLen(r.original) && b - a == ByteLen(t)
    ensures LegacySearch(t, r).Some? && (Contains(r.original, t) || (LowerKeepsWidths(r.original) && LowerKeepsWidths(t))) ==>
      var (a, b) := LegacySearch(t, r).value;
      IsCharBoundary(r.original, a) && IsCharBoundary(r.original, b)
    ensures Contains(r.original, t) ==>
      LegacySearch(t, r).Some? && ByteSlice(r.original, LegacySearch(t, r).value.0, LegacySearch(t, r).value.1) == Returned(t)
  {
    if LegacySearch(t, r).Some? {
      var (a, b) := LegacySearch(t, r).value;
      if FindByte(r.original, t).Some? {
        FindByteHit(r.original, t, a);
      } else if LowerKeepsWidths(r.original) && LowerKeepsWidths(t) {
        LowerSearchHit(t, r.original, a, b);
      }
    }
  }

  /** A hit of the case-insensitive search that ends inside the text. */
  lemma LowerSearchHit(t: string, s: string, a: nat, b: nat)
    requires LowerKeepsWidths(s) && LowerKeepsWidths(t)
    requires FindByte(Lowercase(s), Lowercase(t)) == Some(a) && b == PastEnd(a, t)
    ensures IsCharBoundary(s, a) && IsCharBoundary(s, b)
  {
    LowerFindPlace(s, t);
  }

  /** Out-of-range requests give `None`; a range that is found has the
      requested length and lies inside the original, on its character
      boundaries when lowering keeps the widths of both texts, and holds
      exactly the requested text when the original contains it; a request
      on ordered character boundaries never panics. */
  lemma LegacyMapSpec(start: nat, end: nat, r: NormalizationResult)
    ensures start >= ByteLen(r.normalized) || end > ByteLen(r.normalized) ==>
      LegacyMapNormalizedToOriginal(start, end, r) == Returned(None)
    ensures LegacyMapNormalizedToOriginal(start, end, r).Returned? && LegacyMapNormalizedToOriginal(start, end, r).value.Some? ==>
      var (a, b) := LegacyMapNormalizedToOriginal(start, end, r).value.value;
      a <= b <= ByteLen(r.original) && b - a == end - start
    ensures (LowerKeepsWidths(r.original) && LowerKeepsWidths(r.normalized)
      && LegacyMapNormalizedToOriginal(start, end, r).Returned? && LegacyMapNormalizedToOriginal(start, end, r).value.Some?) ==>
      var (a, b) := LegacyMapNormalizedToOriginal(start, end, r).value.value;
      IsCharBoundary(r.original, a) && IsCharBoundary(r.original, b)
    ensures (start < ByteLen(r.normalized) && end <= ByteLen(r.normalized) && ByteSlice(r.normalized, start, end).Returned?
      && Contains(r.original, ByteSlice(r.normalized, start, end).value)) ==>
      LegacyMapNormalizedToOriginal(start, end, r).Returned? && LegacyMapNormalizedToOriginal(start, end, r).value.Some?
      && var (a, b) := LegacyMapNormalizedToOriginal(start, end, r).value.value;
         ByteSlice(r.original, a, b) == ByteSlice(r.normalized, start, end)
    ensures start <= end && IsCharBoundary(r.normalized, start) && IsCharBoundary(r.normalized, end) ==>
      LegacyMapNormalizedToOriginal(start, end, r).Returned?
  {
    var sl := ByteSlice(r.normalized, start, end);
    ByteSliceLen(r.normalized, start, end);
    if sl.Returned? {
      LegacySearchSpec(sl.value, r);
      if LowerKeepsWidths(r.normalized) {
        SliceKeepsWidths(r.normalized, start, end);
      }
    }
  }

  /** A piece of a text whose characters keep their widths lowered keeps
      them too. */
  lemma SliceKeepsWidths(s: string, a: nat, b: nat)
    requires LowerKeepsWidths(s) && ByteSlice(s, a, b).Returned?
    ensures LowerKeepsWidths(ByteSlice(s, a, b).value)
  {
    CharIndexOrder(s, a, b);
    var i, j := CharIndexOf(s, a).value, CharIndexOf(s, b).value;
    assert ByteSlice(s, a, b).value == s[i..j];
    assert forall k :: 0 <= k < j - i ==> s[i..j][k] == s[i + k];
  }

  /** The first occurrence of the phrase in the normalized text, mapped back
      by text. */
  function LegacyFoundLookup(phrase: string, r: NormalizationResult): Outcome<Option<string>> {
    match FindByte(r.normalized, phrase)
    case Some(pos) => LegacyFoundAt(phrase, r, pos)
    case None => Returned(None)
  }

  /** The original's text for the phrase found at byte position `pos`. */
  function LegacyFoundAt(phrase: string, r: NormalizationResult, pos: nat): Outcome<Option<string>> {
    LegacyOriginalSlice(r, LegacyMapNormalizedToOriginal(pos, PastEnd(pos, phrase), r))
  }

  /** The original's text at a mapped range, sliced without a range check. */
  function LegacyOriginalSlice(r: NormalizationResult, mapped: Outcome<Option<(nat, nat)>>): Outcome<Option<string>> {
    match mapped
    case Panicked => Panicked
    case Returned(None) => Returned(None)
    case Returned(Some((a, b))) =>
      match ByteSlice(r.original, a, b)
      case Panicked => Panicked
      case Returned(t) => Returned(Some(t))
  }

  /** The phrase's length of the original from the hinted byte position,
      clipped to the original. */
  function LegacyHintLookup(phrase: string, r: NormalizationResult, hint: Option<nat>): Outcome<Option<string>> {
    var olen := ByteLen(r.original);
    match hint
    case Some(pos) =>
      if pos < olen then
        var end := if PastEnd(pos, phrase) < olen then PastEnd(pos, phrase) else olen;
        match ByteSlice(r.original, pos, end)
        case Panicked => Panicked
        case Returned(t) => Returned(Some(t))
      else Returned(None)
    case None => Returned(None)
  }

  /** `extract_original_phrase` of the older module. */
  function LegacyExtractOriginalPhrase(phrase: string, r: NormalizationResult, hint: Option<nat>): Outcome<string> {
    var first := LegacyFoundLookup(phrase, r);
    if first.Panicked? then Panicked
    else if first.value.Some? then Returned(first.value.value)
    else
      var second := LegacyHintLookup(phrase, r, hint);
      if second.Panicked? then Panicked
      else if second.value.Some? then Returned(second.value.value)
      else Returned(phrase)
  }

  /** A byte slice is a run of characters of the text. */
  lemma ByteSliceIsPiece(s: string, a: nat, b: nat)
    ensures ByteSlice(s, a, b).Returned? ==>
      exists i, j :: 0 <= i <= j <= |s| && ByteSlice(s, a, b).value == s[i..j]
  {
    if a <= b && IsCharBoundary(s, a) && IsCharBoundary(s, b) {
      CharIndexOrder(s, a, b);
    }
  }

  /** Slicing on ordered character boundaries succeeds and gives a run of
      characters of the text. */
  lemma BoundarySlice(s: string, a: nat, b: nat)
    requires a <= b && IsCharBoundary(s, a) && IsCharBoundary(s, b)
    ensures ByteSlice(s, a, b).Returned?
    ensures exists i, j :: 0 <= i <= j <= |s| && ByteSlice(s, a, b).value == s[i..j]
  {
    ByteSliceIsPiece(s, a, b);
  }

  /** What the search for the phrase finds is a piece of the original; the
      search never panics when lowering keeps the width of every character
      of the original and the phrase. */
  lemma LegacyFoundLookupSpec(phrase: string, r: NormalizationResult)
    ensures LowerKeepsWidths(r.original) && LowerKeepsWidths(phrase) ==> LegacyFoundLookup(phrase, r).Returned?
    ensures LegacyFoundLookup(phrase, r).Returned? && LegacyFoundLookup(phrase, r).value.Some? ==>
      exists i, j :: 0 <= i <= j <= |r.original| && LegacyFoundLookup(phrase, r).value.value == r.original[i..j]
  {
    if FindByte(r.normalized, phrase).Some? {
      LegacyFoundAtSpec(phrase, r, FindByte(r.normalized, phrase).value);
    }
  }

  lemma LegacyFoundAtSpec(phrase: string, r: NormalizationResult, pos: nat)
    requires FindByte(r.normalized, phrase) == Some(pos)
    ensures LowerKeepsWidths(r.original) && LowerKeepsWidths(phrase) ==> LegacyFoundAt(phrase, r, pos).Returned?
    ensures LegacyFoundAt(phrase, r, pos).Returned? && LegacyFoundAt(phrase, r, pos).value.Some? ==>
      exists i, j :: 0 <= i <= j <= |r.original| && LegacyFoundAt(phrase, r, pos).value.value == r.original[i..j]
  {
    var mapped := LegacyMapNormalizedToOriginal(pos, PastEnd(pos, phrase), r);
    FoundRangeSearched(phrase, r, pos);
    LegacySearchSpec(phrase, r);
    if LowerKeepsWidths(r.original) && LowerKeepsWidths(phrase) {
      LegacyOriginalSliceSpec(r, mapped);
    }
    if mapped.Returned? && mapped.value.Some? {
      var (a, b) := mapped.value.value;
      ByteSliceIsPiece(r.original, a, b);
    }
  }

  /** The range of a found phrase maps to nothing or to the search for the
      phrase itself. */
  lemma FoundRangeSearched(phrase: string, r: NormalizationResult, pos: nat)
    requires FindByte(r.normalized, phrase) == Some(pos)
    ensures LegacyMapNormalizedToOriginal(pos, PastEnd(pos, phrase), r) in {Returned(None), Returned(LegacySearch(phrase, r))}
  {
    FindByteHit(r.normalized, phrase, pos);
  }

  /** Slicing an ordered range on character boundaries never panics and
      gives a piece of the original. */
  lemma LegacyOriginalSliceSpec(r: NormalizationResult, mapped: Outcome<Option<(nat, nat)>>)
    requires mapped.Returned?
    requires mapped.value.Some? ==> var (a, b) := mapped.value.value;
      a <= b && IsCharBoundary(r.original, a) && IsCharBoundary(r.original, b)
    ensures LegacyOriginalSlice(r, mapped).Returned?
    ensures LegacyOriginalSlice(r, mapped).value.Some? ==>
      exists i, j :: 0 <= i <= j <= |r.original| && LegacyOriginalSlice(r, mapped).value.value == r.original[i..j]
  {
    if mapped.value.Some? {
      var (a, b) := mapped.value.value;
      BoundarySlice(r.original, a, b);
    }
  }

  /** The hinted lookup is a piece of the original no longer in bytes than
      the phrase, and clipped at the end of the original. */
  lemma LegacyHintLookupSpec(phrase: string, r: NormalizationResult, hint: Option<nat>)
    ensures LegacyHintLookup(phrase, r, hint).Returned? && LegacyHintLookup(phrase, r, hint).value.Some? ==>
      var t := LegacyHintLookup(phrase, r, hint).value.value;
      (exists i, j :: 0 <= i <= j <= |r.original| && t == r.original[i..j])
      && ByteLen(t) <= ByteLen(phrase) && hint.value + ByteLen(t) <= ByteLen(r.original)
    ensures hint.None? ==> LegacyHintLookup(phrase, r, hint) == Returned(None)
  {
    match hint {
      case Some(pos) =>
        var olen := ByteLen(r.original);
        var end := if PastEnd(pos, phrase) < olen then PastEnd(pos, phrase) else olen;
        ByteSliceIsPiece(r.original, pos, end);
        ByteSliceLen(r.original, pos, end);
      case None =>
    }
  }

  /** The phrase returned is the phrase itself or a piece of the original;
      without a position hint the lookup never panics when lowering keeps
      the width of every character of the original and the phrase. */
  lemma LegacyExtractSpec(phrase: string, r: NormalizationResult, hint: Option<nat>)
    ensures LegacyExtractOriginalPhrase(phrase, r, hint).Returned? ==>
      var t := LegacyExtractOriginalPhrase(phrase, r, hint).value;
      t == phrase || exists i, j :: 0 <= i <= j <= |r.original| && t == r.original[i..j]
    ensures hint.None? && LowerKeepsWidths(r.original) && LowerKeepsWidths(phrase) ==>
      LegacyExtractOriginalPhrase(phrase, r, hint).Returned?
  {
    LegacyFoundLookupSpec(phrase, r);
    LegacyHintLookupSpec(phrase, r, hint);
  }

  /** A phrase found in the normalized text but not in the original, whose
      case-insensitive hit starts inside a character of the original, makes
      the lookup panic whatever the hint: the range is sliced out of the
      original without a boundary check. */
  lemma LegacyLookupPanics(phrase: string, r: NormalizationResult, hint: Option<nat>, pos: nat, a: nat)
    requires FindByte(r.normalized, phrase) == Some(pos)
    requires FindByte(r.original, phrase).None?
    requires FindByte(Lowercase(r.original), Lowercase(phrase)) == Some(a)
    requires PastEnd(a, phrase) <= ByteLen(r.original) && !IsCharBoundary(r.original, a)
    ensures LegacyExtractOriginalPhrase(phrase, r, hint) == Panicked
  {
    FindByteHit(r.normalized, phrase, pos);
    if phrase == [] {
      assert OccursAt(r.original, phrase, 0);
      assert false;
    }
    assert Utf8Len(phrase[0]) >= 1;
    assert pos < ByteLen(r.normalized);
    assert LegacyMapNormalizedToOriginal(pos, PastEnd(pos, phrase), r) == Returned(Some((a, PastEnd(a, phrase))));
  }

  /** A text opening with the kelvin sign, whose closing curly quote the
      normalization straightens. */
  const KelvinText: string := [KelvinSign, 'A', '\'', 'a', '\U{2019}']
  const KelvinNormalized: string := [KelvinSign, 'A', '\'', 'a', '\'']

  /** The kelvin sign takes three bytes and its lower case one, so in
      "\U{212A}A'a\U{2019}" the phrase "a'" of the normalized text is found
      case-insensitively at byte 1, inside the sign, and the lookup panics. */
  lemma KelvinLookupPanics(hint: Option<nat>)
    ensures LegacyExtractOriginalPhrase("a'", LegacyNormalize(KelvinText), hint) == Panicked
  {
    KelvinNormalizes();
    KelvinSearches();
    LegacyLookupPanics("a'", LegacyNormalize(KelvinText), hint, 5, 1);
  }

  lemma KelvinNormalizes()
    ensures LegacyNormalize(KelvinText).original == KelvinText
    ensures LegacyNormalize(KelvinText).normalized == KelvinNormalized
  {
    var n := KelvinNormalized;
    KelvinScans();
    MissingCharNotContained(n, Ellipsis);
    ReplaceAbsent(n, [Ellipsis], "...");
    assert !Contains(n, "  ");
  }

  lemma KelvinScans()
    ensures CharScan(KelvinText).0 == KelvinNormalized
  {
    var n, o := KelvinNormalized, KelvinText;
    assert o[..1][..0] == [];
    assert CharScan(o[..1]).0 == n[..1];
    assert o[..2][..1] == o[..1];
    assert CharScan(o[..2]).0 == n[..2];
    assert o[..3][..2] == o[..2];
    assert CharScan(o[..3]).0 == n[..3];
    assert o[..4][..3] == o[..3];
    assert CharScan(o[..4]).0 == n[..4];
    assert o[..5][..4] == o[..4] && o[..5] == o;
  }

  lemma KelvinSearches()
    ensures FindByte(KelvinNormalized, "a'") == Some(5)
    ensures FindByte(KelvinText, "a'") == None
    ensures FindByte(Lowercase(KelvinText), Lowercase("a'")) == Some(1)
    ensures PastEnd(1, "a'") <= ByteLen(KelvinText) && !IsCharBoundary(KelvinText, 1)
  {
    KelvinNormalizedFind();
    TwoCharMissing(KelvinText, 'a', '\'');
    KelvinLowerFind();
    KelvinInsideSign();
  }

  lemma KelvinNormalizedFind()
    ensures FindByte(KelvinNormalized, "a'") == Some(5)
  {
    var n := KelvinNormalized;
    TwoCharFind(n, 'a', '\'', 3);
    assert n[..0] == [];
    ByteOffsetStep(n, 0);
    ByteOffsetStep(n, 1);
    ByteOffsetStep(n, 2);
  }

  lemma KelvinLowerFind()
    ensures FindByte(Lowercase(KelvinText), Lowercase("a'")) == Some(1)
  {
    KelvinLowered();
    var lo := Lowercase(KelvinText);
    TwoCharFind(lo, 'a', '\'', 1);
    assert lo[..0] == [];
    ByteOffsetStep(lo, 0);
  }

  lemma KelvinInsideSign()
    ensures PastEnd(1, "a'") <= ByteLen(KelvinText) && !IsCharBoundary(KelvinText, 1)
  {
    var o := KelvinText;
    assert CharIndexOf(o, 1) == None;
  }

  lemma KelvinLowered()
    ensures Lowercase(KelvinText) == ['k', 'a', '\'', 'a', '\U{2019}']
    ensures Lowercase("a'") == "a'"
  {
    var o := KelvinText;
    assert o[4..][1..] == [];
    assert Lowercase(o[4..]) == ['\U{2019}'];
    assert o[3..][1..] == o[4..];
    assert Lowercase(o[3..]) == ['a', '\U{2019}'];
    assert o[2..][1..] == o[3..];
    assert Lowercase(o[2..]) == ['\'', 'a', '\U{2019}'];
    assert o[1..][1..] == o[2..];
    assert Lowercase(o[1..]) == ['a', '\'', 'a', '\U{2019}'];
    assert o[1..] == o[1..];
    assert Lowercase("'") == "'";
  }

  /** The first occurrence of a two-character pattern found by its
      characters. */
  lemma TwoCharFind(s: string, c: char, d: char, k: nat)
    requires k + 1 < |s| && s[k] == c && s[k + 1] == d
    requires forall j :: 0 <= j < k ==> s[j] != c || s[j + 1] != d
    ensures Find(s, [c, d]) == Some(k)
  {
    PairOccurs(s, c, d, k);
    forall j: nat | j < k ensures !OccursAt(s, [c, d], j) {
      PairOccurs(s, c, d, j);
    }
  }

  lemma TwoCharMissing(s: string, c: char, d: char)
    requires forall j :: 0 <= j < |s| - 1 ==> s[j] != c || s[j + 1] != d
    ensures Find(s, [c, d]) == None
  {
    forall j: nat ensures !OccursAt(s, [c, d], j) {
      PairOccurs(s, c, d, j);
    }
  }

  lemma PairOccurs(s: string, c: char, d: char, j: nat)
    ensures OccursAt(s, [c, d], j) <==> j + 1 < |s| && s[j] == c && s[j + 1] == d
  {
    if j + 1 < |s| {
      assert s[j..j + 2][0] == s[j] && s[j..j + 2][1] == s[j + 1];
    }
  }

  /** A phrase holding a straight double quote that the original lacks is
      never found in the original, so without a hint the phrase itself comes
      back: a phrase from a text whose curly quotes were straightened is not
      recovered. */
  lemma LegacyExtractMissesQuotes(phrase: string, r: NormalizationResult)
    requires '"' in phrase && '"' !in r.original
    ensures LegacyExtractOriginalPhrase(phrase, r, None) == Returned(phrase)
  {
    QuotedPhraseMisses(phrase, r);
  }

  lemma QuotedPhraseMisses(phrase: string, r: NormalizationResult)
    requires '"' in phrase && '"' !in r.original
    ensures LegacyFoundLookup(phrase, r) == Returned(None)
  {
    if FindByte(r.normalized, phrase).Some? {
      var pos := FindByte(r.normalized, phrase).value;
      QuoteNotFound(r.original, phrase);
      LowercaseQuote(phrase);
      LowercaseQuote(r.original);
      QuoteNotFound(Lowercase(r.original), Lowercase(phrase));
      QuotedRangeMisses(phrase, r, pos);
    }
  }

  lemma QuotedRangeMisses(phrase: string, r: NormalizationResult, pos: nat)
    requires FindByte(r.normalized, phrase) == Some(pos)
    requires LegacySearch(phrase, r) == None
    ensures LegacyFoundLookup(phrase, r) == Returned(None)
  {
    FindByteHit(r.normalized, phrase, pos);
    assert LegacyMapNormalizedToOriginal(pos, PastEnd(pos, phrase), r) == Returned(None);
  }

  lemma QuoteNotFound(s: string, t: string)
    requires '"' in t && '"' !in s
    ensures FindByte(s, t).None?
  {
    if Find(s, t).Some? {
      assert false;
    }
  }
}
