/** Text normalization for speech with a byte-position mapping back to the
    original text: a semantic pass (currency, percentages) over the original,
    a pass over typographic characters, composition of the two mappings,
    space collapsing, and the lookups that map normalized positions back.

    Positions the source counts in bytes of UTF-8 are byte offsets here too
    (`Text.ByteOffset`); the regexes and the number reading are the
    parameters of `SemanticNormalization`. */
module Normalization {
  import opened Wrappers
  import opened Text
  import Sorting
  import opened SemanticNormalization

  /** The three compiled patterns of the semantic pass. */
  datatype Patterns = Patterns(scale: Regex, simple: Regex, percent: Regex)

  ghost predicate ValidPatterns(pats: Patterns) {
    ValidRegex(pats.scale) && ValidRegex(pats.simple) && ValidRegex(pats.percent)
  }

  /** The normalized text and, for each of its bytes, a byte position in the original. */
  datatype NormalizationResult = NormalizationResult(original: string, normalized: string, charMapping: seq<nat>)

  datatype NormalizationInfo = NormalizationInfo(
    unicodeNormalized: bool, changesCount: nat, originalLength: nat, normalizedLength: nat)

  /** The outcome of code that may panic (a `str` slice off a character boundary). */
  datatype Outcome<+T> = Returned(value: T) | Panicked

  // ---------------------------------------------------------------------------
  // Mappings
  // ---------------------------------------------------------------------------

  /** The positions `lo, lo + 1, ..., hi - 1`. */
  function Range(lo: nat, hi: nat): (r: seq<nat>)
    ensures |r| == (if lo <= hi then hi - lo else 0)
    ensures forall i :: 0 <= i < |r| ==> r[i] == lo + i
    decreases hi
  {
    if lo >= hi then [] else Range(lo, hi - 1) + [hi - 1]
  }

  /** `n` copies of the position `v`. */
  function Repeat(v: nat, n: nat): (r: seq<nat>)
    ensures |r| == n && forall i :: 0 <= i < n ==> r[i] == v
  {
    if n == 0 then [] else Repeat(v, n - 1) + [v]
  }

  /** Pushes each position of `lo..hi` onto the mapping. */
  method PushRange(mapping: seq<nat>, lo: nat, hi: nat) returns (m: seq<nat>)
    ensures m == mapping + Range(lo, hi)
  {
    m := mapping;
    var i := lo;
    while i < hi
      invariant i == lo || lo <= i <= hi
      invariant m == mapping + Range(lo, i)
    {
      m := m + [i];
      i := i + 1;
    }
  }

  /** Pushes `n` copies of `v` onto the mapping. */
  method PushRepeat(mapping: seq<nat>, v: nat, n: nat) returns (m: seq<nat>)
    ensures m == mapping + Repeat(v, n)
  {
    m := mapping;
    for k := 0 to n
      invariant m == mapping + Repeat(v, k)
    {
      m := m + [v];
    }
  }

  predicate NonDecreasing(m: seq<nat>) {
    forall i, j :: 0 <= i < j < |m| ==> m[i] <= m[j]
  }

  predicate AllBelow(m: seq<nat>, b: nat) {
    forall i :: 0 <= i < |m| ==> m[i] < b
  }

  // ---------------------------------------------------------------------------
  // Semantic pass with tracking: collect, sort, apply
  // ---------------------------------------------------------------------------

  /** A replacement of the characters `start..end` of the text. */
  datatype Pending = Pending(start: nat, end: nat, replacement: string)

  function PendingStart(p: Pending): int {
    p.start
  }

  /** Every match lies inside the text. */
  predicate InText(text: string, caps: seq<Capture>) {
    forall i :: 0 <= i < |caps| ==> caps[i].start < caps[i].end <= |text|
  }

  predicate Within(text: string, items: seq<Pending>) {
    forall p :: p in items ==> p.start < p.end <= |text|
  }

  /** One replacement per match, in match order, read by pass `p`. */
  function PassItems(text: string, caps: seq<Capture>, p: Pass, sp: Speech): (r: seq<Pending>)
    requires InText(text, caps)
    ensures |r| == |caps|
    ensures forall i :: 0 <= i < |caps| ==>
      r[i] == Pending(caps[i].start, caps[i].end, Format(p, caps[i], text[caps[i].start..caps[i].end], sp))
  {
    if caps == [] then []
    else
      var c := caps[|caps| - 1];
      PassItems(text, caps[..|caps| - 1], p, sp) + [Pending(c.start, c.end, Format(p, c, text[c.start..c.end], sp))]
  }

  predicate Covers(p: Pending, pos: nat) {
    p.start <= pos < p.end
  }

  /** Some collected replacement covers the position `pos`. */
  predicate AnyCovers(items: seq<Pending>, pos: nat) {
    exists i :: 0 <= i < |items| && Covers(items[i], pos)
  }

  /** The plain-currency matches appended to `base`: a match is dropped when
      its start lies inside anything collected so far, kept matches included. */
  function KeepSimple(base: seq<Pending>, text: string, caps: seq<Capture>, sp: Speech): seq<Pending>
    requires InText(text, caps)
  {
    if caps == [] then base
    else
      var acc := KeepSimple(base, text, caps[..|caps| - 1], sp);
      var c := caps[|caps| - 1];
      if AnyCovers(acc, c.start) then acc
      else acc + [Pending(c.start, c.end, Format(SimplePass, c, text[c.start..c.end], sp))]
  }

  /** Reference definition: the plain-currency matches whose start no
      replacement of `base` covers. */
  function Uncovered(base: seq<Pending>, text: string, caps: seq<Capture>, sp: Speech): seq<Pending>
    requires InText(text, caps)
  {
    if caps == [] then []
    else
      var prev := Uncovered(base, text, caps[..|caps| - 1], sp);
      var c := caps[|caps| - 1];
      if AnyCovers(base, c.start) then prev
      else prev + [Pending(c.start, c.end, Format(SimplePass, c, text[c.start..c.end], sp))]
  }

  /** All replacements of the three patterns, in the order they are collected. */
  function Collect(text: string, pats: Patterns, sp: Speech): seq<Pending>
    requires ValidPatterns(pats)
  {
    var scale := PassItems(text, pats.scale(text), ScalePass, sp);
    KeepSimple(scale, text, pats.simple(text), sp) + PassItems(text, pats.percent(text), PercentPass, sp)
  }

  /** What one replacement contributes when the previous one ended at
      `lastEnd`: the text in between (none if the two overlap) and the
      replacement, with the copied bytes mapped to themselves and the
      replacement's bytes to the first byte of the text it replaces. */
  function Piece(text: string, p: Pending, lastEnd: nat): (string, seq<nat>)
    requires lastEnd <= |text| && p.start < p.end <= |text|
  {
    if lastEnd < p.start then
      (text[lastEnd..p.start] + p.replacement,
       Range(ByteOffset(text, lastEnd), ByteOffset(text, p.start)) + Repeat(ByteOffset(text, p.start), ByteLen(p.replacement)))
    else (p.replacement, Repeat(ByteOffset(text, p.start), ByteLen(p.replacement)))
  }

  /** Copies the text between replacements, inserts the replacements and
      copies the rest. Replacements are taken in the given order,
      overlapping or not; after each one copying resumes at its end. */
  function ApplyFrom(text: string, items: seq<Pending>, lastEnd: nat): (string, seq<nat>)
    requires lastEnd <= |text| && Within(text, items)
    decreases |items|
  {
    if items == [] then
      if lastEnd < |text| then (text[lastEnd..], Range(ByteOffset(text, lastEnd), ByteLen(text))) else ([], [])
    else
      var p := items[0];
      assert p in items;
      var piece := Piece(text, p, lastEnd);
      var rest := ApplyFrom(text, items[1..], p.end);
      (piece.0 + rest.0, piece.1 + rest.1)
  }

  lemma SortedWithin(text: string, items: seq<Pending>)
    requires Within(text, items)
    ensures Within(text, Sorting.SortByKey(items, PendingStart))
  {
    Sorting.SortByKeySpec(items, PendingStart);
    forall p | p in Sorting.SortByKey(items, PendingStart) ensures p.start < p.end <= |text| {
      assert p in multiset(Sorting.SortByKey(items, PendingStart));
    }
  }

  lemma PassItemsWithin(text: string, caps: seq<Capture>, p: Pass, sp: Speech)
    requires InText(text, caps)
    ensures Within(text, PassItems(text, caps, p, sp))
  {
  }

  lemma {:induction false} KeepSimpleWithin(base: seq<Pending>, text: string, caps: seq<Capture>, sp: Speech)
    requires InText(text, caps) && Within(text, base)
    ensures Within(text, KeepSimple(base, text, caps, sp))
  {
    if caps != [] {
      KeepSimpleWithin(base, text, caps[..|caps| - 1], sp);
    }
  }

  lemma CollectWithin(text: string, pats: Patterns, sp: Speech)
    requires ValidPatterns(pats)
    ensures Within(text, Collect(text, pats, sp))
  {
    assert ValidMatches(text, pats.scale(text)) && ValidMatches(text, pats.simple(text));
    assert ValidMatches(text, pats.percent(text));
    PassItemsWithin(text, pats.scale(text), ScalePass, sp);
    KeepSimpleWithin(PassItems(text, pats.scale(text), ScalePass, sp), text, pats.simple(text), sp);
    PassItemsWithin(text, pats.percent(text), PercentPass, sp);
  }

  /** The whole semantic pass: collect, sort by start, apply. */
  function SemanticTracking(text: string, pats: Patterns, sp: Speech): (string, seq<nat>)
    requires ValidPatterns(pats)
  {
    CollectWithin(text, pats, sp);
    SortedWithin(text, Collect(text, pats, sp));
    ApplyFrom(text, Sorting.SortByKey(Collect(text, pats, sp), PendingStart), 0)
  }

  /** Pushes one replacement per match, read by pass `p`. */
  method CollectAll(text: string, caps: seq<Capture>, p: Pass, sp: Speech, matches: seq<Pending>)
    returns (r: seq<Pending>)
    requires InText(text, caps)
    ensures r == matches + PassItems(text, caps, p, sp)
  {
    r := matches;
    for i := 0 to |caps|
      invariant r == matches + PassItems(text, caps[..i], p, sp)
    {
      var c := caps[i];
      PassItemsNext(text, caps, i, p, sp);
      r := r + [Pending(c.start, c.end, Format(p, c, text[c.start..c.end], sp))];
    }
    assert caps[..|caps|] == caps;
  }

  lemma PassItemsNext(text: string, caps: seq<Capture>, i: nat, p: Pass, sp: Speech)
    requires InText(text, caps) && i < |caps|
    ensures InText(text, caps[..i]) && InText(text, caps[..i + 1])
    ensures var c := caps[i];
      PassItems(text, caps[..i + 1], p, sp) == PassItems(text, caps[..i], p, sp) + [Pending(c.start, c.end, Format(p, c, text[c.start..c.end], sp))]
  {
    assert caps[..i + 1][..i] == caps[..i];
  }

  /** Pushes the plain-currency matches whose start nothing pushed so far covers. */
  method CollectSimple(text: string, caps: seq<Capture>, sp: Speech, matches: seq<Pending>)
    returns (r: seq<Pending>)
    requires InText(text, caps)
    ensures r == KeepSimple(matches, text, caps, sp)
  {
    r := matches;
    for i := 0 to |caps|
      invariant r == KeepSimple(matches, text, caps[..i], sp)
    {
      var c := caps[i];
      var overlaps := AnyCovers(r, c.start);
      if !overlaps {
        r := r + [Pending(c.start, c.end, FormatSimple(c, text[c.start..c.end], sp))];
      }
      assert caps[..i + 1][..i] == caps[..i];
    }
    assert caps[..|caps|] == caps;
  }

  method CollectMatches(text: string, pats: Patterns, sp: Speech) returns (matches: seq<Pending>)
    requires ValidPatterns(pats)
    ensures matches == Collect(text, pats, sp)
  {
    var scaleCaps, simpleCaps, percentCaps := pats.scale(text), pats.simple(text), pats.percent(text);
    assert ValidMatches(text, scaleCaps) && ValidMatches(text, simpleCaps) && ValidMatches(text, percentCaps);
    var scale := CollectAll(text, scaleCaps, ScalePass, sp, []);
    assert scale == PassItems(text, scaleCaps, ScalePass, sp);
    var kept := CollectSimple(text, simpleCaps, sp, scale);
    matches := CollectAll(text, percentCaps, PercentPass, sp, kept);
  }

  /** Copies the text up to one replacement and pushes the replacement. */
  method ApplyOne(text: string, p: Pending, lastEnd: nat) returns (piece: string, pieceMap: seq<nat>)
    requires lastEnd <= |text| && p.start < p.end <= |text|
    ensures (piece, pieceMap) == Piece(text, p, lastEnd)
  {
    if lastEnd < p.start {
      var gapMap := PushRange([], ByteOffset(text, lastEnd), ByteOffset(text, p.start));
      assert gapMap == Range(ByteOffset(text, lastEnd), ByteOffset(text, p.start));
      piece := text[lastEnd..p.start] + p.replacement;
      pieceMap := PushRepeat(gapMap, ByteOffset(text, p.start), ByteLen(p.replacement));
    } else {
      piece := p.replacement;
      pieceMap := PushRepeat([], ByteOffset(text, p.start), ByteLen(p.replacement));
      assert pieceMap == Repeat(ByteOffset(text, p.start), ByteLen(p.replacement));
    }
  }

  lemma AppendAssoc<T>(a: seq<T>, b: seq<T>, c: seq<T>)
    ensures a + (b + c) == (a + b) + c
  {
  }

  /** Copies the text after the last replacement. */
  method CopyRest(text: string, lastEnd: nat) returns (rest: string, restMap: seq<nat>)
    requires lastEnd <= |text|
    ensures (rest, restMap) == ApplyFrom(text, [], lastEnd)
  {
    rest, restMap := [], [];
    if lastEnd < |text| {
      rest := text[lastEnd..];
      restMap := PushRange([], ByteOffset(text, lastEnd), ByteLen(text));
      assert restMap == Range(ByteOffset(text, lastEnd), ByteLen(text));
    }
  }

  method ApplyReplacements(text: string, items: seq<Pending>) returns (result: string, mapping: seq<nat>)
    requires Within(text, items)
    ensures (result, mapping) == ApplyFrom(text, items, 0)
  {
    result := [];
    mapping := [];
    var lastEnd: nat := 0;
    ghost var whole := ApplyFrom(text, items, 0);
    ghost var rest := whole;
    assert items[0..] == items;
    for i := 0 to |items|
      invariant lastEnd <= |text| && Within(text, items[i..])
      invariant rest == ApplyFrom(text, items[i..], lastEnd)
      invariant whole.0 == result + rest.0 && whole.1 == mapping + rest.1
    {
      var p := items[i];
      assert items[i..][0] == p && items[i..][1..] == items[i + 1..];
      assert p in items[i..];
      ghost var next := ApplyFrom(text, items[i + 1..], p.end);
      var piece, pieceMap := ApplyOne(text, p, lastEnd);
      assert rest == (piece + next.0, pieceMap + next.1);
      AppendAssoc(result, piece, next.0);
      AppendAssoc(mapping, pieceMap, next.1);
      result, mapping := result + piece, mapping + pieceMap;
      lastEnd := p.end;
      rest := next;
    }
    assert items[|items|..] == [];
    var tail, tailMap := CopyRest(text, lastEnd);
    result, mapping := result + tail, mapping + tailMap;
  }

  /** `normalize_semantic_with_tracking`. */
  method NormalizeSemanticWithTracking(text: string, pats: Patterns, sp: Speech) returns (result: string, mapping: seq<nat>)
    requires ValidPatterns(pats)
    ensures (result, mapping) == SemanticTracking(text, pats, sp)
  {
    var matches := CollectMatches(text, pats, sp);
    CollectWithin(text, pats, sp);
    SortedWithin(text, matches);
    matches := Sorting.SortByKey(matches, PendingStart);
    result, mapping := ApplyReplacements(text, matches);
  }

  // ---------------------------------------------------------------------------
  // Properties of the semantic pass
  // ---------------------------------------------------------------------------

  lemma {:induction false} UncoveredEndsBefore(base: seq<Pending>, text: string, caps: seq<Capture>, sp: Speech, b: nat)
    requires InText(text, caps) && forall i :: 0 <= i < |caps| ==> caps[i].end <= b
    ensures forall q :: q in Uncovered(base, text, caps, sp) ==> q.end <= b
  {
    if caps != [] {
      UncoveredEndsBefore(base, text, caps[..|caps| - 1], sp, b);
    }
  }

  /** No kept plain-currency match starts inside a replacement of `base`. */
  lemma {:induction false} UncoveredNotCovered(base: seq<Pending>, text: string, caps: seq<Capture>, sp: Speech)
    requires InText(text, caps)
    ensures forall q :: q in Uncovered(base, text, caps, sp) ==> !AnyCovers(base, q.start)
  {
    if caps != [] {
      UncoveredNotCovered(base, text, caps[..|caps| - 1], sp);
    }
  }

  /** Since the plain-currency matches do not overlap one another, checking a
      match against the matches kept before it changes nothing: a match is
      kept exactly when no scale replacement covers its start. */
  lemma {:induction false} KeepSimpleIsUncovered(base: seq<Pending>, text: string, caps: seq<Capture>, sp: Speech)
    requires ValidMatches(text, caps)
    ensures KeepSimple(base, text, caps, sp) == base + Uncovered(base, text, caps, sp)
  {
    if caps != [] {
      var pre := caps[..|caps| - 1];
      var c := caps[|caps| - 1];
      KeepSimpleIsUncovered(base, text, pre, sp);
      MatchesOrdered(text, caps);
      UncoveredEndsBefore(base, text, pre, sp, c.start);
      var acc := base + Uncovered(base, text, pre, sp);
      forall i | |base| <= i < |acc| ensures !Covers(acc[i], c.start) {
        assert acc[i] in Uncovered(base, text, pre, sp);
      }
      if AnyCovers(acc, c.start) {
        var i :| 0 <= i < |acc| && Covers(acc[i], c.start);
        assert i < |base| && acc[i] == base[i];
      }
      if AnyCovers(base, c.start) {
        var i :| 0 <= i < |base| && Covers(base[i], c.start);
        assert acc[i] == base[i];
      }
    }
  }

  /** The collected replacements: every scale match, the plain-currency
      matches no scale match covers, every percentage match. */
  lemma CollectShape(text: string, pats: Patterns, sp: Speech)
    requires ValidPatterns(pats)
    ensures var scale := PassItems(text, pats.scale(text), ScalePass, sp);
      Collect(text, pats, sp)
        == scale + Uncovered(scale, text, pats.simple(text), sp) + PassItems(text, pats.percent(text), PercentPass, sp)
    ensures var scale := PassItems(text, pats.scale(text), ScalePass, sp);
      forall q :: q in Uncovered(scale, text, pats.simple(text), sp) ==> !AnyCovers(scale, q.start)
  {
    var scale := PassItems(text, pats.scale(text), ScalePass, sp);
    assert ValidMatches(text, pats.simple(text));
    KeepSimpleIsUncovered(scale, text, pats.simple(text), sp);
    UncoveredNotCovered(scale, text, pats.simple(text), sp);
  }

  /** Every byte of the output has a mapping entry, overlapping replacements or not. */
  lemma {:induction false} ApplyLengths(text: string, items: seq<Pending>, lastEnd: nat)
    requires lastEnd <= |text| && Within(text, items)
    ensures |ApplyFrom(text, items, lastEnd).1| == ByteLen(ApplyFrom(text, items, lastEnd).0)
    decreases |items|
  {
    if items == [] {
      if lastEnd < |text| {
        ByteOffsetSlice(text, lastEnd, |text|);
        ByteOffsetEnd(text);
        assert text[lastEnd..|text|] == text[lastEnd..];
      }
    } else {
      var p := items[0];
      assert p in items;
      ApplyLengths(text, items[1..], p.end);
      PieceLength(text, p, lastEnd);
      ByteLenConcat(Piece(text, p, lastEnd).0, ApplyFrom(text, items[1..], p.end).0);
    }
  }

  lemma PieceLength(text: string, p: Pending, lastEnd: nat)
    requires lastEnd <= |text| && p.start < p.end <= |text|
    ensures |Piece(text, p, lastEnd).1| == ByteLen(Piece(text, p, lastEnd).0)
  {
    if lastEnd < p.start {
      ByteOffsetSlice(text, lastEnd, p.start);
      ByteLenConcat(text[lastEnd..p.start], p.replacement);
    }
  }

  /** Every mapping entry is a byte position of the original text. */
  lemma {:induction false} ApplyBelow(text: string, items: seq<Pending>, lastEnd: nat)
    requires lastEnd <= |text| && Within(text, items)
    ensures AllBelow(ApplyFrom(text, items, lastEnd).1, ByteLen(text))
    decreases |items|
  {
    ByteOffsetEnd(text);
    if items != [] {
      var p := items[0];
      assert p in items;
      ApplyBelow(text, items[1..], p.end);
      ByteOffsetMonotone(text, p.start, |text|);
    }
  }

  /** Without replacements the text is copied and each byte maps to itself. */
  lemma ApplyNothing(text: string)
    ensures ApplyFrom(text, [], 0) == (text, Range(0, ByteLen(text)))
  {
    ByteOffsetEnd(text);
    assert text[0..] == text;
  }

  lemma PassItemsTail(text: string, caps: seq<Capture>, p: Pass, sp: Speech)
    requires InText(text, caps) && caps != []
    ensures PassItems(text, caps, p, sp)[1..] == PassItems(text, caps[1..], p, sp)
  {
  }

  lemma ApplyHead(text: string, caps: seq<Capture>, k: nat, p: Pass, sp: Speech)
    requires ValidMatches(text, caps) && caps != [] && k <= caps[0].start
    ensures Within(text, PassItems(text, caps, p, sp)) && Within(text, PassItems(text, caps[1..], p, sp))
    ensures ApplyFrom(text, PassItems(text, caps, p, sp), k).0
         == text[k..caps[0].start] + Format(p, caps[0], text[caps[0].start..caps[0].end], sp)
            + ApplyFrom(text, PassItems(text, caps[1..], p, sp), caps[0].end).0
  {
    PassItemsWithin(text, caps, p, sp);
    PassItemsWithin(text, caps[1..], p, sp);
    var items := PassItems(text, caps, p, sp);
    PassItemsTail(text, caps, p, sp);
    assert items[0] in items;
    PieceText(text, items[0], k);
  }

  /** The text a replacement contributes: what lies before it, then itself. */
  lemma PieceText(text: string, q: Pending, k: nat)
    requires k <= q.start < q.end <= |text|
    ensures Piece(text, q, k).0 == text[k..q.start] + q.replacement
  {
    if k == q.start {
      assert text[k..q.start] + q.replacement == q.replacement;
    }
  }

  lemma ReplaceHead(text: string, caps: seq<Capture>, k: nat, p: Pass, sp: Speech)
    requires ValidMatches(text, caps) && caps != [] && k <= caps[0].start
    ensures ValidMatches(text, caps[1..]) && (|caps| > 1 ==> caps[0].end <= caps[1..][0].start)
    ensures ReplaceAllFrom(text, caps, k, p, sp)
         == text[k..caps[0].start] + Format(p, caps[0], text[caps[0].start..caps[0].end], sp)
            + ReplaceAllFrom(text, caps[1..], caps[0].end, p, sp)
  {
  }

  /** For the matches of one pattern the tracked pass writes the same text as
      `Regex::replace_all`. */
  lemma {:induction false} ApplyMatchesReplaceAll(text: string, caps: seq<Capture>, k: nat, p: Pass, sp: Speech)
    requires ValidMatches(text, caps) && k <= |text| && (caps != [] ==> k <= caps[0].start)
    ensures Within(text, PassItems(text, caps, p, sp))
    ensures ApplyFrom(text, PassItems(text, caps, p, sp), k).0 == ReplaceAllFrom(text, caps, k, p, sp)
    decreases |caps|
  {
    PassItemsWithin(text, caps, p, sp);
    if caps != [] {
      var c := caps[0];
      ApplyHead(text, caps, k, p, sp);
      ReplaceHead(text, caps, k, p, sp);
      ApplyMatchesReplaceAll(text, caps[1..], c.end, p, sp);
    }
  }

  /** The semantic pass maps every output byte to a byte of the original. */
  lemma SemanticTrackingMapping(text: string, pats: Patterns, sp: Speech)
    requires ValidPatterns(pats)
    ensures |SemanticTracking(text, pats, sp).1| == ByteLen(SemanticTracking(text, pats, sp).0)
    ensures AllBelow(SemanticTracking(text, pats, sp).1, ByteLen(text))
  {
    CollectWithin(text, pats, sp);
    SortedWithin(text, Collect(text, pats, sp));
    ApplyLengths(text, Sorting.SortByKey(Collect(text, pats, sp), PendingStart), 0);
    ApplyBelow(text, Sorting.SortByKey(Collect(text, pats, sp), PendingStart), 0);
  }

  /** Text no pattern matches is returned with the identity mapping. */
  lemma SemanticTrackingIdentity(text: string, pats: Patterns, sp: Speech)
    requires ValidPatterns(pats)
    requires pats.scale(text) == [] && pats.simple(text) == [] && pats.percent(text) == []
    ensures SemanticTracking(text, pats, sp) == (text, Range(0, ByteLen(text)))
  {
    assert Collect(text, pats, sp) == [];
    ApplyNothing(text);
  }

  /** When only the scale pattern matches, the tracked pass writes the same
      text as the scale pass of `normalize_semantic`. */
  lemma SemanticTrackingScaleOnly(text: string, pats: Patterns, sp: Speech)
    requires ValidPatterns(pats) && pats.simple(text) == [] && pats.percent(text) == []
    ensures SemanticTracking(text, pats, sp).0 == ReplaceAll(text, pats.scale(text), ScalePass, sp)
  {
    var caps := pats.scale(text);
    assert ValidMatches(text, caps);
    var items := PassItems(text, caps, ScalePass, sp);
    assert Collect(text, pats, sp) == items;
    MatchesOrdered(text, caps);
    assert Sorting.SortedBy(items, PendingStart);
    Sorting.SortByKeySorted(items, PendingStart);
    ApplyMatchesReplaceAll(text, caps, 0, ScalePass, sp);
  }

  // ---------------------------------------------------------------------------
  // Typographic pass with tracking
  // ---------------------------------------------------------------------------

  predicate IsDoubleQuote(c: char) {
    c == '\U{201C}' || c == '\U{201D}' || c == '\U{201E}' || c == '\U{201F}'
  }

  predicate IsSingleQuote(c: char) {
    c == '\U{2018}' || c == '\U{2019}' || c == '\U{02BC}' || c == '\U{02BB}' || c == '\U{02BD}'
    || c == '\U{02C8}' || c == '\U{02CA}' || c == '\U{02CB}' || c == '`' || c == '\U{00B4}'
  }

  predicate IsDash(c: char) {
    c == '\U{2013}' || c == '\U{2014}'
  }

  const NoBreakSpace: char := '\U{00A0}'
  const Ellipsis: char := '\U{2026}'
  const SoftHyphen: char := '\U{00AD}'

  /** The characters the typographic pass rewrites or drops. */
  predicate IsTypographic(c: char) {
    IsDoubleQuote(c) || IsSingleQuote(c) || IsDash(c) || c == NoBreakSpace || c == Ellipsis || c == SoftHyphen
  }

  /** What the typographic pass writes for one character. */
  function Emit(c: char): string {
    if IsDoubleQuote(c) then "\""
    else if IsSingleQuote(c) then "'"
    else if IsDash(c) then "-"
    else if c == NoBreakSpace then " "
    else if c == Ellipsis then "..."
    else if c == SoftHyphen then ""
    else [c]
  }

  /** The pass over the characters of `s`, each output byte mapped to the
      first byte of the character it came from. */
  function UnicodeScan(s: string): (string, seq<nat>) {
    if s == [] then ([], [])
    else
      var prev := UnicodeScan(s[..|s| - 1]);
      var e := Emit(s[|s| - 1]);
      (prev.0 + e, prev.1 + Repeat(ByteOffset(s, |s| - 1), ByteLen(e)))
  }

  /** `normalize_unicode_with_tracking`. */
  method NormalizeUnicodeWithTracking(text: string) returns (result: string, mapping: seq<nat>)
    ensures (result, mapping) == UnicodeScan(text)
  {
    result, mapping := [], [];
    var byteIdx: nat := 0;
    for i := 0 to |text|
      invariant byteIdx == ByteOffset(text, i)
      invariant (result, mapping) == UnicodeScan(text[..i])
    {
      var ch := text[i];
      var e := Emit(ch);
      result := result + e;
      mapping := PushRepeat(mapping, byteIdx, ByteLen(e));
      assert text[..i + 1][..i] == text[..i];
      ByteOffsetStep(text, i);
      byteIdx := byteIdx + Utf8Len(ch);
    }
    assert text[..|text|] == text;
  }

  lemma EmitClean(c: char)
    ensures forall d :: d in Emit(c) ==> !IsTypographic(d)
    ensures !IsTypographic(c) ==> Emit(c) == [c]
  {
  }

  lemma BoundaryOfPrefix(s: string, k: nat, b: nat)
    requires k <= |s| && IsCharBoundary(s[..k], b)
    ensures IsCharBoundary(s, b)
  {
    CharBoundaryIff(s[..k], b);
    var j :| 0 <= j <= k && ByteOffset(s[..k], j) == b;
    assert s[..k][..j] == s[..j];
    CharBoundaryAt(s, j);
  }

  /** One mapping entry per output byte; the entries never decrease and each
      is the first byte of a character of the input. */
  lemma {:induction false} UnicodeScanMapping(s: string)
    ensures |UnicodeScan(s).1| == ByteLen(UnicodeScan(s).0)
    ensures NonDecreasing(UnicodeScan(s).1)
    ensures AllBelow(UnicodeScan(s).1, ByteLen(s))
    ensures forall j :: 0 <= j < |UnicodeScan(s).1| ==> IsCharBoundary(s, UnicodeScan(s).1[j])
    decreases |s|
  {
    if s != [] {
      var n := |s| - 1;
      var p := s[..n];
      UnicodeScanMapping(p);
      var prev := UnicodeScan(p);
      ByteLenConcat(prev.0, Emit(s[n]));
      var b := ByteOffset(s, n);
      assert b == ByteLen(p);
      ByteOffsetStep(s, n);
      ByteOffsetEnd(s);
      CharBoundaryAt(s, n);
      var m := UnicodeScan(s).1;
      assert m == prev.1 + Repeat(b, ByteLen(Emit(s[n])));
      forall j | 0 <= j < |prev.1| ensures IsCharBoundary(s, m[j]) {
        BoundaryOfPrefix(s, n, prev.1[j]);
      }
    }
  }

  /** No character the pass rewrites survives it. */
  lemma {:induction false} UnicodeScanClean(s: string)
    ensures forall i :: 0 <= i < |UnicodeScan(s).0| ==> !IsTypographic(UnicodeScan(s).0[i])
    decreases |s|
  {
    if s != [] {
      UnicodeScanClean(s[..|s| - 1]);
      EmitClean(s[|s| - 1]);
    }
  }

  /** ASCII text without typographic characters comes back unchanged, each
      byte mapped to itself. */
  lemma {:induction false} UnicodeScanIdentity(s: string)
    requires IsAscii(s) && forall i :: 0 <= i < |s| ==> !IsTypographic(s[i])
    ensures UnicodeScan(s) == (s, Range(0, |s|))
    decreases |s|
  {
    if s != [] {
      var n := |s| - 1;
      UnicodeScanIdentity(s[..n]);
      EmitClean(s[n]);
      ByteLenAscii(s[..n]);
      assert ByteOffset(s, n) == n;
      assert ByteLen(Emit(s[n])) == 1;
      assert Repeat(n, 1) == [n];
      assert Range(0, n + 1) == Range(0, n) + [n];
      assert s[..n] + [s[n]] == s;
    }
  }

  // ---------------------------------------------------------------------------
  // Composition and space collapsing
  // ---------------------------------------------------------------------------

  /** For each entry of the typographic mapping, the semantic mapping's entry
      at that position, or the last semantic entry (zero if none) when the
      position is out of range. */
  function Composed(um: seq<nat>, sm: seq<nat>): (r: seq<nat>)
    ensures |r| == |um|
  {
    seq(|um|, i requires 0 <= i < |um| => if um[i] < |sm| then sm[um[i]] else if sm == [] then 0 else sm[|sm| - 1])
  }

  method ComposeMappings(um: seq<nat>, sm: seq<nat>) returns (m: seq<nat>)
    ensures m == Composed(um, sm)
  {
    m := [];
    for i := 0 to |um|
      invariant m == Composed(um[..i], sm)
    {
      var pos := um[i];
      if pos < |sm| {
        m := m + [sm[pos]];
      } else {
        m := m + [if sm == [] then 0 else sm[|sm| - 1]];
      }
    }
    assert um[..|um|] == um;
  }

  /** When every typographic entry is in range the fallback never applies and
      the composition maps into whatever the semantic mapping maps into. */
  lemma ComposedInRange(um: seq<nat>, sm: seq<nat>, b: nat)
    requires AllBelow(um, |sm|) && AllBelow(sm, b)
    ensures forall i :: 0 <= i < |um| ==> Composed(um, sm)[i] == sm[um[i]]
    ensures AllBelow(Composed(um, sm), b)
  {
  }

  /** `while s.contains("  ") { s = s.replace("  ", " ") }`. */
  function CollapseSpaces(s: string): string
    decreases |s|
  {
    if Contains(s, "  ") then
      ReplaceShrinks(s, "  ", " ");
      CollapseSpaces(Replace(s, "  ", " "))
    else s
  }

  method CollapseDoubleSpaces(s: string) returns (r: string)
    ensures r == CollapseSpaces(s)
  {
    r := s;
    while Contains(r, "  ")
      invariant CollapseSpaces(r) == CollapseSpaces(s)
      decreases |r|
    {
      ReplaceShrinks(r, "  ", " ");
      r := Replace(r, "  ", " ");
    }
  }

  /** One round of replacement keeps the non-blank characters, draws every
      character from the input and does not lengthen the text in bytes. */
  lemma {:induction false} ReplaceSpacesFacts(s: string)
    ensures NonWs(Replace(s, "  ", " ")) == NonWs(s)
    ensures ByteLen(Replace(s, "  ", " ")) <= ByteLen(s)
    ensures forall d :: d in Replace(s, "  ", " ") ==> d in s
    decreases |s|
  {
    if |s| >= 2 {
      if s[..2] == "  " {
        var t := s[2..];
        ReplaceSpacesFacts(t);
        assert s == "  " + t;
        NonWsConcat(" ", Replace(t, "  ", " "));
        NonWsConcat("  ", t);
        ByteLenConcat(" ", Replace(t, "  ", " "));
        ByteLenConcat("  ", t);
        assert ' ' in s;
        forall d | d in t ensures d in s { }
      } else {
        var t := s[1..];
        ReplaceSpacesFacts(t);
        assert s == [s[0]] + t;
        NonWsConcat([s[0]], Replace(t, "  ", " "));
        NonWsConcat([s[0]], t);
        ByteLenConcat([s[0]], Replace(t, "  ", " "));
        ByteLenConcat([s[0]], t);
        forall d | d in t ensures d in s { }
      }
    }
  }

  /** After collapsing no two spaces are adjacent, the non-blank characters
      are those of the input, every character comes from the input and the
      text is no longer in bytes; text without a double space is unchanged. */
  lemma {:induction false} CollapseSpacesSpec(s: string)
    ensures !Contains(CollapseSpaces(s), "  ")
    ensures NonWs(CollapseSpaces(s)) == NonWs(s)
    ensures ByteLen(CollapseSpaces(s)) <= ByteLen(s)
    ensures forall d :: d in CollapseSpaces(s) ==> d in s
    ensures !Contains(s, "  ") ==> CollapseSpaces(s) == s
    decreases |s|
  {
    if Contains(s, "  ") {
      ReplaceShrinks(s, "  ", " ");
      ReplaceSpacesFacts(s);
      CollapseSpacesSpec(Replace(s, "  ", " "));
    }
  }

  // ---------------------------------------------------------------------------
  // The whole normalization
  // ---------------------------------------------------------------------------

  /** `normalize_for_tts`, with NFC composition taken as the identity. */
  function Normalize(text: string, pats: Patterns, sp: Speech): NormalizationResult
    requires ValidPatterns(pats)
  {
    var sem := SemanticTracking(text, pats, sp);
    var uni := UnicodeScan(sem.0);
    NormalizationResult(text, CollapseSpaces(uni.0), Composed(uni.1, sem.1))
  }

  method NormalizeForTts(text: string, pats: Patterns, sp: Speech) returns (r: NormalizationResult)
    requires ValidPatterns(pats)
    ensures r == Normalize(text, pats, sp)
  {
    var semantic, semanticMapping := NormalizeSemanticWithTracking(text, pats, sp);
    var normalized, unicodeMapping := NormalizeUnicodeWithTracking(semantic);
    var charMapping := ComposeMappings(unicodeMapping, semanticMapping);
    normalized := CollapseDoubleSpaces(normalized);
    r := NormalizationResult(text, normalized, charMapping);
  }

  /** `normalize_simple`. */
  method NormalizeSimple(text: string, pats: Patterns, sp: Speech) returns (s: string)
    requires ValidPatterns(pats)
    ensures s == Normalize(text, pats, sp).normalized
  {
    var r := NormalizeForTts(text, pats, sp);
    s := r.normalized;
  }

  /** The result keeps the original; the normalized text has no double
      space and no typographic character; every byte of it has a mapping
      entry (the mapping is computed before spaces are collapsed, so it may
      have more), and every entry is a byte position of the original. */
  lemma NormalizeSpec(text: string, pats: Patterns, sp: Speech)
    requires ValidPatterns(pats)
    ensures Normalize(text, pats, sp).original == text
    ensures !Contains(Normalize(text, pats, sp).normalized, "  ")
    ensures forall i :: 0 <= i < |Normalize(text, pats, sp).normalized| ==>
      !IsTypographic(Normalize(text, pats, sp).normalized[i])
    ensures ByteLen(Normalize(text, pats, sp).normalized) <= |Normalize(text, pats, sp).charMapping|
    ensures AllBelow(Normalize(text, pats, sp).charMapping, ByteLen(text))
  {
    var sem := SemanticTracking(text, pats, sp);
    var uni := UnicodeScan(sem.0);
    SemanticTrackingMapping(text, pats, sp);
    UnicodeScanMapping(sem.0);
    UnicodeScanClean(sem.0);
    CollapseSpacesSpec(uni.0);
    ComposedInRange(uni.1, sem.1, ByteLen(text));
    var n := CollapseSpaces(uni.0);
    forall i | 0 <= i < |n| ensures !IsTypographic(n[i]) {
      assert n[i] in uni.0;
    }
  }

  /** Plain ASCII text with no currency, no percentage, no typographic
      character and no double space is returned as it is, each byte mapped to
      itself. */
  lemma NormalizePlainText(text: string, pats: Patterns, sp: Speech)
    requires ValidPatterns(pats)
    requires pats.scale(text) == [] && pats.simple(text) == [] && pats.percent(text) == []
    requires IsAscii(text) && (forall i :: 0 <= i < |text| ==> !IsTypographic(text[i])) && !Contains(text, "  ")
    ensures Normalize(text, pats, sp) == NormalizationResult(text, text, Range(0, |text|))
  {
    var id := Range(0, |text|);
    SemanticTrackingIdentity(text, pats, sp);
    ByteLenAscii(text);
    assert SemanticTracking(text, pats, sp) == (text, id);
    UnicodeScanIdentity(text);
    assert UnicodeScan(text) == (text, id);
    CollapseSpacesSpec(text);
    assert CollapseSpaces(text) == text;
    ComposedIdentity(|text|);
  }

  lemma ComposedIdentity(n: nat)
    ensures Composed(Range(0, n), Range(0, n)) == Range(0, n)
  {
  }

  // ---------------------------------------------------------------------------
  // Character boundaries
  // ---------------------------------------------------------------------------

  /** The first character boundary at or after `b`, the end of the text at the latest. */
  function NextBoundary(s: string, b: nat): nat
    decreases ByteLen(s) - b
  {
    if b >= ByteLen(s) then ByteLen(s) else if IsCharBoundary(s, b) then b else NextBoundary(s, b + 1)
  }

  /** The last character boundary at or before `b`. */
  function PrevBoundary(s: string, b: nat): nat {
    if b == 0 || IsCharBoundary(s, b) then b else PrevBoundary(s, b - 1)
  }

  /** `find_char_boundary`. */
  function BoundaryNear(s: string, pos: nat, forward: bool): nat {
    if pos >= ByteLen(s) then ByteLen(s) else if forward then NextBoundary(s, pos) else PrevBoundary(s, pos)
  }

  method FindCharBoundary(text: string, pos: nat, forward: bool) returns (r: nat)
    ensures r == BoundaryNear(text, pos, forward)
  {
    var len := ByteLen(text);
    if pos >= len {
      return len;
    }
    if IsCharBoundary(text, pos) {
      return pos;
    }
    if forward {
      var i := pos;
      while i < len
        invariant pos <= i <= len
        invariant NextBoundary(text, i) == NextBoundary(text, pos)
      {
        if IsCharBoundary(text, i) {
          return i;
        }
        i := i + 1;
      }
      return len;
    } else {
      var i: nat := pos;
      while i > 0
        invariant i <= pos
        invariant PrevBoundary(text, i) == PrevBoundary(text, pos)
      {
        if IsCharBoundary(text, i) {
          return i;
        }
        i := i - 1;
      }
      return 0;
    }
  }

  lemma EndIsBoundary(s: string)
    ensures IsCharBoundary(s, ByteLen(s))
  {
    ByteOffsetEnd(s);
    CharBoundaryAt(s, |s|);
  }

  lemma {:induction false} NextBoundarySpec(s: string, b: nat)
    requires b <= ByteLen(s)
    ensures IsCharBoundary(s, NextBoundary(s, b))
    ensures b <= NextBoundary(s, b) <= ByteLen(s)
    ensures forall j :: b <= j < NextBoundary(s, b) ==> !IsCharBoundary(s, j)
    decreases ByteLen(s) - b
  {
    EndIsBoundary(s);
    if b < ByteLen(s) && !IsCharBoundary(s, b) {
      NextBoundarySpec(s, b + 1);
    }
  }

  lemma {:induction false} PrevBoundarySpec(s: string, b: nat)
    ensures IsCharBoundary(s, PrevBoundary(s, b))
    ensures PrevBoundary(s, b) <= b
    ensures forall j :: PrevBoundary(s, b) < j <= b ==> !IsCharBoundary(s, j)
  {
    if b == 0 {
      assert CharIndexOf(s, 0) == Some(0);
    } else if !IsCharBoundary(s, b) {
      PrevBoundarySpec(s, b - 1);
    }
  }

  /** The boundary found is a character boundary no later than the end of the
      text; searching forward it is the nearest one at or after `pos`,
      searching backward the nearest one at or before `pos`. */
  lemma BoundaryNearSpec(s: string, pos: nat, forward: bool)
    ensures IsCharBoundary(s, BoundaryNear(s, pos, forward)) && BoundaryNear(s, pos, forward) <= ByteLen(s)
    ensures pos < ByteLen(s) && forward ==>
      pos <= BoundaryNear(s, pos, forward) && forall j :: pos <= j < BoundaryNear(s, pos, forward) ==> !IsCharBoundary(s, j)
    ensures pos < ByteLen(s) && !forward ==>
      BoundaryNear(s, pos, forward) <= pos && forall j :: BoundaryNear(s, pos, forward) < j <= pos ==> !IsCharBoundary(s, j)
    ensures IsCharBoundary(s, pos) ==> BoundaryNear(s, pos, forward) == pos
  {
    EndIsBoundary(s);
    if pos < ByteLen(s) {
      if forward { NextBoundarySpec(s, pos); } else { PrevBoundarySpec(s, pos); }
    } else if IsCharBoundary(s, pos) {
      CharIndexOfSpec(s, pos);
      ByteLenAtLeast(s);
      var k := CharIndexOf(s, pos).value;
      if k < |s| {
        ByteOffsetMonotone(s, k, |s|);
      }
      ByteOffsetEnd(s);
    }
  }

  // ---------------------------------------------------------------------------
  // Mapping positions back to the original
  // ---------------------------------------------------------------------------

  lemma CharIndexOrder(s: string, a: nat, b: nat)
    requires a <= b && IsCharBoundary(s, a) && IsCharBoundary(s, b)
    ensures CharIndexOf(s, a).value <= CharIndexOf(s, b).value <= |s|
    ensures a < b ==> CharIndexOf(s, a).value < CharIndexOf(s, b).value
  {
    CharIndexOfSpec(s, a);
    CharIndexOfSpec(s, b);
    var i, j := CharIndexOf(s, a).value, CharIndexOf(s, b).value;
    if j < i {
      ByteOffsetMonotone(s, j, i);
    }
  }

  /** `&s[a..b]` on byte offsets: panics unless `a <= b` and both are
      character boundaries (which also puts them inside the text). */
  function ByteSlice(s: string, a: nat, b: nat): Outcome<string> {
    if a <= b && IsCharBoundary(s, a) && IsCharBoundary(s, b) then
      CharIndexOrder(s, a, b);
      Returned(s[CharIndexOf(s, a).value..CharIndexOf(s, b).value])
    else Panicked
  }

  /** `str::find`, as a byte offset. */
  function FindByte(s: string, p: string): Option<nat> {
    match Find(s, p)
    case Some(k) => Some(ByteOffset(s, k))
    case None => None
  }

  /** The range given by the character mapping, when it is ordered and
      inside the original. */
  function MappedRange(start: nat, end: nat, r: NormalizationResult): Option<(nat, nat)> {
    var m := r.charMapping;
    var olen := ByteLen(r.original);
    if start < |m| && end <= |m| then
      var os := BoundaryNear(r.original, m[start], true);
      var oe := BoundaryNear(r.original, if end < |m| then m[end] else olen, false);
      if os <= oe && oe <= olen then Some((os, oe)) else None
    else None
  }

  /** The first place the normalized text of the range occurs in the
      original; slicing the normalized text can panic. */
  function SearchedRange(start: nat, end: nat, r: NormalizationResult): Outcome<Option<(nat, nat)>> {
    match ByteSlice(r.normalized, start, end)
    case Panicked => Panicked
    case Returned(t) =>
      match FindByte(r.original, t)
      case Some(pos) => Returned(Some((pos, PastEnd(pos, t))))
      case None => Returned(None)
  }

  /** `map_normalized_to_original`: through the mapping first, then by
      searching the original for the normalized text of the range. */
  function MapNormalizedToOriginal(start: nat, end: nat, r: NormalizationResult): Outcome<Option<(nat, nat)>> {
    if start >= ByteLen(r.normalized) || end > ByteLen(r.normalized) then Returned(None)
    else if MappedRange(start, end, r).Some? then Returned(MappedRange(start, end, r))
    else SearchedRange(start, end, r)
  }

  /** A hit of `FindByte` is a byte range on character boundaries, inside
      the text, holding exactly the text searched for. */
  lemma FindByteHit(s: string, t: string, a: nat)
    requires FindByte(s, t) == Some(a)
    ensures IsCharBoundary(s, a) && IsCharBoundary(s, PastEnd(a, t)) && PastEnd(a, t) <= ByteLen(s)
    ensures ByteSlice(s, a, PastEnd(a, t)) == Returned(t)
  {
    var b := PastEnd(a, t);
    var k := Find(s, t).value;
    var e := k + |t|;
    OccurrenceBytes(s, t, k, e);
    BoundaryOf(s, k, a);
    BoundaryOf(s, e, b);
    BoundaryInside(s, b);
    assert s[k..e] == t;
    ByteSliceAt(s, k, e);
  }

  /** Slicing between the byte offsets of two character positions gives
      the characters between them. */
  lemma ByteSliceAt(s: string, j: nat, k: nat)
    requires j <= k <= |s|
    ensures ByteSlice(s, ByteOffset(s, j), ByteOffset(s, k)) == Returned(s[j..k])
  {
    CharBoundaryAt(s, j);
    CharBoundaryAt(s, k);
    if j < k {
      ByteOffsetMonotone(s, j, k);
    }
  }

  /** An occurrence of `t` at character position `k` sits at the byte range
      starting at the offset of `k`. */
  lemma OccurrencePlace(s: string, t: string, k: nat)
    requires OccursAt(s, t, k)
    ensures ByteSlice(s, ByteOffset(s, k), ByteOffset(s, k) + ByteLen(t)) == Returned(t)
  {
    var e := k + |t|;
    assert s[k..e] == t;
    ByteOffsetSlice(s, k, e);
    assert ByteOffset(s, e) == ByteOffset(s, k) + ByteLen(t);
    ByteSliceAt(s, k, e);
  }

  /** A byte slice is as long, in bytes, as the range it was taken from. */
  lemma ByteSliceLen(s: string, a: nat, b: nat)
    ensures ByteSlice(s, a, b).Returned? ==> ByteLen(ByteSlice(s, a, b).value) == b - a
  {
    if a <= b && IsCharBoundary(s, a) && IsCharBoundary(s, b) {
      CharIndexOrder(s, a, b);
      CharIndexOfSpec(s, a);
      CharIndexOfSpec(s, b);
      ByteOffsetSlice(s, CharIndexOf(s, a).value, CharIndexOf(s, b).value);
    }
  }

  /** Every character boundary lies inside the text. */
  lemma BoundaryInside(s: string, b: nat)
    requires IsCharBoundary(s, b)
    ensures b <= ByteLen(s)
  {
    CharIndexOfSpec(s, b);
    ByteOffsetEnd(s);
    var k := CharIndexOf(s, b).value;
    if k < |s| {
      ByteOffsetMonotone(s, k, |s|);
    }
  }

  lemma MappedRangeSpec(start: nat, end: nat, r: NormalizationResult)
    ensures MappedRange(start, end, r).Some? ==>
      var (a, b) := MappedRange(start, end, r).value;
      a <= b <= ByteLen(r.original) && IsCharBoundary(r.original, a) && IsCharBoundary(r.original, b)
  {
    var m := r.charMapping;
    if start < |m| && end <= |m| {
      BoundaryNearSpec(r.original, m[start], true);
      BoundaryNearSpec(r.original, if end < |m| then m[end] else ByteLen(r.original), false);
    }
  }

  lemma SearchedRangeSpec(start: nat, end: nat, r: NormalizationResult)
    ensures SearchedRange(start, end, r).Returned? && SearchedRange(start, end, r).value.Some? ==>
      var (a, b) := SearchedRange(start, end, r).value.value;
      a <= b <= ByteLen(r.original) && IsCharBoundary(r.original, a) && IsCharBoundary(r.original, b)
    ensures start <= end && IsCharBoundary(r.normalized, start) && IsCharBoundary(r.normalized, end) ==>
      SearchedRange(start, end, r).Returned?
  {
    var sl := ByteSlice(r.normalized, start, end);
    if sl.Returned? {
      var t := sl.value;
      if FindByte(r.original, t).Some? {
        var pos := FindByte(r.original, t).value;
        FindByteHit(r.original, t, pos);
      }
    }
  }

  /** Out-of-range requests give `None`; a range that is found is ordered,
      inside the original and on its character boundaries; a request on
      ordered character boundaries of the normalized text never panics. */
  lemma MapNormalizedToOriginalSpec(start: nat, end: nat, r: NormalizationResult)
    ensures start >= ByteLen(r.normalized) || end > ByteLen(r.normalized) ==>
      MapNormalizedToOriginal(start, end, r) == Returned(None)
    ensures MapNormalizedToOriginal(start, end, r).Returned? && MapNormalizedToOriginal(start, end, r).value.Some? ==>
      var (a, b) := MapNormalizedToOriginal(start, end, r).value.value;
      a <= b <= ByteLen(r.original) && IsCharBoundary(r.original, a) && IsCharBoundary(r.original, b)
    ensures start <= end && IsCharBoundary(r.normalized, start) && IsCharBoundary(r.normalized, end) ==>
      MapNormalizedToOriginal(start, end, r).Returned?
  {
    MappedRangeSpec(start, end, r);
    SearchedRangeSpec(start, end, r);
  }

  /** On the two-letter text "ab", asking for the reversed range 1..0 panics:
      the mapping gives the range 1..0 of the original, which fails the
      order check, and the fallback then slices the normalized text
      backwards. */
  lemma MapReversedRangePanics()
    ensures MapNormalizedToOriginal(1, 0, NormalizationResult("ab", "ab", [0, 1])) == Panicked
  {
    var r := NormalizationResult("ab", "ab", [0, 1]);
    assert ByteLen("ab") == 2 by {
      ByteLenAscii("ab");
    }
    assert CharIndexOf("ab", 1) == Some(1) by {
      assert "ab"[1..] == "b";
    }
    assert BoundaryNear("ab", 1, true) == 1 && BoundaryNear("ab", 0, false) == 0;
    assert MappedRange(1, 0, r) == None;
  }

  lemma AbIsPlain()
    ensures IsAscii("ab") && (forall i :: 0 <= i < |"ab"| ==> !IsTypographic("ab"[i])) && !Contains("ab", "  ")
  {
    forall j ensures !OccursAt("ab", "  ", j) {
      if j == 0 {
        assert "ab"[0..2][0] == 'a';
      }
    }
  }

  /** The same request on the result of normalizing "ab" with patterns that
      find nothing there. */
  lemma NormalizedReversedRangePanics(pats: Patterns, sp: Speech)
    requires ValidPatterns(pats)
    requires pats.scale("ab") == [] && pats.simple("ab") == [] && pats.percent("ab") == []
    ensures MapNormalizedToOriginal(1, 0, Normalize("ab", pats, sp)) == Panicked
  {
    AbIsPlain();
    NormalizePlainText("ab", pats, sp);
    assert Range(0, 2) == [0, 1];
    MapReversedRangePanics();
  }

  /** The original text of a mapped range, when that range is non-empty. */
  function OriginalSlice(r: NormalizationResult, mapped: Outcome<Option<(nat, nat)>>): Outcome<Option<string>> {
    match mapped
    case Panicked => Panicked
    case Returned(None) => Returned(None)
    case Returned(Some((a, b))) =>
      if a < ByteLen(r.original) && b <= ByteLen(r.original) && a < b then
        match ByteSlice(r.original, a, b)
        case Panicked => Panicked
        case Returned(t) => Returned(Some(t))
      else Returned(None)
  }

  /** The first occurrence of the phrase in the normalized text, mapped back. */
  function FoundLookup(phrase: string, r: NormalizationResult): Outcome<Option<string>> {
    match FindByte(r.normalized, phrase)
    case Some(pos) => OriginalSlice(r, MapNormalizedToOriginal(pos, PastEnd(pos, phrase), r))
    case None => Returned(None)
  }

  /** The phrase's length from the hinted byte position, clipped to the
      normalized text, mapped back. */
  function HintLookup(phrase: string, r: NormalizationResult, hint: Option<nat>): Outcome<Option<string>> {
    var nlen := ByteLen(r.normalized);
    match hint
    case Some(pos) =>
      if pos < nlen then
        var end := if PastEnd(pos, phrase) < nlen then PastEnd(pos, phrase) else nlen;
        OriginalSlice(r, MapNormalizedToOriginal(pos, end, r))
      else Returned(None)
    case None => Returned(None)
  }

  /** `extract_original_phrase`: the first occurrence of the phrase in the
      normalized text mapped back, else the hinted byte position mapped back,
      else the phrase itself. */
  function ExtractOriginalPhrase(phrase: string, r: NormalizationResult, hint: Option<nat>): Outcome<string> {
    var first := FoundLookup(phrase, r);
    if first.Panicked? then Panicked
    else if first.value.Some? then Returned(first.value.value)
    else
      var second := HintLookup(phrase, r, hint);
      if second.Panicked? then Panicked
      else if second.value.Some? then Returned(second.value.value)
      else Returned(phrase)
  }

  lemma OriginalSliceSpec(r: NormalizationResult, mapped: Outcome<Option<(nat, nat)>>)
    ensures OriginalSlice(r, mapped).Returned? && OriginalSlice(r, mapped).value.Some? ==>
      exists i, j :: 0 <= i < j <= |r.original| && OriginalSlice(r, mapped).value.value == r.original[i..j]
    ensures mapped.Returned? && (mapped.value.Some? ==>
        IsCharBoundary(r.original, mapped.value.value.0) && IsCharBoundary(r.original, mapped.value.value.1))
      ==> OriginalSlice(r, mapped).Returned?
  {
    if mapped.Returned? && mapped.value.Some? {
      var (a, b) := mapped.value.value;
      if a < b && IsCharBoundary(r.original, a) && IsCharBoundary(r.original, b) {
        CharIndexOrder(r.original, a, b);
      }
    }
  }

  /** The search for the phrase never panics, and what it finds is a
      non-empty piece of the original. */
  lemma FoundLookupSpec(phrase: string, r: NormalizationResult)
    ensures FoundLookup(phrase, r).Returned?
    ensures FoundLookup(phrase, r).value.Some? ==>
      exists i, j :: 0 <= i < j <= |r.original| && FoundLookup(phrase, r).value.value == r.original[i..j]
  {
    match FindByte(r.normalized, phrase) {
      case Some(pos) =>
        var end := PastEnd(pos, phrase);
        FindByteHit(r.normalized, phrase, pos);
        MapNormalizedToOriginalSpec(pos, end, r);
        OriginalSliceSpec(r, MapNormalizedToOriginal(pos, end, r));
      case None =>
    }
  }

  lemma HintLookupSpec(phrase: string, r: NormalizationResult, hint: Option<nat>)
    ensures HintLookup(phrase, r, hint).Returned? && HintLookup(phrase, r, hint).value.Some? ==>
      exists i, j :: 0 <= i < j <= |r.original| && HintLookup(phrase, r, hint).value.value == r.original[i..j]
    ensures hint.None? ==> HintLookup(phrase, r, hint) == Returned(None)
  {
    match hint {
      case Some(pos) =>
        var nlen := ByteLen(r.normalized);
        var end := if PastEnd(pos, phrase) < nlen then PastEnd(pos, phrase) else nlen;
        OriginalSliceSpec(r, MapNormalizedToOriginal(pos, end, r));
      case None =>
    }
  }

  /** The phrase returned is the phrase itself or a non-empty piece of the
      original text; without a position hint the lookup never panics. */
  lemma ExtractOriginalPhraseSpec(phrase: string, r: NormalizationResult, hint: Option<nat>)
    ensures ExtractOriginalPhrase(phrase, r, hint).Returned? ==>
      var t := ExtractOriginalPhrase(phrase, r, hint).value;
      t == phrase || exists i, j :: 0 <= i < j <= |r.original| && t == r.original[i..j]
    ensures hint.None? ==> ExtractOriginalPhrase(phrase, r, hint).Returned?
  {
    FoundLookupSpec(phrase, r);
    HintLookupSpec(phrase, r, hint);
  }

  /** Looking up the whole normalized text recovers the whole original when
      the mapping covers the normalized text and starts at the original's
      first byte, whatever typographic characters were rewritten. */
  lemma ExtractWholeText(r: NormalizationResult)
    requires r.normalized != [] && r.original != []
    requires |r.charMapping| == ByteLen(r.normalized) && r.charMapping[0] == 0
    ensures ExtractOriginalPhrase(r.normalized, r, None) == Returned(r.original)
  {
    var n, o := r.normalized, r.original;
    assert OccursAt(n, n, 0);
    assert FindByte(n, n) == Some(0);
    assert ByteLen(n) > 0;
    assert ByteLen(o) > 0;
    assert IsCharBoundary(o, 0);
    BoundaryNearSpec(o, 0, true);
    assert MappedRange(0, ByteLen(n), r) == Some((0, ByteLen(o)));
    ByteOffsetEnd(o);
    CharBoundaryAt(o, |o|);
    assert o[0..|o|] == o;
  }

  // ---------------------------------------------------------------------------
  // Normalization info
  // ---------------------------------------------------------------------------

  /** The number of positions at which the two texts, compared character by
      character up to the shorter length, differ. */
  function ChangesCount(a: string, b: string): nat {
    if a == [] || b == [] then 0 else (if a[0] != b[0] then 1 else 0) + ChangesCount(a[1..], b[1..])
  }

  /** `get_normalization_info`. */
  function GetNormalizationInfo(r: NormalizationResult): NormalizationInfo {
    NormalizationInfo(true, ChangesCount(r.original, r.normalized), |r.original|, |r.normalized|)
  }

  function Min(a: nat, b: nat): nat {
    if a <= b then a else b
  }

  lemma {:induction false} ChangesCountSpec(a: string, b: string)
    ensures ChangesCount(a, b) <= Min(|a|, |b|)
    ensures ChangesCount(a, b) == 0 <==> a[..Min(|a|, |b|)] == b[..Min(|a|, |b|)]
  {
    if a != [] && b != [] {
      ChangesCountSpec(a[1..], b[1..]);
      var n := Min(|a|, |b|);
      assert a[..n] == [a[0]] + a[1..][..n - 1];
      assert b[..n] == [b[0]] + b[1..][..n - 1];
    }
  }

  /** The changed count is at most the shorter length, and zero exactly when
      the shorter text is a prefix of the longer. */
  lemma GetNormalizationInfoSpec(r: NormalizationResult)
    ensures GetNormalizationInfo(r).originalLength == |r.original|
    ensures GetNormalizationInfo(r).normalizedLength == |r.normalized|
    ensures GetNormalizationInfo(r).changesCount <= Min(|r.original|, |r.normalized|)
    ensures GetNormalizationInfo(r).changesCount == 0 <==>
      var n := Min(|r.original|, |r.normalized|); r.original[..n] == r.normalized[..n]
  {
    ChangesCountSpec(r.original, r.normalized);
  }
}
