# Porua: a verified model of the TTS server and its desktop wrapper

Porua is a text-to-speech HTTP server written in Rust, together with a Tauri
desktop wrapper that starts the server and drives it from a tray menu. This
project models the deterministic part of both in Dafny and proves what that
code promises.

**The server's text pipeline.** Two normalizers keep a byte-by-byte map from
the normalized text back to the original:

- `text_processing/normalization.rs`, which runs semantic passes (currency,
  scales, percentages) and a Unicode clean-up, then collapses spaces;
- and the older `utils/text_normalization.rs`.

The pipeline then splits sentences, segments words and phrases, cuts texts
into chunks of bounded size, assigns each phrase its offsets, and validates
the resulting metadata.

**Requests and responses.**

- request validation for the plain and the streaming endpoints;
- the multipart framing of the stream;
- WAV concatenation, over abstract specs and samples;
- the error-to-status table.

**Authentication and configuration.**

- the API-key file and the order in which key files are searched;
- the authentication decision and header key extraction;
- the rate-limit, timeout, port and logging settings read from the environment;
- the voice catalogue.

**Log retention.** Compression, age-based deletion and an oldest-first size
limit, applied to a directory listing held by a `Directory` object.

**The desktop wrapper.**

- the server manager's status machine, as a class;
- the readiness probe and the stop loop;
- the tray menu, its handlers and the status monitor;
- the application's paths;
- the overlay state holder.

Where the Rust code grows a buffer in a loop, the model is a Dafny `method`
with that loop. The method is proved equal to a reference function, and the
properties are proved about that function as lemmas. Where the Rust code
overwrites an object's fields, the model is a class.

Regular-expression matching, number-to-words, WAV decoding and encoding, JSON
serialisation, hashing, the file system, process control and the clock are
not modelled. Each one enters as a parameter: a function value, or an oracle
datatype such as `Patterns`, `Speech`, `Codec`, `RealFormat` or `FileSystem`.

`server.rs` repeats some code found elsewhere, and each such piece is
modelled once:

- `segment_words` is modelled as `Segmentation.SegmentWords`;
- the boundary and part builders as the `Streaming` members;
- `split_sentences_smart` and `is_abbreviation` in `audio/segmentation.rs`
  (lines 194-272), a line-for-line copy of `split_sentences` and
  `is_abbreviation` in `sentence_splitting.rs`, by `SentenceSplitting`. The
  abbreviation test as called (`AbbreviationAsWritten`) stands for both
  copies; the sentence scan the rest of the model uses is the corrected one
  (see "## Findings").

The `format_*` helpers of `normalization.rs` are modelled once, in
`SemanticNormalization`.

A Rust panic, such as slicing a string off a character boundary, is modelled
as the `Panicked` case of `Normalization.Outcome`.

## Model

| member | source | states |
|---|---|---|
| Errors.IntoResponseSpec | server/src/error.rs:92-114 | the response is 400 exactly for an empty text, a bad speed or a bad request, 401 exactly for a missing or wrong key, 404 exactly for a missing file and 500 otherwise; a 500 says only "Internal server error", the others the error's text; every body has status "error" |
| Errors.DisplayNotInternal | server/src/error.rs:38-56 | no error's text is the generic "Internal server error" message, so a client can tell a detailed error from a hidden one |
| Errors.FromLibrarySpec | server/src/error.rs:61-90 | every library error converts to an internal error (a 500), its text ends with the library's message, and I/O, WAV, task and other errors map to their own variants |
| SemanticNormalization.ScaleWordSpec | server/src/text_processing/semantic_normalization.rs:79-85 | every scale spelling the pattern admits (any case of billion, million, trillion, B, M, T) is spoken as the full lower-case scale word |
| SemanticNormalization.CurrencyTableAgreement | server/src/text_processing/semantic_normalization.rs:224-232 | the dollars-and-cents table as written and the corrected one agree on every amount except exactly one dollar with a non-zero number of cents |
| SemanticNormalization.CurrencyPhraseExamples | server/src/text_processing/semantic_normalization.rs:224-232 | the corrected table reads one dollar, one cent, one hundred dollars and one cent, and zero dollars as the source's tests expect |
| SemanticNormalization.OneDollarFiftyAsWritten | server/src/text_processing/semantic_normalization.rs:229-231 | the table as written reads one dollar fifty as "one dollars and fifty cents" |
| SemanticNormalization.OneDollarFifty | server/src/text_processing/semantic_normalization.rs:224-232 | the corrected table reads one dollar fifty as "one dollar and fifty cents" |
| SemanticNormalization.SpokenForms | server/src/text_processing/semantic_normalization.rs:66-141 | a match whose amount does not parse is left exactly as matched; one that parses becomes "<words> <scale> dollars", the dollars-and-cents reading of the corrected table, or "<words> percent" |
| SemanticNormalization.MatchesOrdered | server/src/text_processing/semantic_normalization.rs:66-68 | the matches `replace_all` works on come in text order, each ending before the next starts |
| SemanticNormalization.NoDollarNoMatch | server/src/text_processing/semantic_normalization.rs:15-24 | the two currency patterns, which start with `$`, find nothing in a text without '$' |
| SemanticNormalization.NoPercentNoMatch | server/src/text_processing/semantic_normalization.rs:28-30 | the percentage pattern, which ends with `%`, finds nothing in a text without '%' |
| SemanticNormalization.PlainTextUnchanged | server/src/text_processing/semantic_normalization.rs:47-58 | a text with neither '$' nor '%' comes out of all three passes unchanged |
| SemanticNormalization.ScalePassFirst | server/src/text_processing/semantic_normalization.rs:47-58 | once the scale pass has removed every '$' and '%', the plain-currency and percentage passes leave its output alone |
| SemanticNormalization.WholeMatch | server/src/text_processing/semantic_normalization.rs:66-100 | a single match covering the whole text is replaced by exactly its reading |
| SemanticNormalization.ScaleFormWins | server/src/text_processing/semantic_normalization.rs:51-55 | a text the scale pattern matches whole, such as "$10.3 billion", is read in the scale form "<words> <scale> dollars", not as a plain amount followed by the scale word |
| Normalization.PushRange | server/src/text_processing/normalization.rs:157-159 | the mapping afterwards is the mapping before followed by every position of the byte range, in order |
| Normalization.PushRepeat | server/src/text_processing/normalization.rs:163-165 | the mapping afterwards is the mapping before followed by the given number of copies of the match start |
| Normalization.CollectMatches | server/src/text_processing/normalization.rs:114-147 | the loop collects exactly the replacements of the reference collection: every scale match, the plain-currency matches not covered by a scale match, every percentage match, sorted by start |
| Normalization.CollectShape | server/src/text_processing/normalization.rs:114-144 | the collected replacements are all scale matches, then the plain-currency matches that lie inside no scale match, then all percentage matches; no kept plain-currency match starts inside a scale match |
| Normalization.KeepSimpleIsUncovered | server/src/text_processing/normalization.rs:125-136 | checking each plain-currency match against every match kept so far keeps exactly the matches no scale match covers, because plain-currency matches do not overlap one another |
| Normalization.ApplyReplacements | server/src/text_processing/normalization.rs:150-178 | the replacement loop produces the output text and mapping of the reference definition of the pass |
| Normalization.ApplyLengths | server/src/text_processing/normalization.rs:150-178 | after the replacements every byte of the output has exactly one mapping entry, even when replacements overlap |
| Normalization.ApplyBelow | server/src/text_processing/normalization.rs:150-178 | every mapping entry the replacements produce is a byte position inside the original text |
| Normalization.ApplyNothing | server/src/text_processing/normalization.rs:171-178 | with nothing to replace the text is copied whole and each byte maps to itself |
| Normalization.ApplyMatchesReplaceAll | server/src/text_processing/normalization.rs:150-178 | for the matches of one pattern the tracked pass writes the same text as the untracked regex replace-all of the semantic normalizer |
| Normalization.NormalizeSemanticWithTracking | server/src/text_processing/normalization.rs:109-181 | the method returns the text and mapping of the reference definition of the tracked semantic pass, which reads amounts with the corrected dollars-and-cents table |
| Normalization.SemanticTrackingMapping | server/src/text_processing/normalization.rs:109-181 | the tracked semantic pass gives one mapping entry per output byte and every entry is a byte of the original |
| Normalization.SemanticTrackingIdentity | server/src/text_processing/normalization.rs:109-181 | text no pattern matches comes back unchanged with the identity mapping |
| Normalization.SemanticTrackingScaleOnly | server/src/text_processing/normalization.rs:109-181 | when only the scale pattern matches, the tracked pass writes the same text as the scale pass of the untracked semantic normalizer |
| Normalization.NormalizeUnicodeWithTracking | server/src/text_processing/normalization.rs:187-242 | the character loop returns the text and mapping of the reference definition of the typographic pass |
| Normalization.UnicodeScanMapping | server/src/text_processing/normalization.rs:187-242 | the typographic pass gives one mapping entry per output byte; the entries never decrease, lie inside the input and each is the first byte of an input character |
| Normalization.UnicodeScanClean | server/src/text_processing/normalization.rs:187-242 | no smart quote, dash, ellipsis or other character the pass rewrites is left in its output |
| Normalization.UnicodeScanIdentity | server/src/text_processing/normalization.rs:187-242 | ASCII text without such characters comes back unchanged, each byte mapped to itself |
| Normalization.ComposeMappings | server/src/text_processing/normalization.rs:80-88 | the composition loop yields, for each typographic entry, the semantic entry it points at, or the last semantic entry when it points past the end |
| Normalization.ComposedInRange | server/src/text_processing/normalization.rs:80-88 | when every typographic entry points into the semantic mapping, the composition is exactly the semantic entry at each position and stays inside the original |
| Normalization.CollapseDoubleSpaces | server/src/text_processing/normalization.rs:90-93 | the loop returns the result of repeating the double-space replacement until no double space is left |
| Normalization.ReplaceSpacesFacts | server/src/text_processing/normalization.rs:90-93 | one round of replacing double spaces keeps the non-blank characters, brings in no new character and does not lengthen the text |
| Normalization.CollapseSpacesSpec | server/src/text_processing/normalization.rs:90-93 | after collapsing no two spaces are adjacent, the non-blank characters are those of the input, nothing new appears, the text is no longer, and text without a double space is unchanged |
| Normalization.NormalizeForTts | server/src/text_processing/normalization.rs:67-103 | the method returns the normalization result of the reference composition of the semantic pass (with the corrected dollars-and-cents table), the typographic pass, the mapping composition and the space collapsing |
| Normalization.NormalizeSpec | server/src/text_processing/normalization.rs:67-103 | the result keeps the original text, has no double space and no typographic character, has a mapping entry for every byte of the normalized text, and every entry is a byte of the original |
| Normalization.NormalizePlainText | server/src/text_processing/normalization.rs:67-103 | plain ASCII text with no currency, percentage, typographic character or double space comes back as it is, each byte mapped to itself |
| Normalization.NormalizeSimple | server/src/text_processing/normalization.rs:378-380 | the simple form returns exactly the normalized text of the full normalization |
| Normalization.FindCharBoundary | server/src/text_processing/normalization.rs:430-456 | the stepping loop returns the reference boundary: the nearest character boundary at or after the position going forward, at or before it going back |
| Normalization.BoundaryNearSpec | server/src/text_processing/normalization.rs:430-456 | the result is a character boundary inside the text; no boundary lies between the position and the result; a position already on a boundary is returned as it is |
| Normalization.MapNormalizedToOriginalSpec | server/src/text_processing/normalization.rs:386-424 | a range outside the normalized text gives None; a range found is ordered, inside the original and on its character boundaries; a request on ordered boundaries of the normalized text never panics |
| Normalization.FindByteHit | server/src/text_processing/normalization.rs:420-423 | a hit of the substring search is a range on character boundaries, inside the text, holding exactly the text searched for |
| Normalization.MapReversedRangePanics | server/src/text_processing/normalization.rs:396-423 | a reversed range (1..0 on "ab") is not rejected by the bounds check and reaches a slice that panics |
| Normalization.NormalizedReversedRangePanics | server/src/text_processing/normalization.rs:396-423 | the same reversed request panics on the result of normalizing "ab" |
| Normalization.ExtractOriginalPhraseSpec | server/src/text_processing/normalization.rs:462-505 | the phrase returned is the phrase itself or a non-empty piece of the original; without a position hint the lookup never panics |
| Normalization.FoundLookupSpec | server/src/text_processing/normalization.rs:468-482 | searching the normalized text for the phrase never panics, and what it maps back to is a non-empty piece of the original |
| Normalization.HintLookupSpec | server/src/text_processing/normalization.rs:485-501 | the lookup at the hinted position finds a non-empty piece of the original or nothing, and without a hint it finds nothing |
| Normalization.ExtractWholeText | server/src/text_processing/normalization.rs:462-505 | looking up the whole normalized text gives back the whole original when the mapping covers it and starts at the first byte |
| Normalization.ChangesCountSpec | server/src/text_processing/normalization.rs:361-375 | the count of differing positions is at most the shorter length, and zero exactly when the shorter text is a prefix of the longer |
| Normalization.GetNormalizationInfoSpec | server/src/text_processing/normalization.rs:361-375 | the info reports both lengths, and its change count is bounded by the shorter length and zero exactly when the texts agree up to it |
| LegacyNormalization.NormalizeForTts | server/src/utils/text_normalization.rs:33-82 | the character loop, the ellipsis rewrite and the space collapsing produce exactly the reference legacy normalization of the text |
| LegacyNormalization.LegacyCharClean | server/src/utils/text_normalization.rs:39-54 | a rewritten character is never one of the listed typographic characters, except the ellipsis kept for later; only the soft hyphen is dropped |
| LegacyNormalization.CharScanMapping | server/src/utils/text_normalization.rs:56-63 | the character pass gives one mapping entry per byte it writes; the entries never decrease, lie inside the input and each is the first byte of an input character |
| LegacyNormalization.CharScanClean | server/src/utils/text_normalization.rs:38-64 | no quote, dash, no-break space or soft hyphen survives the character pass; only the ellipsis may |
| LegacyNormalization.CharScanIdentity | server/src/utils/text_normalization.rs:38-64 | ASCII text without typographic characters passes the character pass unchanged, each byte mapped to itself |
| LegacyNormalization.LegacyNormalizeSpec | server/src/utils/text_normalization.rs:33-82 | the result keeps the original; the normalized text has no double space and no typographic character; the mapping has one non-decreasing entry per byte of the character pass, each on a character boundary of the original |
| LegacyNormalization.LegacyPlainText | server/src/utils/text_normalization.rs:85-96 | plain ASCII text without typographic characters or double spaces comes back unchanged with the identity mapping, and the info counts no change |
| Text.LowerKeepsWidthSpec | server/src/utils/text_normalization.rs:118-119 | lowering keeps the UTF-8 width of every character except `İ` and the capitals of `WidthChangingCapitals`, and lowers ASCII as `to_ascii_lowercase` does |
| Text.StrokeALowers | server/src/utils/text_normalization.rs:118-119 | lowering "ȺA" gives "ⱥa", which moves the "a" from byte 2 to byte 3 |
| LegacyNormalization.LowerFindPlace | server/src/utils/text_normalization.rs:118-122 | when lowering keeps the width of every character of both texts, a hit of the case-insensitive search in the lowered original is a range on character boundaries of the original itself |
| LegacyNormalization.LegacySearchSpec | server/src/utils/text_normalization.rs:111-129 | a range the search finds is as long as the text and inside the original; it lies on the original's boundaries when the original contains the text or lowering keeps every width; when the original contains the text, the range found holds exactly that text |
| LegacyNormalization.LegacyMapSpec | server/src/utils/text_normalization.rs:99-130 | an out-of-range request gives None; a found range has the requested length and lies inside the original, on its character boundaries when lowering keeps every width; it holds the requested text when the original contains it |
| LegacyNormalization.LegacyFoundLookupSpec | server/src/utils/text_normalization.rs:139-150 | what the search for the phrase returns is a piece of the original; the search never panics when lowering keeps the width of every character of the original and the phrase |
| LegacyNormalization.LegacyHintLookupSpec | server/src/utils/text_normalization.rs:153-158 | the hinted lookup returns a piece of the original no longer in bytes than the phrase and clipped at the original's end, and without a hint it returns nothing |
| LegacyNormalization.LegacyExtractSpec | server/src/utils/text_normalization.rs:133-162 | the phrase returned is the phrase itself or a piece of the original; without a hint the lookup never panics when lowering keeps the width of every character of the original and the phrase |
| LegacyNormalization.LegacyExtractMissesQuotes | server/src/utils/text_normalization.rs:133-162 | a phrase holding a straight double quote that the original lacks is never found, so without a hint the normalized phrase itself comes back, not the curly-quoted original |
| LegacyNormalization.LegacyLookupPanics | server/src/utils/text_normalization.rs:118-150 | when the phrase is found in the normalized text but not in the original, and its hit in the lowered original ends inside a character of the original, the lookup panics |
| LegacyNormalization.KelvinLookupPanics | server/src/utils/text_normalization.rs:118-150 | in a text that starts with the kelvin sign and holds a curly apostrophe, looking up the rewritten phrase "a'" panics, hint or not, because lowering shrinks the sign from three bytes to one |
| SentenceSplitting.LastWhitespaceSpec | server/src/text_processing/sentence_splitting.rs:16 | the reverse search finds a whitespace character with none after it, and finds nothing only in text without whitespace |
| SentenceSplitting.IsAbbreviation | server/src/text_processing/sentence_splitting.rs:11-40 | the list is searched in order and the answer is whether the word before the period is a listed abbreviation, ignoring ASCII case, or a single ASCII capital |
| SentenceSplitting.LastWordSpec | server/src/text_processing/sentence_splitting.rs:15-21 | the word before the period is the longest whitespace-free tail of the text before it: whitespace-free, a suffix, and preceded by whitespace when shorter than the text |
| SentenceSplitting.ClosesAt | server/src/text_processing/sentence_splitting.rs:59-80 | the boundary test at a character is the corrected reference rule: a terminator that is not a period after an abbreviation (checked on the characters before it) or between digits, and is a "!" or "?" or a period followed by whitespace and an ASCII capital |
| SentenceSplitting.SplitSentences | server/src/text_processing/sentence_splitting.rs:49-93 | the character loop returns the sentences of the corrected reference scan, whose abbreviation test reads the characters before the period |
| SentenceSplitting.ReadChar | server/src/text_processing/sentence_splitting.rs:55-84 | one pass of the loop advances the sentences and the current sentence exactly as the corrected reference scan does for one more character |
| SentenceSplitting.SentencesTrimmed | server/src/text_processing/sentence_splitting.rs:75-78 | every sentence is non-empty and has no leading or trailing whitespace |
| SentenceSplitting.SentencesTerminated | server/src/text_processing/sentence_splitting.rs:74-80 | every sentence but the last ends with ".", "!" or "?" |
| SentenceSplitting.SentencesContent | server/src/text_processing/sentence_splitting.rs:49-93 | the sentences hold every non-whitespace character of the text, in order, and nothing else |
| SentenceSplitting.SentencesBlank | server/src/text_processing/sentence_splitting.rs:86-92 | blank text has no sentences, and text with any other character has at least one |
| SentenceSplitting.SentencesWithoutTerminator | server/src/text_processing/sentence_splitting.rs:86-92 | text without ".", "!" or "?" comes back as one trimmed sentence, or none when blank |
| SentenceSplitting.ExclamationCloses | server/src/text_processing/sentence_splitting.rs:74 | a "!" or "?" always ends its sentence, whatever follows it |
| SentenceSplitting.AbbreviationDoesNotClose | server/src/text_processing/sentence_splitting.rs:23-28 | a period after a listed abbreviation never ends a sentence |
| SentenceSplitting.DecimalDoesNotClose | server/src/text_processing/sentence_splitting.rs:68-71 | a period between two ASCII digits never ends a sentence |
| SentenceSplitting.AbbreviationAsciiAgrees | server/src/text_processing/sentence_splitting.rs:66 | on ASCII text the check as called, with the character index used as a byte offset, agrees with the check on the characters before the period |
| SentenceSplitting.AbbreviationAsWrittenPanics | server/src/text_processing/sentence_splitting.rs:66 | on "café. The" the check as called slices the text through the two-byte letter, so the splitter panics |
| SentenceSplitting.AbbreviationAsWrittenShifted | server/src/text_processing/sentence_splitting.rs:11-66 | on "é Jo. Bob" the check as called reads "Jo" one character early as "J", takes it for an abbreviation and so does not end the sentence where the corrected test ends it |
| Segmentation.PreprocessDashesSpec | server/src/audio/segmentation.rs:73-85 | dash handling works character by character: it distributes over concatenation, an em dash becomes ". " or "-" by the mode, an en dash always "-", and text without dashes is unchanged |
| Segmentation.PreprocessDashesClean | server/src/audio/segmentation.rs:73-85 | no en dash or em dash survives either mode |
| Segmentation.NormalizeUnicodeClean | server/src/audio/segmentation.rs:92-104 | no listed quote mark and no ellipsis character is left after the clean-up |
| Segmentation.NormalizeUnicodePlain | server/src/audio/segmentation.rs:92-104 | text without those marks and without four periods in a row is left as it is |
| Segmentation.SegmentWordsPreservePunctuation | server/src/audio/segmentation.rs:107-127 | the character loop returns the whitespace-separated words of the text |
| Segmentation.SegmentWordsSeparatePunctuation | server/src/audio/segmentation.rs:130-163 | the character loop returns the tokens of the reference tokenizer |
| Segmentation.SeparatedTokensSpec | server/src/audio/segmentation.rs:130-163 | every token is a punctuation-free word or a single punctuation character, and the tokens concatenate to the input without its whitespace |
| Segmentation.SegmentWordsWithConfig | server/src/audio/segmentation.rs:166-178 | the words are those of the cleaned-up text when the configuration asks for it, taken by the tokenizer the configuration picks |
| Segmentation.SegmentWords | server/src/audio/segmentation.rs:181-183 | the words are those of the speech preset, which is the default configuration |
| Segmentation.WordsWithConfigSpec | server/src/audio/segmentation.rs:166-178 | every configuration yields non-empty, whitespace-free tokens that concatenate to the prepared text without its whitespace; blank text yields none |
| Segmentation.ChunksSpec | server/src/audio/segmentation.rs:287-290 | the chunks hold the words in order; each has between one and the limit of words, and all but the last exactly the limit |
| Segmentation.ChunkWords | server/src/audio/segmentation.rs:287-290 | every word of a chunk is a word of the input |
| Segmentation.JoinAllWords | server/src/audio/segmentation.rs:288 | joining each chunk by single spaces keeps its words: splitting a joined chunk on whitespace gives the chunk back |
| Segmentation.PhrasesOfSpec | server/src/audio/segmentation.rs:281-291 | a piece within the word limit is one phrase, verbatim; a longer one is split so that every phrase but the last has exactly the limit of words; the phrases keep the piece's words in order; only a zero limit with a non-blank piece panics |
| Segmentation.PhrasesOfAllSpec | server/src/audio/segmentation.rs:280-292 | the phrases of many pieces keep within the limit and keep the pieces' words in order; they panic only for a zero limit with some word to place |
| Segmentation.ExtendKeeps | server/src/audio/segmentation.rs:280-292 | appending two runs of phrases keeps the word limit and appends their words, and panics exactly when either run does |
| Segmentation.CollectPanicPersists | server/src/audio/segmentation.rs:280-292 | once the phrases of a prefix of the pieces panic, the whole segmentation panics |
| Segmentation.CollectConcat | server/src/audio/segmentation.rs:280-292 | the phrases of two runs of pieces are the phrases of each, one after the other |
| Segmentation.PushPhrases | server/src/audio/segmentation.rs:281-291 | one piece adds the piece itself, or its chunks joined by spaces, after the phrases so far |
| Segmentation.SegmentPhrasesSimple | server/src/audio/segmentation.rs:274-295 | the sentence loop returns the reference phrases of the sentences of the text, split by the corrected sentence scan |
| Segmentation.PushClauses | server/src/audio/segmentation.rs:312-325 | the clause loop of one sentence adds the phrases of each clause after the phrases so far |
| Segmentation.SegmentPhrasesCommaAware | server/src/audio/segmentation.rs:298-329 | the sentence and clause loops return the reference phrases of the clauses of every sentence, split by the corrected sentence scan |
| Segmentation.ClausesSpec | server/src/audio/segmentation.rs:306-310 | every clause is non-empty, trimmed and free of "," and ";"; a sentence without either is its own single clause |
| Segmentation.SegmentPhrasesWithConfig | server/src/audio/segmentation.rs:332-348 | the phrases are those of the dash-processed, optionally cleaned-up text, split at clauses or at sentences (by the corrected sentence scan) as the configuration says |
| Segmentation.SegmentPhrases | server/src/audio/segmentation.rs:352-354 | the phrases are those of the speech preset, over the corrected sentence scan |
| Segmentation.SimplePhrasesSpec | server/src/audio/segmentation.rs:274-295 | without comma boundaries the phrases of the corrected sentence scan hold exactly the non-whitespace characters of the text, each within the word limit; with the corrected scan a positive limit never panics |
| Segmentation.CommaAwarePhrasesSpec | server/src/audio/segmentation.rs:298-329 | with comma boundaries each phrase keeps within the word limit and the phrases hold the clauses' words in order; with the corrected sentence scan a positive limit never panics |
| Segmentation.PhrasesOfBlank | server/src/audio/segmentation.rs:332-348 | blank text has no phrases under any configuration |
| Segmentation.SegmentPhrasesEmpty | server/src/audio/segmentation.rs:352-354 | the default segmentation of the empty text is empty |
| Chunking.NextNonWs | server/src/chunking.rs:100-106 | the look-ahead finds the first non-whitespace character at or after the position, with only whitespace before it, or reports that only whitespace is left |
| Chunking.EndsAt | server/src/chunking.rs:88-112 | the look-ahead decides a sentence end exactly as the reference rule: a terminator at the end of the text, or one followed by whitespace and then an uppercase letter (of ASCII, Latin-1, the basic Greek or Cyrillic alphabet, or the kelvin, ohm or ångström sign), a digit or nothing |
| Chunking.ScanChar | server/src/chunking.rs:84-118 | one pass of the loop advances the sentences and the current sentence exactly as the reference scan does for one more character, with the capitals listed for `EndsAt` |
| Chunking.SplitIntoSentences | server/src/chunking.rs:79-127 | the loop returns the sentences of the reference scan, with the capitals listed for `EndsAt` |
| Chunking.TextSentencesSpec | server/src/chunking.rs:79-127 | every sentence is non-empty and trimmed, every sentence but the last ends with a terminator, and the sentences hold the text's non-whitespace characters in order |
| Chunking.EndsSentenceCloses | server/src/chunking.rs:114-117 | a sentence end pushes the trimmed current sentence, which is complete, and starts an empty one |
| Chunking.AddPiece | server/src/chunking.rs:180-188 | the packing step closes the chunk being built when the piece would overflow it, and otherwise appends the piece after a space |
| Chunking.AddFits | server/src/chunking.rs:180-188 | when the joining space is counted, a chunk that fits stays within the limit after a piece is added |
| Chunking.HardSplitByWords | server/src/chunking.rs:175-196 | the word loop returns the reference word chunks of the text |
| Chunking.WordChunksSpec | server/src/chunking.rs:175-196 | the word chunks hold the words of the text in order, each is trimmed, and a chunk over the limit is a single word |
| Chunking.PackClauses | server/src/chunking.rs:135-159 | the clause loop packs the clause pieces, each but the last with its comma, by the packing test of the source, which leaves the joining space out |
| Chunking.SplitLongSentence | server/src/chunking.rs:130-172 | the method returns the reference chunks of an over-long sentence |
| Chunking.RefineChunks | server/src/chunking.rs:161-171 | the final pass keeps each chunk within the limit and replaces each longer one by its word chunks |
| Chunking.LongSentenceChunksFit | server/src/chunking.rs:130-172 | every chunk of an over-long sentence is within the limit or is a single word |
| Chunking.ClausePieceAt | server/src/chunking.rs:135-144 | the i-th clause piece is the i-th part between commas and semicolons, trimmed, with a comma unless it is the last |
| Chunking.PunctuateJoin | server/src/chunking.rs:139-144 | the parts, each but the last followed by a comma, concatenate to the parts joined by commas |
| Chunking.TrimAllContent | server/src/chunking.rs:139-144 | trimming each part keeps the non-whitespace characters of the parts joined by commas |
| Text.SplitOnJoin | server/src/chunking.rs:135-137 | the pieces of `split` joined by one character are the input with each separator replaced by that character |
| Chunking.AddContent | server/src/chunking.rs:146-154 | the packing step keeps the non-whitespace characters of the chunks, the chunk being built and the new piece, in order: the joining space adds none and closing a chunk only trims it |
| Chunking.CloseContent | server/src/chunking.rs:157-159 | pushing the last chunk, trimmed, keeps its non-whitespace characters |
| Chunking.PackAllContent | server/src/chunking.rs:139-159 | packing keeps the non-whitespace characters of the pieces, in order |
| Chunking.WordChunksContent | server/src/chunking.rs:175-196 | the word chunks hold the text's non-whitespace characters in order |
| Chunking.RefineContent | server/src/chunking.rs:161-171 | the final pass keeps the non-whitespace characters of the chunks, in order |
| Chunking.LongSentenceChunksContent | server/src/chunking.rs:130-172 | the chunks of an over-long sentence hold its non-whitespace characters in order, each semicolon written as a comma |
| Chunking.ChunkSentence | server/src/chunking.rs:34-63 | one sentence of the loop advances the chunks exactly as the corrected reference step does, the joining space counted |
| Chunking.ChunkText | server/src/chunking.rs:22-76 | the method returns the corrected reference chunks of the text, split at sentence ends with the capitals listed for `EndsAt` |
| Chunking.TextChunksSpec | server/src/chunking.rs:22-76 | a text within the limit is its own single chunk; there is always at least one chunk; unless the text is returned whole, every chunk is within the limit or a single word |
| Chunking.ChunkStepContent | server/src/chunking.rs:37-62 | one sentence without a semicolon, packed or split on its own, keeps the non-whitespace characters of the chunks, the chunk being built and the sentence, in order |
| Chunking.ChunkScanContent | server/src/chunking.rs:34-63 | the sentence loop keeps the non-whitespace characters of semicolon-free sentences, in order |
| Chunking.SentencesWithoutSemicolon | server/src/chunking.rs:79-127 | the sentences of a text without a semicolon have none either |
| Chunking.TextChunksContent | server/src/chunking.rs:21-76 | for a text without a semicolon, the chunks hold the text's non-whitespace characters in order: chunking only splits the text at sentence, clause and word boundaries and drops whitespace |
| Chunking.PackPairJoined | server/src/chunking.rs:52-62 | as written, two sentences whose sizes add up to exactly the limit are packed into one chunk a byte over the limit |
| Chunking.PackPairApart | server/src/chunking.rs:52-62 | with the joining space counted, the same two sentences stay in separate chunks |
| Chunking.ExampleSentences | server/src/chunking.rs:79-127 | the sentence splitter splits "A. B." into "A." and "B." |
| Chunking.CyrillicCapitalEnds | server/src/chunking.rs:88-112 | in "Привет. Мир" the period ends a sentence, because a Cyrillic capital follows the space |
| Chunking.ChunkOverflowAsWritten | server/src/chunking.rs:22-76 | with a limit of 4 bytes, chunking as written returns "A. B." whole, a 5-byte chunk of two words, while the corrected chunking returns its two sentences |
| MetadataBuilder.Offsets | server/src/services/metadata_builder.rs:49-63 | the search gives one range per phrase, or panics |
| MetadataBuilder.SearchPanics | server/src/services/metadata_builder.rs:50-52 | the search from the current offset panics exactly when that offset is not on a character boundary of the normalized text |
| MetadataBuilder.SearchFound | server/src/services/metadata_builder.rs:50-52 | a phrase the search finds sits in the normalized text where it was found |
| MetadataBuilder.LocateSpec | server/src/services/metadata_builder.rs:54-63 | a phrase is placed at or after the current offset: where it was found, or at the current offset when it was not |
| MetadataBuilder.OffsetsSpec | server/src/services/metadata_builder.rs:44-63 | the ranges are well placed: each as long as its phrase in bytes, in order without overlap, and each where its phrase occurs or right after the range before |
| MetadataBuilder.OffsetsPrefix | server/src/services/metadata_builder.rs:44-63 | the ranges of the first phrases are the first ranges |
| MetadataBuilder.LastFallback | server/src/services/metadata_builder.rs:50-62 | when the ranges end off a character boundary, the last phrase was not found and was placed by the fallback, since a found phrase ends on a boundary |
| MetadataBuilder.OffsetsPanic | server/src/services/metadata_builder.rs:50-62 | the search panics only after some phrase was not found and its range was placed by the fallback |
| MetadataBuilder.PhraseMetasSpec | server/src/services/metadata_builder.rs:65-84 | the metadata list has one entry per phrase. Each entry holds its phrase, its words, its range, the time elapsed before it and its share of the duration. Its original wording is recorded exactly when the lookup gives something other than the phrase, and is then what the lookup gave |
| MetadataBuilder.ShareNonNegative | server/src/services/metadata_builder.rs:46-47 | a non-negative duration gives every phrase a non-negative share |
| MetadataBuilder.Take30 | server/src/services/metadata_builder.rs:150-151 | the excerpt in a mismatch message is a prefix of at most 30 characters |
| MetadataBuilder.OffsetErrorsSpec | server/src/services/metadata_builder.rs:138-162 | check 1 panics exactly when the slice does, reports offset_out_of_bounds exactly for a range that does not fit and text_mismatch exactly for one holding other text, at most one error, about the phrase itself |
| MetadataBuilder.OrderWarningsSpec | server/src/services/metadata_builder.rs:164-188 | checks 2 and 3 warn about an overlap with the phrase before and about a gap over 50 bytes, and about nothing else |
| MetadataBuilder.PhraseErrorsSpec | server/src/services/metadata_builder.rs:138-197 | the errors of one phrase are those of check 1, then negative_duration exactly for a negative duration |
| MetadataBuilder.PhraseWarningsSpec | server/src/services/metadata_builder.rs:164-205 | the warnings of one phrase are those of checks 2 and 3, then very_long_phrase exactly above 60000 ms |
| MetadataBuilder.AccumulateSpec | server/src/services/metadata_builder.rs:137-206 | the collected findings are exactly each phrase's in turn, and exist only when no phrase panicked |
| MetadataBuilder.FindingsAt | server/src/services/metadata_builder.rs:137-206 | the reports about phrase i are exactly that phrase's own findings |
| MetadataBuilder.ValidationSpec | server/src/services/metadata_builder.rs:129-213 | validation panics exactly when reading some phrase's range does; otherwise the result is valid exactly when there are no errors, and each phrase has each kind of error and warning exactly when its condition holds |
| MetadataBuilder.ValidatePhrases | server/src/services/metadata_builder.rs:129-213 | the loop over the phrases returns the reference validation, stopping at the first phrase whose checks panic |
| MetadataBuilder.ChecksPanic | server/src/services/metadata_builder.rs:137-206 | a panic while checking one phrase is a panic of the whole validation |
| MetadataBuilder.OffsetsPanicAt | server/src/services/metadata_builder.rs:50-52 | a search that panics makes the whole phrase loop panic |
| MetadataBuilder.BuildPanicsAt | server/src/services/metadata_builder.rs:66-70 | a panic from the original-phrase lookup makes the whole phrase loop panic |
| MetadataBuilder.PlacePhrase | server/src/services/metadata_builder.rs:49-63 | the method places one phrase as the reference search does |
| MetadataBuilder.AssignPhrase | server/src/services/metadata_builder.rs:44-87 | one pass of the phrase loop gives the phrase its range, its original wording, its words and its share of the duration, and keeps the running offset and time; a panic is a panic of the whole loop |
| MetadataBuilder.AssignPhrases | server/src/services/metadata_builder.rs:39-87 | the phrase loop returns the reference phrase list |
| MetadataBuilder.BuildPhrasesSpec | server/src/services/metadata_builder.rs:39-87 | the phrase list has one entry per phrase, each describing its phrase at a well-placed range, with the original wording the lookup gave when that differs; a search that panics makes the loop panic |
| MetadataBuilder.BuiltPhrasesDoNotOverlap | server/src/services/metadata_builder.rs:39-188 | the phrases the builder places never overlap the one before, so validating them never raises the overlap warning |
| MetadataBuilder.CompleteMetadata | server/src/services/metadata_builder.rs:33-125 | after normalization the method returns the reference chunk metadata, whose phrases come from the corrected sentence scan |
| MetadataBuilder.MetadataForSpec | server/src/services/metadata_builder.rs:33-125 | a duration error is returned as it is; otherwise the record carries version "2.0", the chunk's index, offset and duration, the normalized text, the original only when it differs, validation and debug information exactly when asked for, and the phrase count |
| MetadataBuilder.BuildMetadataWithOptions | server/src/services/metadata_builder.rs:20-126 | the method returns the reference metadata of the normalized text, normalized with the corrected dollars-and-cents table and segmented with the corrected sentence scan |
| MetadataBuilder.BuildMetadata | server/src/services/metadata_builder.rs:10-17 | the metadata is that of the full options, validation and debug information included |
| Streaming.ValidateRequestSpec | server/src/services/streaming.rs:109-124 | a request passes exactly when its text is not blank, has at most 10000 bytes and its speed lies in (0, 3]; otherwise the first failing check, in that order, names the error |
| Streaming.LengthLimit | server/src/config/constants.rs:5 | the limit counts bytes: an ASCII text of 10000 characters passes and a longer one is rejected with its length in the message |
| Streaming.TooLongMessageExample | server/src/services/streaming.rs:115-118 | the rejection of a 10001-byte text reads "Text too long: 10001 chars (max 10000)" |
| Streaming.BoundariesSpec | server/src/services/streaming.rs:15-21 | the closing boundary is the opening one with "--" written after the boundary name, before the line end |
| Streaming.MetadataPartSpec | server/src/services/streaming.rs:23-33 | a metadata part is the opening boundary, the JSON content type, a blank line, the JSON and a line end; a serialisation failure is an internal error carrying its message |
| Streaming.CreateAudioPart | server/src/services/streaming.rs:35-50 | the part is the header's bytes followed by the audio bytes |
| Streaming.AudioPartSpec | server/src/services/streaming.rs:35-50 | an audio part starts with the opening boundary, ends with the audio bytes, and is as long as its header and its audio together |
| Streaming.AudioHeaderLength | server/src/services/streaming.rs:39-43 | the header's Content-Length field reads back as the number of audio bytes |
| Streaming.StreamBodySpec | server/src/services/streaming.rs:141-281 | the body the task sends when every chunk succeeds ends with the closing boundary, and the last chunk's audio comes right before it |
| TtsServer.DeserializeSpec | server/src/server.rs:34-55 | a field present in the body is kept as sent; an absent one takes its default: the voice "bf_lily", the speed 1.0, chunking on |
| TtsServer.ValidateTtsSpec | server/src/server.rs:244-251 | a request passes exactly when its text is not blank and its speed lies in (0, 3]; blank text is reported first; the length of the text is not limited here |
| TtsServer.StreamingIsStricter | server/src/server.rs:244-251 | the streaming endpoint accepts only what this endpoint accepts; up to 10000 bytes the two give the same answer, and above it a request this endpoint accepts is rejected there as too long |
| TtsServer.ChunkingDecision | server/src/server.rs:255-261 | the chunked path is taken exactly when chunking is on and the text is over 200 bytes; a shorter text would come out of the corrected chunker whole; each chunk's request keeps the voice and speed, holds its chunk and never takes the chunked path again |
| TtsServer.SegmentPhrases | server/src/server.rs:161-187 | the sentence loop returns the reference phrases of the text |
| TtsServer.PushSentence | server/src/server.rs:170-184 | one round of the loop adds the sentence whole, or its five-word groups, after the phrases so far |
| TtsServer.PiecesSpec | server/src/server.rs:165-171 | every sentence is non-empty, trimmed and free of terminators; a text without terminators is its own trimmed sentence, or none when blank |
| TtsServer.ServerPhrasesSpec | server/src/server.rs:161-187 | every phrase has at most five words, and the words of the phrases together are the text's non-whitespace characters with the terminators taken out, in order |
| TtsServer.OneSentence | server/src/server.rs:174-183 | a sentence of at most five words is one phrase, trimmed; a longer one becomes its five-word groups joined by single spaces |
| TtsServer.BlankText | server/src/server.rs:165-168 | text with no words has no phrases |
| TtsServer.SplitOnContent | server/src/server.rs:165-166 | splitting at the terminators and putting the pieces back together drops just the terminators |
| TtsServer.NonBlankContent | server/src/server.rs:167-171 | dropping blank pieces and trimming the rest keeps every non-whitespace character |
| WavUtils.SampleTypeOfSpec | server/src/audio/wav_utils.rs:22-36 | a float spec is read as `f32`, 16- and 32-bit integers as `i16` and `i32`; exactly the other integer widths are refused, the message naming the width |
| WavUtils.Concatenate | server/src/audio/wav_utils.rs:6-37 | the method returns the reference concatenation of the files |
| WavUtils.ConcatenateTyped | server/src/audio/wav_utils.rs:40-79 | the loop over the files returns the reference typed concatenation |
| WavUtils.ConcatenationSpec | server/src/audio/wav_utils.rs:6-79 | no files is an error, one file comes back byte for byte, two or more are read with the first file's sample type and give the files' samples in file order when all share its spec |
| WavUtils.GatherStops | server/src/audio/wav_utils.rs:47-64 | once a file fails, the whole run ends with that file's error |
| WavUtils.GatherAll | server/src/audio/wav_utils.rs:44-64 | when every file reads with the expected spec, the samples gathered are those of the files, in file order |
| WavUtils.GatherFirstMismatch | server/src/audio/wav_utils.rs:51-57 | the first file whose spec differs, after files that read well, is the index the error names |
| WavUtils.FirstFileMatches | server/src/audio/wav_utils.rs:17-20 | the spec comes from the first file, so a run of two or more files never reports file 0 as different |
| WavUtils.MismatchIndex | server/src/audio/wav_utils.rs:51-57 | an error naming a file came from that file, which read well and whose spec differed |
| Auth.ApiKeysSpec | server/src/auth.rs:23-69 | authentication is on exactly when there is at least one key; the empty set has none and accepts no key |
| Auth.FromFile | server/src/auth.rs:36-54 | the line loop returns the reference keys of the file |
| Auth.CollectedOk | server/src/auth.rs:41-42 | collecting the lines succeeds exactly when every line reads |
| Auth.CollectedKeys | server/src/auth.rs:41-51 | a key is collected exactly when some readable line gives it |
| Auth.KeysOfFileSpec | server/src/auth.rs:36-54 | a file that fails to open gives that error. Otherwise reading succeeds exactly when every line reads, and then the keys are exactly the trimmed lines that are neither empty nor comments |
| Auth.KeysOfLinesKeys | server/src/auth.rs:36-54 | when the lines read, a key is in the set exactly when some line, trimmed, is that key and is neither empty nor a comment |
| Auth.LineKeySpec | server/src/auth.rs:43-50 | a line gives a key exactly when trimmed it is non-empty and does not start with '#', and the key is the trimmed line |
| Auth.LoadApiKeys | server/src/auth.rs:79-138 | the method returns the reference loaded keys |
| Auth.Locations | server/src/auth.rs:105-113 | the default locations are the working directory's file, then the home directory's when there is one, then the one under /etc |
| Auth.FirstKeysSpec | server/src/auth.rs:115-137 | the keys come from the first default location that exists and yields keys, every earlier one failing that; with none such there are no keys |
| Auth.LoadedNeverEmptyFile | server/src/auth.rs:79-138 | keys are loaded only from a file that yields at least one, so the result is no keys or a set that turns authentication on; a usable `TTS_API_KEY_FILE` wins over the default locations |
| Auth.AuthDecisionSpec | server/src/auth.rs:141-185 | without keys every request passes; with keys a request passes exactly when it carries a valid key; a wrong key and a missing key both get 401 with status "error", each with its own message |
| HeaderUtils.ExtractApiKeySpec | server/src/utils/header_utils.rs:18-36 | a readable X-API-Key wins; otherwise a readable Authorization value starting with "Bearer " gives exactly the rest; a key is found exactly in those two cases |
| HeaderUtils.NoKey | server/src/utils/header_utils.rs:18-36 | no X-API-Key and no Authorization value with the prefix gives no key |
| VoiceConfig.AllSpec | server/src/kokoro/voice_config.rs:328-359 | `all` lists 28 voices, each voice exactly once, each at its own index |
| VoiceConfig.IdNames | server/src/kokoro/voice_config.rs:114-325 | a voice's id names that voice alone: looking the id up gives the voice back |
| VoiceConfig.IdsDistinct | server/src/kokoro/voice_config.rs:114-325 | two voices with the same id are the same voice |
| VoiceConfig.IdPattern | server/src/kokoro/voice_config.rs:114-325 | every id is the voice's language letter, its gender letter, an underscore, then the display name in lower case |
| VoiceConfig.IdEndsWithName | server/src/kokoro/voice_config.rs:114-325 | every id past its three-character prefix is the display name in lower case |
| VoiceConfig.FilterMembers | server/src/kokoro/voice_config.rs:363-389 | a voice survives the filter exactly when it is in the list and the filter accepts it |
| VoiceConfig.FilterConcat | server/src/kokoro/voice_config.rs:363-389 | filtering keeps the order of the list |
| VoiceConfig.GroupsSpec | server/src/kokoro/voice_config.rs:328-359 | `all` is the four language-and-gender groups one after another, each holding exactly the voices of its group |
| VoiceConfig.ByLanguageAndGenderSpec | server/src/kokoro/voice_config.rs:381-389 | exactly the voices of that language and gender, in the order of `all`: 11 American female, 9 American male, 4 British female, 4 British male |
| VoiceConfig.ByLanguageSpec | server/src/kokoro/voice_config.rs:363-368 | that language's female voices, then its male ones |
| VoiceConfig.ByGenderSpec | server/src/kokoro/voice_config.rs:372-377 | that gender's American voices, then its British ones |
| VoiceConfig.DefaultVoice | server/src/models/requests.rs:18-20 | the default voice id "bf_lily" names the British female voice Lily |
| ServerMain.StartupSpec | server/src/main.rs:48-66 | `--version` or `-v` anywhere wins over every other argument; otherwise the port fits a `u16` and is 3000 without `--port`, and the pool size is 2 without `TTS_POOL_SIZE` |
| ServerMain.FirstPortWins | server/src/main.rs:55-60 | only the first `--port` counts: the argument after it decides, parsed as a `u16` or else 3000 |
| ServerMain.PortGiven | server/src/main.rs:55-60 | a port written in decimal that fits a `u16` is used as given |
| ServerMain.SettingSpec | server/src/main.rs:253-290 | a set specific variable decides alone (an unparsable one gives the default, never the generic one); the generic variable counts only when the specific one is unset; a parsed value fits a `u32` |
| ServerMain.DefaultLimits | server/src/main.rs:253-290 | with no rate-limit variable set the per-key limiter allows 10 a second in bursts of 20 and the per-IP one 5 in bursts of 10 |
| ServerMain.RateLimitModeSpec | server/src/main.rs:223-250 | the mode, lowered by `to_lowercase`, decides: limiting is off exactly for "disabled"; "per-key" and "per-ip" pick their limiter whatever the keys; any other mode, an unset one included, picks per-key exactly when API keys are on |
| ServerMain.ModeIgnoresCase | server/src/main.rs:225-230 | the mode is read without regard to case: "DISABLED" turns limiting off |
| ServerMain.ModeKelvinSign | server/src/main.rs:223-250 | the mode "PER-\u{212A}EY", spelt with the kelvin sign, lowers to "per-key" and picks the per-key limiter |
| ServerMain.RequestTimeoutSpec | server/src/main.rs:293-300 | unset gives 60 seconds; any `u64` in decimal, 0 included, is used as given; a value that does not parse gives 60 |
| ServerMain.RequestTimeoutExamples | server/src/main.rs:293-300 | a timeout of "0" is 0 seconds and one of "-1" falls back to 60 |
| LoggingConfig.FromEnv | server/src/logging/config.rs:75-155 | the method returns the reference configuration of the environment |
| LoggingConfig.EmptyEnvironment | server/src/logging/config.rs:53-155 | with no variable set the configuration is the default (info, debug, JSON, 50 MB, 30 days, 1000 MB, every switch on, 5000 ms), except the console level, which always takes `RUST_LOG` or its fallback filter |
| LoggingConfig.FlagSpec | server/src/logging/config.rs:93-145 | a flag keeps its default when unset; when set it is on exactly when the value is "true" in any case, so "TRUE" turns it on and "1" turns it off |
| LoggingConfig.NumberSpec | server/src/logging/config.rs:111-152 | a number keeps its default when unset; a value up to the field's maximum written in decimal is taken; a value with a character other than a digit (a leading '+' aside) leaves the default; the result fits the field |
| LoggingConfig.FormatSpec | server/src/logging/config.rs:103-109 | "pretty" and "compact" (after lower-casing) pick theirs, and exactly every other value picks JSON |
| LoggingConfig.ConfiguredBounds | server/src/logging/config.rs:75-155 | the retention fits a `u32`, the sizes and the threshold a `u64`, and the custom directory is present exactly when `PORUA_LOG_DIR` is set |
| Sorting.SortByKeySpec | server/src/logging/cleanup.rs:224 | the files sorted by modification time are in key order, a permutation of the input, and elements with equal keys keep their input order, as a stable sort does |
| Sorting.SortByKeySorted | server/src/logging/cleanup.rs:224 | a listing already in key order is left as it is |
| LogCleanup.ArchiveName | server/src/logging/cleanup.rs:116-117 | the archive of a `.log` file is its name with ".gz" appended, and its own extension is "gz" |
| LogCleanup.ArchiveIsNotLog | server/src/logging/cleanup.rs:68-77 | an archive's name is never that of a `.log` file, so a later cycle never compresses an archive again |
| LogCleanup.Directory.Remove | server/src/logging/cleanup.rs:98-101 | the entry leaves the listing exactly when its removal succeeds, and nothing else changes |
| LogCleanup.Directory.CompressFile | server/src/logging/cleanup.rs:116-131 | on success the archive, named with the extension "log.gz", is added and its name returned; on failure the listing is unchanged |
| LogCleanup.CompressOldLogs | server/src/logging/cleanup.rs:61-113 | the new listing is the reference compression of the old one: every `.log` file older than a day is compressed, and its original is removed only after that succeeded |
| LogCleanup.CompressedNames | server/src/logging/cleanup.rs:61-113 | after compression a name is listed exactly when it was listed before or is a new archive, and it is not an original that was compressed and then removed |
| LogCleanup.WithoutAllSpec | server/src/logging/cleanup.rs:98-101 | an entry survives a run of removals exactly when none of them names it |
| LogCleanup.ExpiredSpec | server/src/logging/cleanup.rs:134-188 | the entries deleted are exactly those modified before the cutoff whose removal succeeds |
| LogCleanup.DeleteOldLogs | server/src/logging/cleanup.rs:134-188 | the listing loses exactly the expired entries, and the counts are their number and their total size |
| LogCleanup.DeletionSpec | server/src/logging/cleanup.rs:134-188 | with distinct names, an entry survives exactly when it is recent or its removal failed |
| LogCleanup.SixtyDaysExpire | server/src/logging/cleanup.rs:134-136 | a file sixty days old is past a retention of thirty days |
| LogCleanup.SortedTotal | server/src/logging/cleanup.rs:224 | sorting the files does not change their total size |
| LogCleanup.RegularFiles | server/src/logging/cleanup.rs:195-210 | the first loop gives the listing's regular files, in order, and their total size |
| LogCleanup.EvictOldest | server/src/logging/cleanup.rs:227-250 | the second loop removes the reference eviction's files, oldest first, and returns its total and count |
| LogCleanup.EnforceDiskLimit | server/src/logging/cleanup.rs:191-260 | the listing loses exactly the files the reference eviction of the oldest files takes, starting from the regular files' total; the total and count are the eviction's |
| LogCleanup.EvictWithinLimit | server/src/logging/cleanup.rs:227-250 | when every removal succeeds, the loop ends within the limit as long as removing all of the files would get there |
| LogCleanup.EvictAccounting | server/src/logging/cleanup.rs:227-250 | the final total is the starting total minus the sizes removed; every removed file was listed and removable; the last removal was needed to get within the limit |
| LogCleanup.EvictPrefix | server/src/logging/cleanup.rs:227-250 | the loop visits the oldest files in order and removes every removable one among them; if it stopped early, the total was within the limit |
| LogCleanup.WithinLimitKeepsAll | server/src/logging/cleanup.rs:213-218 | nothing is removed when the files are already within the limit |
| LogCleanup.DiskLimitHolds | server/src/logging/cleanup.rs:191-260 | when every removal succeeds, the files end within the limit |
| LogCleanup.PerformCleanup | server/src/logging/cleanup.rs:34-58 | compression (when enabled), then retention, then the size limit, each step applied to what the one before left |
| Middleware.FirstField | server/src/logging/middleware.rs:152 | the first comma-separated field is the longest prefix without a comma, and a comma follows it unless it is the whole value |
| Middleware.ClientIpSpec | server/src/logging/middleware.rs:147-169 | a readable X-Forwarded-For decides the address, as its first field trimmed (the whole value trimmed when it has no comma); otherwise a readable X-Real-IP is taken as it is; with neither the address is "unknown" |
| Middleware.ForwardedAddress | server/src/logging/middleware.rs:149-155 | the address from "first,rest" is `first` trimmed |
| Middleware.LoggedKeySpec | server/src/logging/middleware.rs:68-85 | the logged key is X-API-Key when present, else Authorization, with a leading "Bearer " stripped and otherwise unchanged; an unreadable X-API-Key hides Authorization; the hash is eight characters long |
| Middleware.AgreesWithExtractApiKey | server/src/logging/middleware.rs:68-85 | on a readable X-API-Key without the prefix, or a readable "Bearer" Authorization with no X-API-Key, the logged key is the key used for authentication |
| Middleware.SlowSpec | server/src/logging/middleware.rs:119-141 | the warning fires exactly when the duration exceeds the threshold; the threshold is the logging configuration's and fits a `u64`; unset, 5000 ms is not slow and 5001 ms is |
| DesktopServer.WaitForServerReady | wrapper/src-tauri/src/server.rs:195-229 | the probe loop returns the reference readiness outcome from attempt 1 |
| DesktopServer.ReadinessSpec | wrapper/src-tauri/src/server.rs:201-226 | the server is reported ready exactly when one of the attempts from the first tried up to the hundredth answers with success |
| DesktopServer.ReadinessBounded | wrapper/src-tauri/src/server.rs:198-201 | no attempt after the hundredth is made: probes that agree on attempts 1 to 100 give the same outcome |
| DesktopServer.ReadinessFailure | wrapper/src-tauri/src/server.rs:207-228 | with no success, an unreachable hundredth attempt gives "Server failed to start after 100 attempts: " and its error, and an unsuccessful answer there gives "Server failed to start within timeout" |
| DesktopServer.WaitForExit | wrapper/src-tauri/src/server.rs:137-161 | the wait loop returns the reference outcome of polling the child |
| DesktopServer.WaitBounded | wrapper/src-tauri/src/server.rs:138-155 | the wait makes at most 52 polls, and the child is killed only after it was still running at every one of them |
| DesktopServer.ServerManager.constructor | wrapper/src-tauri/src/server.rs:26-32 | a new manager is stopped, with no process |
| DesktopServer.ServerManager.Start | wrapper/src-tauri/src/server.rs:35-103 | when running or starting nothing changes; otherwise the status becomes Starting and a spawned child is recorded, while a failed spawn is returned with the status left at Starting |
| DesktopServer.ServerManager.StartOrFail | wrapper/src-tauri/src/server.rs:35-103 | as `start`, but a failed spawn ends in Error("Failed to start: ..."), as a failed readiness probe does |
| DesktopServer.ServerManager.FinishStart | wrapper/src-tauri/src/server.rs:85-100 | the readiness task sets Running on the configured port when the server answered, and Error("Failed to start: ...") otherwise |
| DesktopServer.ServerManager.Stop | wrapper/src-tauri/src/server.rs:106-168 | when stopped or stopping nothing changes; otherwise the status passes through Stopping to Stopped and the process is taken |
| DesktopServer.ServerManager.GetStatus | wrapper/src-tauri/src/server.rs:171-173 | the current status |
| DesktopServer.ServerManager.IsRunning | wrapper/src-tauri/src/server.rs:176-181 | true exactly in Running |
| DesktopServer.RetryAfterFailedSpawn | wrapper/src-tauri/src/server.rs:39-79 | after a failed spawn, `start` as written ignores a retry and spawns nothing; with the failure reported as Error, the retry spawns the child |
| Tray.TrayMenuSpec | wrapper/src-tauri/src/main.rs:302-358 | Start is offered exactly when stopped or failed and Stop exactly when running; Quit is last and enabled; no other entry is enabled; an error adds its message as an entry; a running server shows its port |
| Tray.OnStart | wrapper/src-tauri/src/main.rs:398-420 | the start item starts the server only when it is stopped or failed, with the corrected start that reports a failed spawn as Error("Failed to start: ..."); otherwise nothing changes |
| Tray.OnStop | wrapper/src-tauri/src/main.rs:421-443 | the stop item stops the server only when it is running; otherwise nothing changes |
| Tray.OnTrayEvent | wrapper/src-tauri/src/main.rs:394-459 | the application exits exactly on "quit"; "start" and "stop" do what their items do (start with the corrected start); "quit" stops a server that is not already stopped or stopping and otherwise changes nothing; unknown ids change nothing |
| Tray.MonitorStatus | wrapper/src-tauri/src/main.rs:461-481 | the monitor loop redraws the menu for the reference list of status changes |
| Tray.ChangesObserved | wrapper/src-tauri/src/main.rs:468-478 | every redraw is for a status that was observed |
| Tray.ChangesDiffer | wrapper/src-tauri/src/main.rs:463-478 | no redraw repeats: the first differs from Stopped and each later one from the one before |
| Tray.ChangesShown | wrapper/src-tauri/src/main.rs:461-481 | the tray ends by showing the last status observed, or Stopped when nothing was observed |
| AppPaths.AppDataDirSpec | wrapper/src-tauri/src/paths.rs:5-29 | the data directory is its base joined with the platform's relative path; it fails exactly when the base is missing: APPDATA on Windows, the home directory and HOME elsewhere |
| AppPaths.AppDataDirNamed | wrapper/src-tauri/src/paths.rs:5-29 | the data directory ends with its name ("Porua" or "porua") as a component of its own |
| AppPaths.DataDirPath | wrapper/src-tauri/src/paths.rs:12-27 | the relative path is "Library/Application Support/Porua" on macOS, "Porua" on Windows and ".config/porua" on Linux |
| AppPaths.JoinWithin | wrapper/src-tauri/src/paths.rs:33-68 | joining a relative path to a base gives a path inside the base that ends with the relative path |
| AppPaths.RelativePath | wrapper/src-tauri/src/paths.rs:32-69 | every file and directory of the application lies below the data directory under a non-empty relative path |
| AppPaths.AppFilesWithin | wrapper/src-tauri/src/paths.rs:32-69 | every path getter fails exactly when the data directory does, and otherwise gives a path inside it that ends with the file's relative path |
| AppPaths.NotEmpty | wrapper/src-tauri/src/paths.rs:5-29 | the data directory is never the empty path |
| AppPaths.CreateAllSpec | wrapper/src-tauri/src/paths.rs:72-94 | creating a list of directories succeeds exactly when every one is created; failing, it reports the first that was not, every one before it having been created |
| AppPaths.SubdirsWithin | wrapper/src-tauri/src/paths.rs:78-91 | each subdirectory is its name joined to the data directory and lies inside it |
| AppPaths.RequiredDirsWithin | wrapper/src-tauri/src/paths.rs:72-91 | the data directory is created first, then the five subdirectories inside it, each with its own failure message; the models and logs directories are the paths their getters give |
| AppPaths.CreateRequired | wrapper/src-tauri/src/paths.rs:72-94 | creation succeeds exactly when the data directory and every subdirectory are created, and stops first at a data directory that cannot be |
| AppPaths.EnsureDirectoriesSpec | wrapper/src-tauri/src/paths.rs:72-94 | `ensure_directories_exist` fails as the data directory does when that fails; otherwise it succeeds exactly when every directory is created |
| Overlay.DefaultState | wrapper/src-tauri/src/overlay/state.rs:38-42 | the default state is Idle |
| Overlay.TagSpec | wrapper/src-tauri/src/overlay/state.rs:6-36 | the serialised "type" tag tells the variants apart: two states share a tag exactly when they are the same variant, and Idle and Processing are determined by theirs |
| Overlay.OverlayManager.constructor | wrapper/src-tauri/src/overlay/state.rs:50-54 | a new manager holds Idle |
| Overlay.OverlayManager.GetState | wrapper/src-tauri/src/overlay/state.rs:56-58 | a copy of the current state |
| Overlay.OverlayManager.SetState | wrapper/src-tauri/src/overlay/state.rs:60-62 | any state replaces the current one |
| Overlay.OverlayManager.StartSelection | wrapper/src-tauri/src/overlay/state.rs:64-69 | the state becomes Selecting at the drag start |
| Overlay.OverlayManager.SetCaptureRegion | wrapper/src-tauri/src/overlay/state.rs:71-73 | the state becomes Capturing the region |
| Overlay.OverlayManager.SetProcessing | wrapper/src-tauri/src/overlay/state.rs:75-77 | the state becomes Processing |
| Overlay.OverlayManager.SetReady | wrapper/src-tauri/src/overlay/state.rs:79-81 | the state becomes Ready with the text and region |
| Overlay.OverlayManager.SetPlaying | wrapper/src-tauri/src/overlay/state.rs:83-90 | the state becomes Playing with the text, region, phrase and time |
| Overlay.OverlayManager.SetPaused | wrapper/src-tauri/src/overlay/state.rs:92-98 | the state becomes Paused at the given time |
| Overlay.OverlayManager.SetError | wrapper/src-tauri/src/overlay/state.rs:100-102 | the state becomes Error with the message |
| Overlay.OverlayManager.Reset | wrapper/src-tauri/src/overlay/state.rs:104-106 | the state goes back to Idle from any state |
| Overlay.Round | wrapper/src-tauri/src/overlay/state.rs:49-107 | through a whole round each `get_state` returns what was set last, and a reset leaves the manager as a new one |

## Left out

- HTTP, routing and async plumbing are not modelled. This covers the Axum handlers, the tokio tasks and channels, and the parallel generation of chunks in the streaming and chunked endpoints (`services/streaming.rs` 193-253). It is concurrency and I/O.
- The streaming task's running offset estimate (80 ms per character) and its cumulative offsets are not modelled, because they are floating-point arithmetic.
- The TTS engine and its pool (`kokoro/mod.rs`) are not modelled. They wrap a foreign engine behind a semaphore.
- Rate limiting (`rate_limit.rs`) is not modelled. Its decisions come from a foreign GCRA limiter. Only the choice of mode and its settings in `main.rs` are modelled.
- Floating-point numerics are not modelled: WAV duration, the scaling of phrase durations, and the rounding in the number formatters. Durations are `real` values, and the share of a phrase enters as a function. Speed bounds and duration thresholds are compared as reals.
- MetadataBuilder.BuildPhrasesSpec does not prove that the phrase durations add up to the audio duration. That would need real-number arithmetic on the weighted shares.
- Foreign libraries enter as parameters, not as code: regex matching, num2words, NFC composition, WAV decoding and encoding, JSON serialisation, md5 and UUID generation.
- Normalization.NormalizeForTts and LegacyNormalization.NormalizeForTts take NFC composition as the identity, as if the input were already composed.
- HeaderUtils.ExtractApiKey reads one value per header name, and a header map here is a `map`. Repeated headers, where the Rust map keeps several values, are not modelled.
- Header readability stands in for `to_str()` succeeding: every character is visible ASCII or a tab.
- Text.Lowercase, the model of `str::to_lowercase`, lowers the capitals of ASCII and Latin-1, `İ`, and every capital whose lower case has another UTF-8 length under Unicode 16.0: the kelvin, ohm and ångström signs, the capital sharp s, `Ⱥ` and `Ⱦ`, and the Latin Extended-C and Extended-D capitals listed in Text.WidthChangingCapitals. Other Unicode capitals (Greek, Cyrillic and so on) are kept as they are, although Rust lowers them to letters of the same width. So a mode, flag or scale word spelt with, say, a Greek capital is read differently than in Rust, and a case-insensitive search can find a different hit. A Rust built on tables older than Unicode 16.0 keeps U+A7CB and U+A7DC as they are.
- Text.IsUppercase, the model of `char::is_uppercase`, covers ASCII, Latin-1, the basic Greek and Cyrillic capitals and the kelvin, ohm and ångström signs. Other Unicode capitals (Latin Extended, Armenian, Georgian and so on) count as not uppercase.
- Chunking.EndsAt: a terminator followed by whitespace and a capital outside the ranges of Text.IsUppercase is not a sentence end in the model, where Rust would end the sentence there.
- Chunking.ScanChar: the same capitals as for Chunking.EndsAt.
- Chunking.SplitIntoSentences: the same capitals as for Chunking.EndsAt.
- Chunking.ChunkText: the same capitals as for Chunking.EndsAt.
- Chunking.TextChunksContent: proved for texts without a semicolon. In an over-long sentence each semicolon comes back as a comma, which Chunking.LongSentenceChunksContent states for one sentence; the whole-text statement for a text with a semicolon is not proved.
- LegacyNormalization.LowerFindPlace: lands on character boundaries only when lowering keeps the width of every character. `İ` and a capital in Text.WidthChangingCapitals, such as the kelvin sign or `Ⱥ`, shift the byte offsets of the lowered copy. LegacyLookupPanics and KelvinLookupPanics show the panic this causes; Text.StrokeALowers shows the shift for `Ⱥ`.
- LegacyNormalization.LegacySearchSpec: boundaries are promised only when lowering keeps every width or the original contains the text, for the reason given for LowerFindPlace.
- LegacyNormalization.LegacyMapSpec: boundaries are promised only when lowering keeps every width, for the reason given for LowerFindPlace.
- LegacyNormalization.LegacyFoundLookupSpec: no panic is promised only when lowering keeps every width, for the reason given for LowerFindPlace.
- LegacyNormalization.LegacyExtractSpec: no panic is promised only when lowering keeps every width, for the reason given for LowerFindPlace.
- SemanticNormalization.SpokenForms: uses the corrected dollars-and-cents table. As written, semantic_normalization.rs:230-231 says "one dollars and fifty cents" for $1.50; see "## Findings".
- Normalization.NormalizeSemanticWithTracking: uses the corrected dollars-and-cents table, where normalization.rs:355-356 says "one dollars and fifty cents" for $1.50.
- Normalization.NormalizeForTts: uses the corrected dollars-and-cents table, through NormalizeSemanticWithTracking.
- SentenceSplitting.ClosesAt: uses the corrected abbreviation test. As written, the splitter panics on "café. The" and does not end the sentence after "é Jo." in "é Jo. Bob"; AbbreviationAsWrittenPanics and AbbreviationAsWrittenShifted show it.
- SentenceSplitting.SplitSentences: returns the corrected scan, for the reason given for ClosesAt.
- SentenceSplitting.ReadChar: steps the corrected scan, for the reason given for ClosesAt.
- Segmentation.SegmentPhrasesSimple: splits with the corrected sentence scan. The copy at segmentation.rs:244 has the same character-for-byte mix-up as sentence_splitting.rs:66, so as written it panics on "café. The".
- Segmentation.SegmentPhrasesCommaAware: splits with the corrected sentence scan, for the reason given for SegmentPhrasesSimple.
- Segmentation.SegmentPhrasesWithConfig: splits with the corrected sentence scan, for the reason given for SegmentPhrasesSimple.
- Segmentation.SegmentPhrases: splits with the corrected sentence scan, for the reason given for SegmentPhrasesSimple.
- Segmentation.SimplePhrasesSpec: "a positive limit never panics" holds of the corrected sentence scan only; as written, "café. The" panics at segmentation.rs:244.
- Segmentation.CommaAwarePhrasesSpec: "a positive limit never panics" holds of the corrected sentence scan only, for the reason given for SimplePhrasesSpec.
- MetadataBuilder.CompleteMetadata: its phrases come from the corrected sentence scan, where the Rust segmenter panics on "café. The".
- MetadataBuilder.BuildMetadataWithOptions: normalizes with the corrected dollars-and-cents table and segments with the corrected sentence scan.
- TtsServer.ChunkingDecision: uses the corrected chunker. server.rs:309 calls `chunk_text` as written, whose packing test leaves out the joining space, so a chunk can be over the limit; see Chunking.ChunkOverflowAsWritten.
- TtsServer.ChunkRequests: uses the corrected chunker, for the reason given for ChunkingDecision.
- Tray.OnStart: starts the server with the corrected DesktopServer.ServerManager.StartOrFail. main.rs:410 calls `start`, which after a failed spawn leaves the status at Starting; see DesktopServer.RetryAfterFailedSpawn.
- Tray.OnTrayEvent: its "start" item runs the corrected start, for the reason given for OnStart.
- Text.JoinPath: models Unix `Path::join`; AppPaths.Join adds the Windows case, which joins with a backslash and accepts either slash at the end of the base. Windows prefixes (drive letters, UNC paths) and a Windows relative part that starts with a separator are not modelled; the relative paths the wrapper joins never start with one.
- The platform is an input to AppPaths, not the compile-time choice of the Rust code.
- Log cleanup does not model I/O errors while listing or reading metadata, which end a Rust step early. Removal and compression outcomes are oracles of `LogCleanup.FileSystem`.
- Log cleanup does not model creating the archives directory, partial `.gz` files left by a failed compression, `u64` overflow of the sizes, or modification times finer than a second.
- The cleanup task's timer loop and the request-id middleware are not modelled, because they are I/O.
- `logging/mod.rs` (subscriber setup) and `logging/paths.rs` are not modelled, because they are platform probing.
- Desktop wrapper process work is reduced to its outcomes. Spawning the server, sending signals, killing it and reading its log file enter as a spawn result and a poll function.
- The wrapper's sleep between polls is not modelled.
- DesktopServer.ServerManager.Stop does not model the time measured by `Instant`. The wait is counted in 100 ms polls.
- DesktopServer.ServerManager: the readiness task runs concurrently with `stop` in the Rust code. The model runs it as a separate call, `FinishStart`, so any interleaving can be expressed but races are not explored.
- The transient Stopping status is visible only in the manager's `history`. In the Rust code another task could read it while `stop` waits.
- Tray: icon swapping, the Tauri menu and tray calls, and `std::process::exit` are not modelled. `OnTrayEvent` returns whether the application exits.
- Tray.MonitorStatus takes the statuses it reads every two seconds as a finite sequence. The Rust loop never ends.
- Lengths and counts are unbounded `nat`, where Rust uses `usize`. No modelled operation comes near overflow except the `u64` millisecond cast in the middleware, which is written out.
- The segmentation presets other than `for_tts` appear only as constants, because no modelled operation uses them.
- Chunking.SplitLongSentence keeps the source's packing test, which leaves out the joining space. Its fallback to word splitting hides the overflow there, so it is not listed as a finding.
- LegacyNormalization.LegacyExtractOriginalPhrase misses phrases that hold quotes or other characters the older normalizer rewrote. This is the source's own limitation, shown by LegacyExtractMissesQuotes.
- Normalization.MapNormalizedToOriginal panics on a reversed range, as the Rust slice would. MapReversedRangePanics and NormalizedReversedRangePanics show it.
- MetadataBuilder.ValidatePhrases ignores the original-text argument, which the source also ignores.
- `wrapper/src-tauri/src/config.rs`, `installer.rs`, `cleanup.rs` and the overlay's screen capture and commands are not modelled. They are file I/O, downloads and UI.
- `server/src/models/*.rs` is modelled only as the datatypes the modelled operations need.
- `cli.rs` (help text) and `bin/generate_samples.rs` are not modelled. They are printing and engine I/O.
- `create_dmg_background.py` is not modelled. It draws an installer image at fixed coordinates.

## Findings

| source | as written | input that shows it | evidently intended | confidence | as-written member | corrected member |
|---|---|---|---|---|---|---|
| server/src/text_processing/semantic_normalization.rs:230-231 | one dollar and some cents is rendered with "dollars" | $1.50 gives "one dollars and fifty cents" | "one dollar and fifty cents", as the dollars-only row at line 228 does | high; not executed | SemanticNormalization.CurrencyPhraseAsWritten, SemanticNormalization.OneDollarFiftyAsWritten | SemanticNormalization.CurrencyPhrase, SemanticNormalization.OneDollarFifty |
| server/src/text_processing/sentence_splitting.rs:66 | a character index is passed where byte offsets are expected, so `&text[..period_pos]` slices through a multi-byte character | "café. The" panics while checking the period at character 4 | the abbreviation test on the word before the period | high; not executed | SentenceSplitting.AbbreviationAsWritten, SentenceSplitting.AbbreviationAsWrittenPanics | SentenceSplitting.IsAbbreviation, SentenceSplitting.AbbreviationAsciiAgrees |
| server/src/audio/segmentation.rs:244 | the same character index as at sentence_splitting.rs:66 is passed to the copy of `is_abbreviation` at line 194 | segmenting "café. The" panics while checking the period at character 4 | the abbreviation test on the word before the period | high; not executed | SentenceSplitting.AbbreviationAsWritten, SentenceSplitting.AbbreviationAsWrittenPanics | SentenceSplitting.IsAbbreviation, SentenceSplitting.AbbreviationAsciiAgrees |
| server/src/text_processing/normalization.rs:355-356 | the same currency table as semantic_normalization.rs:230-231, with "dollars" after one | $1.50 gives "one dollars and fifty cents" | "one dollar and fifty cents" | high; not executed | SemanticNormalization.CurrencyPhraseAsWritten, SemanticNormalization.OneDollarFiftyAsWritten | SemanticNormalization.CurrencyPhrase, SemanticNormalization.OneDollarFifty |
| server/src/chunking.rs:52 | the packing test leaves out the space that joins two sentences | "A. B." with a limit of 4 bytes comes back whole, a 5-byte chunk | each chunk of sentences at most `max_chunk_size` bytes | high; not executed | Chunking.TextChunksAsWritten, Chunking.ChunkOverflowAsWritten | Chunking.TextChunks, Chunking.TextChunksSpec |
| wrapper/src-tauri/src/server.rs:45, 67-79 | a log file that fails to open, or a spawn that fails, returns after the status was set to Starting | a failed spawn, then a click on Start: the tray shows a disabled "Starting..." and the start is ignored | report the failure as Error("Failed to start: ..."), as a failed readiness probe is, so that Start comes back | medium; not executed | DesktopServer.ServerManager.Start, DesktopServer.RetryAfterFailedSpawn | DesktopServer.ServerManager.StartOrFail |
