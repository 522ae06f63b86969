/** Character classes, trimming, splitting, searching, decimal numbers and the
    UTF-8 byte geometry of strings. Strings are sequences of Unicode scalar
    values; where the server counts or slices by bytes, `ByteLen` and
    `ByteOffset` give the UTF-8 length of a string and of its prefixes. */
module Text {
  import opened Wrappers

  // ---------------------------------------------------------------------------
  // Character classes
  // ---------------------------------------------------------------------------

  /** The Unicode White_Space property, which `char::is_whitespace` tests. */
  predicate IsWhitespace(c: char) {
    c == ' ' || ('\t' <= c <= '\r') || c == '\U{0085}' || c == '\U{00A0}' || c == '\U{1680}'
    || ('\U{2000}' <= c <= '\U{200A}') || c == '\U{2028}' || c == '\U{2029}' || c == '\U{202F}'
    || c == '\U{205F}' || c == '\U{3000}'
  }

  predicate IsAsciiDigit(c: char) { '0' <= c <= '9' }

  predicate IsAsciiUpper(c: char) { 'A' <= c <= 'Z' }

  /** Capital letters of Latin-1 (`À` to `Þ` but the sign `×`). */
  predicate IsLatin1Upper(c: char) {
    '\U{00C0}' <= c <= '\U{00DE}' && c != '\U{00D7}'
  }

  /** Upper-case letters of ASCII, Latin-1, the basic Greek and Cyrillic
      alphabets and the letter-like signs for kelvin, ohm and ångström,
      standing for `char::is_uppercase`. */
  predicate IsUppercase(c: char) {
    IsAsciiUpper(c) || IsLatin1Upper(c)
    || ('\U{0391}' <= c <= '\U{03A9}' && c != '\U{03A2}')
    || ('\U{0400}' <= c <= '\U{042F}')
    || c == KelvinSign || c == OhmSign || c == AngstromSign
  }

  function AsciiLower(c: char): char {
    if IsAsciiUpper(c) then (c as int + 32) as char else c
  }

  /** ASCII lower-casing of a whole string (`str::to_ascii_lowercase`);
      other characters are kept. */
  function ToLower(s: string): string {
    seq(|s|, i requires 0 <= i < |s| => AsciiLower(s[i]))
  }

  const KelvinSign: char := '\U{212A}'
  const OhmSign: char := '\U{2126}'
  const AngstromSign: char := '\U{212B}'
  const CapitalSharpS: char := '\U{1E9E}'
  const CapitalIWithDot: char := '\U{0130}'

  /** The capitals outside Latin-1 whose lower case (the simple mappings
      of Unicode 16.0, which `char::to_lowercase` follows) has another UTF-8
      length: the kelvin sign, which becomes the one-byte `k`; the ohm and
      ångström signs, the capital sharp s and the Latin Extended-C and
      Extended-D letters below, which become two-byte letters; and `Ⱥ` and
      `Ⱦ`, which become three-byte letters. */
  const WidthChangingCapitals: set<char> := {
    '\U{212A}', '\U{2126}', '\U{212B}', '\U{1E9E}', '\U{023A}', '\U{023E}', '\U{2C62}', '\U{2C64}',
    '\U{2C6D}', '\U{2C6E}', '\U{2C6F}', '\U{2C70}', '\U{2C7E}', '\U{2C7F}', '\U{A78D}', '\U{A7AA}',
    '\U{A7AB}', '\U{A7AC}', '\U{A7AD}', '\U{A7AE}', '\U{A7B0}', '\U{A7B1}', '\U{A7B2}', '\U{A7C5}',
    '\U{A7CB}', '\U{A7DC}'}

  /** The lower case of a character outside Latin-1 other than `İ`: the
      capitals of `WidthChangingCapitals` are lowered and every other
      character is kept. */
  function LowerBeyondLatin1(c: char): char {
    match c
    case '\U{212A}' => 'k'
    case '\U{2126}' => '\U{03C9}'
    case '\U{212B}' => '\U{00E5}'
    case '\U{1E9E}' => '\U{00DF}'
    case '\U{023A}' => '\U{2C65}'
    case '\U{023E}' => '\U{2C66}'
    case '\U{2C62}' => '\U{026B}'
    case '\U{2C64}' => '\U{027D}'
    case '\U{2C6D}' => '\U{0251}'
    case '\U{2C6E}' => '\U{0271}'
    case '\U{2C6F}' => '\U{0250}'
    case '\U{2C70}' => '\U{0252}'
    case '\U{2C7E}' => '\U{023F}'
    case '\U{2C7F}' => '\U{0240}'
    case '\U{A78D}' => '\U{0265}'
    case '\U{A7AA}' => '\U{0266}'
    case '\U{A7AB}' => '\U{025C}'
    case '\U{A7AC}' => '\U{0261}'
    case '\U{A7AD}' => '\U{026C}'
    case '\U{A7AE}' => '\U{026A}'
    case '\U{A7B0}' => '\U{029E}'
    case '\U{A7B1}' => '\U{0287}'
    case '\U{A7B2}' => '\U{029D}'
    case '\U{A7C5}' => '\U{0282}'
    case '\U{A7CB}' => '\U{0264}'
    case '\U{A7DC}' => '\U{019B}'
    case _ => c
  }

  /** `char::to_lowercase` for ASCII and Latin-1 capitals and for every
      capital whose lower case has another UTF-8 length: those of
      `WidthChangingCapitals`, and `İ`, which becomes two characters. */
  function LowerChar(c: char): string {
    if c as int < 0x100 then [if IsAsciiUpper(c) || IsLatin1Upper(c) then (c as int + 32) as char else c]
    else if c == CapitalIWithDot then "i\U{0307}"
    else [LowerBeyondLatin1(c)]
  }

  /** `str::to_lowercase`: each character lowered in turn. */
  function Lowercase(s: string): string {
    if s == [] then [] else LowerChar(s[0]) + Lowercase(s[1..])
  }

  /** Whether lowering `c` gives one character of the same UTF-8 length. */
  predicate LowerKeepsWidth(c: char) {
    |LowerChar(c)| == 1 && Utf8Len(LowerChar(c)[0]) == Utf8Len(c)
  }

  predicate LowerKeepsWidths(s: string) {
    forall i :: 0 <= i < |s| ==> LowerKeepsWidth(s[i])
  }

  /** Lowering keeps the width of every character but `İ` and those of
      `WidthChangingCapitals`; ASCII text keeps its widths. */
  lemma LowerKeepsWidthSpec(c: char)
    ensures !LowerKeepsWidth(c) <==> c == CapitalIWithDot || c in WidthChangingCapitals
    ensures c as int < 0x80 ==> LowerChar(c) == [AsciiLower(c)]
  {
  }

  /** A text whose characters keep their widths keeps its length, its byte
      length and the byte offset of every character position when lowered. */
  lemma {:induction false} LowercaseWidths(s: string, k: nat)
    requires LowerKeepsWidths(s) && k <= |s|
    ensures |Lowercase(s)| == |s| && ByteLen(Lowercase(s)) == ByteLen(s)
    ensures ByteOffset(Lowercase(s), k) == ByteOffset(s, k)
    decreases |s|
  {
    if s != [] {
      var l := Lowercase(s);
      assert LowerKeepsWidth(s[0]);
      assert l == LowerChar(s[0]) + Lowercase(s[1..]);
      LowercaseWidths(s[1..], if k == 0 then 0 else k - 1);
      assert l[1..] == Lowercase(s[1..]);
      if k > 0 {
        ByteOffsetTail(s, k);
        ByteOffsetTail(l, k);
      }
    }
  }

  /** Lowering puts a straight double quote exactly where there was one. */
  lemma {:induction false} LowercaseQuote(s: string)
    ensures '"' in Lowercase(s) <==> '"' in s
    decreases |s|
  {
    if s != [] {
      LowercaseQuote(s[1..]);
      assert Lowercase(s) == LowerChar(s[0]) + Lowercase(s[1..]);
      assert s == [s[0]] + s[1..];
    }
  }

  /** On ASCII text `str::to_lowercase` and `str::to_ascii_lowercase`
      agree. */
  lemma {:induction false} LowercaseAscii(s: string)
    requires IsAscii(s)
    ensures Lowercase(s) == ToLower(s)
    decreases |s|
  {
    if s != [] {
      assert IsAscii(s[1..]) by {
        forall i | 0 <= i < |s[1..]| ensures s[1..][i] as int < 0x80 {
          assert s[1..][i] == s[i + 1];
        }
      }
      LowercaseAscii(s[1..]);
      LowerKeepsWidthSpec(s[0]);
      assert ToLower(s) == [AsciiLower(s[0])] + ToLower(s[1..]);
    }
  }

  /** Lowering works character by character, so it distributes over
      concatenation. */
  lemma {:induction false} LowercaseAppend(a: string, b: string)
    ensures Lowercase(a + b) == Lowercase(a) + Lowercase(b)
    decreases |a|
  {
    if a != [] {
      assert (a + b)[1..] == a[1..] + b;
      LowercaseAppend(a[1..], b);
    } else {
      assert a + b == b;
    }
  }

  /** A reading of the kelvin sign: `"\U{212A}"` lowers to one byte. */
  lemma KelvinLowers()
    ensures Lowercase([KelvinSign]) == "k"
    ensures ByteLen([KelvinSign]) == 3 && ByteLen("k") == 1
  {
  }

  /** A reading of `Ⱥ`: lowering `"ȺA"` moves the `A` from byte 2 to
      byte 3. */
  lemma StrokeALowers()
    ensures Lowercase("\U{023A}A") == "\U{2C65}a"
    ensures ByteOffset("\U{023A}A", 1) == 2 && ByteOffset(Lowercase("\U{023A}A"), 1) == 3
  {
    var s := "\U{023A}A";
    assert s[1..] == "A";
    assert Lowercase(s) == LowerChar(s[0]) + Lowercase(s[1..]);
    ByteOffsetStep(s, 0);
    ByteOffsetStep(Lowercase(s), 0);
    assert s[..0] == [];
    assert Lowercase(s)[..0] == [];
  }

  /** `str::eq_ignore_ascii_case`. */
  predicate EqIgnoreAsciiCase(a: string, b: string) {
    ToLower(a) == ToLower(b)
  }

  // ---------------------------------------------------------------------------
  // Trimming and the non-whitespace content of a string
  // ---------------------------------------------------------------------------

  function TrimStart(s: string): (r: string)
    ensures |r| <= |s| && r == s[|s| - |r|..]
    ensures r != [] ==> !IsWhitespace(r[0])
    ensures forall i :: 0 <= i < |s| - |r| ==> IsWhitespace(s[i])
  {
    if s != [] && IsWhitespace(s[0]) then
      var r := TrimStart(s[1..]);
      assert s[1..][|s| - 1 - |r|..] == s[|s| - |r|..];
      assert forall i :: 1 <= i < |s| - |r| ==> s[i] == s[1..][i - 1];
      r
    else s
  }

  function TrimEnd(s: string): (r: string)
    ensures |r| <= |s| && r == s[..|r|]
    ensures r != [] ==> !IsWhitespace(r[|r| - 1])
    ensures forall i :: |r| <= i < |s| ==> IsWhitespace(s[i])
  {
    if s != [] && IsWhitespace(s[|s| - 1]) then TrimEnd(s[..|s| - 1]) else s
  }

  /** `str::trim`: both ends stripped of whitespace. */
  function Trim(s: string): string {
    TrimEnd(TrimStart(s))
  }

  predicate AllWhitespace(s: string) {
    forall i :: 0 <= i < |s| ==> IsWhitespace(s[i])
  }

  predicate NoWhitespace(s: string) {
    forall i :: 0 <= i < |s| ==> !IsWhitespace(s[i])
  }

  lemma TrimStartBlank(s: string)
    ensures TrimStart(s) == [] <==> AllWhitespace(s)
  {
  }

  lemma TrimEndBlank(s: string)
    ensures TrimEnd(s) == [] <==> AllWhitespace(s)
  {
  }

  lemma TrimOfBlank(s: string)
    ensures AllWhitespace(s) ==> Trim(s) == []
  {
    TrimStartBlank(s);
  }

  lemma BlankOfTrim(s: string)
    ensures Trim(s) == [] ==> AllWhitespace(s)
  {
    var t := TrimStart(s);
    TrimStartBlank(s);
    TrimEndBlank(t);
    if Trim(s) == [] {
      assert AllWhitespace(t);
      if t != [] {
        assert false;
      }
    }
  }

  lemma TrimEnds(s: string)
    ensures Trim(s) != [] ==> !IsWhitespace(Trim(s)[0]) && !IsWhitespace(Trim(s)[|Trim(s)| - 1])
  {
    var t := TrimStart(s);
    if Trim(s) != [] {
      assert Trim(s)[0] == t[0];
    }
  }

  /** A trimmed string is empty exactly when the input is blank, and
      otherwise starts and ends with a non-whitespace character. */
  lemma TrimBlank(s: string)
    ensures Trim(s) == [] <==> AllWhitespace(s)
    ensures Trim(s) != [] ==> !IsWhitespace(Trim(s)[0]) && !IsWhitespace(Trim(s)[|Trim(s)| - 1])
  {
    TrimOfBlank(s);
    BlankOfTrim(s);
    TrimEnds(s);
  }

  /** The non-whitespace characters of a string, in order. */
  function NonWs(s: string): (r: string)
    ensures NoWhitespace(r)
    ensures |r| <= |s|
  {
    if s == [] then [] else (if IsWhitespace(s[0]) then [] else [s[0]]) + NonWs(s[1..])
  }

  lemma {:induction false} NonWsConcat(a: string, b: string)
    ensures NonWs(a + b) == NonWs(a) + NonWs(b)
  {
    if a == [] {
      assert a + b == b;
    } else {
      assert (a + b)[1..] == a[1..] + b;
      NonWsConcat(a[1..], b);
    }
  }

  lemma {:induction false} NonWsOfNoWhitespace(s: string)
    requires NoWhitespace(s)
    ensures NonWs(s) == s
  {
    if s != [] {
      NonWsOfNoWhitespace(s[1..]);
    }
  }

  lemma {:induction false} NonWsEmpty(s: string)
    ensures NonWs(s) == [] <==> AllWhitespace(s)
  {
    if s != [] {
      NonWsEmpty(s[1..]);
      if AllWhitespace(s) {
        assert AllWhitespace(s[1..]) by {
          forall i | 0 <= i < |s| - 1 ensures IsWhitespace(s[1..][i]) { assert s[1..][i] == s[i + 1]; }
        }
      }
      if NonWs(s) == [] {
        forall i | 0 <= i < |s| ensures IsWhitespace(s[i]) {
          if i > 0 { assert s[i] == s[1..][i - 1]; }
        }
      }
    }
  }

  lemma {:induction false} NonWsTrimStart(s: string)
    ensures NonWs(TrimStart(s)) == NonWs(s)
  {
    if s != [] && IsWhitespace(s[0]) {
      NonWsTrimStart(s[1..]);
    }
  }

  lemma {:induction false} NonWsTrimEnd(s: string)
    ensures NonWs(TrimEnd(s)) == NonWs(s)
    decreases |s|
  {
    if s != [] && IsWhitespace(s[|s| - 1]) {
      var p := s[..|s| - 1];
      NonWsTrimEnd(p);
      assert s == p + [s[|s| - 1]];
      NonWsConcat(p, [s[|s| - 1]]);
    }
  }

  /** Trimming removes whitespace only. */
  lemma {:induction false} NonWsSubset(s: string, d: char)
    requires d in NonWs(s)
    ensures d in s
    decreases |s|
  {
    if s[0] != d {
      assert d in NonWs(s[1..]);
      NonWsSubset(s[1..], d);
    }
  }

  /** A non-whitespace character of `s` is kept by `NonWs`. */
  lemma {:induction false} NonWsKeeps(s: string, d: char)
    requires d in s && !IsWhitespace(d)
    ensures d in NonWs(s)
    decreases |s|
  {
    if s[0] != d {
      assert d in s[1..];
      NonWsKeeps(s[1..], d);
    }
  }

  lemma NonWsTrim(s: string)
    ensures NonWs(Trim(s)) == NonWs(s)
  {
    NonWsTrimStart(s);
    NonWsTrimEnd(TrimStart(s));
  }

  // ---------------------------------------------------------------------------
  // Concatenation and joining
  // ---------------------------------------------------------------------------

  /** A prefix extended by the next character is the next prefix. */
  lemma PrefixNext(s: string, n: nat, m: nat)
    requires n < |s| && m == n + 1
    ensures s[..n] + [s[n]] == s[..m]
  {
    assert |s[..n] + [s[n]]| == m;
  }

  /** A slice extended by the next character is the next slice. */
  lemma SliceNext(s: string, i: nat, n: nat, m: nat)
    requires i <= n < |s| && m == n + 1
    ensures s[i..n] + [s[n]] == s[i..m]
  {
    assert |s[i..n] + [s[n]]| == m - i;
  }

  function Concat(ss: seq<string>): string {
    if ss == [] then [] else ss[0] + Concat(ss[1..])
  }

  lemma {:induction false} ConcatAppend(ss: seq<string>, t: string)
    ensures Concat(ss + [t]) == Concat(ss) + t
  {
    if ss == [] {
      assert ss + [t] == [t];
    } else {
      assert (ss + [t])[1..] == ss[1..] + [t];
      ConcatAppend(ss[1..], t);
    }
  }

  lemma ConcatLast(ss: seq<string>)
    requires ss != []
    ensures Concat(ss) == Concat(ss[..|ss| - 1]) + ss[|ss| - 1]
  {
    assert ss == ss[..|ss| - 1] + [ss[|ss| - 1]];
    ConcatAppend(ss[..|ss| - 1], ss[|ss| - 1]);
  }

  lemma {:induction false} ConcatConcat(a: seq<string>, b: seq<string>)
    ensures Concat(a + b) == Concat(a) + Concat(b)
  {
    if a == [] {
      assert a + b == b;
    } else {
      assert (a + b)[1..] == a[1..] + b;
      ConcatConcat(a[1..], b);
    }
  }

  /** A character of one of the strings is a character of their
      concatenation. */
  lemma {:induction false} InConcat(ss: seq<string>, k: nat, d: char)
    requires k < |ss| && d in ss[k]
    ensures d in Concat(ss)
    decreases k
  {
    if k > 0 {
      InConcat(ss[1..], k - 1, d);
    }
  }

  /** `join(sep)` of a list of strings. */
  function Join(ss: seq<string>, sep: string): string {
    if ss == [] then [] else if |ss| == 1 then ss[0] else ss[0] + sep + Join(ss[1..], sep)
  }

  lemma {:induction false} JoinAppend(ss: seq<string>, t: string, sep: string)
    requires ss != []
    ensures Join(ss + [t], sep) == Join(ss, sep) + sep + t
  {
    if |ss| == 1 {
      assert (ss + [t])[1..] == [t];
    } else {
      assert (ss + [t])[1..] == ss[1..] + [t];
      JoinAppend(ss[1..], t, sep);
    }
  }

  // ---------------------------------------------------------------------------
  // Splitting
  // ---------------------------------------------------------------------------

  predicate IsWord(w: string) {
    w != [] && NoWhitespace(w)
  }

  /** Scans `s` left to right: the words completed so far and the word being
      read. A whitespace character ends the current word, if there is one. */
  function WordScan(s: string): (seq<string>, string)
    decreases |s|
  {
    if s == [] then ([], [])
    else
      var (done, cur) := WordScan(s[..|s| - 1]);
      var c := s[|s| - 1];
      if IsWhitespace(c) then (if cur == [] then (done, []) else (done + [cur], []))
      else (done, cur + [c])
  }

  /** `str::split_whitespace`: the maximal runs of non-whitespace characters. */
  function SplitWhitespace(s: string): seq<string> {
    var (done, cur) := WordScan(s);
    if cur == [] then done else done + [cur]
  }

  lemma {:induction false} WordScanInvariant(s: string)
    ensures forall w :: w in WordScan(s).0 ==> IsWord(w)
    ensures NoWhitespace(WordScan(s).1)
    ensures Concat(WordScan(s).0) + WordScan(s).1 == NonWs(s)
    decreases |s|
  {
    if s != [] {
      var p := s[..|s| - 1];
      var c := s[|s| - 1];
      WordScanInvariant(p);
      assert s == p + [c];
      NonWsConcat(p, [c]);
      var (done, cur) := WordScan(p);
      if IsWhitespace(c) {
        if cur != [] { ConcatAppend(done, cur); }
      }
    }
  }

  /** Every word is non-empty and whitespace-free, and the words concatenate
      to the non-whitespace characters of the input. */
  lemma SplitWhitespaceWords(s: string)
    ensures forall w :: w in SplitWhitespace(s) ==> IsWord(w)
    ensures Concat(SplitWhitespace(s)) == NonWs(s)
    ensures SplitWhitespace(s) == [] <==> AllWhitespace(s)
  {
    WordScanInvariant(s);
    var (done, cur) := WordScan(s);
    if cur != [] { ConcatAppend(done, cur); }
    NonWsEmpty(s);
    if SplitWhitespace(s) != [] {
      var w := SplitWhitespace(s)[0];
      assert w in SplitWhitespace(s);
      assert Concat(SplitWhitespace(s)) == w + Concat(SplitWhitespace(s)[1..]);
    }
  }

  // ---------------------------------------------------------------------------
  // Words of joined text
  // ---------------------------------------------------------------------------

  lemma {:induction false} WordScanAppendWord(s: string, t: string)
    requires NoWhitespace(t)
    ensures WordScan(s + t) == (WordScan(s).0, WordScan(s).1 + t)
    decreases |t|
  {
    if t == [] {
      assert s + t == s;
      assert WordScan(s).1 + t == WordScan(s).1;
    } else {
      var t' := t[..|t| - 1];
      var c := t[|t| - 1];
      assert NoWhitespace(t') by {
        forall i | 0 <= i < |t'| ensures !IsWhitespace(t'[i]) {
          assert t'[i] == t[i];
        }
      }
      assert !IsWhitespace(c);
      WordScanAppendWord(s, t');
      assert (s + t)[..|s + t| - 1] == s + t';
      assert (s + t)[|s + t| - 1] == c;
      assert t' + [c] == t;
      assert (WordScan(s).1 + t') + [c] == WordScan(s).1 + t;
    }
  }

  lemma WordScanSpace(s: string)
    ensures WordScan(s + " ") == (SplitWhitespace(s), [])
  {
    assert (s + " ")[..|s|] == s;
  }

  /** Joining words by single spaces and splitting at whitespace gives the
      words back. */
  lemma {:induction false} SplitJoin(ws: seq<string>)
    requires forall k :: 0 <= k < |ws| ==> IsWord(ws[k])
    ensures SplitWhitespace(Join(ws, " ")) == ws
    decreases |ws|
  {
    if |ws| == 1 {
      WordScanAppendWord([], ws[0]);
      assert [] + ws[0] == ws[0];
    } else if |ws| > 1 {
      var p := ws[..|ws| - 1];
      var t := ws[|ws| - 1];
      SplitJoin(p);
      JoinAppend(p, t, " ");
      assert p + [t] == ws;
      assert IsWord(t);
      WordScanSpace(Join(p, " "));
      WordScanAppendWord(Join(p, " ") + " ", t);
      assert Join(ws, " ") == (Join(p, " ") + " ") + t;
      assert [] + t == t;
      assert WordScan(Join(ws, " ")) == (p, t);
    }
  }

  /** The words of each phrase, in order. */
  function WordsOf(ps: seq<string>): seq<string> {
    if ps == [] then [] else SplitWhitespace(ps[0]) + WordsOf(ps[1..])
  }

  lemma {:induction false} WordsOfAppend(a: seq<string>, b: seq<string>)
    ensures WordsOf(a + b) == WordsOf(a) + WordsOf(b)
  {
    if a == [] {
      assert a + b == b;
    } else {
      assert (a + b)[1..] == a[1..] + b;
      WordsOfAppend(a[1..], b);
    }
  }

  /** The words of the phrases concatenate to the phrases' non-whitespace
      characters. */
  lemma {:induction false} ConcatWordsOf(ps: seq<string>)
    ensures Concat(WordsOf(ps)) == NonWs(Concat(ps))
  {
    if ps != [] {
      ConcatWordsOf(ps[1..]);
      ConcatConcat(SplitWhitespace(ps[0]), WordsOf(ps[1..]));
      SplitWhitespaceWords(ps[0]);
      NonWsConcat(ps[0], Concat(ps[1..]));
    }
  }

  /** `Path::join` on Unix paths: an absolute `rel` replaces the base;
      otherwise the two are joined with one separator. */
  function JoinPath(base: string, rel: string): (r: string)
    ensures rel != [] && rel[0] != '/' ==> |r| >= |base| + |rel| && r[..|base|] == base && r[|r| - |rel|..] == rel
  {
    if rel != [] && rel[0] == '/' then rel
    else if base == [] || base[|base| - 1] == '/' then base + rel
    else base + "/" + rel
  }

  /** `str::split` on a set of separator characters: the pieces between
      separators, empty pieces included. */
  function SplitOn(s: string, seps: set<char>): (pieces: seq<string>)
    ensures |pieces| >= 1
    decreases |s|
  {
    if s == [] then [[]]
    else
      var init := SplitOn(s[..|s| - 1], seps);
      var c := s[|s| - 1];
      if c in seps then init + [[]]
      else init[..|init| - 1] + [init[|init| - 1] + [c]]
  }

  /** No piece contains a separator, and with no separator in the input the
      single piece is the input itself. */
  lemma SplitOnPieces(s: string, seps: set<char>)
    ensures forall p, i :: p in SplitOn(s, seps) && 0 <= i < |p| ==> p[i] !in seps
    ensures (forall i :: 0 <= i < |s| ==> s[i] !in seps) ==> SplitOn(s, seps) == [s]
  {
    SplitOnSeparatorFree(s, seps);
    if forall i :: 0 <= i < |s| ==> s[i] !in seps {
      SplitOnWhole(s, seps);
    }
  }

  lemma {:induction false} SplitOnSeparatorFree(s: string, seps: set<char>)
    ensures forall p, i :: p in SplitOn(s, seps) && 0 <= i < |p| ==> p[i] !in seps
    decreases |s|
  {
    if s != [] {
      var p := s[..|s| - 1];
      SplitOnSeparatorFree(p, seps);
      var init := SplitOn(p, seps);
      var c := s[|s| - 1];
      if c !in seps {
        var last := init[|init| - 1];
        assert last in init;
        assert SplitOn(s, seps) == init[..|init| - 1] + [last + [c]];
        forall q, i | q in SplitOn(s, seps) && 0 <= i < |q| ensures q[i] !in seps {
          if q != last + [c] {
            assert q in init[..|init| - 1];
          }
        }
      }
    }
  }

  /** Putting the pieces of `str::split` back together with `d` between
      them gives the input with every separator replaced by `d`. */
  lemma {:induction false} SplitOnJoin(s: string, seps: set<char>, d: char)
    ensures Join(SplitOn(s, seps), [d]) == ReplaceChars(s, seps, [d])
    decreases |s|
  {
    if s != [] {
      var p, c := s[..|s| - 1], s[|s| - 1];
      SplitOnJoin(p, seps, d);
      JoinSplitStep(SplitOn(p, seps), c, seps, d);
      ReplaceCharsStep(s, seps, [d]);
    }
  }

  /** One more character of the input adds a separator or that character
      to the joined pieces. */
  lemma JoinSplitStep(init: seq<string>, c: char, seps: set<char>, d: char)
    requires init != []
    ensures var k := |init| - 1;
      Join(if c in seps then init + [[]] else init[..k] + [init[k] + [c]], [d])
        == Join(init, [d]) + (if c in seps then [d] else [c])
  {
    var k := |init| - 1;
    if c in seps {
      JoinAppend(init, [], [d]);
    } else if k == 0 {
      assert init[..k] + [init[k] + [c]] == [init[0] + [c]];
    } else {
      assert init == init[..k] + [init[k]];
      JoinAppend(init[..k], init[k], [d]);
      JoinAppend(init[..k], init[k] + [c], [d]);
    }
  }

  lemma {:induction false} SplitOnWhole(s: string, seps: set<char>)
    requires forall i :: 0 <= i < |s| ==> s[i] !in seps
    ensures SplitOn(s, seps) == [s]
    decreases |s|
  {
    if s != [] {
      var p := s[..|s| - 1];
      SplitOnWhole(p, seps);
      assert p + [s[|s| - 1]] == s;
    }
  }

  // ---------------------------------------------------------------------------
  // Searching and replacing
  // ---------------------------------------------------------------------------

  predicate StartsWith(s: string, p: string) {
    |p| <= |s| && s[..|p|] == p
  }

  /** `p` occurs in `s` at character index `k`. */
  predicate OccursAt(s: string, p: string, k: nat) {
    k + |p| <= |s| && s[k..k + |p|] == p
  }

  function FindFrom(s: string, p: string, k: nat): (r: Option<nat>)
    requires k <= |s|
    ensures r.Some? ==> k <= r.value && OccursAt(s, p, r.value)
    ensures r.Some? ==> forall j :: k <= j < r.value ==> !OccursAt(s, p, j)
    ensures r.None? ==> forall j :: k <= j ==> !OccursAt(s, p, j)
    decreases |s| - k
  {
    if OccursAt(s, p, k) then Some(k) else if k == |s| then None else FindFrom(s, p, k + 1)
  }

  /** `str::find`: the character index of the first occurrence of `p`. */
  function Find(s: string, p: string): (r: Option<nat>)
    ensures r.Some? ==> OccursAt(s, p, r.value) && forall j :: 0 <= j < r.value ==> !OccursAt(s, p, j)
    ensures r.None? ==> forall j :: !OccursAt(s, p, j)
  {
    FindFrom(s, p, 0)
  }

  predicate Contains(s: string, p: string) {
    Find(s, p).Some?
  }

  /** `str::replace`: every leftmost non-overlapping occurrence of `pat`
      replaced by `rep`. */
  function Replace(s: string, pat: string, rep: string): string
    requires pat != []
    decreases |s|
  {
    if |s| < |pat| then s
    else if s[..|pat|] == pat then rep + Replace(s[|pat|..], pat, rep)
    else [s[0]] + Replace(s[1..], pat, rep)
  }

  lemma OccursInTail(s: string, p: string, j: nat)
    requires j >= 1 && OccursAt(s, p, j)
    ensures OccursAt(s[1..], p, j - 1)
  {
    assert s[1..][j - 1..j - 1 + |p|] == s[j..j + |p|];
  }

  /** Every character of the result is a character of the input other than
      the replaced one, or a character of the replacement. */
  lemma {:induction false} ReplaceCharContent(s: string, c: char, rep: string)
    ensures forall d :: d in Replace(s, [c], rep) ==> (d in s && d != c) || d in rep
    decreases |s|
  {
    if |s| >= 1 {
      ReplaceCharContent(s[1..], c, rep);
      assert s[..1] == [s[0]];
      forall d | d in s[1..] ensures d in s { }
    }
  }

  /** Replacing by something shorter never lengthens the text, and shortens it
      whenever the pattern occurs. */
  lemma {:induction false} ReplaceShrinks(s: string, pat: string, rep: string)
    requires pat != [] && |rep| < |pat|
    ensures |Replace(s, pat, rep)| <= |s|
    ensures Contains(s, pat) ==> |Replace(s, pat, rep)| < |s|
    decreases |s|
  {
    if |s| >= |pat| {
      if s[..|pat|] == pat {
        ReplaceShrinks(s[|pat|..], pat, rep);
      } else {
        ReplaceShrinks(s[1..], pat, rep);
        if Contains(s, pat) {
          var j := Find(s, pat).value;
          assert j != 0;
          OccursInTail(s, pat, j);
          assert Find(s[1..], pat).Some?;
        }
      }
    }
  }

  /** Text in which the pattern does not occur is left unchanged. */
  lemma {:induction false} ReplaceAbsent(s: string, pat: string, rep: string)
    requires pat != [] && !Contains(s, pat)
    ensures Replace(s, pat, rep) == s
    decreases |s|
  {
    if |s| >= |pat| {
      assert !OccursAt(s, pat, 0);
      assert s[..|pat|] != pat;
      if Contains(s[1..], pat) {
        var j := Find(s[1..], pat).value;
        assert s[j + 1..j + 1 + |pat|] == s[1..][j..j + |pat|];
        assert OccursAt(s, pat, j + 1);
      }
      ReplaceAbsent(s[1..], pat, rep);
    }
  }

  /** Every character of the result is one of the input or of the
      replacement. */
  lemma {:induction false} ReplaceContent(s: string, pat: string, rep: string)
    requires pat != []
    ensures forall d :: d in Replace(s, pat, rep) ==> d in s || d in rep
    decreases |s|
  {
    if |s| >= |pat| {
      if s[..|pat|] == pat {
        ReplaceContent(s[|pat|..], pat, rep);
        forall d | d in s[|pat|..] ensures d in s { }
      } else {
        ReplaceContent(s[1..], pat, rep);
        forall d | d in s[1..] ensures d in s { }
      }
    }
  }

  /** `str::replace` with a set of characters as the pattern: each of them
      becomes `rep`. */
  function ReplaceChars(s: string, cs: set<char>, rep: string): string
    decreases |s|
  {
    if s == [] then [] else (if s[0] in cs then rep else [s[0]]) + ReplaceChars(s[1..], cs, rep)
  }

  lemma {:induction false} ReplaceCharsConcat(a: string, b: string, cs: set<char>, rep: string)
    ensures ReplaceChars(a + b, cs, rep) == ReplaceChars(a, cs, rep) + ReplaceChars(b, cs, rep)
    decreases |a|
  {
    if a == [] {
      assert a + b == b;
    } else {
      assert (a + b)[1..] == a[1..] + b;
      ReplaceCharsConcat(a[1..], b, cs, rep);
    }
  }

  lemma ReplaceCharsStep(s: string, cs: set<char>, rep: string)
    requires s != []
    ensures ReplaceChars(s, cs, rep) == ReplaceChars(s[..|s| - 1], cs, rep) + (if s[|s| - 1] in cs then rep else [s[|s| - 1]])
  {
    var p, c := s[..|s| - 1], s[|s| - 1];
    assert s == p + [c];
    ReplaceCharsConcat(p, [c], cs, rep);
    assert ReplaceChars([c], cs, rep) == (if c in cs then rep else [c]) + ReplaceChars([], cs, rep);
  }

  /** Every character of the result is an unreplaced character of the input
      or a character of the replacement. */
  lemma {:induction false} ReplaceCharsContent(s: string, cs: set<char>, rep: string)
    ensures forall d :: d in ReplaceChars(s, cs, rep) ==> (d in s && d !in cs) || d in rep
    decreases |s|
  {
    if s != [] {
      ReplaceCharsContent(s[1..], cs, rep);
      forall d | d in s[1..] ensures d in s { }
    }
  }

  /** Text without any of the characters is left unchanged. */
  lemma {:induction false} ReplaceCharsAbsent(s: string, cs: set<char>, rep: string)
    requires forall i :: 0 <= i < |s| ==> s[i] !in cs
    ensures ReplaceChars(s, cs, rep) == s
    decreases |s|
  {
    if s != [] {
      ReplaceCharsAbsent(s[1..], cs, rep);
    }
  }

  // ---------------------------------------------------------------------------
  // UTF-8 byte geometry
  // ---------------------------------------------------------------------------

  /** The number of bytes in the UTF-8 encoding of `c` (`char::len_utf8`). */
  function Utf8Len(c: char): nat {
    if c as int < 0x80 then 1 else if c as int < 0x800 then 2 else if c as int < 0x10000 then 3 else 4
  }

  /** The UTF-8 length of a string (`str::len`). */
  function ByteLen(s: string): nat {
    if s == [] then 0 else Utf8Len(s[0]) + ByteLen(s[1..])
  }

  /** The byte position just past `t` when `t` starts at byte position `pos`. */
  function PastEnd(pos: nat, t: string): nat {
    pos + ByteLen(t)
  }

  /** A byte. */
  type Byte = b: int | 0 <= b < 256

  /** The UTF-8 encoding of one character. */
  function EncodeChar(c: char): (r: seq<Byte>)
    ensures |r| == Utf8Len(c)
  {
    var n := c as int;
    if n < 0x80 then [n]
    else if n < 0x800 then [0xC0 + n / 64, 0x80 + n % 64]
    else if n < 0x10000 then [0xE0 + n / 4096, 0x80 + (n / 64) % 64, 0x80 + n % 64]
    else [0xF0 + n / 262144, 0x80 + (n / 4096) % 64, 0x80 + (n / 64) % 64, 0x80 + n % 64]
  }

  /** The UTF-8 encoding of a string (`str::as_bytes`). */
  function Utf8(s: string): (r: seq<Byte>)
    ensures |r| == ByteLen(s)
  {
    if s == [] then [] else EncodeChar(s[0]) + Utf8(s[1..])
  }

  lemma {:induction false} Utf8Concat(a: string, b: string)
    ensures Utf8(a + b) == Utf8(a) + Utf8(b)
  {
    if a == [] {
      assert a + b == b;
    } else {
      assert (a + b)[1..] == a[1..] + b;
      Utf8Concat(a[1..], b);
    }
  }

  /** The byte offset at which character `k` starts. */
  function ByteOffset(s: string, k: nat): nat
    requires k <= |s|
  {
    ByteLen(s[..k])
  }

  predicate IsAscii(s: string) {
    forall i :: 0 <= i < |s| ==> s[i] as int < 0x80
  }

  lemma {:induction false} ByteLenConcat(a: string, b: string)
    ensures ByteLen(a + b) == ByteLen(a) + ByteLen(b)
  {
    if a == [] {
      assert a + b == b;
    } else {
      assert (a + b)[1..] == a[1..] + b;
      ByteLenConcat(a[1..], b);
    }
  }

  lemma AsciiSubrange(s: string, i: nat, j: nat)
    requires IsAscii(s) && i <= j <= |s|
    ensures IsAscii(s[i..j])
  {
    forall k | 0 <= k < j - i ensures s[i..j][k] as int < 0x80 {
      assert s[i..j][k] == s[i + k];
    }
  }

  lemma {:induction false} ByteLenAscii(s: string)
    requires IsAscii(s)
    ensures ByteLen(s) == |s|
  {
    if s != [] {
      ByteLenAscii(s[1..]);
    }
  }

  lemma {:induction false} ByteLenAtLeast(s: string)
    ensures ByteLen(s) >= |s|
  {
    if s != [] {
      ByteLenAtLeast(s[1..]);
    }
  }

  lemma ByteOffsetStep(s: string, k: nat)
    requires k < |s|
    ensures ByteOffset(s, k + 1) == ByteOffset(s, k) + Utf8Len(s[k])
  {
    assert s[..k + 1] == s[..k] + [s[k]];
    ByteLenConcat(s[..k], [s[k]]);
  }

  lemma ByteOffsetEnd(s: string)
    ensures ByteOffset(s, |s|) == ByteLen(s)
  {
    assert s[..|s|] == s;
  }

  /** Byte offsets of character positions strictly increase. */
  lemma ByteOffsetMonotone(s: string, j: nat, k: nat)
    requires j < k <= |s|
    ensures ByteOffset(s, j) < ByteOffset(s, k)
  {
    assert s[..k] == s[..j] + s[j..k];
    ByteLenConcat(s[..j], s[j..k]);
    assert s[j..k] != [];
    assert ByteLen(s[j..k]) >= Utf8Len(s[j..k][0]);
  }

  lemma ByteOffsetSlice(s: string, j: nat, k: nat)
    requires j <= k <= |s|
    ensures ByteOffset(s, k) == ByteOffset(s, j) + ByteLen(s[j..k])
  {
    assert s[..k] == s[..j] + s[j..k];
    ByteLenConcat(s[..j], s[j..k]);
  }

  /** An occurrence of `p` at character position `k` spans `p`'s bytes. */
  lemma OccurrenceBytes(s: string, p: string, k: nat, e: nat)
    requires OccursAt(s, p, k) && e == k + |p|
    ensures e <= |s| && ByteOffset(s, e) == ByteOffset(s, k) + ByteLen(p)
  {
    assert s[k..e] == p;
    ByteOffsetSlice(s, k, e);
  }

  lemma ByteOffsetTail(s: string, k: nat)
    requires 1 <= k <= |s|
    ensures ByteOffset(s, k) == Utf8Len(s[0]) + ByteOffset(s[1..], k - 1)
  {
    assert s[..k][1..] == s[1..][..k - 1];
  }

  /** The character index whose byte offset is `b`, if `b` is a character boundary. */
  function CharIndexOf(s: string, b: nat): (r: Option<nat>)
    ensures r.Some? ==> r.value <= |s|
    decreases |s|
  {
    if b == 0 then Some(0)
    else if s == [] || b < Utf8Len(s[0]) then None
    else match CharIndexOf(s[1..], b - Utf8Len(s[0]))
      case Some(k) => Some(k + 1)
      case None => None
  }

  lemma {:induction false} CharIndexOfSpec(s: string, b: nat)
    ensures CharIndexOf(s, b).Some? ==>
      CharIndexOf(s, b).value <= |s| && ByteOffset(s, CharIndexOf(s, b).value) == b
    ensures CharIndexOf(s, b).None? ==> forall k :: 0 <= k <= |s| ==> ByteOffset(s, k) != b
    decreases |s|
  {
    if b != 0 {
      if s == [] || b < Utf8Len(s[0]) {
        forall k | 0 <= k <= |s| ensures ByteOffset(s, k) != b {
          if k >= 1 { ByteOffsetTail(s, k); }
        }
      } else {
        CharIndexOfSpec(s[1..], b - Utf8Len(s[0]));
        match CharIndexOf(s[1..], b - Utf8Len(s[0])) {
          case Some(k) => ByteOffsetTail(s, k + 1);
          case None =>
            forall k | 0 <= k <= |s| ensures ByteOffset(s, k) != b {
              if k >= 1 { ByteOffsetTail(s, k); }
            }
        }
      }
    }
  }

  /** `str::is_char_boundary`. */
  predicate IsCharBoundary(s: string, b: nat) {
    CharIndexOf(s, b).Some?
  }

  /** A byte offset is a character boundary exactly when some character
      position starts there; the character index is then unique. */
  lemma CharBoundaryIff(s: string, b: nat)
    ensures IsCharBoundary(s, b) <==> exists k :: 0 <= k <= |s| && ByteOffset(s, k) == b
    ensures IsCharBoundary(s, b) ==> forall k :: 0 <= k <= |s| && ByteOffset(s, k) == b ==> k == CharIndexOf(s, b).value
  {
    CharIndexOfSpec(s, b);
    if IsCharBoundary(s, b) {
      var k0 := CharIndexOf(s, b).value;
      forall k | 0 <= k <= |s| && ByteOffset(s, k) == b ensures k == k0 {
        if k < k0 { ByteOffsetMonotone(s, k, k0); }
        if k0 < k { ByteOffsetMonotone(s, k0, k); }
      }
    }
  }

  lemma CharBoundaryAt(s: string, k: nat)
    requires k <= |s|
    ensures IsCharBoundary(s, ByteOffset(s, k)) && CharIndexOf(s, ByteOffset(s, k)) == Some(k)
  {
    CharBoundaryIff(s, ByteOffset(s, k));
  }

  /** `CharBoundaryAt` for a byte position known to be the offset of `k`. */
  lemma BoundaryOf(s: string, k: nat, b: nat)
    requires k <= |s| && b == ByteOffset(s, k)
    ensures IsCharBoundary(s, b)
  {
    CharBoundaryAt(s, k);
  }

  // ---------------------------------------------------------------------------
  // Decimal numbers
  // ---------------------------------------------------------------------------

  const U16_MAX: nat := 0xFFFF
  const U32_MAX: nat := 0xFFFF_FFFF
  const U64_MAX: nat := 0xFFFF_FFFF_FFFF_FFFF

  predicate AllDigits(s: string) {
    forall i :: 0 <= i < |s| ==> IsAsciiDigit(s[i])
  }

  function DigitChar(d: nat): char
    requires d < 10
  {
    ('0' as int + d) as char
  }

  /** Decimal rendering of a natural number (`to_string` of an unsigned integer). */
  function NatToDecimal(n: nat): (r: string)
    ensures r != [] && AllDigits(r)
    decreases n
  {
    if n < 10 then [DigitChar(n)] else NatToDecimal(n / 10) + [DigitChar(n % 10)]
  }

  /** The value of a string of ASCII digits. */
  function DigitsValue(s: string): nat
    requires AllDigits(s)
    decreases |s|
  {
    if s == [] then 0 else DigitsValue(s[..|s| - 1]) * 10 + (s[|s| - 1] as int - '0' as int)
  }

  /** `str::parse` of an unsigned integer whose maximum is `max`: an optional
      '+', then one or more ASCII digits whose value is at most `max`. */
  function ParseUnsigned(s: string, max: nat): (r: Option<nat>)
    ensures r.Some? ==> r.value <= max
  {
    var d := if |s| > 0 && s[0] == '+' then s[1..] else s;
    if d != [] && AllDigits(d) && DigitsValue(d) <= max then Some(DigitsValue(d)) else None
  }

  lemma {:induction false} DigitsValueOfDecimal(n: nat)
    ensures DigitsValue(NatToDecimal(n)) == n
    decreases n
  {
    if n >= 10 {
      DigitsValueOfDecimal(n / 10);
      var r := NatToDecimal(n);
      assert r[..|r| - 1] == NatToDecimal(n / 10);
    }
  }

  /** Parsing the decimal rendering of a value gives the value back. */
  lemma ParseDecimal(n: nat, max: nat)
    requires n <= max
    ensures ParseUnsigned(NatToDecimal(n), max) == Some(n)
  {
    DigitsValueOfDecimal(n);
  }

  /** A string with a character that is neither a digit nor a leading '+' never parses. */
  lemma ParseRejectsNonDigit(s: string, max: nat, i: nat)
    requires i < |s| && !IsAsciiDigit(s[i]) && !(i == 0 && s[i] == '+')
    ensures ParseUnsigned(s, max) == None
  {
    if |s| > 0 && s[0] == '+' {
      assert s[1..][i - 1] == s[i];
    }
  }
}
