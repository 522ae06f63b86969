/** Semantic normalization: currency with a scale word, plain currency and
    percentages rewritten into their spoken forms, in three regex passes.

    The regexes, the float parsing of the amount and the number-to-words
    conversion are outside the model: a regex is a function from a text to
    its matches, and `Speech` carries the conversions as functions of the
    matched amount text. */
module SemanticNormalization {
  import opened Text

  /** One regex match: the matched text is `text[start..end]` (character
      positions); `amount` is capture group 1 and `scale` capture group 2
      (present in the scale pattern only). */
  datatype Capture = Capture(start: nat, end: nat, amount: string, scale: string)

  /** A compiled pattern as `replace_all` and `captures_iter` use it: all
      leftmost non-overlapping matches in a text. */
  type Regex = string -> seq<Capture>

  /** The conversions the passes take from `num2words` and float arithmetic:
      the spoken form of a decimal amount, the whole dollars and the rounded
      cents of an amount, and the spoken form of a whole number. */
  datatype Speech = Speech(
    numberWords: string -> string,
    dollars: string -> nat,
    cents: string -> nat,
    integerWords: nat -> string)

  /** Matches as a regex reports them: non-empty, inside the text, in order
      and without overlap. */
  predicate ValidMatches(text: string, caps: seq<Capture>) {
    (forall i :: 0 <= i < |caps| ==> caps[i].start < caps[i].end <= |text|)
    && (forall i :: 0 <= i < |caps| - 1 ==> caps[i].end <= caps[i + 1].start)
  }

  /** Matches come in text order: each ends before any later one starts. */
  lemma {:induction false} MatchesOrdered(text: string, caps: seq<Capture>)
    requires ValidMatches(text, caps)
    ensures forall i, j :: 0 <= i < j < |caps| ==> caps[i].end <= caps[j].start
    decreases |caps|
  {
    if |caps| > 1 {
      var pre := caps[..|caps| - 1];
      MatchesOrdered(text, pre);
      var n := |caps| - 1;
      forall i | 0 <= i < n ensures caps[i].end <= caps[n].start {
        if i < n - 1 {
          assert pre[i].end <= pre[n - 1].start;
        }
      }
    }
  }

  ghost predicate ValidRegex(re: Regex) {
    forall t :: ValidMatches(t, re(t))
  }

  /** Every match starts at a '$' (the two currency patterns begin with `\$`). */
  ghost predicate DollarAnchored(re: Regex) {
    forall t, i :: 0 <= i < |re(t)| && re(t)[i].start < |t| ==> t[re(t)[i].start] == '$'
  }

  /** Every match ends with a '%' (the percentage pattern ends with `%`). */
  ghost predicate PercentAnchored(re: Regex) {
    forall t, i :: 0 <= i < |re(t)| && 0 < re(t)[i].end <= |t| ==> t[re(t)[i].end - 1] == '%'
  }

  /** `str::parse::<f64>` succeeds on an amount the patterns capture exactly
      when its digits are ASCII digits (`\d` also matches other scripts' digits). */
  predicate ParsesAsNumber(amount: string) {
    amount != [] && forall i :: 0 <= i < |amount| ==> IsAsciiDigit(amount[i]) || amount[i] == '.'
  }

  // ---------------------------------------------------------------------------
  // Spoken forms
  // ---------------------------------------------------------------------------

  /** The scale word of a match, compared lower-cased; one-letter
      abbreviations are expanded and full words pass through lower-cased. */
  function ScaleWord(scale: string): string {
    var s := Lowercase(scale);
    if s == "b" then "billion" else if s == "m" then "million" else if s == "t" then "trillion" else s
  }

  /** Every spelling the scale pattern admits names the scale word with its
      initial letter, whatever its case. */
  lemma ScaleWordSpec(scale: string)
    ensures Lowercase(scale) in {"b", "billion"} ==> ScaleWord(scale) == "billion"
    ensures Lowercase(scale) in {"m", "million"} ==> ScaleWord(scale) == "million"
    ensures Lowercase(scale) in {"t", "trillion"} ==> ScaleWord(scale) == "trillion"
    ensures Lowercase(scale) !in {"b", "m", "t"} ==> ScaleWord(scale) == Lowercase(scale)
  {
  }

  /** "<count words> <unit>", with the unit made plural unless the count is one. */
  function Quantity(count: nat, words: string, unit: string): string {
    words + " " + unit + (if count == 1 then "" else "s")
  }

  /** The dollars-and-cents table as the source writes it. */
  function CurrencyPhraseAsWritten(dollars: nat, cents: nat, dollarWords: string, centWords: string): string {
    if dollars == 0 && cents == 0 then "zero dollars"
    else if dollars == 0 && cents == 1 then centWords + " cent"
    else if dollars == 0 then centWords + " cents"
    else if cents == 0 && dollars == 1 then dollarWords + " dollar"
    else if cents == 0 then dollarWords + " dollars"
    else if cents == 1 then dollarWords + " dollars and " + centWords + " cent"
    else dollarWords + " dollars and " + centWords + " cents"
  }

  /** The dollars-and-cents table with a singular "dollar" for one dollar
      whether or not cents follow. */
  function CurrencyPhrase(dollars: nat, cents: nat, dollarWords: string, centWords: string): string {
    if dollars == 0 && cents == 0 then "zero dollars"
    else if dollars == 0 then Quantity(cents, centWords, "cent")
    else if cents == 0 then Quantity(dollars, dollarWords, "dollar")
    else Quantity(dollars, dollarWords, "dollar") + " and " + Quantity(cents, centWords, "cent")
  }

  /** The table as written agrees with the corrected one everywhere except for
      exactly one dollar with a non-zero number of cents. */
  lemma CurrencyTableAgreement(dollars: nat, cents: nat, dollarWords: string, centWords: string)
    ensures CurrencyPhraseAsWritten(dollars, cents, dollarWords, centWords)
            == CurrencyPhrase(dollars, cents, dollarWords, centWords)
        <==> !(dollars == 1 && cents > 0)
  {
    var w := CurrencyPhraseAsWritten(dollars, cents, dollarWords, centWords);
    var r := CurrencyPhrase(dollars, cents, dollarWords, centWords);
    if dollars == 1 && cents > 0 {
      var k := |dollarWords| + 7;
      assert w[k] == 's' && r[k] == ' ';
    }
  }

  /** The readings the currency tests expect: one dollar, one cent, one
      hundred dollars and one cent, and zero dollars. */
  lemma CurrencyPhraseExamples(w: string, v: string)
    ensures CurrencyPhrase(1, 0, w, v) == w + " dollar"
    ensures CurrencyPhrase(0, 1, w, v) == v + " cent"
    ensures CurrencyPhrase(100, 1, w, v) == w + " dollars and " + v + " cent"
    ensures CurrencyPhrase(0, 0, w, v) == "zero dollars"
  {
  }

  /** One dollar fifty is read as "one dollars and fifty cents" by the table as written. */
  lemma OneDollarFiftyAsWritten()
    ensures CurrencyPhraseAsWritten(1, 50, "one", "fifty") == "one dollars and fifty cents"
  {
  }

  /** The corrected table reads one dollar fifty as "one dollar and fifty cents". */
  lemma OneDollarFifty()
    ensures CurrencyPhrase(1, 50, "one", "fifty") == "one dollar and fifty cents"
  {
  }

  function FormatCurrency(amount: string, sp: Speech): string {
    var d := sp.dollars(amount);
    var c := sp.cents(amount);
    CurrencyPhrase(d, c, sp.integerWords(d), sp.integerWords(c))
  }

  /** Replacement text of a scale-currency match; `matched` is the whole match. */
  function FormatScale(c: Capture, matched: string, sp: Speech): (r: string)
  {
    if !ParsesAsNumber(c.amount) then matched
    else sp.numberWords(c.amount) + " " + ScaleWord(c.scale) + " dollars"
  }

  /** Replacement text of a plain-currency match. */
  function FormatSimple(c: Capture, matched: string, sp: Speech): string {
    if !ParsesAsNumber(c.amount) then matched else FormatCurrency(c.amount, sp)
  }

  /** Replacement text of a percentage match. */
  function FormatPercent(c: Capture, matched: string, sp: Speech): string {
    if !ParsesAsNumber(c.amount) then matched else sp.numberWords(c.amount) + " percent"
  }

  /** The three passes, in the order they run. */
  datatype Pass = ScalePass | SimplePass | PercentPass

  /** Replacement text of a match of pass `p`. */
  function Format(p: Pass, c: Capture, matched: string, sp: Speech): string {
    match p
    case ScalePass => FormatScale(c, matched, sp)
    case SimplePass => FormatSimple(c, matched, sp)
    case PercentPass => FormatPercent(c, matched, sp)
  }

  /** A match whose amount does not parse is left as it was; one that parses
      is read as "<words> <scale> dollars", "<dollars and cents>" or
      "<words> percent". */
  lemma SpokenForms(c: Capture, matched: string, sp: Speech)
    ensures !ParsesAsNumber(c.amount) ==>
      FormatScale(c, matched, sp) == matched && FormatSimple(c, matched, sp) == matched
      && FormatPercent(c, matched, sp) == matched
    ensures ParsesAsNumber(c.amount) ==>
      FormatScale(c, matched, sp) == sp.numberWords(c.amount) + " " + ScaleWord(c.scale) + " dollars"
      && FormatPercent(c, matched, sp) == sp.numberWords(c.amount) + " percent"
      && FormatSimple(c, matched, sp) == FormatCurrency(c.amount, sp)
  {
  }

  // ---------------------------------------------------------------------------
  // The passes
  // ---------------------------------------------------------------------------

  /** `Regex::replace_all` from character position `k`: text outside the
      matches is copied, each match is replaced by its reading under pass `p`. */
  function ReplaceAllFrom(text: string, caps: seq<Capture>, k: nat, p: Pass, sp: Speech): string
    requires ValidMatches(text, caps)
    requires k <= |text| && (caps != [] ==> k <= caps[0].start)
    decreases |caps|
  {
    if caps == [] then text[k..]
    else
      var c := caps[0];
      text[k..c.start] + Format(p, c, text[c.start..c.end], sp) + ReplaceAllFrom(text, caps[1..], c.end, p, sp)
  }

  function ReplaceAll(text: string, caps: seq<Capture>, p: Pass, sp: Speech): string
    requires ValidMatches(text, caps)
  {
    ReplaceAllFrom(text, caps, 0, p, sp)
  }

  /** Scale pass, then plain-currency pass, then percentage pass, each on the
      previous pass's output. */
  function NormalizeSemantic(text: string, scaleRe: Regex, simpleRe: Regex, percentRe: Regex, sp: Speech): string
    requires ValidRegex(scaleRe) && ValidRegex(simpleRe) && ValidRegex(percentRe)
  {
    var a := ReplaceAll(text, scaleRe(text), ScalePass, sp);
    var b := ReplaceAll(a, simpleRe(a), SimplePass, sp);
    ReplaceAll(b, percentRe(b), PercentPass, sp)
  }

  lemma ReplaceNothing(text: string, p: Pass, sp: Speech)
    ensures ReplaceAll(text, [], p, sp) == text
  {
  }

  lemma CharAbsent(t: string, ch: char, k: int)
    requires ch !in t && 0 <= k < |t|
    ensures t[k] != ch
  {
  }

  /** A '$'-anchored pattern finds nothing in a text without '$'. */
  lemma NoDollarNoMatch(re: Regex, t: string)
    requires ValidRegex(re) && DollarAnchored(re) && '$' !in t
    ensures re(t) == []
  {
    if re(t) != [] {
      assert ValidMatches(t, re(t));
      CharAbsent(t, '$', re(t)[0].start);
      assert false;
    }
  }

  /** A '%'-anchored pattern finds nothing in a text without '%'. */
  lemma NoPercentNoMatch(re: Regex, t: string)
    requires ValidRegex(re) && PercentAnchored(re) && '%' !in t
    ensures re(t) == []
  {
    if re(t) != [] {
      assert ValidMatches(t, re(t));
      CharAbsent(t, '%', re(t)[0].end - 1);
      assert false;
    }
  }

  /** Text with neither '$' nor '%' passes through all three passes unchanged. */
  lemma PlainTextUnchanged(text: string, scaleRe: Regex, simpleRe: Regex, percentRe: Regex, sp: Speech)
    requires ValidRegex(scaleRe) && ValidRegex(simpleRe) && ValidRegex(percentRe)
    requires DollarAnchored(scaleRe) && DollarAnchored(simpleRe) && PercentAnchored(percentRe)
    requires '$' !in text && '%' !in text
    ensures NormalizeSemantic(text, scaleRe, simpleRe, percentRe, sp) == text
  {
    NoDollarNoMatch(scaleRe, text);
    NoDollarNoMatch(simpleRe, text);
    NoPercentNoMatch(percentRe, text);
  }

  /** The scale pass runs first: once it has rewritten every '$' and '%' away,
      the later passes leave its output alone. */
  lemma ScalePassFirst(text: string, scaleRe: Regex, simpleRe: Regex, percentRe: Regex, sp: Speech)
    requires ValidRegex(scaleRe) && ValidRegex(simpleRe) && ValidRegex(percentRe)
    requires DollarAnchored(simpleRe) && PercentAnchored(percentRe)
    requires var a := ReplaceAll(text, scaleRe(text), ScalePass, sp); '$' !in a && '%' !in a
    ensures NormalizeSemantic(text, scaleRe, simpleRe, percentRe, sp)
         == ReplaceAll(text, scaleRe(text), ScalePass, sp)
  {
    var a := ReplaceAll(text, scaleRe(text), ScalePass, sp);
    NoDollarNoMatch(simpleRe, a);
    NoPercentNoMatch(percentRe, a);
  }

  /** A single match covering the whole text is replaced by its reading. */
  lemma WholeMatch(text: string, c: Capture, p: Pass, sp: Speech)
    requires c.start == 0 && c.end == |text| > 0
    ensures ValidMatches(text, [c])
    ensures ReplaceAll(text, [c], p, sp) == Format(p, c, text, sp)
  {
    assert [c][1..] == [];
    assert ReplaceAllFrom(text, [], |text|, p, sp) == [];
    assert text[0..0] == [] && text[0..|text|] == text;
  }

  /** A text the scale pattern matches whole, such as "$10.3 billion", is read
      in the scale form ("ten point three billion dollars") and not as a plain
      amount followed by the scale word. */
  lemma ScaleFormWins(text: string, amount: string, scale: string,
                      scaleRe: Regex, simpleRe: Regex, percentRe: Regex, sp: Speech)
    requires ValidRegex(scaleRe) && ValidRegex(simpleRe) && ValidRegex(percentRe)
    requires DollarAnchored(simpleRe) && PercentAnchored(percentRe)
    requires |text| > 0 && scaleRe(text) == [Capture(0, |text|, amount, scale)]
    requires ParsesAsNumber(amount)
    requires var w := sp.numberWords(amount) + " " + ScaleWord(scale); '$' !in w && '%' !in w
    ensures NormalizeSemantic(text, scaleRe, simpleRe, percentRe, sp)
         == sp.numberWords(amount) + " " + ScaleWord(scale) + " dollars"
  {
    WholeMatch(text, Capture(0, |text|, amount, scale), ScalePass, sp);
    var a := ReplaceAll(text, scaleRe(text), ScalePass, sp);
    assert a == sp.numberWords(amount) + " " + ScaleWord(scale) + " dollars";
    ScalePassFirst(text, scaleRe, simpleRe, percentRe, sp);
  }
}
