/** The Hebrew-ratio checks shared by the translator, the prompt builder and
    the style manager, and the 0–100 quality score of a generated post.
    Python's `str.isalpha` is Unicode-table driven; it is the parameter
    `alpha` throughout. */
module Hebrew {
  import opened Base
  import opened Text

  /** A character of the Hebrew block U+0590–U+05FF. */
  predicate IsHebrewChar(c: char) {
    '\U{0590}' <= c <= '\U{05FF}'
  }

  function HebrewCount(s: string): nat {
    CountIf(s, IsHebrewChar)
  }

  function AlphaCount(s: string, alpha: char -> bool): nat {
    CountIf(s, alpha)
  }

  /** The `(is_valid, reason)` pair returned by the validators. */
  datatype Verdict = Verdict(valid: bool, reason: string)

  /** A tie: `h / a` lies exactly halfway between two tenths of a percent. */
  predicate PercentTie(h: nat, a: nat)
    requires a > 0
  {
    (2000 * h + a) % (2 * a) == 0
  }

  /** The ratio is a binary fraction (its reduced denominator divides 16),
      so the double `h / a` and its product by 100 are exact. */
  predicate BinaryRatio(h: nat, a: nat)
    requires a > 0
  {
    (16 * h) % a == 0
  }

  /** The tenths of a percent `{ratio:.1%}` prints for `h / a`: the nearest
      tenth; on a tie whose ratio is a binary fraction the double is exact
      and Python's round-half-even picks the even tenth; any other tie is
      taken upwards. */
  function PercentTenths(h: nat, a: nat): (t: nat)
    requires a > 0
    ensures 2 * a * t <= 2000 * h + a && 2000 * h <= 2 * a * t + a
    ensures PercentTie(h, a) && BinaryRatio(h, a) ==> t % 2 == 0
    ensures PercentTie(h, a) && !BinaryRatio(h, a) ==> 2 * a * t == 2000 * h + a
  {
    var up := (2000 * h + a) / (2 * a);
    TenthsBounds(h, a, up);
    if PercentTie(h, a) && BinaryRatio(h, a) && up % 2 == 1 then up - 1 else up
  }

  /** Half-up rounding of `1000 h / a` lands within half a tenth, and
      exactly half above on a tie. */
  lemma TenthsBounds(h: nat, a: nat, up: nat)
    requires a > 0 && up == (2000 * h + a) / (2 * a)
    ensures 2 * a * up <= 2000 * h + a && 2000 * h + a < 2 * a * up + 2 * a
    ensures PercentTie(h, a) ==> 2 * a * up == 2000 * h + a && up >= 1
  {
    var n, m := 2000 * h + a, 2 * a;
    assert n == m * (n / m) + n % m;
  }

  /** The ratio `h / a` rendered as Python's `{ratio:.1%}`: the integer
      part of the percentage, a point, the tenths digit and `%`. */
  function FormatPercent(h: nat, a: nat): (r: string)
    requires a > 0
    ensures |r| >= 4 && r[|r| - 1] == '%' && r[|r| - 3] == '.'
    ensures var t := PercentTenths(h, a);
      r == NatToString(t / 10) + "." + [DigitChar(t % 10)] + "%"
  {
    var tenths := PercentTenths(h, a);
    NatToString(tenths / 10) + "." + [DigitChar(tenths % 10)] + "%"
  }

  /** Ties on binary fractions go to the even tenth, as Python prints them;
      other ratios to the nearest tenth. */
  lemma FormatPercentExamples()
    ensures FormatPercent(1, 16) == "6.2%"
    ensures FormatPercent(3, 16) == "18.8%"
    ensures FormatPercent(5, 16) == "31.2%"
    ensures FormatPercent(1, 3) == "33.3%"
    ensures FormatPercent(2, 3) == "66.7%"
  {
    assert PercentTenths(1, 16) == 62;
    assert PercentTenths(3, 16) == 188;
    assert PercentTenths(5, 16) == 312;
    assert PercentTenths(1, 3) == 333;
    assert PercentTenths(2, 3) == 667;
  }

  /** Reference definition: `is_hebrew_content(text, min_ratio)` with the
      ratio written as the fraction `num / den`. */
  predicate IsHebrewContent(text: string, alpha: char -> bool, num: int, den: nat)
    requires den > 0
  {
    |text| > 0 && AlphaCount(text, alpha) > 0
    && HebrewCount(text) * den >= num * AlphaCount(text, alpha)
  }

  /** `validate_hebrew_output`: empty, letter-free and mostly non-Hebrew
      outputs are rejected, each with its own reason. */
  function ValidateHebrewOutput(text: string, alpha: char -> bool): (r: Verdict)
    ensures r.valid <==> r.reason == ""
    ensures |text| == 0 ==> r == Verdict(false, "Empty output")
    ensures |text| > 0 && AlphaCount(text, alpha) == 0 ==> r == Verdict(false, "No alphabetic characters")
    ensures !r.valid && |text| > 0 && AlphaCount(text, alpha) > 0 ==>
      StartsWith(r.reason, "Hebrew ratio too low: ")
    ensures !r.valid && |text| > 0 && AlphaCount(text, alpha) > 0 ==>
      r.reason == "Hebrew ratio too low: " + FormatPercent(HebrewCount(text), AlphaCount(text, alpha))
  {
    if |text| == 0 then Verdict(false, "Empty output")
    else
      var h, a := HebrewCount(text), AlphaCount(text, alpha);
      if a == 0 then Verdict(false, "No alphabetic characters")
      else if 2 * h < a then Verdict(false, "Hebrew ratio too low: " + FormatPercent(h, a))
      else Verdict(true, "")
  }

  /** The validator accepts exactly the texts whose Hebrew ratio reaches one half. */
  lemma ValidIffHalfHebrew(text: string, alpha: char -> bool)
    ensures ValidateHebrewOutput(text, alpha).valid <==> IsHebrewContent(text, alpha, 1, 2)
  {
  }

  /** `is_hebrew`: the language detector's verdict wins when it says Hebrew,
      otherwise the Hebrew ratio must exceed one half. */
  predicate IsHebrew(text: string, alpha: char -> bool, detectedHebrew: bool) {
    |text| > 0
    && (detectedHebrew || (AlphaCount(text, alpha) > 0 && 2 * HebrewCount(text) > AlphaCount(text, alpha)))
  }

  /** Without the detector, a text the translator skips as Hebrew always
      passes the output validator, while a text at exactly one half passes
      the validator yet is still sent for translation. */
  lemma IsHebrewStricterThanValid(text: string, alpha: char -> bool)
    ensures IsHebrew(text, alpha, false) ==> ValidateHebrewOutput(text, alpha).valid
    ensures |text| > 0 && AlphaCount(text, alpha) > 0 && 2 * HebrewCount(text) == AlphaCount(text, alpha) ==>
      ValidateHebrewOutput(text, alpha).valid && !IsHebrew(text, alpha, false)
  {
  }

  /** Raising the required ratio can only reject more texts. */
  lemma IsHebrewContentMonotone(text: string, alpha: char -> bool, n1: int, d1: nat, n2: int, d2: nat)
    requires d1 > 0 && d2 > 0 && n1 * d2 <= n2 * d1
    requires IsHebrewContent(text, alpha, n2, d2)
    ensures IsHebrewContent(text, alpha, n1, d1)
  {
    var h, a := HebrewCount(text), AlphaCount(text, alpha);
    MulMonotone(h * d2, n2 * a, d1);
    MulMonotone(n2 * d1, n1 * d2, a);
    MulSwap(h, d2, d1);
    MulSwap(n2, a, d1);
    MulSwap(n1, d2, a);
    MulCancel(h * d1, n1 * a, d2);
  }

  lemma MulSwap(x: int, y: int, z: int)
    ensures (x * y) * z == (x * z) * y
  {
  }

  lemma MulMonotone(x: int, y: int, k: nat)
    requires x >= y
    ensures x * k >= y * k
  {
  }

  lemma MulCancel(x: int, y: int, k: nat)
    requires k > 0 && x * k >= y * k
    ensures x >= y
  {
  }

  /** Two outputs that each pass the validator still pass once concatenated. */
  lemma {:induction false} ValidConcat(s: string, t: string, alpha: char -> bool)
    requires ValidateHebrewOutput(s, alpha).valid && ValidateHebrewOutput(t, alpha).valid
    ensures ValidateHebrewOutput(s + t, alpha).valid
  {
    CountIfAppend(s, t, IsHebrewChar);
    CountIfAppend(s, t, alpha);
  }

  /** The component scores of `score_hebrew_quality`. */
  datatype Quality = Quality(total: int, hebrewRatio: int, length: int, structure: int)

  predicate IsEmoji(c: char) {
    c as int > 0x1F000
  }

  predicate IsMarkdownChar(c: char) {
    c == '*' || c == '_' || c == '#' || c == '`' || c == '[' || c == ']'
  }

  /** The ending characters as the source file spells them: the intended
      ellipsis U+2026 was stored as the three characters U+00E2 U+20AC
      U+00A6 (its UTF-8 bytes read as Windows-1252). */
  predicate EndingAsWritten(c: char) {
    c == '.' || c == '!' || c == '?' || c == '\U{00E2}' || c == '\U{20AC}' || c == '\U{00A6}'
  }

  /** The intended ending characters: period, exclamation and question
      marks and the ellipsis. */
  predicate Ending(c: char) {
    c == '.' || c == '!' || c == '?' || c == '\U{2026}'
  }

  function RatioScore(h: nat, a: nat): (r: int)
    ensures r in {0, 20, 35, 50}
    ensures r > 0 <==> a > 0 && 2 * h >= a
  {
    if a == 0 then 0
    else if 5 * h >= 4 * a then 50
    else if 5 * h >= 3 * a then 35
    else if 2 * h >= a then 20
    else 0
  }

  function LengthScore(n: nat): (r: int)
    ensures r in {5, 15, 25}
    ensures r == 25 <==> 100 <= n <= 280
  {
    if 100 <= n <= 280 then 25
    else if (50 <= n < 100) || (280 < n <= 500) then 15
    else 5
  }

  function StructureScore(text: string, ending: char -> bool): (r: int)
    ensures 0 <= r <= 25
  {
    var stripped := RStrip(text);
    var endPoints :=
      if |stripped| > 0 && (ending(stripped[|stripped| - 1]) || IsEmoji(stripped[|stripped| - 1])) then 10 else 0;
    var emojiPoints := if CountIf(text, IsEmoji) <= 3 then 10 else 0;
    var markdownPoints := if CountIf(text, IsMarkdownChar) == 0 then 5 else 0;
    endPoints + emojiPoints + markdownPoints
  }

  function ScoreWith(text: string, alpha: char -> bool, ending: char -> bool): (r: Quality)
    ensures |text| == 0 ==> r == Quality(0, 0, 0, 0)
    ensures |text| > 0 ==> r.total == r.hebrewRatio + r.length + r.structure && 5 <= r.total <= 100
    ensures |text| > 0 ==> (r.hebrewRatio > 0 <==> ValidateHebrewOutput(text, alpha).valid)
  {
    if |text| == 0 then Quality(0, 0, 0, 0)
    else
      var rs := RatioScore(HebrewCount(text), AlphaCount(text, alpha));
      var ls := LengthScore(|text|);
      var ss := StructureScore(text, ending);
      Quality(rs + ls + ss, rs, ls, ss)
  }

  /** `score_hebrew_quality` exactly as the source spells its ending set. */
  function ScoreHebrewQualityAsWritten(text: string, alpha: char -> bool): (r: Quality)
    ensures |text| > 0 ==> 5 <= r.total <= 100
  {
    ScoreWith(text, alpha, EndingAsWritten)
  }

  /** `score_hebrew_quality` with the intended ending set. */
  function ScoreHebrewQuality(text: string, alpha: char -> bool): (r: Quality)
    ensures |text| == 0 ==> r == Quality(0, 0, 0, 0)
    ensures |text| > 0 ==> r.total == r.hebrewRatio + r.length + r.structure && 5 <= r.total <= 100
    ensures |text| > 0 ==> (r.hebrewRatio > 0 <==> ValidateHebrewOutput(text, alpha).valid)
  {
    ScoreWith(text, alpha, Ending)
  }

  /** The structure score of a text ending in a visible, non-emoji,
      non-markdown character depends on its last character only through
      the ending set. */
  lemma StructureOfLast(body: string, last: char, ending: char -> bool)
    requires CountIf(body, IsEmoji) <= 3 && CountIf(body, IsMarkdownChar) == 0
    requires !IsSpace(last) && !IsEmoji(last) && !IsMarkdownChar(last)
    ensures StructureScore(body + [last], ending) == (if ending(last) then 25 else 15)
  {
    CountIfAppend(body, [last], IsEmoji);
    CountIfAppend(body, [last], IsMarkdownChar);
    assert RStrip(body + [last]) == body + [last];
  }

  /** Where the misspelt ending set matters: a post ending in an ellipsis
      loses the ten ending points, while one ending in a euro sign earns them. */
  lemma EllipsisEndingMisscored(body: string, alpha: char -> bool)
    requires CountIf(body, IsEmoji) <= 3 && CountIf(body, IsMarkdownChar) == 0
    ensures ScoreHebrewQualityAsWritten(body + "\U{2026}", alpha).structure == 15
    ensures ScoreHebrewQuality(body + "\U{2026}", alpha).structure == 25
    ensures ScoreHebrewQualityAsWritten(body + "\U{20AC}", alpha).structure == 25
    ensures ScoreHebrewQuality(body + "\U{20AC}", alpha).structure == 15
  {
    StructureOfLast(body, '\U{2026}', EndingAsWritten);
    StructureOfLast(body, '\U{2026}', Ending);
    StructureOfLast(body, '\U{20AC}', EndingAsWritten);
    StructureOfLast(body, '\U{20AC}', Ending);
  }
}
