/**
 * `TableParser._parse_amount`: recognises a monetary amount in a table cell
 * and returns its exact decimal value, negative for accounting parentheses or
 * a leading minus, or no value at all.
 */
module AmountParser {
  import opened Wrappers
  import opened Strings

  // ---------------------------------------------------------------------------
  // The tests on the stripped cell text

  predicate IsCurrencySymbol(c: char) {
    c == '$' || c == '\U{20AC}' || c == '\U{A3}' || c == '\U{A5}'
  }

  /** `re.search(r'[a-zA-Z]', s)` */
  predicate HasAsciiLetter(s: string) {
    exists i | 0 <= i < |s| :: IsAsciiLetter(s[i])
  }

  /** `re.search(r'[$€£¥]', s)` */
  predicate HasCurrency(s: string) {
    exists i | 0 <= i < |s| :: IsCurrencySymbol(s[i])
  }

  /** `',' in s` */
  predicate HasSeparator(s: string) {
    exists i | 0 <= i < |s| :: s[i] == ','
  }

  /**
   * `re.match(r'.*\.\d{2}$', s)` on a stripped `s`: a '.' and two digits end
   * the text, and no line break comes before them (`.` does not match one).
   */
  predicate HasCentsSuffix(s: string) {
    && |s| >= 3
    && s[|s| - 3] == '.' && IsDigit(s[|s| - 2]) && IsDigit(s[|s| - 1])
    && forall i | 0 <= i < |s| - 3 :: s[i] != '\n'
  }

  /** One of the three signs that a small number is still money. */
  predicate MonetaryHint(s: string) {
    HasCurrency(s) || HasSeparator(s) || HasCentsSuffix(s)
  }

  // ---------------------------------------------------------------------------
  // Stripping to digits and '.', and reading the result as a decimal

  predicate IsNumericChar(c: char) { IsDigit(c) || c == '.' }

  predicate AllNumeric(s: string) {
    forall i :: 0 <= i < |s| ==> IsNumericChar(s[i])
  }

  /** `re.sub(r'[^\d.]', '', s)` */
  function KeepNumeric(s: string): (r: string)
    ensures AllNumeric(r) && |r| <= |s|
  {
    if s == [] then []
    else (if IsNumericChar(s[0]) then [s[0]] else []) + KeepNumeric(s[1..])
  }

  /** Splits at the first '.': the digits before it and, if there is one, the text after it. */
  function SplitAtDot(c: string): (r: (string, Option<string>))
    requires AllNumeric(c)
    ensures AllDigits(r.0)
    ensures r.1.None? ==> r.0 == c
    ensures r.1.Some? ==> c == r.0 + "." + r.1.value && AllNumeric(r.1.value)
  {
    if c == [] then ("", None)
    else if c[0] == '.' then ("", Some(c[1..]))
    else
      var rest := SplitAtDot(c[1..]);
      assert rest.1.Some? ==> c == [c[0]] + rest.0 + "." + rest.1.value;
      ([c[0]] + rest.0, rest.1)
  }

  /**
   * `Decimal(c)` for a text of digits and dots: exact when the text has at
   * most one '.' and at least one digit, otherwise the `InvalidOperation`
   * that `_parse_amount` turns into `None`.
   */
  function DecimalOf(c: string): (r: Option<real>)
    requires AllNumeric(c)
    ensures r.Some? ==> r.value >= 0.0
  {
    var (whole, frac) := SplitAtDot(c);
    match frac
    case None => if whole == "" then None else Some(DigitsValue(whole) as real)
    case Some(f) =>
      if !AllDigits(f) || (whole == "" && f == "") then None
      else Some(DigitsValue(whole) as real + DigitsValue(f) as real / Pow10(|f|) as real)
  }

  // ---------------------------------------------------------------------------
  // The parser

  /** Python's `s[1:-1]`. */
  function Inner(s: string): string {
    if |s| >= 2 then s[1..|s| - 1] else ""
  }

  predicate WrappedInParens(s: string) {
    |s| >= 1 && s[0] == '(' && s[|s| - 1] == ')'
  }

  /** The stripped text without its wrapping parentheses and then without a leading '-'. */
  function UnsignedPart(original: string): string {
    var inner := if WrappedInParens(original) then Inner(original) else original;
    if |inner| > 0 && inner[0] == '-' then inner[1..] else inner
  }

  /** Whether the parentheses or a leading '-' make the amount negative. */
  predicate IsNegative(original: string) {
    var inner := if WrappedInParens(original) then Inner(original) else original;
    WrappedInParens(original) || (|inner| > 0 && inner[0] == '-')
  }

  /** `_parse_amount(text)` */
  function ParseAmount(text: string): (r: Option<real>)
    ensures text == "" ==> r == None
    ensures HasAsciiLetter(Strip(text)) ==> r == None
    ensures r.Some? ==> r.value <= -100.0 || r.value >= 100.0 || MonetaryHint(Strip(text))
  {
    if text == "" then None else ParseStripped(Strip(text))
  }

  /** Everything `_parse_amount` does after `amount_str.strip()`. */
  function ParseStripped(original: string): (r: Option<real>)
    ensures HasAsciiLetter(original) ==> r == None
    ensures r.Some? ==> r.value <= -100.0 || r.value >= 100.0 || MonetaryHint(original)
  {
    if HasAsciiLetter(original) then None
    else
      var cleaned := KeepNumeric(UnsignedPart(original));
      if cleaned == "" then None
      else
        match DecimalOf(cleaned)
        case None => None
        case Some(m) =>
          if m < 100.0 && !MonetaryHint(original) then None
          else Some(if IsNegative(original) then -m else m)
  }

  // ---------------------------------------------------------------------------
  // Facts about the helpers

  lemma {:induction false} KeepNumericAppend(a: string, b: string)
    ensures KeepNumeric(a + b) == KeepNumeric(a) + KeepNumeric(b)
  {
    if a == [] {
      assert a + b == b;
    } else {
      var head: string := if IsNumericChar(a[0]) then [a[0]] else [];
      assert (a + b)[0] == a[0] && (a + b)[1..] == a[1..] + b;
      assert KeepNumeric(a + b) == head + KeepNumeric(a[1..] + b);
      KeepNumericAppend(a[1..], b);
      AppendAssociates(head, KeepNumeric(a[1..]), KeepNumeric(b));
    }
  }

  lemma {:induction false} KeepNumericOfNumeric(s: string)
    requires AllNumeric(s)
    ensures KeepNumeric(s) == s
  {
    if s != [] {
      KeepNumericOfNumeric(s[1..]);
    }
  }

  lemma {:induction false} KeepNumericOfNonNumeric(s: string)
    requires forall i :: 0 <= i < |s| ==> !IsNumericChar(s[i])
    ensures KeepNumeric(s) == ""
  {
    if s != [] {
      KeepNumericOfNonNumeric(s[1..]);
    }
  }

  /** `KeepNumeric` keeps every digit and every dot. */
  lemma {:induction false} KeepNumericCount(s: string, p: char -> bool)
    requires forall c :: p(c) ==> IsNumericChar(c)
    ensures CountWhere(KeepNumeric(s), p) == CountWhere(s, p)
  {
    if s != [] {
      var head: string := if IsNumericChar(s[0]) then [s[0]] else [];
      CountWhereAppend(head, KeepNumeric(s[1..]), p);
      KeepNumericCount(s[1..], p);
    }
  }

  predicate IsDot(c: char) { c == '.' }

  /** A text of digits and dots with two dots is not a decimal. */
  lemma DecimalOfTwoDots(c: string)
    requires AllNumeric(c) && CountWhere(c, IsDot) >= 2
    ensures DecimalOf(c) == None
  {
    var sp := SplitAtDot(c);
    CountWhereNone(sp.0, IsDot);
    if sp.1.Some? {
      var f := sp.1.value;
      CountWhereAppend(sp.0 + ".", f, IsDot);
      CountWhereAppend(sp.0, ".", IsDot);
      if AllDigits(f) {
        CountWhereNone(f, IsDot);
      }
    }
  }

  lemma DigitsWithoutDigit(s: string)
    requires AllDigits(s) && CountWhere(s, IsDigit) == 0
    ensures s == ""
  {
  }

  /** A text of digits and dots without a digit is not a decimal. */
  lemma DecimalOfNoDigit(c: string)
    requires AllNumeric(c) && CountWhere(c, IsDigit) == 0
    ensures DecimalOf(c) == None
  {
    var sp := SplitAtDot(c);
    if sp.1.Some? {
      var f := sp.1.value;
      CountWhereAppend(sp.0 + ".", f, IsDigit);
      CountWhereAppend(sp.0, ".", IsDigit);
      DigitsWithoutDigit(sp.0);
      if AllDigits(f) {
        DigitsWithoutDigit(f);
      }
    } else {
      DigitsWithoutDigit(sp.0);
    }
  }

  /** Taking off the parentheses and the minus sign removes no digit and no dot. */
  lemma UnsignedPartCount(original: string, p: char -> bool)
    requires !p('(') && !p(')') && !p('-')
    ensures CountWhere(UnsignedPart(original), p) == CountWhere(original, p)
  {
    var inner := if WrappedInParens(original) then Inner(original) else original;
    if WrappedInParens(original) {
      if |original| >= 2 {
        assert original == [original[0]] + inner + [original[|original| - 1]];
        CountWhereAppend([original[0]] + inner, [original[|original| - 1]], p);
        CountWhereAppend([original[0]], inner, p);
      }
    }
    if |inner| > 0 && inner[0] == '-' {
      assert inner == [inner[0]] + inner[1..];
      CountWhereAppend([inner[0]], inner[1..], p);
    }
  }

  lemma HasAsciiLetterStrip(text: string)
    ensures HasAsciiLetter(Strip(text)) <==> HasAsciiLetter(text)
  {
    if HasAsciiLetter(text) {
      LetterSurvivesStrip(text);
    }
    if HasAsciiLetter(Strip(text)) {
      LetterComesFromText(text);
    }
  }

  lemma LetterSurvivesStrip(text: string)
    requires HasAsciiLetter(text)
    ensures HasAsciiLetter(Strip(text))
  {
    var i :| 0 <= i < |text| && IsAsciiLetter(text[i]);
    var a := StripKeeps(text, i);
    assert IsAsciiLetter(Strip(text)[i - a]);
  }

  lemma LetterComesFromText(text: string)
    requires HasAsciiLetter(Strip(text))
    ensures HasAsciiLetter(text)
  {
    var r := Strip(text);
    var a := StripInfix(text);
    var i :| 0 <= i < |r| && IsAsciiLetter(r[i]);
    assert text[a + i] == r[i];
  }

  // ---------------------------------------------------------------------------
  // Properties of the parser

  /**
   * The parser strips its input first, so surrounding whitespace never
   * matters: the capital-call parser passes raw cells and the other two
   * parsers pass stripped ones, and both see the same amounts.
   */
  lemma ParseAmountIgnoresPadding(text: string)
    ensures ParseAmount(Strip(text)) == ParseAmount(text)
  {
    StripIdempotent(text);
    var t := Strip(text);
    if t == "" {
      assert KeepNumeric(UnsignedPart(t)) == "";
      assert ParseStripped(t) == None;
    } else {
      assert ParseAmount(t) == ParseStripped(t);
      assert ParseAmount(text) == ParseStripped(t);
    }
  }

  /** A cell with a letter anywhere in it is never an amount ("Call 1", "Contribution"). */
  lemma ParseAmountRejectsLetters(text: string)
    requires HasAsciiLetter(text)
    ensures ParseAmount(text) == None
  {
    HasAsciiLetterStrip(text);
  }

  lemma ParseStrippedNeedsDigit(original: string)
    requires CountWhere(original, IsDigit) == 0
    ensures ParseStripped(original) == None
  {
    var u := UnsignedPart(original);
    UnsignedPartCount(original, IsDigit);
    KeepNumericCount(u, IsDigit);
    var cleaned := KeepNumeric(u);
    if cleaned != "" {
      DecimalOfNoDigit(cleaned);
    }
  }

  lemma ParseStrippedRejectsTwoDots(original: string)
    requires CountWhere(original, IsDot) >= 2
    ensures ParseStripped(original) == None
  {
    var u := UnsignedPart(original);
    UnsignedPartCount(original, IsDot);
    KeepNumericCount(u, IsDot);
    var cleaned := KeepNumeric(u);
    if cleaned != "" {
      DecimalOfTwoDots(cleaned);
    }
  }

  lemma DotSpaceBlind()
    ensures SpaceBlind(IsDot)
  {
    forall c | IsSpace(c) ensures !IsDot(c) { }
  }

  lemma DigitsSpaceBlind()
    ensures SpaceBlind(IsDigit)
  {
    forall c | IsSpace(c) ensures !IsDigit(c) { }
  }

  /** A cell with no digit is never an amount: nothing is left, or only dots such as a lone ".". */
  lemma ParseAmountNeedsDigit(text: string)
    requires CountWhere(text, IsDigit) == 0
    ensures ParseAmount(text) == None
  {
    if text != "" {
      DigitsSpaceBlind();
      CountWhereStrip(text, IsDigit);
      var original := Strip(text);
      assert CountWhere(original, IsDigit) == 0;
      ParseStrippedNeedsDigit(original);
    }
  }

  /** A cell with two decimal points is never an amount. */
  lemma ParseAmountRejectsTwoDots(text: string)
    requires CountWhere(text, IsDot) >= 2
    ensures ParseAmount(text) == None
  {
    if text != "" {
      DotSpaceBlind();
      CountWhereStrip(text, IsDot);
      ParseStrippedRejectsTwoDots(Strip(text));
    }
  }

  // ---------------------------------------------------------------------------
  // Reading numbers back

  /** A text of digits only has no '.', so all of it is before the point. */
  lemma {:induction false} SplitAtDotOfDigits(d: string)
    requires AllDigits(d)
    ensures SplitAtDot(d) == (d, None)
  {
    if d != [] {
      assert AllDigits(d[1..]);
      SplitAtDotOfDigits(d[1..]);
      assert [d[0]] + d[1..] == d;
    }
  }

  /** Splitting digits, a point and more text finds the point after the digits. */
  lemma {:induction false} SplitAtDotAfterDigits(w: string, rest: string)
    requires AllDigits(w) && AllNumeric(rest) && AllNumeric(w + "." + rest)
    ensures SplitAtDot(w + "." + rest) == (w, Some(rest))
  {
    var c := w + "." + rest;
    if w == [] {
      assert c == "." + rest && c[1..] == rest;
    } else {
      assert c[1..] == w[1..] + "." + rest;
      assert AllDigits(w[1..]);
      SplitAtDotAfterDigits(w[1..], rest);
      assert [w[0]] + w[1..] == w;
    }
  }

  lemma NumericAround(w: string, rest: string)
    requires AllDigits(w) && AllDigits(rest)
    ensures AllNumeric(w + "." + rest)
  {
    var c := w + "." + rest;
    forall i | 0 <= i < |c| ensures IsNumericChar(c[i]) {
      if i < |w| { assert c[i] == w[i]; } else if i > |w| { assert c[i] == rest[i - |w| - 1]; }
    }
  }

  /** `Decimal(d)` for a text of digits is the number they denote. */
  lemma DecimalOfDigits(d: string)
    requires AllDigits(d) && d != []
    ensures AllNumeric(d) && DecimalOf(d) == Some(DigitsValue(d) as real)
  {
    SplitAtDotOfDigits(d);
  }

  /** `Decimal(w + "." + cents)` is `w` and `cents` hundredths. */
  lemma DecimalOfCents(w: string, cents: string)
    requires AllDigits(w) && AllDigits(cents) && |cents| == 2
    ensures AllNumeric(w + "." + cents)
    ensures DecimalOf(w + "." + cents) == Some(DigitsValue(w) as real + DigitsValue(cents) as real / 100.0)
  {
    NumericAround(w, cents);
    SplitAtDotAfterDigits(w, cents);
    assert Pow10(2) == 100;
  }

  /** A stripped text without letters whose unsigned part reads as the decimal `m`: `m`, signed, unless it is too small. */
  lemma ReadsAs(original: string, m: real)
    requires !HasAsciiLetter(original) && AllNumeric(UnsignedPart(original)) && UnsignedPart(original) != ""
    requires DecimalOf(UnsignedPart(original)) == Some(m)
    ensures ParseStripped(original)
         == if m < 100.0 && !MonetaryHint(original) then None else Some(if IsNegative(original) then -m else m)
  {
    KeepNumericOfNumeric(UnsignedPart(original));
  }

  /** Text made of digits, points, minus signs and parentheses only. */
  predicate SignedNumeral(s: string) {
    forall i :: 0 <= i < |s| ==> IsNumericChar(s[i]) || s[i] == '-' || s[i] == '(' || s[i] == ')'
  }

  /** Such text has nothing to strip, no letter, no currency symbol and no separator. */
  lemma SignedNumeralPlain(s: string)
    requires SignedNumeral(s)
    ensures Strip(s) == s && !HasAsciiLetter(s) && !HasCurrency(s) && !HasSeparator(s)
  {
    if s != [] {
      assert !IsSpace(s[0]) && !IsSpace(s[|s| - 1]);
      StripOfSpaceFree(s);
    }
  }

  lemma ParenthesisedNumeral(s: string)
    requires AllNumeric(s)
    ensures SignedNumeral("(" + s + ")")
  {
    var t := "(" + s + ")";
    forall i | 0 < i < |t| - 1 ensures IsNumericChar(t[i]) {
      assert t[i] == s[i - 1];
    }
  }

  /** Text of digits ends in a digit, so it has no cents suffix. */
  lemma DigitsNoCents(d: string)
    requires AllDigits(d)
    ensures !HasCentsSuffix(d)
  {
    if |d| >= 3 {
      assert IsDigit(d[|d| - 3]);
    }
  }

  /** A numeral without a cents suffix reads as its unsigned value, signed, once that is 100 or more. */
  lemma PlainNumeralReads(x: string, m: real, negative: bool)
    requires x != [] && SignedNumeral(x) && !HasCentsSuffix(x) && IsNegative(x) == negative
    requires AllNumeric(UnsignedPart(x)) && UnsignedPart(x) != "" && DecimalOf(UnsignedPart(x)) == Some(m)
    ensures ParseAmount(x) == if m < 100.0 then None else Some(if negative then -m else m)
  {
    SignedNumeralPlain(x);
    ReadsAs(x, m);
  }

  /** Digits alone read as their value once it is 100 or more. */
  lemma ParseUnsigned(d: string, m: real)
    requires AllDigits(d) && d != [] && DecimalOf(d) == Some(m)
    ensures ParseAmount(d) == if m < 100.0 then None else Some(m)
  {
    DigitsNoCents(d);
    assert UnsignedPart(d) == d && !IsNegative(d);
    PlainNumeralReads(d, m, false);
  }

  /** What `_parse_amount` sees of a minus sign before digits. */
  lemma MinusDigitsShape(d: string)
    requires AllDigits(d) && d != []
    ensures SignedNumeral("-" + d) && !HasCentsSuffix("-" + d)
    ensures UnsignedPart("-" + d) == d && IsNegative("-" + d)
  {
    var minus := "-" + d;
    assert minus[1..] == d && !WrappedInParens(minus);
    forall i | 0 < i < |minus| ensures IsDigit(minus[i]) {
      assert minus[i] == d[i - 1];
    }
  }

  /** What `_parse_amount` sees of digits in parentheses. */
  lemma ParenthesisedDigitsShape(d: string)
    requires AllDigits(d) && d != []
    ensures SignedNumeral("(" + d + ")") && !HasCentsSuffix("(" + d + ")")
    ensures UnsignedPart("(" + d + ")") == d && IsNegative("(" + d + ")")
  {
    var parens := "(" + d + ")";
    assert Inner(parens) == d && WrappedInParens(parens) && d[0] != '-';
    ParenthesisedNumeral(d);
  }

  /** A leading '-' negates digits. */
  lemma ParseMinus(d: string, m: real)
    requires AllDigits(d) && d != [] && DecimalOf(d) == Some(m)
    ensures ParseAmount("-" + d) == if m < 100.0 then None else Some(-m)
  {
    MinusDigitsShape(d);
    PlainNumeralReads("-" + d, m, true);
  }

  /** Accounting parentheses negate digits. */
  lemma ParseParenthesised(d: string, m: real)
    requires AllDigits(d) && d != [] && DecimalOf(d) == Some(m)
    ensures ParseAmount("(" + d + ")") == if m < 100.0 then None else Some(-m)
  {
    ParenthesisedDigitsShape(d);
    PlainNumeralReads("(" + d + ")", m, true);
  }

  /** `Decimal(str(n))` is `n`. */
  lemma DecimalOfWhole(n: nat)
    ensures DecimalOf(NatToString(n)) == Some(n as real)
  {
    NatToStringRoundTrip(n);
    DecimalOfDigits(NatToString(n));
  }

  /**
   * A whole number as `str(n)` writes it reads back as itself once it is 100
   * or more, and is rejected below that ("Call 1" must not become 1).
   */
  lemma ParseWholeNumber(n: nat)
    ensures ParseAmount(NatToString(n)) == if n < 100 then None else Some(n as real)
  {
    var d := NatToString(n);
    var m := n as real;
    DecimalOfWhole(n);
    NatToStringRoundTrip(n);
    ParseUnsigned(d, m);
  }

  /** What `_parse_amount` sees of digits, a point and two digits. */
  lemma CentsShape(w: string, cents: string)
    requires AllDigits(w) && AllDigits(cents) && |cents| == 2
    ensures SignedNumeral(w + "." + cents) && HasCentsSuffix(w + "." + cents)
    ensures UnsignedPart(w + "." + cents) == w + "." + cents && AllNumeric(w + "." + cents)
    ensures !IsNegative(w + "." + cents)
  {
    var plain := w + "." + cents;
    NumericAround(w, cents);
    assert plain[|plain| - 3] == '.' && plain[|plain| - 2] == cents[0] && plain[|plain| - 1] == cents[1];
    assert plain[0] == if w == [] then '.' else w[0];
  }

  /** What `_parse_amount` sees of digits, a point and two digits in parentheses. */
  lemma ParenthesisedCentsShape(w: string, cents: string)
    requires AllDigits(w) && AllDigits(cents) && |cents| == 2
    ensures SignedNumeral("(" + (w + "." + cents) + ")") && !HasCentsSuffix("(" + (w + "." + cents) + ")")
    ensures UnsignedPart("(" + (w + "." + cents) + ")") == w + "." + cents && IsNegative("(" + (w + "." + cents) + ")")
    ensures AllNumeric(w + "." + cents)
  {
    var plain := w + "." + cents;
    var parens := "(" + plain + ")";
    NumericAround(w, cents);
    assert plain[0] == if w == [] then '.' else w[0];
    assert Inner(parens) == plain;
    ParenthesisedNumeral(plain);
  }

  /** A numeral with a cents suffix reads as its unsigned value, signed, whatever its size. */
  lemma HintedNumeralReads(x: string, m: real, negative: bool)
    requires x != [] && SignedNumeral(x) && HasCentsSuffix(x) && IsNegative(x) == negative
    requires AllNumeric(UnsignedPart(x)) && UnsignedPart(x) != "" && DecimalOf(UnsignedPart(x)) == Some(m)
    ensures ParseAmount(x) == Some(if negative then -m else m)
  {
    SignedNumeralPlain(x);
    ReadsAs(x, m);
  }

  lemma CentsReads(w: string, cents: string, m: real)
    requires AllDigits(w) && AllDigits(cents) && |cents| == 2 && DecimalOf(w + "." + cents) == Some(m)
    ensures ParseAmount(w + "." + cents) == Some(m)
  {
    CentsShape(w, cents);
    HintedNumeralReads(w + "." + cents, m, false);
  }

  /**
   * The two-digit cents test looks at the text with its parentheses, so an
   * amount below 100 written with cents ("50.00" is 50) is no amount in
   * accounting parentheses ("(50.00)").
   */
  lemma CentsHintSeesParentheses(w: string, cents: string, m: real)
    requires AllDigits(w) && AllDigits(cents) && |cents| == 2 && DecimalOf(w + "." + cents) == Some(m)
    requires m < 100.0
    ensures ParseAmount("(" + (w + "." + cents) + ")") == None
  {
    ParenthesisedCentsShape(w, cents);
    PlainNumeralReads("(" + (w + "." + cents) + ")", m, true);
  }

  /** An amount written with cents is read with them, whatever its size. */
  lemma ParseCents(w: string, cents: string)
    requires AllDigits(w) && AllDigits(cents) && |cents| == 2
    ensures ParseAmount(w + "." + cents) == Some(DigitsValue(w) as real + DigitsValue(cents) as real / 100.0)
  {
    var m := DigitsValue(w) as real + DigitsValue(cents) as real / 100.0;
    DecimalOfCents(w, cents);
    CentsReads(w, cents, m);
  }

  // ---------------------------------------------------------------------------
  // Currency symbols and separators

  /** A character that may appear in a written amount. */
  predicate IsMoneyChar(c: char) {
    IsNumericChar(c) || c == '-' || c == '(' || c == ')' || c == ',' || IsCurrencySymbol(c)
  }

  predicate MoneyNumeral(s: string) {
    forall i :: 0 <= i < |s| ==> IsMoneyChar(s[i])
  }

  /**
   * A written amount with a currency symbol or a separator is read whatever its
   * size: the value of the digits and point left once the sign, the symbols
   * and the commas are gone, negated for parentheses or a minus sign.
   */
  lemma DecoratedReads(x: string, m: real, negative: bool)
    requires x != [] && MoneyNumeral(x) && (HasCurrency(x) || HasSeparator(x)) && IsNegative(x) == negative
    requires KeepNumeric(UnsignedPart(x)) != "" && DecimalOf(KeepNumeric(UnsignedPart(x))) == Some(m)
    ensures ParseAmount(x) == Some(if negative then -m else m)
  {
    MoneyNumeralPlain(x);
    KeptReads(x, m);
  }

  /**
   * A stripped text without letters whose kept digits and point read as `m`:
   * `m`, signed, unless it is too small. This only unfolds `ParseStripped`
   * once, as a step for the lemmas above.
   */
  lemma KeptReads(original: string, m: real)
    requires !HasAsciiLetter(original) && KeepNumeric(UnsignedPart(original)) != ""
    requires DecimalOf(KeepNumeric(UnsignedPart(original))) == Some(m)
    ensures ParseStripped(original)
         == if m < 100.0 && !MonetaryHint(original) then None else Some(if IsNegative(original) then -m else m)
  {
  }

  /** Such text has nothing to strip and no letter. */
  lemma MoneyNumeralPlain(x: string)
    requires x != [] && MoneyNumeral(x)
    ensures Strip(x) == x && !HasAsciiLetter(x)
  {
    assert IsMoneyChar(x[0]) && IsMoneyChar(x[|x| - 1]);
    StripOfSpaceFree(x);
    forall i | 0 <= i < |x| ensures !IsAsciiLetter(x[i]) {
      assert IsMoneyChar(x[i]);
    }
  }

  /** Digits after a currency symbol, and the same in accounting parentheses. */
  lemma ParseCurrency(d: string, m: real)
    requires AllDigits(d) && d != [] && DecimalOf(d) == Some(m)
    ensures ParseAmount("$" + d) == Some(m)
    ensures ParseAmount("(" + ("$" + d) + ")") == Some(-m)
  {
    CurrencyShape(d);
    DecoratedReads("$" + d, m, false);
    ParenthesisedCurrencyShape(d);
    DecoratedReads("(" + ("$" + d) + ")", m, true);
  }

  /** What `_parse_amount` sees of a dollar sign before digits. */
  lemma CurrencyShape(d: string)
    requires AllDigits(d) && d != []
    ensures MoneyNumeral("$" + d) && HasCurrency("$" + d)
    ensures KeepNumeric(UnsignedPart("$" + d)) == d && !IsNegative("$" + d)
  {
    CurrencyChars(d);
    CurrencyKept(d);
  }

  lemma CurrencyChars(d: string)
    requires AllDigits(d) && d != []
    ensures MoneyNumeral("$" + d) && HasCurrency("$" + d)
  {
    var dollars := "$" + d;
    assert dollars[0] == '$';
    forall i | 0 <= i < |dollars| ensures IsMoneyChar(dollars[i]) {
      if i > 0 { assert dollars[i] == d[i - 1]; }
    }
  }

  lemma CurrencyKept(d: string)
    requires AllDigits(d) && d != []
    ensures KeepNumeric(UnsignedPart("$" + d)) == d && !IsNegative("$" + d)
  {
    CurrencyUnsigned(d);
    CurrencyDigits(d);
  }

  lemma CurrencyUnsigned(d: string)
    requires d != [] && d[|d| - 1] != ')'
    ensures UnsignedPart("$" + d) == "$" + d && !IsNegative("$" + d)
  {
    var dollars := "$" + d;
    assert dollars[0] == '$' && dollars[|dollars| - 1] == d[|d| - 1];
  }

  lemma CurrencyDigits(d: string)
    requires AllDigits(d)
    ensures KeepNumeric("$" + d) == d
  {
    assert AllNumeric(d);
    KeepNumericAppend("$", d);
    KeepNumericOfNumeric(d);
    assert KeepNumeric("$") == "";
  }

  /** What `_parse_amount` sees of a dollar amount in parentheses. */
  lemma ParenthesisedCurrencyShape(d: string)
    requires AllDigits(d) && d != []
    ensures MoneyNumeral("(" + ("$" + d) + ")") && HasCurrency("(" + ("$" + d) + ")")
    ensures KeepNumeric(UnsignedPart("(" + ("$" + d) + ")")) == d && IsNegative("(" + ("$" + d) + ")")
  {
    var dollars := "$" + d;
    var parens := "(" + dollars + ")";
    CurrencyShape(d);
    assert Inner(parens) == dollars && WrappedInParens(parens);
    forall i | 0 <= i < |parens| ensures IsMoneyChar(parens[i]) {
      if 0 < i < |parens| - 1 { assert parens[i] == dollars[i - 1]; }
    }
    assert UnsignedPart(parens) == dollars;
    assert parens[1] == '$';
  }

  /**
   * A comma between digits is dropped and marks the text as money, so the
   * digits on both sides read as one number whatever its size; the width of
   * the groups is not checked ("1,5" reads as 15).
   */
  lemma ParseGrouped(w: string, g: string, m: real)
    requires AllDigits(w) && AllDigits(g) && w != [] && g != [] && DecimalOf(w + g) == Some(m)
    ensures ParseAmount(w + "," + g) == Some(m)
  {
    GroupedShape(w, g);
    DecoratedReads(w + "," + g, m, false);
  }

  /** What `_parse_amount` sees of two runs of digits around a comma. */
  lemma GroupedShape(w: string, g: string)
    requires AllDigits(w) && AllDigits(g) && w != [] && g != []
    ensures MoneyNumeral(w + "," + g) && HasSeparator(w + "," + g)
    ensures KeepNumeric(UnsignedPart(w + "," + g)) == w + g && !IsNegative(w + "," + g)
  {
    var grouped := w + "," + g;
    GroupedChars(w, g);
    assert grouped[0] == w[0] && grouped[|grouped| - 1] == g[|g| - 1];
    assert UnsignedPart(grouped) == grouped;
    GroupedKept(w, g);
  }

  lemma GroupedChars(w: string, g: string)
    requires AllDigits(w) && AllDigits(g)
    ensures MoneyNumeral(w + "," + g) && HasSeparator(w + "," + g)
  {
    var grouped := w + "," + g;
    assert grouped[|w|] == ',';
    forall i | 0 <= i < |grouped| ensures IsMoneyChar(grouped[i]) {
      if i < |w| { assert grouped[i] == w[i]; } else if i > |w| { assert grouped[i] == g[i - |w| - 1]; }
    }
  }

  /** Keeping digits and points drops the comma and nothing else. */
  lemma GroupedKept(w: string, g: string)
    requires AllDigits(w) && AllDigits(g)
    ensures KeepNumeric(w + "," + g) == w + g
  {
    assert AllNumeric(g);
    KeepNumericAppend(w + ",", g);
    KeepNumericOfNumeric(g);
    CommaDropped(w);
  }

  lemma CommaDropped(w: string)
    requires AllDigits(w)
    ensures KeepNumeric(w + ",") == w
  {
    assert AllNumeric(w);
    KeepNumericAppend(w, ",");
    KeepNumericOfNumeric(w);
    assert KeepNumeric(",") == "";
  }
}
