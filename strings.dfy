/**
 * The pieces of Python's string behaviour the services rely on: `str.isspace`
 * (which is also what `\s` matches in a `str` pattern), `strip`, ASCII
 * `lower`/`upper`, the `in` substring test, `sep.join(...)`, `str(n)` for a
 * natural number and the value of a string of decimal digits.
 */
module Strings {

  /** Python's `str.isspace()`: every code point that `\s` matches in a `str` pattern. */
  predicate IsSpace(c: char) {
    || ('\t' <= c <= '\r')
    || ('\U{1C}' <= c <= '\U{1F}')
    || c == ' '
    || c == '\U{85}'
    || c == '\U{A0}'
    || c == '\U{1680}'
    || ('\U{2000}' <= c <= '\U{200A}')
    || c == '\U{2028}'
    || c == '\U{2029}'
    || c == '\U{202F}'
    || c == '\U{205F}'
    || c == '\U{3000}'
  }

  predicate AllSpace(s: string) {
    forall i :: 0 <= i < |s| ==> IsSpace(s[i])
  }

  predicate NoSpace(s: string) {
    forall i :: 0 <= i < |s| ==> !IsSpace(s[i])
  }

  /** `s.lstrip()` */
  function TrimStart(s: string): (r: string)
    ensures |r| <= |s| && r == s[|s| - |r|..]
    ensures AllSpace(s[..|s| - |r|])
    ensures r != [] ==> !IsSpace(r[0])
  {
    if s != [] && IsSpace(s[0]) then
      var r := TrimStart(s[1..]);
      TrimStartStep(s, r);
      r
    else s
  }

  /** A leading space joins the whitespace that `lstrip` drops. */
  lemma TrimStartStep(s: string, r: string)
    requires s != [] && IsSpace(s[0]) && |r| <= |s| - 1
    requires r == s[1..][|s| - 1 - |r|..] && AllSpace(s[1..][..|s| - 1 - |r|])
    ensures r == s[|s| - |r|..] && AllSpace(s[..|s| - |r|])
  {
    var n := |s| - |r|;
    forall i | 0 < i < n ensures IsSpace(s[..n][i]) {
      assert s[..n][i] == s[1..][..n - 1][i - 1];
    }
  }

  /** `s.rstrip()` */
  function TrimEnd(s: string): (r: string)
    ensures |r| <= |s| && r == s[..|r|]
    ensures AllSpace(s[|r|..])
    ensures r != [] ==> !IsSpace(r[|r| - 1])
  {
    if s != [] && IsSpace(s[|s| - 1]) then
      var r := TrimEnd(s[..|s| - 1]);
      TrimEndStep(s, r);
      r
    else s
  }

  /** A trailing space joins the whitespace that `rstrip` drops. */
  lemma TrimEndStep(s: string, r: string)
    requires s != [] && IsSpace(s[|s| - 1]) && |r| <= |s| - 1
    requires r == s[..|s| - 1][..|r|] && AllSpace(s[..|s| - 1][|r|..])
    ensures r == s[..|r|] && AllSpace(s[|r|..])
  {
    forall i | |r| <= i < |s| - 1 ensures IsSpace(s[i]) {
      assert s[i] == s[..|s| - 1][|r|..][i - |r|];
    }
  }

  /** `s.strip()`: the longest infix of `s` that starts and ends with a non-space. */
  function Strip(s: string): (r: string)
    ensures |r| <= |s|
    ensures r == [] || (!IsSpace(r[0]) && !IsSpace(r[|r| - 1]))
  {
    TrimEnd(TrimStart(s))
  }

  /** `r` sits in `s` at `a`, with only whitespace on either side of it. */
  predicate InfixAmongSpace(s: string, a: nat, r: string) {
    && a + |r| <= |s| && s[a..a + |r|] == r
    && AllSpace(s[..a]) && AllSpace(s[a + |r|..])
  }

  /** Where `strip`'s result sits in the text: only whitespace lies on either side of it. */
  lemma StripInfix(s: string) returns (a: nat)
    ensures InfixAmongSpace(s, a, Strip(s))
  {
    var t := TrimStart(s);
    a := |s| - |t|;
    InfixOfSuffix(s, a, t, TrimEnd(t));
  }

  lemma InfixOfSuffix(s: string, a: nat, t: string, r: string)
    requires a <= |s| && t == s[a..] && AllSpace(s[..a])
    requires |r| <= |t| && r == t[..|r|] && AllSpace(t[|r|..])
    ensures InfixAmongSpace(s, a, r)
  {
    assert s[a + |r|..] == t[|r|..];
  }

  lemma StripOfSpaceFree(s: string)
    requires s == [] || (!IsSpace(s[0]) && !IsSpace(s[|s| - 1]))
    ensures Strip(s) == s
  {
  }

  /** Stripping twice is stripping once. */
  lemma StripIdempotent(s: string)
    ensures Strip(Strip(s)) == Strip(s)
  {
    StripOfSpaceFree(Strip(s));
  }

  /** Whitespace around a text does not change what `strip` leaves of it. */
  lemma StripPadded(p: string, s: string, q: string)
    requires AllSpace(p) && AllSpace(q)
    ensures Strip(p + s + q) == Strip(s)
  {
    AppendAssociates(p, s, q);
    TrimStartPadded(p, s + q);
    TrimStartAppendPadding(s, q);
  }

  /** Dropping a prefix of the first part of a concatenation. */
  lemma DropAppend<T>(a: seq<T>, b: seq<T>, k: nat)
    requires k <= |a|
    ensures (a + b)[k..] == a[k..] + b
  {
  }

  lemma AppendAssociates<T>(a: seq<T>, b: seq<T>, c: seq<T>)
    ensures a + b + c == a + (b + c)
  {
  }

  /** A non-empty slice is its first character followed by the rest. */
  lemma SliceCons(s: string, i: nat, e: nat)
    requires i < e <= |s|
    ensures s[i..e] == [s[i]] + s[i + 1..e]
  {
  }

  /** Trailing whitespace either disappears with the text (all blank) or survives `lstrip`, to be removed by `rstrip`. */
  lemma TrimStartAppendPadding(s: string, q: string)
    requires AllSpace(q)
    ensures TrimEnd(TrimStart(s + q)) == TrimEnd(TrimStart(s))
  {
    if AllSpace(s) {
      AllSpaceAppend(s, q);
      TrimStartAllSpace(s + q);
      TrimStartAllSpace(s);
    } else {
      TrimStartAppend(s, q);
      TrimEndPadded(TrimStart(s), q);
    }
  }

  lemma AllSpaceAppend(s: string, q: string)
    requires AllSpace(s) && AllSpace(q)
    ensures AllSpace(s + q)
  {
    forall i | 0 <= i < |s + q| ensures IsSpace((s + q)[i]) {
      if i < |s| { assert (s + q)[i] == s[i]; } else { assert (s + q)[i] == q[i - |s|]; }
    }
  }

  lemma {:induction false} TrimStartPadded(p: string, s: string)
    requires AllSpace(p)
    ensures TrimStart(p + s) == TrimStart(s)
  {
    if p != [] {
      assert (p + s)[1..] == p[1..] + s;
      TrimStartPadded(p[1..], s);
    } else {
      assert p + s == s;
    }
  }

  lemma {:induction false} TrimStartAllSpace(s: string)
    requires AllSpace(s)
    ensures TrimStart(s) == []
  {
    if s != [] {
      TrimStartAllSpace(s[1..]);
    }
  }

  /** Once a non-space has been reached, what follows is kept as it is. */
  lemma {:induction false} TrimStartAppend(s: string, q: string)
    requires !AllSpace(s)
    ensures TrimStart(s + q) == TrimStart(s) + q
  {
    if IsSpace(s[0]) {
      assert (s + q)[1..] == s[1..] + q;
      TrimStartAppend(s[1..], q);
    }
  }

  lemma {:induction false} TrimEndPadded(s: string, q: string)
    requires AllSpace(q)
    ensures TrimEnd(s + q) == TrimEnd(s)
  {
    if q != [] {
      assert (s + q)[..|s + q| - 1] == s + q[..|q| - 1];
      TrimEndPadded(s, q[..|q| - 1]);
    } else {
      assert s + q == s;
    }
  }

  /** `strip` leaves nothing exactly when the text is all whitespace. */
  lemma StripEmptyIffAllSpace(s: string)
    ensures Strip(s) == [] <==> AllSpace(s)
  {
    if AllSpace(s) {
      TrimStartAllSpace(s);
    } else {
      var i :| 0 <= i < |s| && !IsSpace(s[i]);
      var a := StripInfix(s);
    }
  }

  lemma SpaceOutsideStrip(s: string, a: nat)
    requires a + |Strip(s)| <= |s| && AllSpace(s[..a]) && AllSpace(s[a + |Strip(s)|..])
    ensures forall k :: 0 <= k < |s| && !(a <= k < a + |Strip(s)|) ==> IsSpace(s[k])
  {
    var e := a + |Strip(s)|;
    forall k | 0 <= k < |s| && !(a <= k < e) ensures IsSpace(s[k]) {
      if k < a { assert s[..a][k] == s[k]; } else { assert s[e..][k - e] == s[k]; }
    }
  }

  /** A character of the text that is not whitespace survives `strip`, at its place. */
  lemma StripKeeps(s: string, i: nat) returns (a: nat)
    requires i < |s| && !IsSpace(s[i])
    ensures a <= i < a + |Strip(s)| && Strip(s)[i - a] == s[i]
    ensures a + |Strip(s)| <= |s| && s[a..a + |Strip(s)|] == Strip(s)
  {
    a := StripInfix(s);
    var r := Strip(s);
    SpaceOutsideStrip(s, a);
    assert r[i - a] == s[a..a + |r|][i - a];
  }

  // ---------------------------------------------------------------------------
  // Counting characters

  /** How many characters of `s` satisfy `p`. */
  function CountWhere(s: string, p: char -> bool): nat {
    if s == [] then 0 else (if p(s[0]) then 1 else 0) + CountWhere(s[1..], p)
  }

  lemma {:induction false} CountWhereAppend(a: string, b: string, p: char -> bool)
    ensures CountWhere(a + b, p) == CountWhere(a, p) + CountWhere(b, p)
  {
    if a == [] {
      assert a + b == b;
    } else {
      assert (a + b)[1..] == a[1..] + b;
      CountWhereAppend(a[1..], b, p);
    }
  }

  lemma {:induction false} CountWhereNone(s: string, p: char -> bool)
    requires forall i :: 0 <= i < |s| ==> !p(s[i])
    ensures CountWhere(s, p) == 0
  {
    if s != [] {
      CountWhereNone(s[1..], p);
    }
  }

  /** `p` holds of no whitespace character. */
  predicate SpaceBlind(p: char -> bool) {
    forall c :: IsSpace(c) ==> !p(c)
  }

  lemma {:induction false} CountWhereTrimStart(s: string, p: char -> bool)
    requires SpaceBlind(p)
    ensures CountWhere(TrimStart(s), p) == CountWhere(s, p)
  {
    if s != [] && IsSpace(s[0]) {
      CountWhereTrimStart(s[1..], p);
    }
  }

  lemma {:induction false} CountWhereTrimEnd(s: string, p: char -> bool)
    requires SpaceBlind(p)
    ensures CountWhere(TrimEnd(s), p) == CountWhere(s, p)
  {
    if s != [] && IsSpace(s[|s| - 1]) {
      var n := |s| - 1;
      assert s == s[..n] + [s[n]];
      CountWhereAppend(s[..n], [s[n]], p);
      CountWhereTrimEnd(s[..n], p);
    }
  }

  /** `strip` removes only whitespace, so it keeps every character that is not whitespace. */
  lemma CountWhereStrip(s: string, p: char -> bool)
    requires SpaceBlind(p)
    ensures CountWhere(Strip(s), p) == CountWhere(s, p)
  {
    CountWhereTrimStart(s, p);
    CountWhereTrimEnd(TrimStart(s), p);
  }

  // ---------------------------------------------------------------------------
  // Characters and ASCII case

  predicate IsAsciiUpper(c: char) { 'A' <= c <= 'Z' }
  predicate IsAsciiLower(c: char) { 'a' <= c <= 'z' }
  /** What the pattern `[a-zA-Z]` matches. */
  predicate IsAsciiLetter(c: char) { IsAsciiUpper(c) || IsAsciiLower(c) }
  predicate IsDigit(c: char) { '0' <= c <= '9' }

  function LowerChar(c: char): char {
    if IsAsciiUpper(c) then (c as int - 'A' as int + 'a' as int) as char else c
  }

  function UpperChar(c: char): char {
    if IsAsciiLower(c) then (c as int - 'a' as int + 'A' as int) as char else c
  }

  /** `s.lower()`, on ASCII letters. */
  function Lower(s: string): string {
    seq(|s|, i requires 0 <= i < |s| => LowerChar(s[i]))
  }

  /** `s.upper()`, on ASCII letters. */
  function Upper(s: string): string {
    seq(|s|, i requires 0 <= i < |s| => UpperChar(s[i]))
  }

  lemma LowerIdempotent(s: string)
    ensures Lower(Lower(s)) == Lower(s)
  {
  }

  lemma UpperIdempotent(s: string)
    ensures Upper(Upper(s)) == Upper(s)
  {
  }

  /** Lower-casing forgets any earlier upper-casing. */
  lemma LowerOfUpper(s: string)
    ensures Lower(Upper(s)) == Lower(s)
  {
  }

  lemma LowerAppend(a: string, b: string)
    ensures Lower(a + b) == Lower(a) + Lower(b)
  {
  }

  // ---------------------------------------------------------------------------
  // Substrings

  predicate OccursAt(s: string, k: string, i: int) {
    0 <= i && i + |k| <= |s| && s[i..i + |k|] == k
  }

  /** Python's `k in s`. */
  predicate Contains(s: string, k: string) {
    exists i | 0 <= i <= |s| - |k| :: OccursAt(s, k, i)
  }

  /** `any(k in s for k in ks)` */
  predicate ContainsAny(s: string, ks: seq<string>) {
    exists j | 0 <= j < |ks| :: Contains(s, ks[j])
  }

  /** A substring stays a substring when text is added on either side. */
  lemma ContainsExtend(a: string, s: string, b: string, k: string)
    requires Contains(s, k)
    ensures Contains(a + s + b, k)
  {
    var i :| 0 <= i <= |s| - |k| && OccursAt(s, k, i);
    assert (a + s + b)[|a| + i..|a| + i + |k|] == s[i..i + |k|];
    assert OccursAt(a + s + b, k, |a| + i);
  }

  lemma ContainsAnyExtend(a: string, s: string, b: string, ks: seq<string>)
    requires ContainsAny(s, ks)
    ensures ContainsAny(a + s + b, ks)
  {
    var j :| 0 <= j < |ks| && Contains(s, ks[j]);
    ContainsExtend(a, s, b, ks[j]);
  }

  lemma ContainsSelf(s: string)
    ensures Contains(s, s)
  {
    assert s[0..|s|] == s;
    assert OccursAt(s, s, 0);
  }

  /** A keyword longer than the text cannot occur in it. */
  lemma NotContainsShort(s: string, k: string)
    requires |s| < |k|
    ensures !Contains(s, k)
  {
  }

  /** Python's `s.replace(pat, rep)` for a non-empty `pat`: occurrences are replaced from the left, without overlapping. */
  function ReplaceAll(s: string, pat: string, rep: string): (r: string)
    requires pat != []
    ensures |rep| <= |pat| ==> |r| <= |s|
    decreases |s|
  {
    if s == [] then []
    else if pat <= s then rep + ReplaceAll(s[|pat|..], pat, rep)
    else [s[0]] + ReplaceAll(s[1..], pat, rep)
  }

  /** Text in which the pattern does not occur is left as it is. */
  lemma {:induction false} ReplaceAbsent(s: string, pat: string, rep: string)
    requires pat != [] && !Contains(s, pat)
    ensures ReplaceAll(s, pat, rep) == s
    decreases |s|
  {
    if s != [] {
      assert !OccursAt(s, pat, 0);
      if Contains(s[1..], pat) {
        var i :| 0 <= i <= |s[1..]| - |pat| && OccursAt(s[1..], pat, i);
        assert s[i + 1..i + 1 + |pat|] == s[1..][i..i + |pat|];
        assert OccursAt(s, pat, i + 1);
      }
      ReplaceAbsent(s[1..], pat, rep);
    }
  }

  /** An occurrence after text that cannot start one is replaced, and the scan goes on after it. */
  lemma {:induction false} ReplaceFirst(pre: string, pat: string, post: string, rep: string)
    requires pat != [] && forall k :: 0 <= k < |pre| ==> pre[k] != pat[0]
    ensures ReplaceAll(pre + pat + post, pat, rep) == pre + rep + ReplaceAll(post, pat, rep)
    decreases |pre|
  {
    var s := pre + pat + post;
    if pre == [] {
      assert s == pat + post && pat <= s && s[|pat|..] == post;
    } else {
      assert s[0] == pre[0] && !(pat <= s);
      assert s[1..] == pre[1..] + pat + post;
      ReplaceFirst(pre[1..], pat, post, rep);
      assert [pre[0]] + (pre[1..] + rep + ReplaceAll(post, pat, rep)) == pre + rep + ReplaceAll(post, pat, rep);
    }
  }

  // ---------------------------------------------------------------------------
  // Joining

  /** `sep.join(parts)` */
  function Join(sep: string, parts: seq<string>): string {
    if |parts| == 0 then ""
    else if |parts| == 1 then parts[0]
    else parts[0] + sep + Join(sep, parts[1..])
  }

  /** Joining more parts only extends the text joined so far. */
  lemma {:induction false} JoinPrefix(sep: string, a: seq<string>, b: seq<string>)
    requires a != [] && b != []
    ensures Join(sep, a + b) == Join(sep, a) + sep + Join(sep, b)
  {
    if |a| == 1 {
      assert (a + b)[1..] == b;
    } else {
      assert (a + b)[1..] == a[1..] + b;
      JoinPrefix(sep, a[1..], b);
    }
  }

  /** Every part occurs in the joined text. */
  lemma {:induction false} JoinContainsPart(sep: string, parts: seq<string>, k: nat)
    requires k < |parts|
    ensures Contains(Join(sep, parts), parts[k])
    decreases |parts|
  {
    ContainsSelf(parts[k]);
    if |parts| > 1 {
      var rest := Join(sep, parts[1..]);
      if k == 0 {
        ContainsExtend("", parts[0], sep + rest, parts[0]);
        assert "" + parts[0] + (sep + rest) == parts[0] + sep + rest;
      } else {
        JoinContainsPart(sep, parts[1..], k - 1);
        ContainsExtend(parts[0] + sep, rest, "", parts[k]);
        assert parts[0] + sep + rest + "" == parts[0] + sep + rest;
      }
    }
  }

  /** A join of non-empty parts is non-empty. */
  lemma JoinNonEmpty(sep: string, parts: seq<string>)
    requires parts != [] && parts[0] != ""
    ensures Join(sep, parts) != ""
  {
  }

  // ---------------------------------------------------------------------------
  // Decimal digits

  function DigitChar(d: nat): char
    requires d < 10
  {
    ('0' as int + d) as char
  }

  function DigitValue(c: char): nat
    requires IsDigit(c)
  {
    c as int - '0' as int
  }

  predicate AllDigits(s: string) {
    forall i :: 0 <= i < |s| ==> IsDigit(s[i])
  }

  function Pow10(n: nat): (r: nat)
    ensures r >= 1
  {
    if n == 0 then 1 else 10 * Pow10(n - 1)
  }

  /** The number a string of decimal digits denotes ("" denotes 0). */
  function DigitsValue(s: string): nat
    requires AllDigits(s)
  {
    if s == [] then 0 else DigitsValue(s[..|s| - 1]) * 10 + DigitValue(s[|s| - 1])
  }

  lemma AllDigitsAppend(a: string, b: string)
    requires AllDigits(a) && AllDigits(b)
    ensures AllDigits(a + b)
  {
    forall i | 0 <= i < |a + b| ensures IsDigit((a + b)[i]) {
      if i < |a| { assert (a + b)[i] == a[i]; } else { assert (a + b)[i] == b[i - |a|]; }
    }
  }

  /** Reading digits is positional: the digits on the right weigh one power of ten each. */
  lemma {:induction false} DigitsValueAppend(a: string, b: string)
    requires AllDigits(a) && AllDigits(b)
    ensures AllDigits(a + b)
    ensures DigitsValue(a + b) == DigitsValue(a) * Pow10(|b|) + DigitsValue(b)
  {
    AllDigitsAppend(a, b);
    if b == [] {
      assert a + b == a;
    } else {
      var b' := b[..|b| - 1];
      var d := DigitValue(b[|b| - 1]);
      assert (a + b)[..|a + b| - 1] == a + b';
      assert AllDigits(b');
      DigitsValueAppend(a, b');
      var x, p, y := DigitsValue(a), Pow10(|b'|), DigitsValue(b');
      assert DigitsValue(a + b) == DigitsValue(a + b') * 10 + d;
      assert DigitsValue(b) == y * 10 + d;
      assert Pow10(|b|) == p * 10;
      ShiftDigit(x, p, y, d);
    }
  }

  lemma ShiftDigit(x: int, p: int, y: int, d: int)
    ensures (x * p + y) * 10 + d == x * (p * 10) + (y * 10 + d)
  {
  }

  lemma {:induction false} DigitsValueBound(s: string)
    requires AllDigits(s)
    ensures DigitsValue(s) < Pow10(|s|)
  {
    if s != [] {
      DigitsValueBound(s[..|s| - 1]);
    }
  }

  /** `str(n)` for a natural number. */
  function NatToString(n: nat): (r: string)
    ensures |r| >= 1 && AllDigits(r)
    ensures n >= 10 ==> r[0] != '0'
  {
    if n < 10 then [DigitChar(n)] else NatToString(n / 10) + [DigitChar(n % 10)]
  }

  /** Reading back what `str(n)` wrote gives `n`. */
  lemma {:induction false} NatToStringRoundTrip(n: nat)
    ensures DigitsValue(NatToString(n)) == n
  {
    if n >= 10 {
      var s := NatToString(n);
      assert s[..|s| - 1] == NatToString(n / 10);
      NatToStringRoundTrip(n / 10);
    }
  }

  /** `str(n)` has as many digits as `n` needs: it is below ten to the power of its length. */
  lemma NatToStringLength(n: nat)
    ensures n < Pow10(|NatToString(n)|)
  {
    NatToStringRoundTrip(n);
    DigitsValueBound(NatToString(n));
  }
}
