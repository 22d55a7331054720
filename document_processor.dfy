/**
 * The text side of `DocumentProcessor`: `_clean_text` (whitespace runs become
 * one space, "Page N of M" markers go, both ends are trimmed),
 * `_split_into_sentences` (cut at whitespace that follows '.', '!' or '?')
 * and `_chunk_text`, the greedy sentence accumulator whose chunks overlap.
 * The two regular expressions are modelled by the scan Python's `re` module
 * performs for them.
 */
module DocumentProcessor {
  import opened Wrappers
  import opened Strings
  import opened Selection

  // ---------------------------------------------------------------------------
  // Character scans

  predicate NotSpace(c: char) { !IsSpace(c) }

  /** What `\w` matches, on ASCII. */
  predicate IsWordChar(c: char) { IsAsciiLetter(c) || IsDigit(c) || c == '_' }

  /** The end of the longest run of characters satisfying `p` that starts at `i`. */
  function Span(s: string, i: nat, p: char -> bool): (j: nat)
    requires i <= |s|
    ensures i <= j <= |s|
    ensures forall k :: i <= k < j ==> p(s[k])
    ensures j == |s| || !p(s[j])
    decreases |s| - i
  {
    if i < |s| && p(s[i]) then Span(s, i + 1, p) else i
  }

  /** The length of the longest prefix of `s` whose characters satisfy `p`. */
  function RunLength(s: string, p: char -> bool): (r: nat)
    ensures r <= |s|
  {
    if s != [] && p(s[0]) then 1 + RunLength(s[1..], p) else 0
  }

  /** What follows a non-empty longest run of `p` characters at the start of `s` (what `p+` leaves). */
  function AfterRun(s: string, p: char -> bool): (r: Option<string>)
    ensures r.Some? ==> |r.value| < |s|
  {
    var n := RunLength(s, p);
    if n == 0 then None else Some(s[n..])
  }

  /** A run of `p` characters followed by its end or by a character failing `p` is the whole prefix `RunLength` finds. */
  lemma {:induction false} RunLengthOf(run: string, w: string, p: char -> bool)
    requires forall k :: 0 <= k < |run| ==> p(run[k])
    requires w == [] || !p(w[0])
    ensures RunLength(run + w, p) == |run|
    decreases |run|
  {
    if run == [] {
      assert run + w == w;
    } else {
      assert (run + w)[1..] == run[1..] + w;
      RunLengthOf(run[1..], w, p);
    }
  }

  lemma AfterRunOf(run: string, w: string, p: char -> bool)
    requires run != [] && forall k :: 0 <= k < |run| ==> p(run[k])
    requires w == [] || !p(w[0])
    ensures AfterRun(run + w, p) == Some(w)
  {
    RunLengthOf(run, w, p);
    assert (run + w)[|run|..] == w;
  }

  // ---------------------------------------------------------------------------
  // `re.sub(r'\s+', ' ', text)`

  /** Every whitespace character is a plain space and no two of them are adjacent. */
  predicate SingleSpaced(s: string) {
    PlainBlanks(s)
    && forall i :: 0 <= i < |s| - 1 ==> !DoubleSpaceAt(s, i)
  }

  /** Whitespace, if it is any, is the plain space. */
  predicate PlainBlank(c: char) { IsSpace(c) ==> c == ' ' }

  predicate PlainBlanks(s: string) {
    forall i :: 0 <= i < |s| ==> PlainBlank(s[i])
  }

  predicate DoubleSpaceAt(s: string, i: nat)
    requires i + 1 < |s|
  {
    IsSpace(s[i]) && IsSpace(s[i + 1])
  }

  /** Each maximal run of whitespace becomes a single space. */
  function CollapseSpaces(s: string): (r: string)
    ensures |r| <= |s| && (r == [] <==> s == [])
    ensures r != [] ==> (IsSpace(r[0]) <==> IsSpace(s[0]))
    ensures SingleSpaced(r)
    decreases |s|
  {
    if s == [] then []
    else if IsSpace(s[0]) then
      var rest := TrimStart(s);
      assert |rest| < |s| by { assert TrimStart(s) == TrimStart(s[1..]); }
      var r := CollapseSpaces(rest);
      SingleSpacedCons(' ', r);
      [' '] + r
    else
      var r := CollapseSpaces(s[1..]);
      SingleSpacedCons(s[0], r);
      [s[0]] + r
  }

  lemma SingleSpacedCons(c: char, t: string)
    requires SingleSpaced(t)
    requires IsSpace(c) ==> c == ' ' && (t == [] || !IsSpace(t[0]))
    ensures SingleSpaced([c] + t)
  {
    var s := [c] + t;
    forall i | 0 <= i < |s| && IsSpace(s[i]) ensures s[i] == ' ' {
      if i > 0 { assert s[i] == t[i - 1]; }
    }
    forall i | 0 <= i < |s| - 1 ensures !DoubleSpaceAt(s, i) {
      if i > 0 {
        assert s[i] == t[i - 1] && s[i + 1] == t[i];
        assert !DoubleSpaceAt(t, i - 1);
      }
    }
  }

  /** Any infix of single-spaced text is single-spaced. */
  lemma SingleSpacedSlice(s: string, a: nat, b: nat)
    requires a <= b <= |s| && SingleSpaced(s)
    ensures SingleSpaced(s[a..b])
  {
    var t := s[a..b];
    forall i | 0 <= i < |t| && IsSpace(t[i]) ensures t[i] == ' ' {
      assert t[i] == s[a + i];
    }
    forall i | 0 <= i < |t| - 1 ensures !DoubleSpaceAt(t, i) {
      assert t[i] == s[a + i] && t[i + 1] == s[a + i + 1];
      assert !DoubleSpaceAt(s, a + i);
    }
  }

  /** Text that is already single-spaced is left as it is. */
  lemma {:induction false} CollapseSingleSpaced(s: string)
    requires SingleSpaced(s)
    ensures CollapseSpaces(s) == s
    decreases |s|
  {
    if s != [] {
      SingleSpacedTail(s);
      CollapseSingleSpaced(s[1..]);
      ConsTail(s);
      if IsSpace(s[0]) {
        SingleSpacedHead(s);
        CollapseSpaceHead(s);
      }
    }
  }

  lemma SingleSpacedTail(s: string)
    requires s != [] && SingleSpaced(s)
    ensures SingleSpaced(s[1..])
  {
    SingleSpacedSlice(s, 1, |s|);
    assert s[1..|s|] == s[1..];
  }

  /** In single-spaced text a leading whitespace character is a space with no whitespace after it. */
  lemma SingleSpacedHead(s: string)
    requires s != [] && SingleSpaced(s) && IsSpace(s[0])
    ensures s[0] == ' ' && (|s| == 1 || !IsSpace(s[1]))
  {
    assert PlainBlank(s[0]);
    if |s| > 1 { assert !DoubleSpaceAt(s, 0); }
  }

  lemma ConsTail<T>(s: seq<T>)
    requires s != []
    ensures s == [s[0]] + s[1..]
  {
  }

  lemma TrimStartOfSpaceHead(s: string)
    requires s != [] && IsSpace(s[0]) && (|s| == 1 || !IsSpace(s[1]))
    ensures TrimStart(s) == s[1..]
  {
    var t := s[1..];
    assert t == [] || !IsSpace(t[0]);
    assert TrimStart(t) == t;
  }

  /** A lone space followed by a non-space is kept as it is. */
  lemma CollapseSpaceHead(s: string)
    requires s != [] && s[0] == ' ' && (|s| == 1 || !IsSpace(s[1])) && CollapseSpaces(s[1..]) == s[1..]
    ensures CollapseSpaces(s) == [' '] + s[1..]
  {
    TrimStartOfSpaceHead(s);
  }

  /** Collapsing twice is collapsing once. */
  lemma CollapseIdempotent(s: string)
    ensures CollapseSpaces(CollapseSpaces(s)) == CollapseSpaces(s)
  {
    CollapseSingleSpaced(CollapseSpaces(s));
  }

  lemma {:induction false} FilterTrimStart(s: string)
    ensures Filter(TrimStart(s), NotSpace) == Filter(s, NotSpace)
    decreases |s|
  {
    if s != [] && IsSpace(s[0]) {
      assert s == [s[0]] + s[1..];
      FilterAppend([s[0]], s[1..], NotSpace);
      assert Filter([s[0]], NotSpace) == [];
      FilterTrimStart(s[1..]);
    }
  }

  /** Collapsing changes only whitespace: the other characters stay, in order. */
  lemma {:induction false} CollapseKeepsText(s: string)
    ensures Filter(CollapseSpaces(s), NotSpace) == Filter(s, NotSpace)
    decreases |s|
  {
    if s != [] {
      var c := s[0];
      assert s == [c] + s[1..];
      FilterAppend([c], s[1..], NotSpace);
      if IsSpace(c) {
        var rest := TrimStart(s);
        assert TrimStart(s) == TrimStart(s[1..]);
        CollapseKeepsText(rest);
        FilterAppend([' '], CollapseSpaces(rest), NotSpace);
        assert Filter([' '], NotSpace) == [];
        assert Filter([c], NotSpace) == [];
        FilterTrimStart(s[1..]);
      } else {
        CollapseKeepsText(s[1..]);
        FilterAppend([c], CollapseSpaces(s[1..]), NotSpace);
      }
    }
  }

  // ---------------------------------------------------------------------------
  // `re.sub(r'\bPage\s+\d+\s+of\s+\d+\b', '', text, flags=re.IGNORECASE)`

  /** Whether `s` starts with the lower-case `word`, ignoring the case of ASCII letters. */
  predicate StartsIgnoringCase(s: string, word: string) {
    |word| <= |s| && forall k :: 0 <= k < |word| ==> LowerChar(s[k]) == word[k]
  }

  /**
   * The length of the match of `Page\s+\d+\s+of\s+\d+\b` (letters in any
   * case) at the start of `rest`, read stage by stage. Every `+` takes its
   * longest run: giving a character back would leave a space where a digit or
   * "of" is needed, or a digit where the closing `\b` is needed.
   */
  function MarkerLength(rest: string): (r: Option<nat>)
    ensures r.Some? ==> 0 < r.value <= |rest|
  {
    if !StartsIgnoringCase(rest, "page") then None
    else
      match AfterRun(rest[4..], IsSpace)
      case None => None
      case Some(t2) =>
        match AfterRun(t2, IsDigit)
        case None => None
        case Some(t3) =>
          match AfterRun(t3, IsSpace)
          case None => None
          case Some(t4) => OfLength(rest, t4)
  }

  /** The rest of the match, from "of" on; `rest` is where the match began. */
  function OfLength(rest: string, t4: string): (r: Option<nat>)
    requires |t4| < |rest|
    ensures r.Some? ==> 0 < r.value <= |rest|
  {
    if !StartsIgnoringCase(t4, "of") then None
    else
      match AfterRun(t4[2..], IsSpace)
      case None => None
      case Some(t6) =>
        match AfterRun(t6, IsDigit)
        case None => None
        case Some(t7) => if t7 != [] && IsWordChar(t7[0]) then None else Some(|rest| - |t7|)
  }

  /**
   * The match where the scan stands: none right after a word character,
   * since the opening `\b` needs a boundary there.
   */
  function MarkerFrom(afterWord: bool, s: string): (r: Option<nat>)
    ensures r.Some? ==> 0 < r.value <= |s|
  {
    if afterWord then None else MarkerLength(s)
  }

  /**
   * The substitution's scan over what is left of the text, `afterWord` telling
   * whether the character before it is a word character: a match is dropped
   * and the scan resumes after it; any other character is kept.
   */
  function RemoveMarkers(afterWord: bool, s: string): (r: string)
    ensures |r| <= |s|
    decreases |s|
  {
    if s == [] then ""
    else
      match MarkerFrom(afterWord, s)
      case Some(n) => RemoveMarkers(IsWordChar(s[n - 1]), s[n..])
      case None => [s[0]] + RemoveMarkers(IsWordChar(s[0]), s[1..])
  }

  function RemovePageMarkers(s: string): (r: string)
    ensures |r| <= |s|
  {
    RemoveMarkers(false, s)
  }

  /** The scan only drops characters: a text whose whitespace is plain spaces keeps that property. */
  lemma {:induction false} RemoveMarkersKeepsBlanks(afterWord: bool, s: string)
    requires PlainBlanks(s)
    ensures PlainBlanks(RemoveMarkers(afterWord, s))
    decreases |s|
  {
    if s != [] {
      match MarkerFrom(afterWord, s)
      case Some(n) =>
        SkipStep(afterWord, s, n);
        BlanksOfSuffix(s, n);
        RemoveMarkersKeepsBlanks(IsWordChar(s[n - 1]), s[n..]);
      case None =>
        KeepStep(afterWord, s);
        BlanksOfSuffix(s, 1);
        RemoveMarkersKeepsBlanks(IsWordChar(s[0]), s[1..]);
        BlanksOfCons(s[0], RemoveMarkers(IsWordChar(s[0]), s[1..]));
    }
  }

  lemma BlanksOfSuffix(s: string, n: nat)
    requires n <= |s| && PlainBlanks(s)
    ensures PlainBlanks(s[n..])
  {
    forall k | 0 <= k < |s[n..]| ensures PlainBlank(s[n..][k]) { assert s[n..][k] == s[n + k]; }
  }

  lemma BlanksOfCons(c: char, r: string)
    requires PlainBlank(c) && PlainBlanks(r)
    ensures PlainBlanks([c] + r)
  {
    forall k | 0 <= k < |[c] + r| ensures PlainBlank(([c] + r)[k]) { if k > 0 { assert ([c] + r)[k] == r[k - 1]; } }
  }

  /** "Page N of M", with the gaps and the two words in any letter case. */
  predicate IsMarker(page: string, g1: string, n: string, g2: string, ofWord: string, g3: string, m: string) {
    && Lower(page) == "page" && Lower(ofWord) == "of"
    && g1 != [] && AllSpace(g1) && g2 != [] && AllSpace(g2) && g3 != [] && AllSpace(g3)
    && n != [] && AllDigits(n) && m != [] && AllDigits(m)
  }

  /**
   * A marker followed by a character that is not a word character is
   * matched whole. (The parts are grouped from the right, the way the match
   * consumes them.)
   */
  lemma MarkerLengthOfMarker(page: string, g1: string, n: string, g2: string, ofWord: string, g3: string, m: string, rest: string)
    returns (len: nat)
    requires IsMarker(page, g1, n, g2, ofWord, g3, m)
    requires rest == [] || !IsWordChar(rest[0])
    ensures len == |page| + |g1| + |n| + |g2| + |ofWord| + |g3| + |m|
    ensures var t := page + (g1 + (n + (g2 + (ofWord + (g3 + (m + rest))))));
      var r := MarkerLength(t);
      r.Some? && r.value == len && t[len..] == rest
  {
    var w3 := ofWord + (g3 + (m + rest));
    var w2 := g2 + w3;
    var w1 := n + w2;
    var s := page + (g1 + w1);
    PageWordPrefix(page, g1 + w1);
    assert w1[0] == n[0] && IsDigit(n[0]);
    AfterRunOf(g1, w1, IsSpace);
    assert w2[0] == g2[0] && IsSpace(g2[0]);
    AfterRunOf(n, w2, IsDigit);
    OfWordStart(ofWord);
    assert w3[0] == ofWord[0];
    AfterRunOf(g2, w3, IsSpace);
    assert AfterRun(s[4..], IsSpace) == Some(w1);
    OfLengthOfTail(s, ofWord, g3, m, rest);
    assert OfLength(s, w3) == Some(|s| - |rest|);
    assert AfterRun(w1, IsDigit) == Some(w2);
    assert AfterRun(w2, IsSpace) == Some(w3);
    assert MarkerLength(s) == OfLength(s, w3);
    len := |s| - |rest|;
    assert s[len..] == rest;
  }

  lemma OfLengthOfTail(start: string, ofWord: string, g3: string, m: string, rest: string)
    requires Lower(ofWord) == "of" && g3 != [] && AllSpace(g3) && m != [] && AllDigits(m)
    requires rest == [] || !IsWordChar(rest[0])
    requires |ofWord + (g3 + (m + rest))| < |start|
    ensures OfLength(start, ofWord + (g3 + (m + rest))) == Some(|start| - |rest|)
  {
    OfWordPrefix(ofWord, g3 + (m + rest));
    assert (m + rest)[0] == m[0] && IsDigit(m[0]);
    AfterRunOf(g3, m + rest, IsSpace);
    AfterRunOf(m, rest, IsDigit);
  }

  lemma PageWordPrefix(page: string, tail: string)
    requires Lower(page) == "page"
    ensures StartsIgnoringCase(page + tail, "page") && (page + tail)[4..] == tail
  {
    assert |page| == 4;
    assert forall k :: 0 <= k < 4 ==> Lower(page)[k] == LowerChar(page[k]);
    assert forall k :: 0 <= k < 4 ==> (page + tail)[k] == page[k];
  }

  lemma OfWordStart(ofWord: string)
    requires Lower(ofWord) == "of"
    ensures |ofWord| == 2 && LowerChar(ofWord[0]) == 'o'
  {
    assert Lower(ofWord)[0] == LowerChar(ofWord[0]);
  }

  lemma OfWordPrefix(ofWord: string, tail: string)
    requires Lower(ofWord) == "of"
    ensures StartsIgnoringCase(ofWord + tail, "of") && (ofWord + tail)[2..] == tail
  {
    assert |ofWord| == 2;
    assert forall k :: 0 <= k < 2 ==> Lower(ofWord)[k] == LowerChar(ofWord[k]);
    assert forall k :: 0 <= k < 2 ==> (ofWord + tail)[k] == ofWord[k];
  }

  /** Where no marker starts, the scan keeps the character and moves on. */
  lemma KeepStep(afterWord: bool, s: string)
    requires s != [] && MarkerFrom(afterWord, s) == None
    ensures RemoveMarkers(afterWord, s) == [s[0]] + RemoveMarkers(IsWordChar(s[0]), s[1..])
  {
  }

  /** A match is dropped whole. */
  lemma SkipStep(afterWord: bool, s: string, n: nat)
    requires s != [] && MarkerFrom(afterWord, s) == Some(n)
    ensures RemoveMarkers(afterWord, s) == RemoveMarkers(IsWordChar(s[n - 1]), s[n..])
  {
  }

  /** A marker starts with 'p' or 'P'. */
  lemma NoMarkerAtNonP(s: string)
    requires s != [] && LowerChar(s[0]) != 'p'
    ensures MarkerLength(s) == None
  {
  }

  /** Only a letter lower-cases to 'p'. */
  lemma NonWordIsNotP(c: char)
    requires !IsWordChar(c)
    ensures LowerChar(c) != 'p'
  {
  }

  /** No character of the text lower-cases to 'p'. */
  predicate WithoutP(s: string) {
    forall k :: 0 <= k < |s| ==> LowerChar(s[k]) != 'p'
  }

  /** Scanning text in which no letter 'p' occurs copies it. */
  lemma {:induction false} ScanPlain(afterWord: bool, pre: string, post: string)
    requires WithoutP(pre)
    ensures RemoveMarkers(afterWord, pre + post) ==
      pre + RemoveMarkers(if pre == [] then afterWord else IsWordChar(pre[|pre| - 1]), post)
    decreases |pre|
  {
    if pre == [] {
      assert pre + post == post;
    } else {
      var s := pre + post;
      assert s[0] == pre[0];
      TailOfAppend(pre, post);
      NoMarkerAtNonP(s);
      KeepStep(afterWord, s);
      ScanPlain(IsWordChar(pre[0]), pre[1..], post);
      var b := if pre[1..] == [] then IsWordChar(pre[0]) else IsWordChar(pre[1..][|pre[1..]| - 1]);
      assert b == IsWordChar(pre[|pre| - 1]);
      ConsAppend(pre, RemoveMarkers(b, post));
    }
  }

  lemma TailOfAppend(pre: string, post: string)
    requires pre != []
    ensures (pre + post)[1..] == pre[1..] + post
  {
  }

  lemma ConsAppend(pre: string, x: string)
    requires pre != []
    ensures [pre[0]] + (pre[1..] + x) == pre + x
  {
  }

  /** Where the text does not start with 'p', whether a word character came before does not matter. */
  lemma AfterWordIrrelevant(s: string)
    requires s == [] || LowerChar(s[0]) != 'p'
    ensures RemoveMarkers(true, s) == RemoveMarkers(false, s)
  {
    if s != [] {
      NoMarkerAtNonP(s);
      KeepStep(true, s);
      KeepStep(false, s);
    }
  }

  /**
   * A "Page N of M" marker standing between non-word characters is removed,
   * whatever text comes before and after it: the scan treats the text before
   * the marker and the text after it on their own.
   */
  lemma MarkerRemoved(pre: string, page: string, g1: string, n: string, g2: string, ofWord: string, g3: string,
                      m: string, post: string)
    requires IsMarker(page, g1, n, g2, ofWord, g3, m)
    requires EndsNonWord(pre)
    requires post == [] || !IsWordChar(post[0])
    ensures RemovePageMarkers(pre + (page + (g1 + (n + (g2 + (ofWord + (g3 + (m + post)))))))) ==
      RemovePageMarkers(pre) + RemovePageMarkers(post)
  {
    var tail := page + (g1 + (n + (g2 + (ofWord + (g3 + (m + post))))));
    MarkerStopsRuns(page, tail);
    ScanSplit(false, pre, tail);
    var len := MarkerLengthOfMarker(page, g1, n, g2, ofWord, g3, m, post);
    SkipStep(false, tail, len);
    if post != [] { NonWordIsNotP(post[0]); }
    AfterWordIrrelevant(post);
  }

  lemma MarkerStopsRuns(page: string, tail: string)
    requires Lower(page) == "page" && |page| <= |tail| && tail[..|page|] == page
    ensures StopsRuns(tail)
  {
    assert Lower(page)[0] == LowerChar(page[0]);
    assert tail[0] == page[0];
  }

  /** The text is empty or ends in a character that is not a word character. */
  predicate EndsNonWord(s: string) {
    s == [] || !IsWordChar(s[|s| - 1])
  }

  /** Text that continues neither a run of whitespace or digits nor the word "of". */
  predicate StopsRuns(y: string) {
    y == [] || (!IsSpace(y[0]) && !IsDigit(y[0]) && LowerChar(y[0]) != 'o')
  }

  /**
   * The scan over `pre + tail` is the scan over `pre` followed by the scan
   * over `tail`, when `pre` ends in a non-word character and `tail` cannot
   * continue a match begun in `pre`.
   */
  lemma {:induction false} ScanSplit(afterWord: bool, pre: string, tail: string)
    requires EndsNonWord(pre) && StopsRuns(tail)
    ensures RemoveMarkers(afterWord, pre + tail) ==
      RemoveMarkers(afterWord, pre) + RemoveMarkers(afterWord && pre == [], tail)
    decreases |pre|
  {
    if pre == [] {
      assert pre + tail == tail;
    } else {
      MarkerAppend(pre, tail);
      match MarkerFrom(afterWord, pre)
      case Some(k) =>
        SkipAppended(afterWord, pre, tail, k);
        SkipStep(afterWord, pre, k);
        EndsOfSuffix(pre, k);
        ScanSplit(IsWordChar(pre[k - 1]), pre[k..], tail);
        LastStep(IsWordChar(pre[k - 1]), pre, k);
      case None =>
        KeepAppended(afterWord, pre, tail);
        KeepStep(afterWord, pre);
        EndsOfSuffix(pre, 1);
        ScanSplit(IsWordChar(pre[0]), pre[1..], tail);
        LastStep(IsWordChar(pre[0]), pre, 1);
        AppendAssociates([pre[0]], RemoveMarkers(IsWordChar(pre[0]), pre[1..]), RemoveMarkers(false, tail));
    }
  }

  /** The keep step on `pre + tail`, in terms of `pre`. */
  lemma KeepAppended(afterWord: bool, pre: string, tail: string)
    requires pre != [] && MarkerFrom(afterWord, pre + tail) == None
    ensures RemoveMarkers(afterWord, pre + tail) == [pre[0]] + RemoveMarkers(IsWordChar(pre[0]), pre[1..] + tail)
  {
    KeepStep(afterWord, pre + tail);
    DropAppend(pre, tail, 1);
  }

  /** The skip step on `pre + tail`, for a match that ends inside `pre`. */
  lemma SkipAppended(afterWord: bool, pre: string, tail: string, k: nat)
    requires k <= |pre| && MarkerFrom(afterWord, pre + tail) == Some(k)
    ensures 0 < k && RemoveMarkers(afterWord, pre + tail) == RemoveMarkers(IsWordChar(pre[k - 1]), pre[k..] + tail)
  {
    SkipStep(afterWord, pre + tail, k);
    DropAppend(pre, tail, k);
  }

  /** A step that consumes the last character leaves the scan outside any word. */
  lemma LastStep(flag: bool, pre: string, k: nat)
    requires 0 < k <= |pre| && EndsNonWord(pre) && flag == IsWordChar(pre[k - 1])
    ensures !(flag && pre[k..] == [])
  {
    if pre[k..] == [] {
      assert k == |pre|;
    }
  }

  lemma EndsOfSuffix(s: string, k: nat)
    requires k <= |s| && EndsNonWord(s)
    ensures EndsNonWord(s[k..]) && (k < |s| ==> s[k..][|s[k..]| - 1] == s[|s| - 1])
  {
  }

  /** A match at the start of `x` neither grows nor appears when `y` follows. */
  lemma {:induction false} MarkerAppend(x: string, y: string)
    requires x != [] && EndsNonWord(x) && StopsRuns(y)
    ensures MarkerLength(x + y) == MarkerLength(x)
  {
    StartsAppend(x, y, "page");
    if StartsIgnoringCase(x, "page") {
      var u1 := x[4..];
      DropAppend(x, y, 4);
      EndsOfSuffix(x, 4);
      AfterRunAppend(u1, y, IsSpace);
      if AfterRun(u1, IsSpace).Some? {
        var t2 := AfterRun(u1, IsSpace).value;
        AfterRunEnds(u1, IsSpace);
        AfterRunAppend(t2, y, IsDigit);
        if AfterRun(t2, IsDigit).Some? {
          var t3 := AfterRun(t2, IsDigit).value;
          AfterRunEnds(t2, IsDigit);
          AfterRunAppend(t3, y, IsSpace);
          if AfterRun(t3, IsSpace).Some? {
            var t4 := AfterRun(t3, IsSpace).value;
            AfterRunEnds(t3, IsSpace);
            OfLengthAppend(x, t4, y);
          }
        }
      }
    }
  }

  lemma {:induction false} OfLengthAppend(x: string, t4: string, y: string)
    requires |t4| < |x| && EndsNonWord(t4) && StopsRuns(y)
    ensures OfLength(x + y, t4 + y) == OfLength(x, t4)
  {
    StartsAppend(t4, y, "of");
    if StartsIgnoringCase(t4, "of") {
      OfGapAppend(x, t4, y);
    }
  }

  lemma {:induction false} OfGapAppend(x: string, t4: string, y: string)
    requires |t4| < |x| && EndsNonWord(t4) && StopsRuns(y)
    requires StartsIgnoringCase(t4, "of") && StartsIgnoringCase(t4 + y, "of")
    ensures OfLength(x + y, t4 + y) == OfLength(x, t4)
  {
    var u5 := t4[2..];
    DropAppend(t4, y, 2);
    EndsOfSuffix(t4, 2);
    AfterRunAppend(u5, y, IsSpace);
    if AfterRun(u5, IsSpace).None? {
      OfWithoutGap(x, t4);
      OfWithoutGap(x + y, t4 + y);
    } else {
      AfterRunEnds(u5, IsSpace);
      OfDigitsAppend(x, t4, y, AfterRun(u5, IsSpace).value);
    }
  }

  lemma {:induction false} OfDigitsAppend(x: string, t4: string, y: string, t6: string)
    requires |t4| < |x| && EndsNonWord(t6) && StopsRuns(y)
    requires StartsIgnoringCase(t4, "of") && StartsIgnoringCase(t4 + y, "of")
    requires AfterRun(t4[2..], IsSpace) == Some(t6) && AfterRun((t4 + y)[2..], IsSpace) == Some(t6 + y)
    ensures OfLength(x + y, t4 + y) == OfLength(x, t4)
  {
    DigitsAppend(t6, y);
    if AfterRun(t6, IsDigit).None? {
      OfWithoutDigits(x, t4, t6);
      OfWithoutDigits(x + y, t4 + y, t6 + y);
    } else {
      var t7 := AfterRun(t6, IsDigit).value;
      OfWithDigits(x, t4, t6, t7);
      OfWithDigits(x + y, t4 + y, t6 + y, t7 + y);
    }
  }

  lemma OfWithoutGap(rest: string, t4: string)
    requires |t4| < |rest| && StartsIgnoringCase(t4, "of") && AfterRun(t4[2..], IsSpace).None?
    ensures OfLength(rest, t4) == None
  {
  }

  lemma OfWithoutDigits(rest: string, t4: string, t6: string)
    requires |t4| < |rest| && StartsIgnoringCase(t4, "of")
    requires AfterRun(t4[2..], IsSpace) == Some(t6) && AfterRun(t6, IsDigit).None?
    ensures OfLength(rest, t4) == None
  {
  }

  lemma OfWithDigits(rest: string, t4: string, t6: string, t7: string)
    requires |t4| < |rest| && StartsIgnoringCase(t4, "of")
    requires AfterRun(t4[2..], IsSpace) == Some(t6) && AfterRun(t6, IsDigit) == Some(t7)
    ensures OfLength(rest, t4) == if t7 != [] && IsWordChar(t7[0]) then None else Some(|rest| - |t7|)
  {
  }

  lemma DigitsAppend(t6: string, y: string)
    requires EndsNonWord(t6) && StopsRuns(y)
    ensures AfterRun(t6 + y, IsDigit).Some? <==> AfterRun(t6, IsDigit).Some?
    ensures AfterRun(t6, IsDigit).Some? ==>
      var t7 := AfterRun(t6, IsDigit).value;
      t7 != [] && AfterRun(t6 + y, IsDigit).value == t7 + y && (t7 + y)[0] == t7[0]
  {
    AfterRunAppend(t6, y, IsDigit);
    DigitRunLeaves(t6);
  }
  /** Whether text starts with a lower-case word does not depend on what follows, once the text ends in a non-word character. */
  lemma StartsAppend(u: string, y: string, word: string)
    requires word != [] && forall k :: 0 <= k < |word| ==> IsAsciiLower(word[k])
    requires EndsNonWord(u) && (u != [] || y == [] || LowerChar(y[0]) != word[0])
    ensures StartsIgnoringCase(u + y, word) == StartsIgnoringCase(u, word)
  {
    if |u| >= |word| {
      assert forall k :: 0 <= k < |word| ==> (u + y)[k] == u[k];
    } else if u != [] {
      var k := |u| - 1;
      assert (u + y)[k] == u[k] && LowerChar(u[k]) == u[k] && !IsAsciiLower(u[k]);
      assert IsAsciiLower(word[k]);
    } else {
      assert u + y == y;
    }
  }

  lemma {:induction false} RunLengthAppend(u: string, y: string, p: char -> bool)
    requires y == [] || !p(y[0])
    ensures RunLength(u + y, p) == RunLength(u, p)
    decreases |u|
  {
    if u == [] {
      assert u + y == y;
    } else {
      DropAppend(u, y, 1);
      RunLengthAppend(u[1..], y, p);
    }
  }

  lemma {:induction false} RunLengthHolds(s: string, p: char -> bool, k: nat)
    requires k < RunLength(s, p)
    ensures p(s[k])
    decreases k
  {
    if k > 0 {
      RunLengthHolds(s[1..], p, k - 1);
    }
  }

  /** A run stops where it stopped before `y` was added; what it leaves only gains `y`. */
  lemma AfterRunAppend(u: string, y: string, p: char -> bool)
    requires y == [] || !p(y[0])
    ensures AfterRun(u + y, p).Some? <==> AfterRun(u, p).Some?
    ensures AfterRun(u, p).Some? ==> AfterRun(u + y, p).value == AfterRun(u, p).value + y
  {
    RunLengthAppend(u, y, p);
    DropAppend(u, y, RunLength(u, p));
  }

  lemma AfterRunEnds(u: string, p: char -> bool)
    requires EndsNonWord(u) && AfterRun(u, p).Some?
    ensures EndsNonWord(AfterRun(u, p).value)
  {
    EndsOfSuffix(u, RunLength(u, p));
  }

  /** A run of digits cannot reach the end of text that ends in a non-word character. */
  lemma DigitRunLeaves(u: string)
    requires EndsNonWord(u)
    ensures AfterRun(u, IsDigit).Some? ==> AfterRun(u, IsDigit).value != []
  {
    var k := RunLength(u, IsDigit);
    if 0 < k && k == |u| {
      RunLengthHolds(u, IsDigit, k - 1);
    }
  }

  /** Text in which no letter 'p' occurs has no marker to remove. */
  lemma NoMarkerWithoutP(s: string)
    requires WithoutP(s)
    ensures RemovePageMarkers(s) == s
  {
    ScanPlain(false, s, []);
    assert s + [] == s;
  }

  // ---------------------------------------------------------------------------
  // `_clean_text`

  /**
   * The text that line 248 of `_clean_text` replaces. The `'''` there opens
   * a triple-quoted string, so the call replaces these fifteen characters
   * by an apostrophe. (Line 247 replaces `"` by `"`, which changes nothing.)
   */
  const QuoteLiteral: string := ", \"'\").replace("

  function NormaliseQuotes(s: string): string {
    ReplaceAll(s, QuoteLiteral, "'")
  }

  /** `_clean_text(text)` */
  function CleanText(text: string): (r: string)
    ensures |r| <= |text|
    ensures text == "" ==> r == ""
    ensures Strip(r) == r
    ensures PlainBlanks(r)
  {
    var collapsed := CollapseSpaces(text);
    CleanedFacts(collapsed);
    Strip(NormaliseQuotes(RemovePageMarkers(collapsed)))
  }

  /** Removing markers, replacing the literal and stripping keep every whitespace character plain, and leave nothing to strip. */
  lemma CleanedFacts(s: string)
    requires PlainBlanks(s)
    ensures Strip(Strip(NormaliseQuotes(RemovePageMarkers(s)))) == Strip(NormaliseQuotes(RemovePageMarkers(s)))
    ensures PlainBlanks(Strip(NormaliseQuotes(RemovePageMarkers(s))))
  {
    var replaced := NormaliseQuotes(RemovePageMarkers(s));
    StripIdempotent(replaced);
    RemovedBlanks(s);
    QuotesKeepBlanks(RemovePageMarkers(s));
    StripKeepsBlanks(replaced);
  }

  /** The replacement brings in an apostrophe, never whitespace. */
  lemma {:induction false} QuotesKeepBlanks(s: string)
    requires PlainBlanks(s)
    ensures PlainBlanks(NormaliseQuotes(s))
    decreases |s|
  {
    if s != [] {
      if QuoteLiteral <= s {
        BlanksOfSuffix(s, |QuoteLiteral|);
        QuotesKeepBlanks(s[|QuoteLiteral|..]);
        BlanksOfCons('\'', NormaliseQuotes(s[|QuoteLiteral|..]));
      } else {
        BlanksOfSuffix(s, 1);
        QuotesKeepBlanks(s[1..]);
        BlanksOfCons(s[0], NormaliseQuotes(s[1..]));
      }
    }
  }

  /** The literal holds a 'p', so text without one has nothing to replace. */
  lemma QuotesWithoutP(s: string)
    requires WithoutP(s)
    ensures NormaliseQuotes(s) == s
  {
    forall i | 0 <= i <= |s| - |QuoteLiteral| ensures !OccursAt(s, QuoteLiteral, i) {
      LiteralHasP(s, i);
    }
    ReplaceAbsent(s, QuoteLiteral, "'");
  }

  lemma LiteralHasP(s: string, i: nat)
    requires i + |QuoteLiteral| <= |s|
    ensures OccursAt(s, QuoteLiteral, i) ==> LowerChar(s[i + 9]) == 'p'
  {
    assert QuoteLiteral[9] == 'p';
    assert s[i..i + |QuoteLiteral|][9] == s[i + 9];
  }

  /** The first occurrence of the literal, after text without a comma, becomes an apostrophe; the rest is scanned on. */
  lemma QuoteLiteralReplaced(pre: string, post: string)
    requires forall k :: 0 <= k < |pre| ==> pre[k] != ','
    ensures NormaliseQuotes(pre + QuoteLiteral + post) == pre + "'" + NormaliseQuotes(post)
  {
    assert QuoteLiteral[0] == ',';
    ReplaceFirst(pre, QuoteLiteral, post, "'");
  }

  lemma RemovedBlanks(s: string)
    requires PlainBlanks(s)
    ensures PlainBlanks(RemovePageMarkers(s))
  {
    RemoveMarkersKeepsBlanks(false, s);
  }

  /** `strip` keeps a property every whitespace character of the text has: being a plain space. */
  lemma StripKeepsBlanks(s: string)
    requires PlainBlanks(s)
    ensures PlainBlanks(Strip(s))
  {
    var a := StripInfix(s);
    forall i | 0 <= i < |Strip(s)| ensures Strip(s)[i] == s[a + i] {
      assert Strip(s)[i] == s[a..a + |Strip(s)|][i];
    }
  }

  /** Without a marker, cleaning collapses whitespace and trims: the result is single-spaced and keeps every other character. */
  lemma CleanTextWithoutMarker(text: string)
    requires WithoutP(text)
    ensures CleanText(text) == Strip(CollapseSpaces(text))
    ensures SingleSpaced(CleanText(text))
    ensures Filter(CleanText(text), NotSpace) == Filter(text, NotSpace)
  {
    CleanWithoutMarkerStrips(text);
    StripSingleSpaced(CollapseSpaces(text));
    CollapseKeepsText(text);
    FilterStrip(CollapseSpaces(text));
  }

  lemma CleanWithoutMarkerStrips(text: string)
    requires WithoutP(text)
    ensures CleanText(text) == Strip(CollapseSpaces(text))
  {
    var collapsed := CollapseSpaces(text);
    CollapseWithoutP(text);
    NoMarkerWithoutP(collapsed);
    QuotesWithoutP(collapsed);
  }

  /**
   * A "Page N of M" marker in the whitespace-collapsed text, standing
   * between non-word characters, is gone from the cleaned text; when the
   * text around it holds no 'p', that text is all that is left, stripped.
   */
  lemma CleanTextDropsMarker(text: string, pre: string, page: string, g1: string, n: string, g2: string,
                             ofWord: string, g3: string, m: string, post: string)
    requires CollapseSpaces(text) == pre + (page + (g1 + (n + (g2 + (ofWord + (g3 + (m + post)))))))
    requires IsMarker(page, g1, n, g2, ofWord, g3, m)
    requires EndsNonWord(pre) && (post == [] || !IsWordChar(post[0]))
    ensures CleanText(text) == Strip(NormaliseQuotes(RemovePageMarkers(pre) + RemovePageMarkers(post)))
    ensures WithoutP(pre) && WithoutP(post) ==> CleanText(text) == Strip(pre + post)
  {
    MarkerRemoved(pre, page, g1, n, g2, ofWord, g3, m, post);
    if WithoutP(pre) && WithoutP(post) {
      NoMarkerWithoutP(pre);
      NoMarkerWithoutP(post);
      assert WithoutP(pre + post);
      QuotesWithoutP(pre + post);
    }
  }

  /** Stripping single-spaced text leaves it single-spaced. */
  lemma StripSingleSpaced(s: string)
    requires SingleSpaced(s)
    ensures SingleSpaced(Strip(s))
  {
    var a := StripInfix(s);
    SingleSpacedInfix(s, a, Strip(s));
  }

  lemma SingleSpacedInfix(s: string, a: nat, r: string)
    requires SingleSpaced(s) && a + |r| <= |s| && s[a..a + |r|] == r
    ensures SingleSpaced(r)
  {
    SingleSpacedSlice(s, a, a + |r|);
  }

  /** Collapsing whitespace brings in no 'p': it adds only spaces. */
  lemma {:induction false} CollapseWithoutP(s: string)
    requires WithoutP(s)
    ensures WithoutP(CollapseSpaces(s))
    decreases |s|
  {
    if s != [] {
      if IsSpace(s[0]) {
        var rest := TrimStart(s);
        assert TrimStart(s) == TrimStart(s[1..]);
        WithoutPSuffix(s, |s| - |rest|);
        CollapseWithoutP(rest);
        WithoutPCons(' ', CollapseSpaces(rest));
      } else {
        WithoutPSuffix(s, 1);
        CollapseWithoutP(s[1..]);
        WithoutPCons(s[0], CollapseSpaces(s[1..]));
      }
    }
  }

  lemma WithoutPSuffix(s: string, n: nat)
    requires WithoutP(s) && n <= |s|
    ensures WithoutP(s[n..])
  {
    forall k | 0 <= k < |s| - n ensures LowerChar(s[n..][k]) != 'p' {
      assert s[n..][k] == s[n + k];
    }
  }

  lemma WithoutPCons(c: char, t: string)
    requires LowerChar(c) != 'p' && WithoutP(t)
    ensures WithoutP([c] + t)
  {
    forall k | 0 < k <= |t| ensures LowerChar(([c] + t)[k]) != 'p' {
      assert ([c] + t)[k] == t[k - 1];
    }
  }

  /** `strip` removes only whitespace. */
  lemma FilterStrip(s: string)
    ensures Filter(Strip(s), NotSpace) == Filter(s, NotSpace)
  {
    var a := StripInfix(s);
    var e := a + |Strip(s)|;
    SliceThree(s, a, e);
    FilterBetweenSpace(s[..a], s[a..e], s[e..]);
  }

  lemma SliceThree(s: string, a: nat, e: nat)
    requires a <= e <= |s|
    ensures s == s[..a] + s[a..e] + s[e..]
  {
  }

  lemma FilterBetweenSpace(p: string, r: string, q: string)
    requires AllSpace(p) && AllSpace(q)
    ensures Filter(p + r + q, NotSpace) == Filter(r, NotSpace)
  {
    FilterAppend(p + r, q, NotSpace);
    FilterAppend(p, r, NotSpace);
    FilterAllSpace(p);
    FilterAllSpace(q);
  }

  lemma {:induction false} FilterAllSpace(s: string)
    requires AllSpace(s)
    ensures Filter(s, NotSpace) == []
    decreases |s|
  {
    if s != [] {
      FilterAllSpace(s[1..]);
    }
  }

  // ---------------------------------------------------------------------------
  // `_split_into_sentences`

  predicate IsTerminal(c: char) { c == '.' || c == '!' || c == '?' }

  /** Whether `(?<=[.!?])\s+` matches at `i`. */
  predicate CutsAt(s: string, i: nat) {
    0 < i < |s| && IsTerminal(s[i - 1]) && IsSpace(s[i])
  }

  /**
   * `re.split(r'(?<=[.!?])\s+', s)`, scanning from `i` with the current
   * piece starting at `start`: a match ends the piece and the next one
   * starts after the match's whole whitespace run.
   */
  function SplitPieces(s: string, start: nat, i: nat): (r: seq<string>)
    requires start <= i <= |s|
    ensures r != []
    decreases |s| - i
  {
    if i == |s| then [s[start..]]
    else if CutsAt(s, i) then
      var j := Span(s, i, IsSpace);
      [s[start..i]] + SplitPieces(s, j, j)
    else SplitPieces(s, start, i + 1)
  }

  predicate NotBlank(s: string) { Strip(s) != "" }

  /** `_split_into_sentences(text)`: the pieces, stripped, without the blank ones. */
  function SplitIntoSentences(text: string): (r: seq<string>)
    ensures forall k :: 0 <= k < |r| ==> r[k] != "" && Strip(r[k]) == r[k]
  {
    var kept := Filter(SplitPieces(text, 0, 0), NotBlank);
    var r := Map(kept, Strip);
    forall k | 0 <= k < |r| ensures r[k] != "" && Strip(r[k]) == r[k] {
      StripIdempotent(kept[k]);
    }
    r
  }

  lemma SentencesOfEmpty()
    ensures SplitIntoSentences("") == []
  {
    assert SplitPieces("", 0, 0) == [""];
    assert Filter([""], NotBlank) == [];
  }

  lemma {:induction false} PiecesWithoutCut(s: string, i: nat)
    requires i <= |s|
    requires forall k :: i <= k < |s| ==> !CutsAt(s, k)
    ensures SplitPieces(s, 0, i) == [s]
    decreases |s| - i
  {
    if i < |s| {
      PiecesWithoutCut(s, i + 1);
    }
  }

  /** Text without whitespace after terminal punctuation is one sentence, or none when it is blank. */
  lemma SentencesWithoutCut(s: string)
    requires forall k :: 0 <= k < |s| ==> !CutsAt(s, k)
    ensures SplitIntoSentences(s) == if Strip(s) == "" then [] else [Strip(s)]
  {
    PiecesWithoutCut(s, 0);
    assert Filter([s], NotBlank) == if NotBlank(s) then [s] else [];
  }

  /** Text with no whitespace at either end. */
  predicate IsTrimmed(s: string) {
    s == [] || (!IsSpace(s[0]) && !IsSpace(s[|s| - 1]))
  }

  /** Every cut is a single space followed by text. */
  predicate OneSpaceCuts(s: string) {
    forall i :: 0 <= i < |s| && CutsAt(s, i) ==> s[i] == ' ' && i + 1 < |s| && Span(s, i, IsSpace) == i + 1
  }

  lemma OneSpaceCutsOfClean(s: string)
    requires IsTrimmed(s) && SingleSpaced(s)
    ensures OneSpaceCuts(s)
  {
    forall i | 0 <= i < |s| && CutsAt(s, i) ensures s[i] == ' ' && i + 1 < |s| && Span(s, i, IsSpace) == i + 1 {
      CleanCut(s, i);
    }
  }

  /** Where every cut is one space, joining the pieces with spaces gives the text back. */
  lemma {:induction false} JoinPieces(s: string, start: nat, i: nat)
    requires OneSpaceCuts(s) && start <= i <= |s|
    ensures Join(" ", SplitPieces(s, start, i)) == s[start..]
    decreases |s| - i
  {
    if i < |s| {
      if CutsAt(s, i) {
        JoinPieces(s, i + 1, i + 1);
        JoinAtCut(s, start, i);
      } else {
        JoinPieces(s, start, i + 1);
      }
    }
  }

  /** In trimmed text whose cuts are single spaces, every piece is non-empty and stripped. */
  lemma {:induction false} StrippedPieces(s: string, start: nat, i: nat)
    requires IsTrimmed(s) && OneSpaceCuts(s)
    requires start <= i <= |s| && start < |s| && !IsSpace(s[start])
    ensures AllStripped(SplitPieces(s, start, i))
    decreases |s| - i
  {
    if i == |s| {
      LastPieceStripped(s, start);
    } else if CutsAt(s, i) {
      assert Span(s, i, IsSpace) == i + 1;
      StrippedPieces(s, i + 1, i + 1);
      StrippedAtCut(s, start, i);
    } else {
      StrippedPieces(s, start, i + 1);
    }
  }

  lemma LastPieceStripped(s: string, start: nat)
    requires IsTrimmed(s) && start < |s| && !IsSpace(s[start])
    ensures AllStripped(SplitPieces(s, start, |s|))
  {
    SuffixStripped(s, start);
    LastPiece(s, start);
  }

  lemma SuffixStripped(s: string, start: nat)
    requires IsTrimmed(s) && start < |s| && !IsSpace(s[start])
    ensures AllStripped([s[start..]])
  {
    var x := s[start..];
    assert x[0] == s[start] && x[|x| - 1] == s[|s| - 1];
    StripOfSpaceFree(x);
    OneStripped(x);
  }

  lemma OneStripped(x: string)
    requires x != "" && Strip(x) == x
    ensures AllStripped([x])
  {
  }

  lemma LastPiece(s: string, start: nat)
    requires start <= |s| && AllStripped([s[start..]])
    ensures AllStripped(SplitPieces(s, start, |s|))
  {
    assert SplitPieces(s, start, |s|) == [s[start..]];
  }

  /** The pieces from a one-space cut on, joined: the piece before it, the space, then the rest. */
  lemma JoinAtCut(s: string, start: nat, i: nat)
    requires start <= i && i + 1 < |s| && CutsAt(s, i) && s[i] == ' ' && Span(s, i, IsSpace) == i + 1
    requires Join(" ", SplitPieces(s, i + 1, i + 1)) == s[i + 1..]
    ensures Join(" ", SplitPieces(s, start, i)) == s[start..]
  {
    CutStep(s, start, i);
    JoinCons(" ", s[start..i], SplitPieces(s, i + 1, i + 1));
    SplitAround(s, start, i);
  }

  /** The pieces from a one-space cut on are stripped when the piece before it and those after it are. */
  lemma StrippedAtCut(s: string, start: nat, i: nat)
    requires start <= i && i + 1 < |s| && CutsAt(s, i) && Span(s, i, IsSpace) == i + 1
    requires !IsSpace(s[start]) && AllStripped(SplitPieces(s, i + 1, i + 1))
    ensures AllStripped(SplitPieces(s, start, i))
  {
    CutStep(s, start, i);
    assert i > start;
    assert !IsSpace(s[i - 1]);
    SliceTrimmed(s, start, i);
    PiecesCons(s[start..i], SplitPieces(s, i + 1, i + 1));
  }

  lemma SliceTrimmed(s: string, start: nat, i: nat)
    requires start < i <= |s| && !IsSpace(s[start]) && !IsSpace(s[i - 1])
    ensures s[start..i] != "" && Strip(s[start..i]) == s[start..i]
  {
    var piece := s[start..i];
    assert piece[0] == s[start] && piece[|piece| - 1] == s[i - 1];
    StripOfSpaceFree(piece);
  }

  /** In trimmed single-spaced text a cut is one plain space with text after it. */
  lemma CleanCut(s: string, i: nat)
    requires IsTrimmed(s) && SingleSpaced(s) && CutsAt(s, i)
    ensures s[i] == ' ' && i + 1 < |s| && Span(s, i, IsSpace) == i + 1
  {
    assert PlainBlank(s[i]);
    assert !DoubleSpaceAt(s, i);
    assert Span(s, i + 1, IsSpace) == i + 1;
  }

  /** A cut whose whitespace is one character ends the piece there. */
  lemma CutStep(s: string, start: nat, i: nat)
    requires start <= i && i + 1 < |s| && CutsAt(s, i) && Span(s, i, IsSpace) == i + 1
    ensures SplitPieces(s, start, i) == [s[start..i]] + SplitPieces(s, i + 1, i + 1)
  {
  }

  /** Every part is non-empty and has no whitespace at either end. */
  predicate AllStripped(ps: seq<string>) {
    forall k :: 0 <= k < |ps| ==> ps[k] != "" && Strip(ps[k]) == ps[k]
  }

  lemma PiecesCons(piece: string, rest: seq<string>)
    requires piece != "" && Strip(piece) == piece && AllStripped(rest)
    ensures AllStripped([piece] + rest)
  {
    forall k | 0 <= k < |[piece] + rest|
      ensures ([piece] + rest)[k] != "" && Strip(([piece] + rest)[k]) == ([piece] + rest)[k]
    {
      if k > 0 { assert ([piece] + rest)[k] == rest[k - 1]; }
    }
  }

  lemma JoinCons(sep: string, p: string, rest: seq<string>)
    requires rest != []
    ensures Join(sep, [p] + rest) == p + sep + Join(sep, rest)
  {
    assert ([p] + rest)[1..] == rest;
  }

  lemma SplitAround(s: string, start: nat, i: nat)
    requires start <= i < |s| && s[i] == ' '
    ensures s[start..] == s[start..i] + " " + s[i + 1..]
  {
  }

  lemma {:induction false} FilterAll<T>(xs: seq<T>, p: T -> bool)
    requires forall k :: 0 <= k < |xs| ==> p(xs[k])
    ensures Filter(xs, p) == xs
    decreases |xs|
  {
    if xs != [] {
      FilterAll(xs[1..], p);
    }
  }

  /** Cleaned text comes back from its sentences when they are joined with single spaces. */
  lemma SentencesRoundTrip(t: string)
    requires IsTrimmed(t) && SingleSpaced(t)
    ensures Join(" ", SplitIntoSentences(t)) == t
  {
    if t == [] {
      SentencesOfEmpty();
    } else {
      OneSpaceCutsOfClean(t);
      JoinPieces(t, 0, 0);
      assert t[0..] == t;
      StrippedPieces(t, 0, 0);
      SentencesOfStripped(SplitPieces(t, 0, 0));
    }
  }

  /** Pieces that are already stripped and non-blank pass through unchanged. */
  lemma SentencesOfStripped(ps: seq<string>)
    requires AllStripped(ps)
    ensures Map(Filter(ps, NotBlank), Strip) == ps
  {
    FilterAll(ps, NotBlank);
    assert Map(ps, Strip) == ps;
  }

  // ---------------------------------------------------------------------------
  // Joining sentences and splitting them again

  /** No whitespace follows terminal punctuation inside `p`. */
  predicate NoCut(p: string) {
    forall k :: 0 <= k < |p| ==> !CutsAt(p, k)
  }

  predicate EndsTerminal(p: string) {
    p != [] && IsTerminal(p[|p| - 1])
  }

  /**
   * Sentences that splitting would give back: each non-empty, stripped and
   * without a cut inside, and each but the last ending in '.', '!' or '?'.
   */
  predicate Splittable(ps: seq<string>) {
    && AllStripped(ps)
    && (forall k :: 0 <= k < |ps| ==> NoCut(ps[k]))
    && (forall k :: 0 <= k < |ps| - 1 ==> EndsTerminal(ps[k]))
  }

  /** Such sentences, joined with single spaces, split back into themselves ("A. B. C." into "A.", "B." and "C."). */
  lemma SentencesOfJoin(ps: seq<string>)
    requires Splittable(ps)
    ensures SplitIntoSentences(Join(" ", ps)) == ps
  {
    if ps == [] {
      SentencesOfEmpty();
    } else {
      PiecesOfJoin(ps);
      SentencesOfStripped(ps);
    }
  }

  lemma {:induction false} PiecesOfJoin(ps: seq<string>)
    requires ps != [] && Splittable(ps)
    ensures SplitPieces(Join(" ", ps), 0, 0) == ps
    decreases |ps|
  {
    if |ps| == 1 {
      PiecesOfOne(ps);
    } else {
      var p, tail := ps[0], ps[1..];
      SplittableTail(ps);
      PiecesOfJoin(tail);
      ConsTail(ps);
      PiecesOfJoinStep(p, tail);
    }
  }

  lemma PiecesOfOne(ps: seq<string>)
    requires |ps| == 1 && NoCut(ps[0])
    ensures SplitPieces(Join(" ", ps), 0, 0) == ps
  {
    PiecesWithoutCut(ps[0], 0);
    assert ps == [ps[0]];
  }

  lemma PiecesOfJoinStep(p: string, tail: seq<string>)
    requires p != [] && NoCut(p) && EndsTerminal(p)
    requires tail != [] && AllStripped(tail) && SplitPieces(Join(" ", tail), 0, 0) == tail
    ensures SplitPieces(Join(" ", [p] + tail), 0, 0) == [p] + tail
  {
    JoinStart(tail);
    JoinCons(" ", p, tail);
    CutAfterSentence(p, Join(" ", tail));
  }

  lemma SplittableTail(ps: seq<string>)
    requires |ps| > 1 && Splittable(ps)
    ensures Splittable(ps[1..])
    ensures ps[0] != [] && NoCut(ps[0]) && EndsTerminal(ps[0])
  {
    assert ps[0] != "" && Strip(ps[0]) == ps[0];
    var tail := ps[1..];
    forall k | 0 <= k < |tail| ensures tail[k] != "" && Strip(tail[k]) == tail[k] && NoCut(tail[k]) {
      assert tail[k] == ps[k + 1];
    }
    forall k | 0 <= k < |tail| - 1 ensures EndsTerminal(tail[k]) {
      assert tail[k] == ps[k + 1];
    }
  }

  /** Joined stripped sentences start where the first one does. */
  lemma JoinStart(ps: seq<string>)
    requires ps != [] && AllStripped(ps)
    ensures Join(" ", ps) != [] && !IsSpace(Join(" ", ps)[0])
  {
    var p := ps[0];
    assert p != "" && Strip(p) == p;
    StripStart(p);
    if |ps| > 1 {
      assert Join(" ", ps) == p + " " + Join(" ", ps[1..]);
      assert Join(" ", ps)[0] == p[0];
    }
  }

  lemma StripStart(p: string)
    requires p != "" && Strip(p) == p
    ensures !IsSpace(p[0])
  {
    var a := StripInfix(p);
    assert InfixAmongSpace(p, a, p);
  }

  /** A sentence, one space and more text: the sentence is the first piece and the rest splits on its own. */
  lemma CutAfterSentence(p: string, r: string)
    requires p != [] && NoCut(p) && EndsTerminal(p) && r != [] && !IsSpace(r[0])
    ensures SplitPieces(p + " " + r, 0, 0) == [p] + SplitPieces(r, 0, 0)
  {
    var x := p + " ";
    var s := x + r;
    assert s == p + " " + r;
    ScanToCut(p, r, 0);
    assert CutsAt(s, |p|) by { assert s[|p| - 1] == p[|p| - 1] && s[|p|] == ' '; }
    assert Span(s, |p| + 1, IsSpace) == |p| + 1 by { assert s[|p| + 1] == r[0]; }
    assert Span(s, |p|, IsSpace) == |p| + 1;
    assert s[0..|p|] == p;
    assert |x| == |p| + 1 && x[|x| - 1] == ' ';
    ShiftPieces(x, r, 0, 0);
  }

  /** Inside the sentence there is no cut, so the scan reaches the space after it with the piece still open. */
  lemma {:induction false} ScanToCut(p: string, r: string, i: nat)
    requires i <= |p| && NoCut(p)
    ensures SplitPieces(p + " " + r, 0, i) == SplitPieces(p + " " + r, 0, |p|)
    decreases |p| - i
  {
    if i < |p| {
      var s := p + " " + r;
      assert !CutsAt(s, i) by {
        assert !CutsAt(p, i);
        assert s[i] == p[i];
        if i > 0 { assert s[i - 1] == p[i - 1]; }
      }
      ScanToCut(p, r, i + 1);
    }
  }

  /** Scanning text behind a prefix that does not end in terminal punctuation is scanning the text alone. */
  lemma {:induction false} ShiftPieces(x: string, y: string, start: nat, i: nat)
    requires start <= i <= |y| && (x == [] || !IsTerminal(x[|x| - 1]))
    ensures SplitPieces(x + y, |x| + start, |x| + i) == SplitPieces(y, start, i)
    decreases |y| - i
  {
    if i == |y| {
      ShiftAtEnd(x, y, start);
    } else {
      CutsShift(x, y, i);
      if CutsAt(y, i) {
        var j := Span(y, i, IsSpace);
        SpanShift(x, y, i);
        ShiftPieces(x, y, j, j);
        ShiftAtCut(x, y, start, i, j);
      } else {
        ShiftPieces(x, y, start, i + 1);
        ShiftPast(x, y, start, i);
      }
    }
  }

  lemma ShiftAtEnd(x: string, y: string, start: nat)
    requires start <= |y|
    ensures SplitPieces(x + y, |x| + start, |x| + |y|) == SplitPieces(y, start, |y|)
  {
    var s := x + y;
    assert |s| == |x| + |y|;
    PiecesAtEnd(s, |x| + start);
    PiecesAtEnd(y, start);
    ShiftSlice(x, y, start, |y|);
    assert s[|x| + start..] == y[start..];
  }

  lemma ShiftAtCut(x: string, y: string, start: nat, i: nat, j: nat)
    requires start <= i < |y| && CutsAt(y, i) && CutsAt(x + y, |x| + i)
    requires j == Span(y, i, IsSpace) && Span(x + y, |x| + i, IsSpace) == |x| + j
    requires SplitPieces(x + y, |x| + j, |x| + j) == SplitPieces(y, j, j)
    ensures SplitPieces(x + y, |x| + start, |x| + i) == SplitPieces(y, start, i)
  {
    var s := x + y;
    PiecesAtCut(s, |x| + start, |x| + i, |x| + j);
    PiecesAtCut(y, start, i, j);
    ShiftSlice(x, y, start, i);
    SameConsTail(SplitPieces(s, |x| + start, |x| + i), SplitPieces(y, start, i),
                 s[|x| + start..|x| + i], SplitPieces(s, |x| + j, |x| + j));
  }

  lemma SameConsTail<T>(a: seq<T>, b: seq<T>, h: T, t: seq<T>)
    requires a == [h] + t && b == [h] + t
    ensures a == b
  {
  }

  lemma ShiftPast(x: string, y: string, start: nat, i: nat)
    requires start <= i < |y| && !CutsAt(y, i) && !CutsAt(x + y, |x| + i)
    requires SplitPieces(x + y, |x| + start, |x| + i + 1) == SplitPieces(y, start, i + 1)
    ensures SplitPieces(x + y, |x| + start, |x| + i) == SplitPieces(y, start, i)
  {
    PiecesPast(x + y, |x| + start, |x| + i);
    PiecesPast(y, start, i);
  }

  lemma ShiftSlice(x: string, y: string, a: nat, b: nat)
    requires a <= b <= |y|
    ensures (x + y)[|x| + a..|x| + b] == y[a..b]
  {
  }

  lemma PiecesAtEnd(s: string, start: nat)
    requires start <= |s|
    ensures SplitPieces(s, start, |s|) == [s[start..]]
  {
  }

  lemma PiecesAtCut(s: string, start: nat, i: nat, j: nat)
    requires start <= i < |s| && CutsAt(s, i) && j == Span(s, i, IsSpace)
    ensures j <= |s| && SplitPieces(s, start, i) == [s[start..i]] + SplitPieces(s, j, j)
  {
  }

  lemma PiecesPast(s: string, start: nat, i: nat)
    requires start <= i < |s| && !CutsAt(s, i)
    ensures SplitPieces(s, start, i) == SplitPieces(s, start, i + 1)
  {
  }

  lemma CutsShift(x: string, y: string, i: nat)
    requires i < |y| && (x == [] || !IsTerminal(x[|x| - 1]))
    ensures CutsAt(x + y, |x| + i) <==> CutsAt(y, i)
  {
    var s := x + y;
    assert s[|x| + i] == y[i];
    if i > 0 {
      assert s[|x| + i - 1] == y[i - 1];
    } else if |x| > 0 {
      assert s[|x| - 1] == x[|x| - 1];
    }
  }

  lemma {:induction false} SpanShift(x: string, y: string, i: nat)
    requires i <= |y|
    ensures Span(x + y, |x| + i, IsSpace) == |x| + Span(y, i, IsSpace)
    decreases |y| - i
  {
    if i < |y| {
      assert (x + y)[|x| + i] == y[i];
      SpanShift(x, y, i + 1);
    }
  }
}
