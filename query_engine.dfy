/**
 * The deterministic parts of `QueryEngine`: the keyword classification of a
 * question (`_classify_intent`) and the three text fragments
 * `_generate_response` assembles before it calls the language model — the
 * numbered sources, the available metrics and the recent conversation.
 */
module QueryEngine {
  import opened Wrappers
  import opened Strings
  import opened Selection

  // ---------------------------------------------------------------------------
  // Intent

  /** The four answers `_classify_intent` gives. */
  datatype Intent = Calculation | Definition | Retrieval | General {
    /** The string the source returns for the intent. */
    function Name(): string {
      match this
      case Calculation => "calculation"
      case Definition => "definition"
      case Retrieval => "retrieval"
      case General => "general"
    }
  }

  const CalcKeywords: seq<string> := ["calculate", "what is the", "current", "dpi", "irr", "tvpi",
                                      "rvpi", "pic", "paid-in capital", "return", "performance"]
  const DefKeywords: seq<string> := ["what does", "mean", "define", "explain", "definition",
                                     "what is a", "what are"]
  const RetKeywords: seq<string> := ["show me", "list", "all", "find", "search", "when",
                                     "how many", "which"]

  /** `_classify_intent(query)`: the first keyword list, in this order, with a keyword in the lower-cased query. */
  function ClassifyIntent(query: string): (r: Intent)
    ensures r == Calculation <==> ContainsAny(Lower(query), CalcKeywords)
    ensures r == Definition <==>
      !ContainsAny(Lower(query), CalcKeywords) && ContainsAny(Lower(query), DefKeywords)
    ensures r == Retrieval <==>
      !ContainsAny(Lower(query), CalcKeywords) && !ContainsAny(Lower(query), DefKeywords)
      && ContainsAny(Lower(query), RetKeywords)
    ensures r == General <==>
      !ContainsAny(Lower(query), CalcKeywords) && !ContainsAny(Lower(query), DefKeywords)
      && !ContainsAny(Lower(query), RetKeywords)
  {
    var q := Lower(query);
    if ContainsAny(q, CalcKeywords) then Calculation
    else if ContainsAny(q, DefKeywords) then Definition
    else if ContainsAny(q, RetKeywords) then Retrieval
    else General
  }

  /** Text without an ASCII capital. */
  predicate LowerCaseText(s: string) {
    forall i :: 0 <= i < |s| ==> !IsAsciiUpper(s[i])
  }

  predicate AllLowerCase(ks: seq<string>) {
    forall j :: 0 <= j < |ks| ==> LowerCaseText(ks[j])
  }

  lemma LowerOfLowerCase(s: string)
    requires LowerCaseText(s)
    ensures Lower(s) == s
  {
  }

  /** Every keyword is written in lower case, so it can match the lower-cased query. */
  lemma KeywordsLowerCase()
    ensures AllLowerCase(CalcKeywords) && AllLowerCase(DefKeywords) && AllLowerCase(RetKeywords)
  {
    CalcKeywordsLowerCase();
    DefKeywordsLowerCase();
    RetKeywordsLowerCase();
  }

  lemma CalcKeywordsLowerCase()
    ensures AllLowerCase(CalcKeywords)
  {
  }

  lemma DefKeywordsLowerCase()
    ensures AllLowerCase(DefKeywords)
  {
  }

  lemma RetKeywordsLowerCase()
    ensures AllLowerCase(RetKeywords)
  {
  }

  /** A keyword in lower case occurs in the lower-cased text wherever it is written, in any case. */
  lemma KeywordFound(a: string, k: string, b: string)
    requires LowerCaseText(k)
    ensures Contains(Lower(a + k + b), k)
  {
    LowerAppend(a + k, b);
    LowerAppend(a, k);
    LowerOfLowerCase(k);
    ContainsSelf(k);
    ContainsExtend(Lower(a), k, Lower(b), k);
  }

  /** The classification ignores case: a query and its upper-cased form have the same intent. */
  lemma IntentIgnoresCase(query: string)
    ensures ClassifyIntent(Upper(query)) == ClassifyIntent(query)
  {
    LowerOfUpper(query);
  }

  /** A calculation keyword anywhere in the query, even inside a longer word, makes it a calculation. */
  lemma CalculationKeywordWins(a: string, j: nat, b: string)
    requires j < |CalcKeywords|
    ensures ClassifyIntent(a + CalcKeywords[j] + b) == Calculation
  {
    KeywordsLowerCase();
    KeywordFound(a, CalcKeywords[j], b);
  }

  /** Without a calculation keyword, a definition keyword anywhere makes the query a definition. */
  lemma DefinitionKeyword(a: string, j: nat, b: string)
    requires j < |DefKeywords|
    requires !ContainsAny(Lower(a + DefKeywords[j] + b), CalcKeywords)
    ensures ClassifyIntent(a + DefKeywords[j] + b) == Definition
  {
    KeywordsLowerCase();
    KeywordFound(a, DefKeywords[j], b);
  }

  /** Without a calculation or definition keyword, a retrieval keyword anywhere makes the query a retrieval. */
  lemma RetrievalKeyword(a: string, j: nat, b: string)
    requires j < |RetKeywords|
    requires !ContainsAny(Lower(a + RetKeywords[j] + b), CalcKeywords)
    requires !ContainsAny(Lower(a + RetKeywords[j] + b), DefKeywords)
    ensures ClassifyIntent(a + RetKeywords[j] + b) == Retrieval
  {
    KeywordsLowerCase();
    KeywordFound(a, RetKeywords[j], b);
  }

  /** Adding text to a query never lowers its intent in the order calculation, definition, retrieval, general. */
  lemma ExtendingKeepsIntent(a: string, query: string, b: string)
    ensures ClassifyIntent(query) == Calculation ==> ClassifyIntent(a + query + b) == Calculation
    ensures ClassifyIntent(query) != General ==> ClassifyIntent(a + query + b) != General
  {
    LowerAppend(a + query, b);
    LowerAppend(a, query);
    var q := Lower(query);
    if ContainsAny(q, CalcKeywords) {
      ContainsAnyExtend(Lower(a), q, Lower(b), CalcKeywords);
    }
    if ContainsAny(q, DefKeywords) {
      ContainsAnyExtend(Lower(a), q, Lower(b), DefKeywords);
    }
    if ContainsAny(q, RetKeywords) {
      ContainsAnyExtend(Lower(a), q, Lower(b), RetKeywords);
    }
  }

  // ---------------------------------------------------------------------------
  // Sources

  /** The number of retrieved sources given to the model. */
  const TopSourceCount := 3

  /** `context[:3]` */
  function TopSources(contents: seq<string>): (r: seq<string>)
    ensures |r| == if |contents| < TopSourceCount then |contents| else TopSourceCount
    ensures r == contents[..|r|]
  {
    if |contents| <= TopSourceCount then contents else contents[..TopSourceCount]
  }

  /** `f"[Source {i+1}]\n{content}"` */
  function SourceBlock(i: nat, content: string): string {
    "[Source " + NatToString(i + 1) + "]\n" + content
  }

  function SourceBlocks(contents: seq<string>): (r: seq<string>)
    ensures |r| == |contents|
    ensures forall i :: 0 <= i < |contents| ==> r[i] == SourceBlock(i, contents[i])
  {
    seq(|contents|, i requires 0 <= i < |contents| => SourceBlock(i, contents[i]))
  }

  /** `context_str`: the first three sources, numbered from 1, separated by blank lines. */
  function ContextString(contents: seq<string>): string {
    Join("\n\n", SourceBlocks(TopSources(contents)))
  }

  /** There is source text exactly when at least one source was retrieved. */
  lemma ContextEmptyIff(contents: seq<string>)
    ensures ContextString(contents) == "" <==> contents == []
  {
    var blocks := SourceBlocks(TopSources(contents));
    if contents != [] {
      assert blocks[0] == SourceBlock(0, contents[0]);
      JoinNonEmpty("\n\n", blocks);
    }
  }

  /** Sources after the third never reach the model. */
  lemma LaterSourcesIgnored(top: seq<string>, rest: seq<string>)
    requires |top| >= TopSourceCount
    ensures ContextString(top + rest) == ContextString(top)
  {
    assert TopSources(top + rest) == TopSources(top);
  }

  /** Each of the first three sources appears in the text under its number. */
  lemma SourceNumbered(contents: seq<string>, k: nat)
    requires k < |contents| && k < TopSourceCount
    ensures Contains(ContextString(contents), SourceBlock(k, contents[k]))
  {
    JoinContainsPart("\n\n", SourceBlocks(TopSources(contents)), k);
  }

  /** The text for three or more sources, written out. */
  lemma ContextOfThree(a: string, b: string, c: string, rest: seq<string>)
    ensures ContextString([a, b, c] + rest)
         == ("[Source 1]\n" + a) + "\n\n" + ("[Source 2]\n" + b) + "\n\n" + ("[Source 3]\n" + c)
  {
    LaterSourcesIgnored([a, b, c], rest);
    FirstBlocks(a, b, c);
    JoinThree("\n\n", "[Source 1]\n" + a, "[Source 2]\n" + b, "[Source 3]\n" + c);
  }

  lemma FirstBlocks(a: string, b: string, c: string)
    ensures SourceBlocks([a, b, c]) == ["[Source 1]\n" + a, "[Source 2]\n" + b, "[Source 3]\n" + c]
  {
    assert NatToString(1) == [DigitChar(1)] == "1";
    assert "[Source " + "1" + "]\n" == "[Source 1]\n";
    assert NatToString(2) == [DigitChar(2)] == "2";
    assert "[Source " + "2" + "]\n" == "[Source 2]\n";
    assert NatToString(3) == [DigitChar(3)] == "3";
    assert "[Source " + "3" + "]\n" == "[Source 3]\n";
  }

  lemma JoinThree(sep: string, x: string, y: string, z: string)
    ensures Join(sep, [x, y, z]) == x + sep + y + sep + z
  {
    assert [x, y, z][1..] == [y, z] && [y, z][1..] == [z];
    assert Join(sep, [y, z]) == y + sep + z;
    assert Join(sep, [x, y, z]) == x + sep + (y + sep + z);
    AppendAssociates(x + sep, y + sep, z);
    AppendAssociates(x + sep, y, sep);
  }

  // ---------------------------------------------------------------------------
  // Metrics

  /** One entry of the metrics dictionary, in its insertion order; `value` is the value's text, or None. */
  datatype Metric = Metric(key: string, value: Option<string>)

  const MetricsHeader := "\n\nAvailable Metrics:\n"

  /** `f"- {key.upper()}: {value}\n"` */
  function MetricLine(key: string, value: string): string {
    "- " + Upper(key) + ": " + value + "\n"
  }

  /** The line an entry contributes, if its value is not None. */
  function RenderedMetric(m: Metric): Option<string> {
    if m.value.Some? then Some(MetricLine(m.key, m.value.value)) else None
  }

  /** The lines written for the entries seen so far. */
  function MetricLines(items: seq<Metric>): string {
    if items == [] then ""
    else
      var last := items[|items| - 1];
      MetricLines(items[..|items| - 1]) + (if last.value.Some? then MetricLine(last.key, last.value.value) else "")
  }

  /** `metrics_str`: empty for no metrics or an empty dictionary, else the header and one line per valued entry. */
  function MetricsText(metrics: Option<seq<Metric>>): (r: string)
    ensures r == "" <==> metrics.None? || metrics.value == []
    ensures r != "" ==> |MetricsHeader| <= |r| && r[..|MetricsHeader|] == MetricsHeader
  {
    if metrics.None? || metrics.value == [] then "" else MetricsHeader + MetricLines(metrics.value)
  }

  /** The loop building `metrics_str`. */
  method MetricsFragment(metrics: Option<seq<Metric>>) returns (s: string)
    ensures s == MetricsText(metrics)
  {
    s := "";
    if metrics.Some? && metrics.value != [] {
      var items := metrics.value;
      s := MetricsHeader;
      for i := 0 to |items|
        invariant s == MetricsHeader + MetricLines(items[..i])
      {
        assert items[..i + 1][..i] == items[..i];
        if items[i].value.Some? {
          s := s + MetricLine(items[i].key, items[i].value.value);
        }
      }
      assert items[..|items|] == items;
    }
  }

  /** The metric lines are the valued entries, in order, each rendered once. */
  lemma {:induction false} MetricLinesOfValued(items: seq<Metric>)
    ensures MetricLines(items) == Join("", Collect(RenderedMetric, items))
  {
    if items != [] {
      var init, last := items[..|items| - 1], items[|items| - 1];
      assert items == init + [last];
      MetricLinesOfValued(init);
      CollectAppend(RenderedMetric, init, [last]);
      var before := Collect(RenderedMetric, init);
      if last.value.Some? {
        var line := MetricLine(last.key, last.value.value);
        assert Collect(RenderedMetric, [last]) == [line];
        if before != [] {
          JoinPrefix("", before, [line]);
        }
      } else {
        assert Collect(RenderedMetric, [last]) == [];
        assert before + [] == before;
      }
    }
  }

  /** Every entry with a value is listed, under its upper-cased key. */
  lemma ValuedMetricListed(items: seq<Metric>, k: nat)
    requires k < |items| && items[k].value.Some?
    ensures Contains(MetricsText(Some(items)), MetricLine(items[k].key, items[k].value.value))
  {
    MetricLinesOfValued(items);
    var lines := Collect(RenderedMetric, items);
    var at := ValuedLineAt(items, k);
    JoinContainsPart("", lines, at);
    ContainsExtend(MetricsHeader, Join("", lines), "", lines[at]);
    assert MetricsHeader + Join("", lines) + "" == MetricsText(Some(items));
  }

  /** Where the line of a valued entry sits among the rendered lines. */
  lemma ValuedLineAt(items: seq<Metric>, k: nat) returns (at: nat)
    requires k < |items| && items[k].value.Some?
    ensures at < |Collect(RenderedMetric, items)|
    ensures Collect(RenderedMetric, items)[at] == MetricLine(items[k].key, items[k].value.value)
  {
    CollectAppend(RenderedMetric, items[..k], items[k..]);
    CollectAppend(RenderedMetric, [items[k]], items[k + 1..]);
    assert items == items[..k] + items[k..];
    assert items[k..] == [items[k]] + items[k + 1..];
    at := |Collect(RenderedMetric, items[..k])|;
  }

  /** An entry whose value is None adds nothing to the text. */
  lemma NoneMetricSilent(before: seq<Metric>, key: string, after: seq<Metric>)
    ensures MetricLines(before + [Metric(key, None)] + after) == MetricLines(before + after)
  {
    MetricLinesOfValued(before + [Metric(key, None)] + after);
    MetricLinesOfValued(before + after);
    CollectAppend(RenderedMetric, before + [Metric(key, None)], after);
    CollectAppend(RenderedMetric, before, [Metric(key, None)]);
    CollectAppend(RenderedMetric, before, after);
    assert Collect(RenderedMetric, [Metric(key, None)]) == [];
    assert Collect(RenderedMetric, before) + [] == Collect(RenderedMetric, before);
  }

  // ---------------------------------------------------------------------------
  // Conversation history

  /** One message of the conversation: `msg['role']` and `msg['content']`. */
  datatype Message = Message(role: string, content: string)

  const HistoryHeader := "\n\nPrevious Conversation:\n"

  /** The number of earlier messages given to the model. */
  const RecentCount := 3

  /** `conversation_history[-3:]` */
  function Recent(history: seq<Message>): (r: seq<Message>)
    ensures |r| == if |history| < RecentCount then |history| else RecentCount
    ensures r == history[|history| - |r|..]
  {
    if |history| <= RecentCount then history else history[|history| - RecentCount..]
  }

  /** `f"{msg['role']}: {msg['content']}\n"` */
  function MessageLine(m: Message): string {
    m.role + ": " + m.content + "\n"
  }

  /** The lines written for the messages seen so far. */
  function MessageLines(ms: seq<Message>): string {
    if ms == [] then "" else MessageLines(ms[..|ms| - 1]) + MessageLine(ms[|ms| - 1])
  }

  /** `history_str`: empty without history, else the header and a line for each of the last three messages. */
  function HistoryText(history: seq<Message>): (r: string)
    ensures r == "" <==> history == []
    ensures r != "" ==> |HistoryHeader| <= |r| && r[..|HistoryHeader|] == HistoryHeader
  {
    if history == [] then "" else HistoryHeader + MessageLines(Recent(history))
  }

  /** The loop building `history_str`. */
  method HistoryFragment(history: seq<Message>) returns (s: string)
    ensures s == HistoryText(history)
  {
    s := "";
    if history != [] {
      s := HistoryHeader;
      var recent := if |history| <= RecentCount then history else history[|history| - RecentCount..];
      for i := 0 to |recent|
        invariant s == HistoryHeader + MessageLines(recent[..i])
      {
        MessageLinesStep(recent, i);
        AppendAssociates(HistoryHeader, MessageLines(recent[..i]), MessageLine(recent[i]));
        s := s + MessageLine(recent[i]);
      }
      assert recent[..|recent|] == recent;
    }
  }

  lemma MessageLinesStep(ms: seq<Message>, i: nat)
    requires i < |ms|
    ensures MessageLines(ms[..i + 1]) == MessageLines(ms[..i]) + MessageLine(ms[i])
  {
    assert ms[..i + 1][..i] == ms[..i];
  }

  /** The message lines are the messages rendered one by one, in order. */
  lemma {:induction false} MessageLinesInOrder(ms: seq<Message>)
    ensures MessageLines(ms) == Join("", Map(ms, MessageLine))
  {
    if ms != [] {
      var init, last := ms[..|ms| - 1], ms[|ms| - 1];
      assert ms == init + [last];
      MessageLinesInOrder(init);
      MapAppend(init, [last], MessageLine);
      var before, line := Map(init, MessageLine), MessageLine(last);
      assert Map([last], MessageLine) == [line];
      if init != [] {
        JoinPrefix("", before, [line]);
        assert Join("", before) + "" == Join("", before);
      } else {
        assert before + [line] == [line];
      }
    }
  }

  /** Messages before the last three never reach the model. */
  lemma OlderMessagesIgnored(older: seq<Message>, recent: seq<Message>)
    requires |recent| >= RecentCount
    ensures HistoryText(older + recent) == HistoryText(recent)
  {
    RecentOfAppend(older, recent);
  }

  lemma RecentOfAppend(older: seq<Message>, recent: seq<Message>)
    requires |recent| >= RecentCount
    ensures Recent(older + recent) == Recent(recent)
  {
    var h := older + recent;
    assert h[|h| - RecentCount..] == recent[|recent| - RecentCount..];
  }

  /** The text for three or more messages, written out: the last three, oldest first. */
  lemma HistoryOfLastThree(older: seq<Message>, a: Message, b: Message, c: Message)
    ensures HistoryText(older + [a, b, c]) == HistoryHeader + MessageLine(a) + MessageLine(b) + MessageLine(c)
  {
    OlderMessagesIgnored(older, [a, b, c]);
    assert [a, b, c][..2] == [a, b] && [a, b][..1] == [a] && [a][..0] == [];
    assert MessageLines([a]) == MessageLine(a);
    assert MessageLines([a, b]) == MessageLine(a) + MessageLine(b);
    assert MessageLines([a, b, c]) == MessageLine(a) + MessageLine(b) + MessageLine(c);
  }
}
