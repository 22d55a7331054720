/**
 * `TableParser._classify_table`: decides from keyword occurrences which kind
 * of transaction table a PDF table is. The header row is consulted first,
 * with a fixed priority among the three kinds; only when it names none of
 * them are the first three data rows searched, and that fallback never
 * answers "distribution".
 */
module TableClassifier {
  import opened Wrappers
  import opened Strings
  import opened Selection
  import opened Tables

  datatype TableType = CapitalCallTable | DistributionTable | AdjustmentTable | UnknownTable
  {
    /** The string the source returns for this kind. */
    function Name(): (r: string)
      ensures r in {"capital_call", "distribution", "adjustment", "unknown"}
    {
      match this
      case CapitalCallTable => "capital_call"
      case DistributionTable => "distribution"
      case AdjustmentTable => "adjustment"
      case UnknownTable => "unknown"
    }
  }

  /** `str(cell).lower() if cell else ""` */
  function CellText(c: Cell): string {
    if Filled(c) then Lower(c.value) else ""
  }

  /** `" ".join(str(cell).lower() if cell else "" for cell in row)` */
  function RowText(row: Row): string {
    Join(" ", Map(row, CellText))
  }

  /** The lower-cased header line. */
  function Header(t: Table): string
    requires |t| > 0
  {
    RowText(t[0])
  }

  /** The lower-cased text of data rows 1 to 3, rows joined by a space. */
  function SampleText(t: Table): string
    requires |t| > 1
  {
    Join(" ", Map(t[1..if |t| < 4 then |t| else 4], RowText))
  }

  const CallHeaderKeywords: seq<string> := ["capital call", "contribution", "call date", "called", "call number"]
  const DistributionHeaderKeywords: seq<string> := ["distribution", "distributed", "dividend", "recallable"]
  const AdjustmentHeaderKeywords: seq<string> := ["adjustment", "rebalance", "clawback", "refund"]
  const AdjustmentDataKeywords: seq<string> := ["adjustment", "rebalance", "clawback", "refund", "recallable distribution"]
  const CallDataKeywords: seq<string> := ["call 1", "call 2", "call 3", "call 4", "initial capital", "follow-on"]

  /** Whether the header names any of the three kinds. */
  predicate HeaderNamesKind(h: string) {
    ContainsAny(h, CallHeaderKeywords) || ContainsAny(h, DistributionHeaderKeywords)
      || ContainsAny(h, AdjustmentHeaderKeywords)
  }

  /** `_classify_table(table)` */
  function ClassifyTable(t: Table): (r: TableType)
    ensures |t| == 0 || |t[0]| == 0 ==> r == UnknownTable
    // The header decides first, in the fixed order capital call, distribution, adjustment.
    ensures |t| > 0 && |t[0]| > 0 && ContainsAny(Header(t), CallHeaderKeywords) ==> r == CapitalCallTable
    ensures (|t| > 0 && |t[0]| > 0 && !ContainsAny(Header(t), CallHeaderKeywords)
             && ContainsAny(Header(t), DistributionHeaderKeywords)) ==> r == DistributionTable
    ensures (|t| > 0 && |t[0]| > 0 && !ContainsAny(Header(t), CallHeaderKeywords)
             && !ContainsAny(Header(t), DistributionHeaderKeywords)
             && ContainsAny(Header(t), AdjustmentHeaderKeywords)) ==> r == AdjustmentTable
    // Only the header can make a table a distribution table.
    ensures r == DistributionTable ==> |t| > 0 && ContainsAny(Header(t), DistributionHeaderKeywords)
    // Without any keyword in the header, only the data rows can give a kind.
    ensures r != UnknownTable && !HeaderNamesKind(Header(t)) ==>
      |t| > 1 && (ContainsAny(SampleText(t), AdjustmentDataKeywords) || ContainsAny(SampleText(t), CallDataKeywords))
  {
    if |t| == 0 || |t[0]| == 0 then UnknownTable
    else
      var header := Header(t);
      if ContainsAny(header, CallHeaderKeywords) then CapitalCallTable
      else if ContainsAny(header, DistributionHeaderKeywords) then DistributionTable
      else if ContainsAny(header, AdjustmentHeaderKeywords) then AdjustmentTable
      else if |t| > 1 then
        var sample := SampleText(t);
        if ContainsAny(sample, AdjustmentDataKeywords) then AdjustmentTable
        else if ContainsAny(sample, CallDataKeywords) then CapitalCallTable
        else UnknownTable
      else UnknownTable
  }

  // ---------------------------------------------------------------------------
  // Properties

  /** The data-row fallback searches adjustment keywords before capital-call keywords. */
  lemma FallbackPrefersAdjustment(t: Table)
    requires |t| > 1 && |t[0]| > 0 && !HeaderNamesKind(Header(t))
    ensures ContainsAny(SampleText(t), AdjustmentDataKeywords) ==> ClassifyTable(t) == AdjustmentTable
    ensures !ContainsAny(SampleText(t), AdjustmentDataKeywords) && ContainsAny(SampleText(t), CallDataKeywords)
      ==> ClassifyTable(t) == CapitalCallTable
    ensures !ContainsAny(SampleText(t), AdjustmentDataKeywords) && !ContainsAny(SampleText(t), CallDataKeywords)
      ==> ClassifyTable(t) == UnknownTable
  {
  }

  /** Rows after the first three data rows never influence the classification. */
  lemma ClassifyIgnoresLaterRows(t: Table, more: Table)
    requires |t| >= 4
    ensures ClassifyTable(t + more) == ClassifyTable(t)
  {
    var u := t + more;
    assert u[0] == t[0];
    assert u[1..4] == t[1..4];
  }

  /** Once the header names a kind, the data rows can be anything. */
  lemma ClassifyHeaderDecides(header: Row, rows: Table, other: Table)
    requires |header| > 0 && HeaderNamesKind(RowText(header))
    ensures ClassifyTable([header] + rows) == ClassifyTable([header] + other)
  {
    assert ([header] + rows)[0] == header;
    assert ([header] + other)[0] == header;
  }

  /** A lone header row without keywords is never classified. */
  lemma ClassifyHeaderOnly(header: Row)
    requires !HeaderNamesKind(RowText(header))
    ensures ClassifyTable([header]) == UnknownTable
  {
  }

  /** Every cell upper-cased. */
  function UpperTable(t: Table): (r: Table)
    ensures |r| == |t| && forall i :: 0 <= i < |t| ==> |r[i]| == |t[i]|
  {
    Map(t, (row: Row) => Map(row, (c: Cell) => if c.Some? then Some(Upper(c.value)) else None))
  }

  /** Every cell lower-cased. */
  function LowerTable(t: Table): (r: Table)
    ensures |r| == |t| && forall i :: 0 <= i < |t| ==> |r[i]| == |t[i]|
  {
    Map(t, (row: Row) => Map(row, (c: Cell) => if c.Some? then Some(Lower(c.value)) else None))
  }

  /** Two tables whose rows read the same once lower-cased, row for row. */
  predicate SameLowered(t: Table, u: Table) {
    |t| == |u| && forall i :: 0 <= i < |t| ==> Map(t[i], CellText) == Map(u[i], CellText)
  }

  lemma ClassifySameLowered(t: Table, u: Table)
    requires SameLowered(t, u)
    ensures ClassifyTable(t) == ClassifyTable(u)
  {
    if |t| > 0 {
      assert RowText(t[0]) == RowText(u[0]);
      if |t| > 1 {
        var m := if |t| < 4 then |t| else 4;
        assert Map(t[1..m], RowText) == Map(u[1..m], RowText) by {
          forall i | 0 <= i < m - 1 ensures RowText(t[1..m][i]) == RowText(u[1..m][i]) {
            assert t[1..m][i] == t[i + 1] && u[1..m][i] == u[i + 1];
          }
        }
      }
    }
  }

  /** Classification ignores letter case: the table reads the same in capitals and in lower case. */
  lemma ClassifyCaseInsensitive(t: Table)
    ensures ClassifyTable(UpperTable(t)) == ClassifyTable(t)
    ensures ClassifyTable(LowerTable(t)) == ClassifyTable(t)
  {
    var up := UpperTable(t);
    var low := LowerTable(t);
    forall i, j | 0 <= i < |t| && 0 <= j < |t[i]|
      ensures CellText(up[i][j]) == CellText(t[i][j]) && CellText(low[i][j]) == CellText(t[i][j])
    {
      var c := t[i][j];
      if c.Some? {
        LowerOfUpper(c.value);
        LowerIdempotent(c.value);
      }
    }
    assert SameLowered(up, t);
    assert SameLowered(low, t);
    ClassifySameLowered(up, t);
    ClassifySameLowered(low, t);
  }
}
