/**
 * `TableParser.parse_table`: rejects a table without a data row, classifies
 * the rest, and hands each classified table to the row parser of its kind.
 * `TableResult` states the outcome over the parsers' specification
 * functions; the method `ParseTable` runs the row-parser methods and is
 * proved to produce it.
 */
module TableParser {
  import opened Wrappers
  import opened Strings
  import opened Selection
  import opened Transactions
  import opened Tables
  import opened DateParser
  import opened TableClassifier
  import opened CapitalCallParser
  import opened DistributionParser
  import opened AdjustmentParser

  /** The dictionary `parse_table` returns: `type`, `data` and, for an unknown table, `error`. */
  datatype ParseResult = ParseResult(tableType: TableType, data: seq<Transaction>, error: Option<string>)

  const TooSmall := "Table too small"
  const Unclassified := "Could not classify table"

  /** The kind of table a record comes from. */
  function KindOf(tx: Transaction): TableType {
    match tx
    case CallRecord(_) => CapitalCallTable
    case DistributionRecord(_) => DistributionTable
    case AdjustmentRecord(_) => AdjustmentTable
  }

  function FundOf(tx: Transaction): int {
    match tx
    case CallRecord(c) => c.fundId
    case DistributionRecord(d) => d.fundId
    case AdjustmentRecord(a) => a.fundId
  }

  function CallRecords(calls: seq<CapitalCall>): seq<Transaction> { Map(calls, (c: CapitalCall) => CallRecord(c)) }
  function DistributionRecords(ds: seq<Distribution>): seq<Transaction> {
    Map(ds, (d: Distribution) => DistributionRecord(d))
  }
  function AdjustmentRecords(adjs: seq<Adjustment>): seq<Transaction> {
    Map(adjs, (a: Adjustment) => AdjustmentRecord(a))
  }

  /** `parse_table(table, fund_id)` */
  function TableResult(fuzzy: DateOracle, t: Table, fundId: int): (r: ParseResult)
    ensures |t| < 2 ==> r == ParseResult(UnknownTable, [], Some(TooSmall))
    ensures |t| >= 2 ==> r.tableType == ClassifyTable(t)
    ensures |t| >= 2 && r.tableType == UnknownTable ==> r.error == Some(Unclassified)
    // An error is reported exactly when the table is of no known kind, and then nothing is parsed.
    ensures r.error.Some? <==> r.tableType == UnknownTable
    ensures r.tableType == UnknownTable ==> r.data == []
    // Each known kind's rows go to that kind's row parser.
    ensures |t| >= 2 && r.tableType == CapitalCallTable ==> r.data == CallRecords(CapitalCalls(fuzzy, t, fundId))
    ensures |t| >= 2 && r.tableType == DistributionTable ==>
      r.data == DistributionRecords(Distributions(fuzzy, t, fundId))
    ensures |t| >= 2 && r.tableType == AdjustmentTable ==> r.data == AdjustmentRecords(Adjustments(fuzzy, t, fundId))
    // At most one record per data row, each of the table's kind and for the given fund.
    ensures |r.data| <= |DataRows(t)|
    ensures forall i :: 0 <= i < |r.data| ==> KindOf(r.data[i]) == r.tableType && FundOf(r.data[i]) == fundId
  {
    if |t| < 2 then ParseResult(UnknownTable, [], Some(TooSmall))
    else
      match ClassifyTable(t)
      case CapitalCallTable =>
        CapitalCallsValid(fuzzy, t, fundId);
        ParseResult(CapitalCallTable, CallRecords(CapitalCalls(fuzzy, t, fundId)), None)
      case DistributionTable =>
        DistributionsValid(fuzzy, t, fundId);
        ParseResult(DistributionTable, DistributionRecords(Distributions(fuzzy, t, fundId)), None)
      case AdjustmentTable =>
        AdjustmentsValid(fuzzy, t, fundId);
        ParseResult(AdjustmentTable, AdjustmentRecords(Adjustments(fuzzy, t, fundId)), None)
      case UnknownTable => ParseResult(UnknownTable, [], Some(Unclassified))
  }

  /** `parse_table`, dispatching to the row-parser methods. */
  method ParseTable(fuzzy: DateOracle, table: Table, fundId: int) returns (r: ParseResult)
    ensures r == TableResult(fuzzy, table, fundId)
  {
    if |table| < 2 {
      return ParseResult(UnknownTable, [], Some(TooSmall));
    }
    var tableType := ClassifyTable(table);
    if tableType == CapitalCallTable {
      var calls := ParseCapitalCalls(fuzzy, table, fundId);
      return ParseResult(CapitalCallTable, CallRecords(calls), None);
    } else if tableType == DistributionTable {
      var distributions := ParseDistributions(fuzzy, table, fundId);
      return ParseResult(DistributionTable, DistributionRecords(distributions), None);
    } else if tableType == AdjustmentTable {
      var adjustments := ParseAdjustments(fuzzy, table, fundId);
      return ParseResult(AdjustmentTable, AdjustmentRecords(adjustments), None);
    }
    return ParseResult(UnknownTable, [], Some(Unclassified));
  }

  // ---------------------------------------------------------------------------
  // Properties

  /** A header naming capital calls makes the result exactly the table's capital calls, in row order. */
  lemma CallHeaderGivesCalls(fuzzy: DateOracle, header: Row, rows: Table, fundId: int)
    requires |header| > 0 && |rows| > 0
    requires ContainsAny(RowText(header), CallHeaderKeywords)
    ensures var r := TableResult(fuzzy, [header] + rows, fundId);
      r.tableType == CapitalCallTable && r.error == None
      && r.data == CallRecords(Collect(CallRecordOf(fuzzy, fundId), rows))
  {
    var t := [header] + rows;
    assert t[0] == header;
    assert ClassifyTable(t) == CapitalCallTable;
    assert DataRows(t) == rows;
    assert TableResult(fuzzy, t, fundId) == ParseResult(CapitalCallTable, CallRecords(CapitalCalls(fuzzy, t, fundId)), None);
  }

  /** The header only chooses the kind: two tables of the same kind with the same data rows give the same result. */
  lemma DataIgnoresHeaderText(fuzzy: DateOracle, t: Table, u: Table, fundId: int)
    requires |t| == |u| && |t| >= 2 && ClassifyTable(t) == ClassifyTable(u) && DataRows(t) == DataRows(u)
    ensures TableResult(fuzzy, t, fundId) == TableResult(fuzzy, u, fundId)
  {
  }
}
