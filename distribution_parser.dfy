/**
 * `TableParser._parse_distributions`: the capital-call pass with stripped
 * cells, a recallable flag, and two more words that never become text. A
 * row with a date and a positive amount becomes a distribution.
 *
 * `DistributionStep` is one turn of the cell loop and `DistributionScan` the
 * whole loop; `ParseDistributions` is proved to compute `Distributions`, and
 * `DistributionScanIsSelection` proves the loop fills the slots as
 * `DistributionSelection` describes them.
 */
module DistributionParser {
  import opened Wrappers
  import opened Strings
  import opened Selection
  import opened Transactions
  import opened Tables
  import opened DateParser
  import opened AmountParser
  import opened CellTests

  /** The loop's local variables. */
  datatype DistributionSlots = DistributionSlots(
    date: Option<Date>,
    amount: Option<real>,
    distributionType: Option<string>,
    isRecallable: bool,
    description: Option<string>)

  const NoDistributionSlots := DistributionSlots(None, None, None, false, None)

  /** The exact (lower-cased) cell texts that mark a distribution as recallable. */
  const RecallableFlags: seq<string> := ["yes", "true", "recallable"]

  /** Cell texts that never become a type or a description. */
  const DistributionLabels: seq<string> := ["date", "amount", "description", "no", "false"]

  predicate IsRecallableFlag(s: string) { Lower(s) in RecallableFlags }

  /** A stripped text that is neither a flag nor a label, so it may become a type or a description. */
  predicate IsDistributionText(s: string) {
    !IsRecallableFlag(s) && s != "" && Lower(s) !in DistributionLabels
  }

  /** One turn of the cell loop; the date and amount tests see the stripped cell. */
  function DistributionStep(fuzzy: DateOracle, st: DistributionSlots, cell: Cell): DistributionSlots {
    if !Filled(cell) then st else DistributionTextStep(fuzzy, st, Strip(cell.value))
  }

  /** The turn on the stripped text `s` of a filled cell. */
  function DistributionTextStep(fuzzy: DateOracle, st: DistributionSlots, s: string): DistributionSlots {
    if st.date.None? && IsDateText(fuzzy, s) then st.(date := ParseDate(fuzzy, s))
    else if st.amount.None? && HasPositiveAmount(s) then st.(amount := ParseAmount(s))
    else FillDistributionText(st, s)
  }

  /** The rest of a turn: a flag is consumed; any other text fills the type or else the description. */
  function FillDistributionText(st: DistributionSlots, s: string): (r: DistributionSlots)
    ensures r.date == st.date && r.amount == st.amount
  {
    if IsRecallableFlag(s) then st.(isRecallable := true)
    else if IsDistributionText(s) then
      if st.distributionType.None? && IsShort(s) then st.(distributionType := Some(s))
      else if st.description.None? then st.(description := Some(s))
      else st
    else st
  }

  /** The slots after the cell loop has run over `cells`. */
  function DistributionScan(fuzzy: DateOracle, cells: Row): DistributionSlots {
    if cells == [] then NoDistributionSlots
    else DistributionStep(fuzzy, DistributionScan(fuzzy, cells[..|cells| - 1]), cells[|cells| - 1])
  }

  /** The record one data row yields, if any. */
  function DistributionOfRow(fuzzy: DateOracle, fundId: int, row: Row): (r: Option<Distribution>)
    ensures r.Some? ==> |row| >= 2 && r.value.fundId == fundId && r.value.amount > 0.0
    ensures r.Some? ==> r.value.distributionType != "" && |r.value.distributionType| < ShortLimit
  {
    if |row| < 2 then None
    else
      var st := DistributionScan(fuzzy, row);
      if st.date.Some? && st.amount.Some? then
        DistributionSlotsValid(fuzzy, row);
        Some(Distribution(fundId, st.date.value, st.amount.value, st.distributionType.GetOr("Return of Capital"),
                          st.isRecallable, st.description))
      else None
  }

  function DistributionRecordOf(fuzzy: DateOracle, fundId: int): Row -> Option<Distribution> {
    row => DistributionOfRow(fuzzy, fundId, row)
  }

  /** `_parse_distributions(table, fund_id)` */
  function Distributions(fuzzy: DateOracle, table: Table, fundId: int): seq<Distribution> {
    Collect(DistributionRecordOf(fuzzy, fundId), DataRows(table))
  }

  /** What every turn keeps: a filled amount is positive and a filled type is a short non-empty text. */
  predicate SlotsValid(st: DistributionSlots) {
    && (st.amount.None? || st.amount.value > 0.0)
    && (st.distributionType.None? || (st.distributionType.value != "" && IsShort(st.distributionType.value)))
  }

  lemma DistributionStepValid(fuzzy: DateOracle, st: DistributionSlots, s: string)
    requires SlotsValid(st)
    ensures SlotsValid(DistributionTextStep(fuzzy, st, s))
  {
    if st.date.None? && IsDateText(fuzzy, s) {
    } else if st.amount.None? && HasPositiveAmount(s) {
      assert ParseAmount(s).value > 0.0;
    } else {
      var r := FillDistributionText(st, s);
      assert r.amount == st.amount;
      assert r.distributionType == st.distributionType || (IsDistributionText(s) && IsShort(s) && r.distributionType == Some(s));
    }
  }

  lemma {:induction false} DistributionSlotsValid(fuzzy: DateOracle, cells: Row)
    ensures SlotsValid(DistributionScan(fuzzy, cells))
  {
    if cells != [] {
      DistributionSlotsValid(fuzzy, cells[..|cells| - 1]);
      var c := cells[|cells| - 1];
      if Filled(c) {
        DistributionStepValid(fuzzy, DistributionScan(fuzzy, cells[..|cells| - 1]), Strip(c.value));
      }
    }
  }

  // ---------------------------------------------------------------------------
  // The loop

  /** `_parse_distributions`, with the row loop and the `continue`s of the source. */
  method ParseDistributions(fuzzy: DateOracle, table: Table, fundId: int) returns (distributions: seq<Distribution>)
    ensures distributions == Distributions(fuzzy, table, fundId)
  {
    distributions := [];
    var rows := DataRows(table);
    for k := 0 to |rows|
      invariant distributions == Collect(DistributionRecordOf(fuzzy, fundId), rows[..k])
    {
      assert rows[..k + 1][..k] == rows[..k];
      var row := rows[k];
      if |row| < 2 {
        continue;
      }
      var distributionDate, amount, distributionType, isRecallable, description := ScanDistributionRow(fuzzy, row);
      if distributionDate.Some? && amount.Some? {
        distributions := distributions + [Distribution(fundId, distributionDate.value, amount.value,
          distributionType.GetOr("Return of Capital"), isRecallable, description)];
      }
    }
    assert rows[..|rows|] == rows;
  }

  /** The cell loop of `_parse_distributions` over one row. */
  method ScanDistributionRow(fuzzy: DateOracle, row: Row)
    returns (distributionDate: Option<Date>, amount: Option<real>, distributionType: Option<string>,
             isRecallable: bool, description: Option<string>)
    ensures DistributionSlots(distributionDate, amount, distributionType, isRecallable, description)
      == DistributionScan(fuzzy, row)
  {
    distributionDate, amount, distributionType, isRecallable, description := None, None, None, false, None;
    for i := 0 to |row|
      invariant DistributionSlots(distributionDate, amount, distributionType, isRecallable, description)
        == DistributionScan(fuzzy, row[..i])
    {
      assert row[..i + 1][..i] == row[..i];
      var cell := row[i];
      if !Filled(cell) {
        continue;
      }
      var cellStr := Strip(cell.value);
      distributionDate, amount, distributionType, isRecallable, description :=
        DistributionCellTurn(fuzzy, distributionDate, amount, distributionType, isRecallable, description, cellStr);
    }
    assert row[..|row|] == row;
  }

  /** One turn of the cell loop on the stripped text of a filled cell; each `return` is a `continue` of the source. */
  method DistributionCellTurn(fuzzy: DateOracle, date0: Option<Date>, amount0: Option<real>,
                              type0: Option<string>, recallable0: bool, description0: Option<string>, cellStr: string)
    returns (distributionDate: Option<Date>, amount: Option<real>, distributionType: Option<string>,
             isRecallable: bool, description: Option<string>)
    ensures DistributionSlots(distributionDate, amount, distributionType, isRecallable, description)
      == DistributionTextStep(fuzzy, DistributionSlots(date0, amount0, type0, recallable0, description0), cellStr)
  {
    distributionDate, amount, distributionType, isRecallable, description :=
      date0, amount0, type0, recallable0, description0;
    ghost var before := DistributionSlots(date0, amount0, type0, recallable0, description0);
    if distributionDate.None? {
      var parsedDate := ParseDate(fuzzy, cellStr);
      if parsedDate.Some? {
        assert DistributionTextStep(fuzzy, before, cellStr) == before.(date := parsedDate);
        distributionDate := parsedDate;
        return;
      }
    }
    assert !(before.date.None? && IsDateText(fuzzy, cellStr));
    if amount.None? {
      var parsedAmount := ParseAmount(cellStr);
      if parsedAmount.Some? && parsedAmount.value > 0.0 {
        assert DistributionTextStep(fuzzy, before, cellStr) == before.(amount := parsedAmount);
        amount := parsedAmount;
        return;
      }
    }
    assert DistributionTextStep(fuzzy, before, cellStr) == FillDistributionText(before, cellStr);
    if Lower(cellStr) in RecallableFlags {
      isRecallable := true;
      return;
    }
    if cellStr != "" && Lower(cellStr) !in DistributionLabels {
      if distributionType.None? && |cellStr| < ShortLimit {
        distributionType := Some(cellStr);
      } else if description.None? {
        description := Some(cellStr);
      }
    }
  }

  // ---------------------------------------------------------------------------
  // Which cell fills which slot

  /**
   * The slots described over the stripped filled cells: the date is the first
   * cell that parses as a date; the amount is the first other cell with a
   * positive amount; the distribution is recallable when any remaining cell
   * is a flag word; of the remaining cells that are neither flags nor labels,
   * the type is the first shorter than 50 characters and the description the
   * first other one.
   */
  function SelectDistribution(fuzzy: DateOracle, cells: seq<string>): DistributionSlots {
    var (dateCell, afterDate) := TakeFirst(cells, DateTest(fuzzy));
    var (amountCell, afterAmount) := TakeFirst(afterDate, HasPositiveAmount);
    var (distributionType, description) := TypeAndDescription(Filter(afterAmount, IsDistributionText));
    DistributionSlots(
      if dateCell.Some? then ParseDate(fuzzy, dateCell.value) else None,
      if amountCell.Some? then ParseAmount(amountCell.value) else None,
      distributionType,
      Any(afterAmount, IsRecallableFlag),
      description)
  }

  function DistributionSelection(fuzzy: DateOracle, row: Row): DistributionSlots {
    SelectDistribution(fuzzy, StrippedCells(row))
  }

  /** The cell loop fills the slots exactly as `DistributionSelection` describes. */
  lemma {:induction false} DistributionScanIsSelection(fuzzy: DateOracle, row: Row)
    ensures DistributionScan(fuzzy, row) == DistributionSelection(fuzzy, row)
  {
    if row != [] {
      var init, c := row[..|row| - 1], row[|row| - 1];
      assert row == init + [c];
      DistributionScanIsSelection(fuzzy, init);
      StrippedCellsAppend(init, c);
      if Filled(c) {
        SelectDistributionAppend(fuzzy, StrippedCells(init), Strip(c.value));
      } else {
        assert StrippedCells(row) == StrippedCells(init);
      }
    }
  }

  lemma SelectDistributionAppend(fuzzy: DateOracle, cells: seq<string>, s: string)
    ensures SelectDistribution(fuzzy, cells + [s]) == DistributionTextStep(fuzzy, SelectDistribution(fuzzy, cells), s)
  {
    var (dateCell, afterDate) := TakeFirst(cells, DateTest(fuzzy));
    TakeFirstAppend(cells, s, DateTest(fuzzy));
    if dateCell.None? && IsDateText(fuzzy, s) {
      SelectDistributionDateTurn(fuzzy, cells, s);
    } else {
      var (amountCell, afterAmount) := TakeFirst(afterDate, HasPositiveAmount);
      TakeFirstAppend(afterDate, s, HasPositiveAmount);
      if amountCell.None? && HasPositiveAmount(s) {
        SelectDistributionAmountTurn(fuzzy, cells, s, dateCell, afterDate);
      } else {
        SelectDistributionTextTurn(fuzzy, cells, s, dateCell, afterDate, amountCell, afterAmount);
      }
    }
  }

  /** The turn on a cell that the date takes. */
  lemma SelectDistributionDateTurn(fuzzy: DateOracle, cells: seq<string>, s: string)
    requires TakeFirst(cells, DateTest(fuzzy)).0.None? && IsDateText(fuzzy, s)
    requires TakeFirst(cells + [s], DateTest(fuzzy)) == (Some(s), cells)
    ensures SelectDistribution(fuzzy, cells + [s]) == DistributionTextStep(fuzzy, SelectDistribution(fuzzy, cells), s)
  {
  }

  /** The turn on a cell that the amount takes. */
  lemma SelectDistributionAmountTurn(fuzzy: DateOracle, cells: seq<string>, s: string, dateCell: Option<string>,
                                     afterDate: seq<string>)
    requires (dateCell, afterDate) == TakeFirst(cells, DateTest(fuzzy))
    requires !(dateCell.None? && IsDateText(fuzzy, s))
    requires TakeFirst(afterDate, HasPositiveAmount).0.None? && HasPositiveAmount(s)
    requires TakeFirst(cells + [s], DateTest(fuzzy)) == (dateCell, afterDate + [s])
    requires TakeFirst(afterDate + [s], HasPositiveAmount) == (Some(s), afterDate)
    ensures SelectDistribution(fuzzy, cells + [s]) == DistributionTextStep(fuzzy, SelectDistribution(fuzzy, cells), s)
  {
    var st := SelectDistribution(fuzzy, cells);
    assert st.date.None? <==> dateCell.None?;
  }

  /** The turn on a cell that neither the date nor the amount takes. */
  lemma SelectDistributionTextTurn(fuzzy: DateOracle, cells: seq<string>, s: string, dateCell: Option<string>,
                                   afterDate: seq<string>, amountCell: Option<string>, afterAmount: seq<string>)
    requires (dateCell, afterDate) == TakeFirst(cells, DateTest(fuzzy))
    requires (amountCell, afterAmount) == TakeFirst(afterDate, HasPositiveAmount)
    requires !(dateCell.None? && IsDateText(fuzzy, s)) && !(amountCell.None? && HasPositiveAmount(s))
    requires TakeFirst(cells + [s], DateTest(fuzzy)) == (dateCell, afterDate + [s])
    requires TakeFirst(afterDate + [s], HasPositiveAmount) == (amountCell, afterAmount + [s])
    ensures SelectDistribution(fuzzy, cells + [s]) == DistributionTextStep(fuzzy, SelectDistribution(fuzzy, cells), s)
  {
    var st := SelectDistribution(fuzzy, cells);
    var st' := SelectDistribution(fuzzy, cells + [s]);
    assert st.date.None? <==> dateCell.None?;
    assert st.amount.None? <==> amountCell.None?;
    assert DistributionTextStep(fuzzy, st, s) == FillDistributionText(st, s);
    assert (st'.date, st'.amount) == (st.date, st.amount);
    SelectDistributionTexts(s, afterAmount, st, st');
  }

  lemma SelectDistributionTexts(s: string, afterAmount: seq<string>, st: DistributionSlots, st': DistributionSlots)
    requires (st.distributionType, st.description) == TypeAndDescription(Filter(afterAmount, IsDistributionText))
    requires (st'.distributionType, st'.description)
      == TypeAndDescription(Filter(afterAmount + [s], IsDistributionText))
    requires st.isRecallable == Any(afterAmount, IsRecallableFlag)
    requires st'.isRecallable == Any(afterAmount + [s], IsRecallableFlag)
    requires (st'.date, st'.amount) == (st.date, st.amount)
    ensures st' == FillDistributionText(st, s)
  {
    AnyAppend(afterAmount, s, IsRecallableFlag);
    FilterAppend(afterAmount, [s], IsDistributionText);
    if IsDistributionText(s) {
      assert Filter([s], IsDistributionText) == [s];
      TypeAndDescriptionAppend(Filter(afterAmount, IsDistributionText), s);
    } else {
      assert Filter([s], IsDistributionText) == [];
      assert afterAmount + [s] != afterAmount;
      assert Filter(afterAmount + [s], IsDistributionText) == Filter(afterAmount, IsDistributionText);
    }
  }

  // ---------------------------------------------------------------------------
  // Properties

  /** Only a flag word among the cells that are neither the date nor the amount makes a distribution recallable. */
  lemma DistributionRecallableIff(fuzzy: DateOracle, row: Row)
    ensures var cells := StrippedCells(row);
      var afterAmount := TakeFirst(TakeFirst(cells, DateTest(fuzzy)).1, HasPositiveAmount).1;
      DistributionScan(fuzzy, row).isRecallable <==> exists i :: 0 <= i < |afterAmount| && IsRecallableFlag(afterAmount[i])
  {
    DistributionScanIsSelection(fuzzy, row);
  }

  /** Without any flag word among its cells, a row is never recallable. */
  lemma DistributionNotRecallable(fuzzy: DateOracle, row: Row)
    requires forall i :: 0 <= i < |row| && Filled(row[i]) ==> !IsRecallableFlag(Strip(row[i].value))
    ensures !DistributionScan(fuzzy, row).isRecallable
  {
    DistributionScanIsSelection(fuzzy, row);
    var cells := StrippedCells(row);
    forall j | 0 <= j < |cells| ensures !IsRecallableFlag(cells[j]) {
      var i := FilledTextOf(row, j);
    }
    var (dateCell, afterDate) := TakeFirst(cells, DateTest(fuzzy));
    var afterAmount := TakeFirst(afterDate, HasPositiveAmount).1;
    TakeFirstKeeps(cells, DateTest(fuzzy), IsRecallableFlag);
    TakeFirstKeeps(afterDate, HasPositiveAmount, IsRecallableFlag);
  }

  /** "no" and "false" cells are ignored unless the date or the amount takes them. */
  lemma DistributionIgnoresNo(fuzzy: DateOracle, st: DistributionSlots, text: string)
    requires Lower(Strip(text)) in ["no", "false"]
    ensures FillDistributionText(st, Strip(text)) == st
  {
  }

  /** The flag words are recognised in any letter case. */
  lemma RecallableFlagCaseInsensitive(s: string)
    ensures IsRecallableFlag(Upper(s)) <==> IsRecallableFlag(s)
  {
    LowerOfUpper(s);
  }

  /** Every distribution carries the fund, a positive amount and a non-empty type. */
  lemma DistributionsValid(fuzzy: DateOracle, table: Table, fundId: int)
    ensures |Distributions(fuzzy, table, fundId)| <= |DataRows(table)|
    ensures forall j :: 0 <= j < |Distributions(fuzzy, table, fundId)| ==>
      var d := Distributions(fuzzy, table, fundId)[j];
      d.fundId == fundId && d.amount > 0.0 && d.distributionType != ""
  {
    var f := DistributionRecordOf(fuzzy, fundId);
    forall j | 0 <= j < |Collect(f, DataRows(table))|
      ensures var d := Collect(f, DataRows(table))[j]; d.fundId == fundId && d.amount > 0.0 && d.distributionType != ""
    {
      CollectFrom(f, DataRows(table));
    }
  }

  /** The header row yields nothing, and the distributions follow the order of the data rows. */
  lemma DistributionsByRows(fuzzy: DateOracle, header: Row, rows: Table, more: Table, fundId: int)
    ensures Distributions(fuzzy, [header] + rows + more, fundId)
      == Distributions(fuzzy, [header] + rows, fundId) + Collect(DistributionRecordOf(fuzzy, fundId), more)
  {
    assert DataRows([header] + rows + more) == rows + more;
    assert DataRows([header] + rows) == rows;
    CollectAppend(DistributionRecordOf(fuzzy, fundId), rows, more);
  }
}
