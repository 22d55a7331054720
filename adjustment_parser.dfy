/**
 * `TableParser._parse_adjustments`: the row pass of the other two parsers,
 * with a signed amount, a contribution flag and a third text slot. A row
 * with a date and an amount becomes an adjustment.
 *
 * The amount test is `parsed_amount != 0`, which `None` also passes: while
 * no amount is set, every cell that is not a date and does not read as zero
 * is consumed by the amount slot whether or not it is a number.
 * `AdjustmentScanIsSelection` states the resulting slot filling.
 */
module AdjustmentParser {
  import opened Wrappers
  import opened Strings
  import opened Selection
  import opened Transactions
  import opened Tables
  import opened DateParser
  import opened AmountParser
  import opened CellTests

  /** The loop's local variables. */
  datatype AdjustmentSlots = AdjustmentSlots(
    date: Option<Date>,
    amount: Option<real>,
    adjustmentType: Option<string>,
    category: Option<string>,
    isContributionAdjustment: bool,
    description: Option<string>)

  const NoAdjustmentSlots := AdjustmentSlots(None, None, None, None, false, None)

  /** Cell texts that never become a type, a category or a description. */
  const AdjustmentLabels: seq<string> := ["date", "amount", "description", "type", "category"]

  /** `parsed_amount != 0`: true for `None` and for every non-zero amount. */
  predicate TakesAmountSlot(s: string) { ParseAmount(s) != Some(0.0) }

  /** The text mentions a contribution or a capital call, in any letter case. */
  predicate MentionsContribution(s: string) {
    Contains(Lower(s), "contribution") || Contains(Lower(s), "capital call")
  }

  predicate IsAdjustmentText(s: string) { s != "" && Lower(s) !in AdjustmentLabels }

  function AdjustmentStep(fuzzy: DateOracle, st: AdjustmentSlots, cell: Cell): AdjustmentSlots {
    if !Filled(cell) then st else AdjustmentTextStep(fuzzy, st, Strip(cell.value))
  }

  /** One turn of the cell loop on the stripped text `s` of a filled cell. */
  function AdjustmentTextStep(fuzzy: DateOracle, st: AdjustmentSlots, s: string): AdjustmentSlots {
    if st.date.None? && IsDateText(fuzzy, s) then st.(date := ParseDate(fuzzy, s))
    else if st.amount.None? && TakesAmountSlot(s) then st.(amount := ParseAmount(s))
    else FillAdjustmentText(st, s)
  }

  /** The rest of a turn: the flag does not consume the cell, which still fills type, category or description. */
  function FillAdjustmentText(st: AdjustmentSlots, s: string): (r: AdjustmentSlots)
    ensures r.date == st.date && r.amount == st.amount
    ensures r.adjustmentType == st.adjustmentType || (r.adjustmentType == Some(s) && s != "" && IsShort(s))
    ensures r.category == st.category || (r.category == Some(s) && s != "" && IsShort(s))
  {
    var flagged := if MentionsContribution(s) then st.(isContributionAdjustment := true) else st;
    if IsAdjustmentText(s) then
      if flagged.adjustmentType.None? && IsShort(s) then flagged.(adjustmentType := Some(s))
      else if flagged.category.None? && IsShort(s) then flagged.(category := Some(s))
      else if flagged.description.None? then flagged.(description := Some(s))
      else flagged
    else flagged
  }

  function AdjustmentScan(fuzzy: DateOracle, cells: Row): AdjustmentSlots {
    if cells == [] then NoAdjustmentSlots
    else AdjustmentStep(fuzzy, AdjustmentScan(fuzzy, cells[..|cells| - 1]), cells[|cells| - 1])
  }

  /** The record one data row yields, if any. */
  function AdjustmentOfRow(fuzzy: DateOracle, fundId: int, row: Row): (r: Option<Adjustment>)
    ensures r.Some? ==> |row| >= 2 && r.value.fundId == fundId && r.value.amount != 0.0
    ensures r.Some? ==> r.value.adjustmentType != "" && |r.value.adjustmentType| < ShortLimit
    ensures r.Some? && r.value.category.Some? ==> r.value.category.value != "" && |r.value.category.value| < ShortLimit
  {
    if |row| < 2 then None
    else
      var st := AdjustmentScan(fuzzy, row);
      if st.date.Some? && st.amount.Some? then
        AdjustmentSlotsValid(fuzzy, row);
        Some(Adjustment(fundId, st.date.value, st.amount.value, st.adjustmentType.GetOr("Rebalance"),
                        st.category, st.isContributionAdjustment, st.description))
      else None
  }

  function AdjustmentRecordOf(fuzzy: DateOracle, fundId: int): Row -> Option<Adjustment> {
    row => AdjustmentOfRow(fuzzy, fundId, row)
  }

  /** `_parse_adjustments(table, fund_id)` */
  function Adjustments(fuzzy: DateOracle, table: Table, fundId: int): seq<Adjustment> {
    Collect(AdjustmentRecordOf(fuzzy, fundId), DataRows(table))
  }

  /** What every turn keeps: a set amount is not zero, and a set type or category is a short non-empty text. */
  predicate SlotsValid(st: AdjustmentSlots) {
    && (st.amount.None? || st.amount.value != 0.0)
    && (st.adjustmentType.None? || (st.adjustmentType.value != "" && IsShort(st.adjustmentType.value)))
    && (st.category.None? || (st.category.value != "" && IsShort(st.category.value)))
  }

  lemma AdjustmentStepValid(fuzzy: DateOracle, st: AdjustmentSlots, s: string)
    requires SlotsValid(st)
    ensures SlotsValid(AdjustmentTextStep(fuzzy, st, s))
  {
    if st.date.None? && IsDateText(fuzzy, s) {
    } else if st.amount.None? && TakesAmountSlot(s) {
      var a := ParseAmount(s);
      assert a != Some(0.0);
      assert AdjustmentTextStep(fuzzy, st, s) == st.(amount := a);
    } else {
      assert AdjustmentTextStep(fuzzy, st, s) == FillAdjustmentText(st, s);
    }
  }

  lemma {:induction false} AdjustmentSlotsValid(fuzzy: DateOracle, cells: Row)
    ensures SlotsValid(AdjustmentScan(fuzzy, cells))
  {
    if cells != [] {
      AdjustmentSlotsValid(fuzzy, cells[..|cells| - 1]);
      var c := cells[|cells| - 1];
      if Filled(c) {
        AdjustmentStepValid(fuzzy, AdjustmentScan(fuzzy, cells[..|cells| - 1]), Strip(c.value));
      }
    }
  }

  // ---------------------------------------------------------------------------
  // The loop

  /** `_parse_adjustments`, with the row loop and the `continue`s of the source. */
  method ParseAdjustments(fuzzy: DateOracle, table: Table, fundId: int) returns (adjustments: seq<Adjustment>)
    ensures adjustments == Adjustments(fuzzy, table, fundId)
  {
    adjustments := [];
    var rows := DataRows(table);
    for k := 0 to |rows|
      invariant adjustments == Collect(AdjustmentRecordOf(fuzzy, fundId), rows[..k])
    {
      assert rows[..k + 1][..k] == rows[..k];
      var row := rows[k];
      if |row| < 2 {
        continue;
      }
      var adjustmentDate, amount, adjustmentType, category, isContributionAdjustment, description :=
        ScanAdjustmentRow(fuzzy, row);
      if adjustmentDate.Some? && amount.Some? {
        adjustments := adjustments + [Adjustment(fundId, adjustmentDate.value, amount.value,
          adjustmentType.GetOr("Rebalance"), category, isContributionAdjustment, description)];
      }
    }
    assert rows[..|rows|] == rows;
  }

  /** The cell loop of `_parse_adjustments` over one row. */
  method ScanAdjustmentRow(fuzzy: DateOracle, row: Row)
    returns (adjustmentDate: Option<Date>, amount: Option<real>, adjustmentType: Option<string>,
             category: Option<string>, isContributionAdjustment: bool, description: Option<string>)
    ensures AdjustmentSlots(adjustmentDate, amount, adjustmentType, category, isContributionAdjustment, description)
      == AdjustmentScan(fuzzy, row)
  {
    adjustmentDate, amount, adjustmentType, category, isContributionAdjustment, description :=
      None, None, None, None, false, None;
    for i := 0 to |row|
      invariant AdjustmentSlots(adjustmentDate, amount, adjustmentType, category, isContributionAdjustment, description)
        == AdjustmentScan(fuzzy, row[..i])
    {
      assert row[..i + 1][..i] == row[..i];
      var cell := row[i];
      if !Filled(cell) {
        continue;
      }
      var cellStr := Strip(cell.value);
      adjustmentDate, amount, adjustmentType, category, isContributionAdjustment, description :=
        AdjustmentCellTurn(fuzzy, adjustmentDate, amount, adjustmentType, category, isContributionAdjustment,
                           description, cellStr);
    }
    assert row[..|row|] == row;
  }

  /** One turn of the cell loop on the stripped text of a filled cell; each `return` is a `continue` of the source. */
  method AdjustmentCellTurn(fuzzy: DateOracle, date0: Option<Date>, amount0: Option<real>, type0: Option<string>,
                            category0: Option<string>, contribution0: bool, description0: Option<string>,
                            cellStr: string)
    returns (adjustmentDate: Option<Date>, amount: Option<real>, adjustmentType: Option<string>,
             category: Option<string>, isContributionAdjustment: bool, description: Option<string>)
    ensures AdjustmentSlots(adjustmentDate, amount, adjustmentType, category, isContributionAdjustment, description)
      == AdjustmentTextStep(fuzzy, AdjustmentSlots(date0, amount0, type0, category0, contribution0, description0),
                            cellStr)
  {
    adjustmentDate, amount, adjustmentType, category, isContributionAdjustment, description :=
      date0, amount0, type0, category0, contribution0, description0;
    ghost var before := AdjustmentSlots(date0, amount0, type0, category0, contribution0, description0);
    if adjustmentDate.None? {
      var parsedDate := ParseDate(fuzzy, cellStr);
      if parsedDate.Some? {
        assert AdjustmentTextStep(fuzzy, before, cellStr) == before.(date := parsedDate);
        adjustmentDate := parsedDate;
        return;
      }
    }
    assert !(before.date.None? && IsDateText(fuzzy, cellStr));
    if amount.None? {
      var parsedAmount := ParseAmount(cellStr);
      if parsedAmount != Some(0.0) {
        assert AdjustmentTextStep(fuzzy, before, cellStr) == before.(amount := parsedAmount);
        amount := parsedAmount;
        return;
      }
    }
    assert AdjustmentTextStep(fuzzy, before, cellStr) == FillAdjustmentText(before, cellStr);
    var lowered := Lower(cellStr);
    if Contains(lowered, "contribution") || Contains(lowered, "capital call") {
      isContributionAdjustment := true;
    }
    if cellStr != "" && lowered !in AdjustmentLabels {
      if adjustmentType.None? && |cellStr| < ShortLimit {
        adjustmentType := Some(cellStr);
      } else if category.None? && |cellStr| < ShortLimit {
        category := Some(cellStr);
      } else if description.None? {
        description := Some(cellStr);
      }
    }
  }

  // ---------------------------------------------------------------------------
  // Which cell fills which slot

  /** A cell the amount slot takes outright: its amount is a non-zero number. */
  predicate HasNonZeroAmount(s: string) { ParseAmount(s).Some? && ParseAmount(s).value != 0.0 }

  /** A cell that reads as zero is the only kind the amount test lets through before an amount is found. */
  predicate ReadsAsZero(s: string) { ParseAmount(s) == Some(0.0) }

  /** The type is the first short text, the category the second, the description the first other text. */
  function TypeCategoryDescription(texts: seq<string>): (Option<string>, Option<string>, Option<string>) {
    var (first, others) := TakeFirst(texts, IsShort);
    var (second, rest) := TakeFirst(others, IsShort);
    (first, second, FirstOf(rest))
  }

  lemma FirstOfAppend(xs: seq<string>, x: string)
    ensures FirstOf(xs + [x]) == if xs == [] then Some(x) else FirstOf(xs)
  {
  }

  lemma TypeCategoryDescriptionAppend(texts: seq<string>, s: string)
    ensures TypeCategoryDescription(texts + [s]) ==
      (var (t, c, d) := TypeCategoryDescription(texts);
       if t.None? && IsShort(s) then (Some(s), c, d)
       else if c.None? && IsShort(s) then (t, Some(s), d)
       else if d.None? then (t, c, Some(s))
       else (t, c, d))
  {
    var (first, others) := TakeFirst(texts, IsShort);
    var (second, rest) := TakeFirst(others, IsShort);
    TakeFirstAppend(texts, s, IsShort);
    if first.Some? {
      TakeFirstAppend(others, s, IsShort);
      if second.Some? {
        FirstOfAppend(rest, s);
      } else {
        assert rest == others;
        FirstOfAppend(others, s);
      }
    } else if IsShort(s) {
      assert others == texts;
      assert TakeFirst(texts, IsShort).0.None?;
    } else {
      assert others == texts && rest == texts;
      TakeFirstAppend(texts, s, IsShort);
      FirstOfAppend(texts, s);
    }
  }

  /**
   * The cells, after the date, that the text slots see: until the first cell
   * with a non-zero amount, only those reading as zero; after it, all.
   */
  function PassedAmount(afterDate: seq<string>): seq<string> {
    PassFirst(afterDate, HasNonZeroAmount, ReadsAsZero)
  }

  /**
   * The slots described over the stripped filled cells: the date is the first
   * cell that parses as a date; the amount is the first other cell with a
   * non-zero amount, and every cell before it that does not read as zero is
   * dropped; of the cells that get past the amount, the flag is set by any
   * that mentions a contribution, and those that are not labels fill type,
   * category and description.
   */
  function SelectAdjustment(fuzzy: DateOracle, cells: seq<string>): AdjustmentSlots {
    var (dateCell, afterDate) := TakeFirst(cells, DateTest(fuzzy));
    var (_, amountCell, _) := SplitAtFirst(afterDate, HasNonZeroAmount);
    var passed := PassedAmount(afterDate);
    var (adjustmentType, category, description) := TypeCategoryDescription(Filter(passed, IsAdjustmentText));
    AdjustmentSlots(
      if dateCell.Some? then ParseDate(fuzzy, dateCell.value) else None,
      if amountCell.Some? then ParseAmount(amountCell.value) else None,
      adjustmentType,
      category,
      Any(passed, MentionsContribution),
      description)
  }

  function AdjustmentSelection(fuzzy: DateOracle, row: Row): AdjustmentSlots {
    SelectAdjustment(fuzzy, StrippedCells(row))
  }

  /** The cell loop fills the slots exactly as `AdjustmentSelection` describes. */
  lemma {:induction false} AdjustmentScanIsSelection(fuzzy: DateOracle, row: Row)
    ensures AdjustmentScan(fuzzy, row) == AdjustmentSelection(fuzzy, row)
  {
    if row != [] {
      var init, c := row[..|row| - 1], row[|row| - 1];
      assert row == init + [c];
      AdjustmentScanIsSelection(fuzzy, init);
      StrippedCellsAppend(init, c);
      if Filled(c) {
        SelectAdjustmentAppend(fuzzy, StrippedCells(init), Strip(c.value));
      } else {
        assert StrippedCells(row) == StrippedCells(init);
      }
    }
  }

  lemma SelectAdjustmentAppend(fuzzy: DateOracle, cells: seq<string>, s: string)
    ensures SelectAdjustment(fuzzy, cells + [s]) == AdjustmentTextStep(fuzzy, SelectAdjustment(fuzzy, cells), s)
  {
    var (dateCell, afterDate) := TakeFirst(cells, DateTest(fuzzy));
    TakeFirstAppend(cells, s, DateTest(fuzzy));
    if dateCell.None? && IsDateText(fuzzy, s) {
      SelectAdjustmentDateTurn(fuzzy, cells, s);
    } else {
      SplitAtFirstAppend(afterDate, s, HasNonZeroAmount);
      PassFirstAppend(afterDate, s, HasNonZeroAmount, ReadsAsZero);
      var amountCell := SplitAtFirst(afterDate, HasNonZeroAmount).1;
      var parsed := ParseAmount(s);
      if amountCell.None? && parsed.Some? && parsed.value != 0.0 {
        SelectAdjustmentAmountTurn(fuzzy, cells, s, dateCell, afterDate);
      } else if amountCell.None? && parsed.None? {
        SelectAdjustmentSkipTurn(fuzzy, cells, s, dateCell, afterDate);
      } else {
        SelectAdjustmentTextTurn(fuzzy, cells, s, dateCell, afterDate);
      }
    }
  }

  /** The turn on a cell that the date takes. */
  lemma SelectAdjustmentDateTurn(fuzzy: DateOracle, cells: seq<string>, s: string)
    requires TakeFirst(cells, DateTest(fuzzy)).0.None? && IsDateText(fuzzy, s)
    requires TakeFirst(cells + [s], DateTest(fuzzy)) == (Some(s), cells)
    ensures SelectAdjustment(fuzzy, cells + [s]) == AdjustmentTextStep(fuzzy, SelectAdjustment(fuzzy, cells), s)
  {
  }

  /** The turn on a cell that becomes the amount. */
  lemma SelectAdjustmentAmountTurn(fuzzy: DateOracle, cells: seq<string>, s: string, dateCell: Option<string>,
                                   afterDate: seq<string>)
    requires (dateCell, afterDate) == TakeFirst(cells, DateTest(fuzzy))
    requires !(dateCell.None? && IsDateText(fuzzy, s))
    requires SplitAtFirst(afterDate, HasNonZeroAmount).1.None? && HasNonZeroAmount(s)
    requires TakeFirst(cells + [s], DateTest(fuzzy)) == (dateCell, afterDate + [s])
    requires SplitAtFirst(afterDate + [s], HasNonZeroAmount).1 == Some(s)
    requires PassedAmount(afterDate + [s]) == PassedAmount(afterDate)
    ensures SelectAdjustment(fuzzy, cells + [s]) == AdjustmentTextStep(fuzzy, SelectAdjustment(fuzzy, cells), s)
  {
    var st := SelectAdjustment(fuzzy, cells);
    assert st.date.None? <==> dateCell.None?;
    assert st.amount.None?;
  }

  /** The turn on a cell that the amount slot swallows: neither a date nor a number, met before the amount. */
  lemma SelectAdjustmentSkipTurn(fuzzy: DateOracle, cells: seq<string>, s: string, dateCell: Option<string>,
                                 afterDate: seq<string>)
    requires (dateCell, afterDate) == TakeFirst(cells, DateTest(fuzzy))
    requires !(dateCell.None? && IsDateText(fuzzy, s))
    requires SplitAtFirst(afterDate, HasNonZeroAmount).1.None? && ParseAmount(s).None?
    requires TakeFirst(cells + [s], DateTest(fuzzy)) == (dateCell, afterDate + [s])
    requires SplitAtFirst(afterDate + [s], HasNonZeroAmount).1 == None
    requires PassedAmount(afterDate + [s]) == PassedAmount(afterDate)
    ensures SelectAdjustment(fuzzy, cells + [s]) == AdjustmentTextStep(fuzzy, SelectAdjustment(fuzzy, cells), s)
  {
    var st := SelectAdjustment(fuzzy, cells);
    assert st.date.None? <==> dateCell.None?;
    assert st.amount.None?;
    assert AdjustmentTextStep(fuzzy, st, s) == st;
  }

  /** The turn on a cell that neither the date nor the amount takes. */
  lemma SelectAdjustmentTextTurn(fuzzy: DateOracle, cells: seq<string>, s: string, dateCell: Option<string>,
                                 afterDate: seq<string>)
    requires (dateCell, afterDate) == TakeFirst(cells, DateTest(fuzzy))
    requires !(dateCell.None? && IsDateText(fuzzy, s))
    requires !(SplitAtFirst(afterDate, HasNonZeroAmount).1.None? && TakesAmountSlot(s))
    requires TakeFirst(cells + [s], DateTest(fuzzy)) == (dateCell, afterDate + [s])
    requires SplitAtFirst(afterDate + [s], HasNonZeroAmount).1 == SplitAtFirst(afterDate, HasNonZeroAmount).1
    requires PassedAmount(afterDate + [s]) == PassedAmount(afterDate) + [s]
    ensures SelectAdjustment(fuzzy, cells + [s]) == AdjustmentTextStep(fuzzy, SelectAdjustment(fuzzy, cells), s)
  {
    var st := SelectAdjustment(fuzzy, cells);
    var st' := SelectAdjustment(fuzzy, cells + [s]);
    var amountCell := SplitAtFirst(afterDate, HasNonZeroAmount).1;
    assert st.date.None? <==> dateCell.None?;
    assert st.amount.None? <==> amountCell.None?;
    assert AdjustmentTextStep(fuzzy, st, s) == FillAdjustmentText(st, s);
    assert (st'.date, st'.amount) == (st.date, st.amount);
    SelectAdjustmentTexts(s, PassedAmount(afterDate), st, st');
  }

  lemma SelectAdjustmentTexts(s: string, passed: seq<string>, st: AdjustmentSlots, st': AdjustmentSlots)
    requires (st.adjustmentType, st.category, st.description)
      == TypeCategoryDescription(Filter(passed, IsAdjustmentText))
    requires (st'.adjustmentType, st'.category, st'.description)
      == TypeCategoryDescription(Filter(passed + [s], IsAdjustmentText))
    requires st.isContributionAdjustment == Any(passed, MentionsContribution)
    requires st'.isContributionAdjustment == Any(passed + [s], MentionsContribution)
    requires (st'.date, st'.amount) == (st.date, st.amount)
    ensures st' == FillAdjustmentText(st, s)
  {
    AnyAppend(passed, s, MentionsContribution);
    FilterAppend(passed, [s], IsAdjustmentText);
    if IsAdjustmentText(s) {
      assert Filter([s], IsAdjustmentText) == [s];
      TypeCategoryDescriptionAppend(Filter(passed, IsAdjustmentText), s);
    } else {
      assert Filter([s], IsAdjustmentText) == [];
      assert passed + [s] != passed;
      assert Filter(passed + [s], IsAdjustmentText) == Filter(passed, IsAdjustmentText);
    }
  }

  // ---------------------------------------------------------------------------
  // Properties

  /** While no amount is set, a cell that is neither a date nor a number is consumed and changes nothing. */
  lemma AdjustmentSkipsUnparsed(fuzzy: DateOracle, st: AdjustmentSlots, s: string)
    requires st.amount.None? && !(st.date.None? && IsDateText(fuzzy, s)) && ParseAmount(s) == None
    ensures AdjustmentTextStep(fuzzy, st, s) == st
  {
  }

  /** A text mentioning a contribution has letters, so it is never an amount. */
  lemma ContributionIsNoAmount(s: string)
    requires MentionsContribution(s)
    ensures ParseAmount(s) == None
  {
    var w := if Contains(Lower(s), "contribution") then "contribution" else "capital call";
    var i :| 0 <= i <= |Lower(s)| - |w| && OccursAt(Lower(s), w, i);
    assert Lower(s)[i] == w[0] == 'c';
    assert IsAsciiLetter(s[i]);
    ParseAmountRejectsLetters(s);
  }

  /**
   * The contribution flag is set exactly when a cell after the amount cell
   * mentions a contribution: such a cell met before the amount is consumed by
   * the amount slot.
   */
  lemma AdjustmentContributionIff(fuzzy: DateOracle, row: Row)
    ensures var afterDate := TakeFirst(StrippedCells(row), DateTest(fuzzy)).1;
      var after := SplitAtFirst(afterDate, HasNonZeroAmount).2;
      AdjustmentScan(fuzzy, row).isContributionAdjustment <==> Any(after, MentionsContribution)
  {
    AdjustmentScanIsSelection(fuzzy, row);
    var afterDate := TakeFirst(StrippedCells(row), DateTest(fuzzy)).1;
    forall x | ReadsAsZero(x) ensures !MentionsContribution(x) {
      if MentionsContribution(x) {
        ContributionIsNoAmount(x);
      }
    }
    PassFirstAny(afterDate, HasNonZeroAmount, ReadsAsZero, MentionsContribution);
  }

  /** A cell mentioning a contribution does not consume the cell: it still becomes the type when that is free. */
  lemma ContributionStillFillsType(st: AdjustmentSlots, s: string)
    requires MentionsContribution(s) && IsAdjustmentText(s) && IsShort(s) && st.adjustmentType.None?
    ensures FillAdjustmentText(st, s) == st.(isContributionAdjustment := true, adjustmentType := Some(s))
  {
  }

  /** Every adjustment carries the fund, a non-zero amount and a non-empty type. */
  lemma AdjustmentsValid(fuzzy: DateOracle, table: Table, fundId: int)
    ensures |Adjustments(fuzzy, table, fundId)| <= |DataRows(table)|
    ensures forall j :: 0 <= j < |Adjustments(fuzzy, table, fundId)| ==>
      var a := Adjustments(fuzzy, table, fundId)[j];
      a.fundId == fundId && a.amount != 0.0 && a.adjustmentType != ""
  {
    var f := AdjustmentRecordOf(fuzzy, fundId);
    forall j | 0 <= j < |Collect(f, DataRows(table))|
      ensures var a := Collect(f, DataRows(table))[j]; a.fundId == fundId && a.amount != 0.0 && a.adjustmentType != ""
    {
      CollectFrom(f, DataRows(table));
    }
  }

  /** The header row yields nothing, and the adjustments follow the order of the data rows. */
  lemma AdjustmentsByRows(fuzzy: DateOracle, header: Row, rows: Table, more: Table, fundId: int)
    ensures Adjustments(fuzzy, [header] + rows + more, fundId)
      == Adjustments(fuzzy, [header] + rows, fundId) + Collect(AdjustmentRecordOf(fuzzy, fundId), more)
  {
    assert DataRows([header] + rows + more) == rows + more;
    assert DataRows([header] + rows) == rows;
    CollectAppend(AdjustmentRecordOf(fuzzy, fundId), rows, more);
  }
}
