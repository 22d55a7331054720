/**
 * `TableParser._parse_capital_calls`: one pass over the data rows, and inside
 * each row one pass over its cells that fills four slots (date, amount,
 * type, description). A row with a date and a positive amount becomes a
 * capital call.
 *
 * `CallStep` is one turn of the cell loop and `CallScan` the whole loop; the
 * method `ParseCapitalCalls` is proved to compute `CapitalCalls`. Beside it,
 * `CallSelection` says independently which cell ends up in which slot, and
 * `CallScanIsSelection` proves the two agree.
 */
module CapitalCallParser {
  import opened Wrappers
  import opened Strings
  import opened Selection
  import opened Transactions
  import opened Tables
  import opened DateParser
  import opened AmountParser
  import opened CellTests

  /** The loop's local variables `call_date`, `amount`, `call_type` and `description`. */
  datatype CallSlots = CallSlots(
    date: Option<Date>,
    amount: Option<real>,
    callType: Option<string>,
    description: Option<string>)

  const NoCallSlots := CallSlots(None, None, None, None)

  /** Cell texts that are column labels, never a type or a description. */
  const CallLabels: seq<string> := ["date", "amount", "description"]

  /** One turn of the cell loop. */
  function CallStep(fuzzy: DateOracle, st: CallSlots, cell: Cell): CallSlots {
    if !Filled(cell) then st else CallTextStep(fuzzy, st, cell.value)
  }

  /** The turn on the text of a filled cell: the date and amount tests see it unstripped. */
  function CallTextStep(fuzzy: DateOracle, st: CallSlots, text: string): CallSlots {
    if st.date.None? && IsDateText(fuzzy, text) then st.(date := ParseDate(fuzzy, text))
    else if st.amount.None? && HasPositiveAmount(text) then st.(amount := ParseAmount(text))
    else FillCallText(st, Strip(text))
  }

  /** The last part of a turn: a text that is not a label fills the type or else the description. */
  function FillCallText(st: CallSlots, s: string): (r: CallSlots)
    ensures r.date == st.date && r.amount == st.amount
  {
    if IsCallText(s) then
      if st.callType.None? && IsShort(s) then st.(callType := Some(s))
      else if st.description.None? then st.(description := Some(s))
      else st
    else st
  }

  /** The slots after the cell loop has run over `cells`. */
  function CallScan(fuzzy: DateOracle, cells: Row): CallSlots {
    if cells == [] then NoCallSlots
    else CallStep(fuzzy, CallScan(fuzzy, cells[..|cells| - 1]), cells[|cells| - 1])
  }

  /** The record one data row yields, if any. */
  function CallOfRow(fuzzy: DateOracle, fundId: int, row: Row): (r: Option<CapitalCall>)
    ensures r.Some? ==> |row| >= 2 && r.value.fundId == fundId && r.value.amount > 0.0
    ensures r.Some? ==> r.value.callType != "" && |r.value.callType| < ShortLimit
  {
    if |row| < 2 then None
    else
      var st := CallScan(fuzzy, row);
      if st.date.Some? && st.amount.Some? then
        CallAmountPositive(fuzzy, row);
        CallTextsFilled(fuzzy, row);
        Some(CapitalCall(fundId, st.date.value, st.amount.value, st.callType.GetOr("Investment"), st.description))
      else None
  }

  function CallRecordOf(fuzzy: DateOracle, fundId: int): Row -> Option<CapitalCall> {
    row => CallOfRow(fuzzy, fundId, row)
  }

  /** `_parse_capital_calls(table, fund_id)` */
  function CapitalCalls(fuzzy: DateOracle, table: Table, fundId: int): seq<CapitalCall> {
    Collect(CallRecordOf(fuzzy, fundId), DataRows(table))
  }

  lemma {:induction false} CallAmountPositive(fuzzy: DateOracle, cells: Row)
    ensures CallScan(fuzzy, cells).amount.None? || CallScan(fuzzy, cells).amount.value > 0.0
  {
    if cells != [] {
      CallAmountPositive(fuzzy, cells[..|cells| - 1]);
    }
  }

  lemma {:induction false} CallTextsFilled(fuzzy: DateOracle, cells: Row)
    ensures var st := CallScan(fuzzy, cells);
      (st.callType.None? || (st.callType.value != "" && |st.callType.value| < ShortLimit))
      && (st.description.None? || st.description.value != "")
  {
    if cells != [] {
      CallTextsFilled(fuzzy, cells[..|cells| - 1]);
    }
  }

  // ---------------------------------------------------------------------------
  // The loop

  /** `_parse_capital_calls`, with the row loop and the `continue`s of the source. */
  method ParseCapitalCalls(fuzzy: DateOracle, table: Table, fundId: int) returns (calls: seq<CapitalCall>)
    ensures calls == CapitalCalls(fuzzy, table, fundId)
  {
    calls := [];
    var rows := DataRows(table);
    for k := 0 to |rows|
      invariant calls == Collect(CallRecordOf(fuzzy, fundId), rows[..k])
    {
      assert rows[..k + 1][..k] == rows[..k];
      var row := rows[k];
      if |row| < 2 {
        continue;
      }
      var callDate, amount, callType, description := ScanCallRow(fuzzy, row);
      if callDate.Some? && amount.Some? {
        calls := calls + [CapitalCall(fundId, callDate.value, amount.value, callType.GetOr("Investment"), description)];
      }
    }
    assert rows[..|rows|] == rows;
  }

  /** The cell loop of `_parse_capital_calls` over one row. */
  method ScanCallRow(fuzzy: DateOracle, row: Row)
    returns (callDate: Option<Date>, amount: Option<real>, callType: Option<string>, description: Option<string>)
    ensures CallSlots(callDate, amount, callType, description) == CallScan(fuzzy, row)
  {
    callDate, amount, callType, description := None, None, None, None;
    for i := 0 to |row|
      invariant CallSlots(callDate, amount, callType, description) == CallScan(fuzzy, row[..i])
    {
      assert row[..i + 1][..i] == row[..i];
      var cell := row[i];
      if !Filled(cell) {
        continue;
      }
      callDate, amount, callType, description := CallCellTurn(fuzzy, callDate, amount, callType, description, cell.value);
    }
    assert row[..|row|] == row;
  }

  /** One turn of the cell loop on a filled cell; each `return` is a `continue` of the source. */
  method CallCellTurn(fuzzy: DateOracle, date0: Option<Date>, amount0: Option<real>, type0: Option<string>,
                      description0: Option<string>, text: string)
    returns (callDate: Option<Date>, amount: Option<real>, callType: Option<string>, description: Option<string>)
    ensures CallSlots(callDate, amount, callType, description)
      == CallTextStep(fuzzy, CallSlots(date0, amount0, type0, description0), text)
  {
    callDate, amount, callType, description := date0, amount0, type0, description0;
    ghost var before := CallSlots(date0, amount0, type0, description0);
    if callDate.None? {
      var parsedDate := ParseDate(fuzzy, text);
      if parsedDate.Some? {
        assert CallTextStep(fuzzy, before, text) == before.(date := parsedDate);
        callDate := parsedDate;
        return;
      }
    }
    assert !(before.date.None? && IsDateText(fuzzy, text));
    if amount.None? {
      var parsedAmount := ParseAmount(text);
      if parsedAmount.Some? && parsedAmount.value > 0.0 {
        assert CallTextStep(fuzzy, before, text) == before.(amount := parsedAmount);
        amount := parsedAmount;
        return;
      }
    }
    var cellStr := Strip(text);
    assert CallTextStep(fuzzy, before, text) == FillCallText(before, cellStr);
    if cellStr != "" && Lower(cellStr) !in CallLabels {
      if callType.None? && |cellStr| < ShortLimit {
        callType := Some(cellStr);
      } else if description.None? {
        description := Some(cellStr);
      }
    }
  }

  // ---------------------------------------------------------------------------
  // Which cell fills which slot

  /** A stripped text that may become a type or a description. */
  predicate IsCallText(s: string) { s != "" && Lower(s) !in CallLabels }

  /** The stripped texts, among `cells`, that are not labels. */
  function CallTexts(cells: seq<string>): seq<string> {
    Filter(Map(cells, Strip), IsCallText)
  }

  lemma CallTextsAppend(cells: seq<string>, text: string)
    ensures CallTexts(cells + [text]) == CallTexts(cells) + (if IsCallText(Strip(text)) then [Strip(text)] else [])
  {
    MapAppend(cells, [text], Strip);
    assert Map([text], Strip) == [Strip(text)];
    FilterAppend(Map(cells, Strip), [Strip(text)], IsCallText);
    assert Filter([Strip(text)], IsCallText) == if IsCallText(Strip(text)) then [Strip(text)] else [];
  }

  /**
   * The slots described over a row's filled cells: the date is the first
   * cell that parses as a date; the amount is the first other cell with a
   * positive amount; of the remaining cells' stripped texts that are not
   * labels, the type is the first shorter than 50 characters and the
   * description the first other one.
   */
  function SelectCall(fuzzy: DateOracle, cells: seq<string>): CallSlots {
    var (dateCell, afterDate) := TakeFirst(cells, DateTest(fuzzy));
    var (amountCell, afterAmount) := TakeFirst(afterDate, HasPositiveAmount);
    var (callType, description) := TypeAndDescription(CallTexts(afterAmount));
    CallSlots(
      if dateCell.Some? then ParseDate(fuzzy, dateCell.value) else None,
      if amountCell.Some? then ParseAmount(amountCell.value) else None,
      callType,
      description)
  }

  function CallSelection(fuzzy: DateOracle, row: Row): CallSlots {
    SelectCall(fuzzy, FilledTexts(row))
  }

  /** The cell loop fills the slots exactly as `CallSelection` describes. */
  lemma {:induction false} CallScanIsSelection(fuzzy: DateOracle, row: Row)
    ensures CallScan(fuzzy, row) == CallSelection(fuzzy, row)
  {
    if row != [] {
      var init, c := row[..|row| - 1], row[|row| - 1];
      assert row == init + [c];
      CallScanIsSelection(fuzzy, init);
      FilledTextsAppend(init, c);
      if Filled(c) {
        SelectCallAppend(fuzzy, FilledTexts(init), c.value);
      } else {
        assert FilledTexts(row) == FilledTexts(init);
      }
    }
  }

  lemma SelectCallAppend(fuzzy: DateOracle, cells: seq<string>, text: string)
    ensures SelectCall(fuzzy, cells + [text]) == CallTextStep(fuzzy, SelectCall(fuzzy, cells), text)
  {
    var (dateCell, afterDate) := TakeFirst(cells, DateTest(fuzzy));
    TakeFirstAppend(cells, text, DateTest(fuzzy));
    if dateCell.None? && IsDateText(fuzzy, text) {
      SelectCallDateTurn(fuzzy, cells, text);
    } else {
      var (amountCell, afterAmount) := TakeFirst(afterDate, HasPositiveAmount);
      TakeFirstAppend(afterDate, text, HasPositiveAmount);
      if amountCell.None? && HasPositiveAmount(text) {
        SelectCallAmountTurn(fuzzy, cells, text, dateCell, afterDate);
      } else {
        SelectCallTextTurn(fuzzy, cells, text, dateCell, afterDate, amountCell, afterAmount);
      }
    }
  }

  /** The turn on a cell that the date takes. */
  lemma SelectCallDateTurn(fuzzy: DateOracle, cells: seq<string>, text: string)
    requires TakeFirst(cells, DateTest(fuzzy)).0.None? && IsDateText(fuzzy, text)
    requires TakeFirst(cells + [text], DateTest(fuzzy)) == (Some(text), cells)
    ensures SelectCall(fuzzy, cells + [text]) == CallTextStep(fuzzy, SelectCall(fuzzy, cells), text)
  {
  }

  /** The turn on a cell that the amount takes. */
  lemma SelectCallAmountTurn(fuzzy: DateOracle, cells: seq<string>, text: string, dateCell: Option<string>,
                             afterDate: seq<string>)
    requires (dateCell, afterDate) == TakeFirst(cells, DateTest(fuzzy))
    requires !(dateCell.None? && IsDateText(fuzzy, text))
    requires TakeFirst(afterDate, HasPositiveAmount).0.None? && HasPositiveAmount(text)
    requires TakeFirst(cells + [text], DateTest(fuzzy)) == (dateCell, afterDate + [text])
    requires TakeFirst(afterDate + [text], HasPositiveAmount) == (Some(text), afterDate)
    ensures SelectCall(fuzzy, cells + [text]) == CallTextStep(fuzzy, SelectCall(fuzzy, cells), text)
  {
    var st := SelectCall(fuzzy, cells);
    assert st.date.None? <==> dateCell.None?;
  }

  /** The turn on a cell that neither the date nor the amount takes. */
  lemma SelectCallTextTurn(fuzzy: DateOracle, cells: seq<string>, text: string, dateCell: Option<string>,
                           afterDate: seq<string>, amountCell: Option<string>, afterAmount: seq<string>)
    requires (dateCell, afterDate) == TakeFirst(cells, DateTest(fuzzy))
    requires (amountCell, afterAmount) == TakeFirst(afterDate, HasPositiveAmount)
    requires !(dateCell.None? && IsDateText(fuzzy, text)) && !(amountCell.None? && HasPositiveAmount(text))
    requires TakeFirst(cells + [text], DateTest(fuzzy)) == (dateCell, afterDate + [text])
    requires TakeFirst(afterDate + [text], HasPositiveAmount) == (amountCell, afterAmount + [text])
    ensures SelectCall(fuzzy, cells + [text]) == CallTextStep(fuzzy, SelectCall(fuzzy, cells), text)
  {
    var st := SelectCall(fuzzy, cells);
    var st' := SelectCall(fuzzy, cells + [text]);
    assert st.date.None? <==> dateCell.None?;
    assert st.amount.None? <==> amountCell.None?;
    assert CallTextStep(fuzzy, st, text) == FillCallText(st, Strip(text));
    assert (st'.date, st'.amount) == (st.date, st.amount);
    SelectCallTexts(cells, text, afterAmount, st, st');
  }

  lemma SelectCallTexts(cells: seq<string>, text: string, afterAmount: seq<string>, st: CallSlots, st': CallSlots)
    requires (st.callType, st.description) == TypeAndDescription(CallTexts(afterAmount))
    requires (st'.callType, st'.description) == TypeAndDescription(CallTexts(afterAmount + [text]))
    requires (st'.date, st'.amount) == (st.date, st.amount)
    ensures st' == FillCallText(st, Strip(text))
  {
    var s := Strip(text);
    CallTextsAppend(afterAmount, text);
    if IsCallText(s) {
      assert CallTexts(afterAmount + [text]) == CallTexts(afterAmount) + [s];
      TypeAndDescriptionAppend(CallTexts(afterAmount), s);
    } else {
      assert CallTexts(afterAmount + [text]) == CallTexts(afterAmount);
    }
  }

  // ---------------------------------------------------------------------------
  // Properties

  /** A row whose filled cells include no date never yields a capital call. */
  lemma CallNeedsDate(fuzzy: DateOracle, fundId: int, row: Row)
    requires forall i :: 0 <= i < |row| && Filled(row[i]) ==> ParseDate(fuzzy, row[i].value).None?
    ensures CallOfRow(fuzzy, fundId, row) == None
  {
    CallScanIsSelection(fuzzy, row);
    var cells := FilledTexts(row);
    forall j | 0 <= j < |cells| ensures !DateTest(fuzzy)(cells[j]) {
      var i := FilledTextOf(row, j);
    }
  }

  /** A row in which no filled cell has a positive amount never yields a capital call. */
  lemma CallNeedsAmount(fuzzy: DateOracle, fundId: int, row: Row)
    requires forall i :: 0 <= i < |row| && Filled(row[i]) ==> !PositiveAmount(ParseAmount(row[i].value))
    ensures CallOfRow(fuzzy, fundId, row) == None
  {
    CallScanIsSelection(fuzzy, row);
    var cells := FilledTexts(row);
    var (dateCell, afterDate) := TakeFirst(cells, DateTest(fuzzy));
    forall j | 0 <= j < |cells| ensures !HasPositiveAmount(cells[j]) {
      var i := FilledTextOf(row, j);
    }
    TakeFirstKeeps(cells, DateTest(fuzzy), HasPositiveAmount);
  }

  /** Every capital call carries the fund, a positive amount and a non-empty type. */
  lemma CapitalCallsValid(fuzzy: DateOracle, table: Table, fundId: int)
    ensures |CapitalCalls(fuzzy, table, fundId)| <= |DataRows(table)|
    ensures forall j :: 0 <= j < |CapitalCalls(fuzzy, table, fundId)| ==>
      var c := CapitalCalls(fuzzy, table, fundId)[j];
      c.fundId == fundId && c.amount > 0.0 && c.callType != ""
  {
    var f := CallRecordOf(fuzzy, fundId);
    forall j | 0 <= j < |Collect(f, DataRows(table))|
      ensures var c := Collect(f, DataRows(table))[j]; c.fundId == fundId && c.amount > 0.0 && c.callType != ""
    {
      CollectFrom(f, DataRows(table));
    }
  }

  /** The header row never yields a capital call, and the calls follow the order of the data rows. */
  lemma CapitalCallsByRows(fuzzy: DateOracle, header: Row, rows: Table, more: Table, fundId: int)
    ensures CapitalCalls(fuzzy, [header] + rows + more, fundId)
      == CapitalCalls(fuzzy, [header] + rows, fundId) + Collect(CallRecordOf(fuzzy, fundId), more)
  {
    assert DataRows([header] + rows + more) == rows + more;
    assert DataRows([header] + rows) == rows;
    CollectAppend(CallRecordOf(fuzzy, fundId), rows, more);
  }
}
