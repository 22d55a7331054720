/** Tables as `pdfplumber` extracts them: rows of cells, each cell a text or nothing. */
module Tables {
  import opened Wrappers
  import opened Strings
  import opened Selection

  type Cell = Option<string>
  type Row = seq<Cell>
  type Table = seq<Row>

  /** Python's truth value of a cell (`if not cell: continue`): there is a cell and its text is not empty. */
  predicate Filled(c: Cell) {
    c.Some? && c.value != ""
  }

  function CellValue(c: Cell): string {
    if c.Some? then c.value else ""
  }

  /** The texts of a row's filled cells, in order: the cells a row parser looks at. */
  function FilledTexts(row: Row): (r: seq<string>)
    ensures |r| <= |row|
    ensures forall i :: 0 <= i < |r| ==> r[i] != ""
  {
    Map(Filter(row, Filled), CellValue)
  }

  lemma FilledTextsAppend(row: Row, c: Cell)
    ensures FilledTexts(row + [c]) == FilledTexts(row) + (if Filled(c) then [c.value] else [])
  {
    FilterAppend(row, [c], Filled);
    assert Filter([c], Filled) == if Filled(c) then [c] else [];
    MapAppend(Filter(row, Filled), Filter([c], Filled), CellValue);
  }

  /** The stripped texts of the row's filled cells. */
  function StrippedCells(row: Row): seq<string> {
    Map(FilledTexts(row), Strip)
  }

  lemma StrippedCellsAppend(row: Row, c: Cell)
    ensures StrippedCells(row + [c]) == StrippedCells(row) + (if Filled(c) then [Strip(c.value)] else [])
  {
    FilledTextsAppend(row, c);
    var extra := if Filled(c) then [c.value] else [];
    MapAppend(FilledTexts(row), extra, Strip);
    assert Map(extra, Strip) == if Filled(c) then [Strip(c.value)] else [];
  }

  /** Each filled text is the text of some filled cell of the row. */
  lemma FilledTextOf(row: Row, j: nat) returns (i: nat)
    requires j < |FilledTexts(row)|
    ensures i < |row| && Filled(row[i]) && row[i].value == FilledTexts(row)[j]
  {
    var kept := Filter(row, Filled);
    assert kept[j] in multiset(kept);
    assert kept[j] in multiset(row);
    i :| 0 <= i < |row| && row[i] == kept[j];
  }

  /** `table[1:]`: every row after the header. */
  function DataRows(t: Table): (r: Table)
    ensures |r| == if |t| == 0 then 0 else |t| - 1
    ensures forall i :: 0 <= i < |r| ==> r[i] == t[i + 1]
  {
    if |t| == 0 then [] else t[1..]
  }
}
