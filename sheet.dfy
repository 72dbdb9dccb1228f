/**
 * Where main.py writes on the worksheet: the first free row of a column
 * (lines 70-72), the block of rows in columns C:D that receives the log
 * (lines 146-149), and the fallback that blanks column A when
 * `batch_clear` fails (lines 153-160).
 */
module Sheet {
  import opened Wrappers
  import opened Render

  /**
   * `first_empty_row`: the row after the last value of a column holding
   * `filled` values, but never above `startRow`: the lowest row that is
   * both at or below `startRow` and past every value.
   */
  function FirstEmptyRow(filled: nat, startRow: nat): (r: nat)
    ensures startRow <= r && filled < r
    ensures r == startRow || r == filled + 1
  {
    if startRow > filled + 1 then startRow else filled + 1
  }

  /** The first row of the log, under its header in row 1. */
  const LogStartRow: nat := 2

  /** A block of sheet rows, first to last inclusive. */
  datatype Block = Block(first: nat, last: nat)

  /** An `update` of a range with a grid of values. */
  datatype Update = Update(range: string, values: seq<seq<string>>)

  /**
   * Where the log goes (lines 146-148): nothing when there are no rows,
   * otherwise the rows from the first free row of column C onward, one
   * sheet row per log row.
   */
  function LogBlock(filledC: nat, count: nat): (b: Option<Block>)
    ensures b.None? <==> count == 0
    ensures b.Some? ==> b.value.last - b.value.first + 1 == count
    ensures b.Some? ==> LogStartRow <= b.value.first && filledC < b.value.first
    ensures b.Some? ==> b.value.first == FirstEmptyRow(filledC, LogStartRow)
  {
    if count == 0 then None
    else
      var first := FirstEmptyRow(filledC, LogStartRow);
      Some(Block(first, first + count - 1))
  }

  /** The C:D range of a log block, e.g. "C7:D9": it names columns C to D, rows first to last. */
  function LogRange(b: Block): (s: string)
    ensures ParseA1Range(s) == Some(('C', b.first, 'D', b.last))
  {
    A1Range('C', b.first, 'D', b.last)
  }

  /** The write of `rows` (each a ticker and its outcome cell) below the existing log. */
  function LogUpdate(filledC: nat, rows: seq<seq<string>>): (u: Option<Update>)
    ensures u.None? <==> rows == []
    ensures u.Some? ==> u.value.values == rows
    ensures u.Some? ==> u.value.range == LogRange(LogBlock(filledC, |rows|).value)
    ensures u.Some? ==>
      var first := FirstEmptyRow(filledC, LogStartRow);
      ParseA1Range(u.value.range) == Some(('C', first, 'D', first + |rows| - 1))
  {
    match LogBlock(filledC, |rows|)
    case None => None
    case Some(b) => Some(Update(LogRange(b), rows))
  }

  /**
   * Two log writes that name the same range cover the same block: the
   * range text determines where the rows land.
   */
  lemma LogRangeDeterminesBlock(b: Block, b': Block)
    requires LogRange(b) == LogRange(b')
    ensures b == b'
  {
    A1RangeInjective('C', b.first, 'D', b.last, 'C', b'.first, 'D', b'.last);
  }

  /** Rows to blank when the sheet reports no values at all. */
  const DefaultClearRows: nat := 1000

  /** `len(ws.get_all_values()) or 1000`: how many rows the fallback blanks. */
  function FallbackRows(allValuesRows: nat): (rows: nat)
    ensures 1 <= rows && allValuesRows <= rows
    ensures allValuesRows > 0 ==> rows == allValuesRows
    ensures allValuesRows == 0 ==> rows == DefaultClearRows
  {
    if allValuesRows > 0 then allValuesRows else DefaultClearRows
  }

  /** `[[""] for _ in range(rows)]`: one blank cell per row. */
  function Blanks(rows: nat): (g: seq<seq<string>>)
    ensures |g| == rows && forall i :: 0 <= i < rows ==> g[i] == [""]
  {
    if rows == 0 then [] else Blanks(rows - 1) + [[""]]
  }

  /**
   * The fallback clear of column A (lines 158-160): blank A1 down to the
   * last row that holds any value, or A1:A1000 on an empty sheet. Every
   * row holding a value anywhere on the sheet, column A included, lies in
   * the range, and every value written there is blank.
   */
  function FallbackClear(allValuesRows: nat): (u: Update)
    ensures |u.values| == FallbackRows(allValuesRows)
    ensures 1 <= |u.values| && allValuesRows <= |u.values|
    ensures u.range == A1Range('A', 1, 'A', |u.values|)
    ensures ParseA1Range(u.range) == Some(('A', 1, 'A', |u.values|))
    ensures forall i :: 0 <= i < |u.values| ==> u.values[i] == [""]
  {
    var rows := FallbackRows(allValuesRows);
    Update(A1Range('A', 1, 'A', rows), Blanks(rows))
  }
}
