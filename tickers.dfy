/**
 * Reading the ticker list from column A (main.py lines 98-113): row 1 is a
 * header, every later cell is stripped, blank cells are dropped, and the
 * rest are upper-cased and paired with their 1-based row number.
 */
module TickerColumn {
  import opened Wrappers
  import opened Text

  /** A cell as the sheet client returns it: text, or nothing (Python's None). */
  type Cell = Option<string>

  /** `cell or ""`: a missing cell reads as the empty string. */
  function CellText(cell: Cell): string
  {
    match cell
    case None => ""
    case Some(s) => s
  }

  /** A ticker to buy and the 1-based sheet row it was read from. */
  datatype Ticker = Ticker(row: nat, symbol: string)

  /** The first data row; row 1 holds the header. */
  const StartRow: nat := 2

  /** A cell's text as the script uses it: stripped and upper-cased. */
  function Clean(cell: Cell): (c: string)
    ensures |c| <= |CellText(cell)|
  {
    Upper(Strip(CellText(cell)))
  }

  /** A cleaned cell is empty exactly when the cell is blank: empty, missing or all whitespace. */
  lemma CleanEmptyIff(cell: Cell)
    ensures Clean(cell) == [] <==> AllSpace(CellText(cell))
    ensures Clean(cell) != [] ==> !IsSpace(Clean(cell)[0]) && !IsSpace(Clean(cell)[|Clean(cell)| - 1])
  {
    StripSpec(CellText(cell));
    UpperSpec(Strip(CellText(cell)));
  }

  /** Every cell of the column, cleaned. */
  function CleanColumn(col: seq<Cell>): (texts: seq<string>)
    ensures |texts| == |col|
  {
    if col == [] then [] else CleanColumn(col[..|col| - 1]) + [Clean(col[|col| - 1])]
  }

  /** Entry `i` of the cleaned column is cell `i`, cleaned. */
  lemma {:induction false} CleanColumnAt(col: seq<Cell>, i: nat)
    requires i < |col|
    ensures CleanColumn(col)[i] == Clean(col[i])
  {
    if i < |col| - 1 {
      CleanColumnAt(col[..|col| - 1], i);
    }
  }

  /** A text equal to entry `i` of the cleaned column is cell `i`, cleaned. */
  lemma EntryIsClean(col: seq<Cell>, i: nat, text: string)
    requires i < |col| && text == CleanColumn(col)[i]
    ensures text == Clean(col[i])
  {
    CleanColumnAt(col, i);
  }

  /** Entry `i` of the cleaned column is empty exactly when cell `i` is blank; otherwise its ends are not whitespace. */
  lemma CleanColumnBlank(col: seq<Cell>, i: nat)
    requires i < |col|
    ensures CleanColumn(col)[i] == [] <==> AllSpace(CellText(col[i]))
    ensures var t := CleanColumn(col)[i]; t != [] ==> !IsSpace(t[0]) && !IsSpace(t[|t| - 1])
  {
    CleanColumnAt(col, i);
    CleanEmptyIff(col[i]);
  }

  /**
   * The tickers of rows 2 .. n of a cleaned column, in row order: each
   * non-empty entry paired with its 1-based row number.
   */
  function TickersUpTo(texts: seq<string>, n: nat): (ts: seq<Ticker>)
    requires n <= |texts|
    ensures |ts| <= n
  {
    if n < StartRow then []
    else if texts[n - 1] != [] then TickersUpTo(texts, n - 1) + [Ticker(n, texts[n - 1])]
    else TickersUpTo(texts, n - 1)
  }

  /** `tickers_to_process`: the tickers of every row after the header. */
  function Tickers(col: seq<Cell>): (ts: seq<Ticker>)
    ensures |ts| <= |col|
  {
    TickersUpTo(CleanColumn(col), |col|)
  }

  /** The rows the tickers came from. */
  function Rows(ts: seq<Ticker>): set<nat>
  {
    set k | 0 <= k < |ts| :: ts[k].row
  }

  /**
   * The extraction loop of main.py, lines 103-109: rows 2 .. |col| in
   * order, each cell stripped, kept when non-empty, and upper-cased. The
   * script reaches this loop only once column A is known to be non-empty.
   */
  method ExtractTickers(col: seq<Cell>) returns (tickers: seq<Ticker>)
    requires col != []
    ensures tickers == Tickers(col)
  {
    ghost var texts := CleanColumn(col);
    tickers := [];
    for idx := StartRow - 1 to |col|
      invariant tickers == TickersUpTo(texts, idx)
    {
      var t := Strip(CellText(col[idx]));
      ghost var before := tickers;
      if t != [] {
        tickers := tickers + [Ticker(idx + 1, Upper(t))];
      }
      ExtractStep(col, idx, t, before, tickers);
    }
  }

  /** One more row of the extraction loop: a non-blank cell appends its ticker, a blank one nothing. */
  lemma ExtractStep(col: seq<Cell>, idx: nat, t: string, before: seq<Ticker>, after: seq<Ticker>)
    requires StartRow - 1 <= idx < |col|
    requires before == TickersUpTo(CleanColumn(col), idx)
    requires t == Strip(CellText(col[idx]))
    requires after == if t != [] then before + [Ticker(idx + 1, Upper(t))] else before
    ensures after == TickersUpTo(CleanColumn(col), idx + 1)
  {
    CleanColumnAt(col, idx);
  }

  /** Every entry comes from a non-empty text in rows 2 .. n and carries that text. */
  ghost predicate FromRows(texts: seq<string>, ts: seq<Ticker>, n: nat)
    requires n <= |texts|
  {
    forall k :: 0 <= k < |ts| ==>
      StartRow <= ts[k].row <= n && ts[k].symbol == texts[ts[k].row - 1] && ts[k].symbol != []
  }

  /** Entries appear in increasing row order (so input order is kept and no row repeats). */
  ghost predicate Ascending(ts: seq<Ticker>)
  {
    forall j, k :: 0 <= j < k < |ts| ==> ts[j].row < ts[k].row
  }

  /** Every non-empty text in rows 2 .. n gives an entry, and no other row does. */
  ghost predicate CoversRows(texts: seq<string>, ts: seq<Ticker>, n: nat)
    requires n <= |texts|
  {
    forall row :: StartRow <= row <= n ==> (texts[row - 1] != [] <==> row in Rows(ts))
  }

  lemma {:induction false} TickersUpToFromRows(texts: seq<string>, n: nat)
    requires n <= |texts|
    ensures FromRows(texts, TickersUpTo(texts, n), n)
    ensures |TickersUpTo(texts, n)| < n || n == 0
  {
    if n >= StartRow {
      TickersUpToFromRows(texts, n - 1);
    }
  }

  lemma {:induction false} TickersUpToAscending(texts: seq<string>, n: nat)
    requires n <= |texts|
    ensures Ascending(TickersUpTo(texts, n))
  {
    if n >= StartRow {
      TickersUpToAscending(texts, n - 1);
      TickersUpToFromRows(texts, n - 1);
    }
  }

  /** Appending an entry adds its row to the rows. */
  lemma RowsAppend(ts: seq<Ticker>, t: Ticker)
    ensures Rows(ts + [t]) == Rows(ts) + {t.row}
  {
    var ts' := ts + [t];
    assert ts'[|ts|] == t;
    forall r | r in Rows(ts') ensures r in Rows(ts) + {t.row} {
      var k :| 0 <= k < |ts'| && ts'[k].row == r;
      if k < |ts| { assert ts'[k] == ts[k]; }
    }
    forall r | r in Rows(ts) ensures r in Rows(ts') {
      var k :| 0 <= k < |ts| && ts[k].row == r;
      assert ts'[k] == ts[k];
    }
  }

  lemma {:induction false} TickersUpToCoversRows(texts: seq<string>, n: nat)
    requires n <= |texts|
    ensures CoversRows(texts, TickersUpTo(texts, n), n)
  {
    if n >= StartRow {
      TickersUpToCoversRows(texts, n - 1);
      TickersUpToFromRows(texts, n - 1);
      var prev := TickersUpTo(texts, n - 1);
      assert n !in Rows(prev);
      if texts[n - 1] != [] {
        RowsAppend(prev, Ticker(n, texts[n - 1]));
      }
    }
  }

  /** One extracted ticker: it comes from a row after the header and is that row's cleaned text. */
  lemma TickerFromItsRow(col: seq<Cell>, k: nat)
    requires k < |Tickers(col)|
    ensures var t := Tickers(col)[k];
      && StartRow <= t.row <= |col|
      && t.symbol == Clean(col[t.row - 1])
      && t.symbol != []
      && !IsSpace(t.symbol[0])
      && !IsSpace(t.symbol[|t.symbol| - 1])
  {
    var t := Tickers(col)[k];
    TickersUpToFromRows(CleanColumn(col), |col|);
    CleanColumnBlank(col, t.row - 1);
    EntryIsClean(col, t.row - 1, t.symbol);
  }

  /**
   * Each extracted ticker comes from a row after the header and is that
   * row's text stripped and upper-cased: never empty, never starting or
   * ending with whitespace. There are fewer tickers than rows.
   */
  lemma TickersFromTheirRows(col: seq<Cell>)
    ensures var ts := Tickers(col);
      && (ts == [] || |ts| < |col|)
      && forall k :: 0 <= k < |ts| ==>
        && StartRow <= ts[k].row <= |col|
        && ts[k].symbol == Clean(col[ts[k].row - 1])
        && ts[k].symbol != []
        && !IsSpace(ts[k].symbol[0])
        && !IsSpace(ts[k].symbol[|ts[k].symbol| - 1])
  {
    TickersUpToFromRows(CleanColumn(col), |col|);
    forall k | 0 <= k < |Tickers(col)| {
      TickerFromItsRow(col, k);
    }
  }

  /** The tickers keep the order of their rows in the column. */
  lemma TickersInRowOrder(col: seq<Cell>)
    ensures Ascending(Tickers(col))
  {
    TickersUpToAscending(CleanColumn(col), |col|);
  }

  /** A row after the header yields a ticker exactly when its cell is not blank. */
  lemma TickersCoverNonBlankRows(col: seq<Cell>)
    ensures forall row :: StartRow <= row <= |col| ==>
      (!AllSpace(CellText(col[row - 1])) <==> row in Rows(Tickers(col)))
  {
    TickersUpToCoversRows(CleanColumn(col), |col|);
    forall row | StartRow <= row <= |col|
      ensures !AllSpace(CellText(col[row - 1])) <==> row in Rows(Tickers(col))
    {
      CleanColumnBlank(col, row - 1);
    }
  }

  /** The header row is never read as a ticker, and a column with at most a header yields none. */
  lemma HeaderSkipped(col: seq<Cell>)
    ensures 1 !in Rows(Tickers(col))
    ensures |col| <= 1 ==> Tickers(col) == []
  {
    TickersUpToFromRows(CleanColumn(col), |col|);
  }
}
