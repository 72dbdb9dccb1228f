/**
 * The main routine of main.py (lines 97-160) once the sheet is open and
 * the broker reachable: read the tickers from column A, run the buying
 * loop, append the log to columns C:D and clear column A.
 *
 * What the script reads from the sheet and the broker is passed in: the
 * cells of column A, the number of values in column C, the broker's
 * replies for each ticker, whether `batch_clear` succeeds, and how many
 * rows `get_all_values` reports. The sheet's reads and writes are taken
 * to succeed; only `batch_clear` may fail.
 */
module Run {
  import opened Wrappers
  import opened Money
  import opened Text
  import opened TickerColumn
  import opened Orders
  import opened Sheet
  import opened Render

  /** How column A was cleared. */
  datatype Clear = BatchCleared | FallbackCleared(update: Update)

  /** How a run ends. */
  datatype RunResult =
    | EmptyColumn
    | NoTickers
    | Processed(tickers: seq<Ticker>, log: seq<LogRow>, orders: seq<Order>, logWrite: Option<Update>, clear: Clear)

  /** `ws.batch_clear(["A:A"])`, or the fallback update when it raises. */
  function ClearColumnA(batchClearSucceeds: bool, allValuesRows: nat): (c: Clear)
    ensures c.BatchCleared? <==> batchClearSucceeds
    ensures c.FallbackCleared? ==> c.update == FallbackClear(allValuesRows)
  {
    if batchClearSucceeds then BatchCleared else FallbackCleared(FallbackClear(allValuesRows))
  }

  /**
   * One run of the script. An empty column A or a column without tickers
   * ends the run before the broker is asked anything; otherwise every
   * ticker is tried once, in row order, the log is appended below the
   * existing entries of column C, and column A is cleared.
   */
  method Run(colA: seq<Cell>, filledC: nat, replies: seq<Replies>, minNotional: real,
             batchClearSucceeds: bool, allValuesRows: nat)
    returns (result: RunResult)
    requires |colA| <= |replies|
    ensures result.EmptyColumn? <==> colA == []
    ensures result.NoTickers? <==> colA != [] && Tickers(colA) == []
    ensures result.Processed? ==>
      && result.tickers == Tickers(colA) != []
      && result.log == LogOf(result.tickers, replies, minNotional)
      && result.orders == OrdersOf(result.tickers, replies, minNotional)
      && result.logWrite == LogUpdate(filledC, LogGrid(result.log))
      && result.clear == ClearColumnA(batchClearSucceeds, allValuesRows)
  {
    if colA == [] {
      return EmptyColumn;
    }
    var tickers := ExtractTickers(colA);
    if tickers == [] {
      return NoTickers;
    }
    var log, orders := ProcessTickers(tickers, replies, minNotional);
    var logWrite := LogUpdate(filledC, LogGrid(log));
    var clear := ClearColumnA(batchClearSucceeds, allValuesRows);
    result := Processed(tickers, log, orders, logWrite, clear);
  }

  /**
   * Once there are tickers (as in every `Processed` run), the log is always
   * written: one row per ticker, each naming its ticker, to columns C:D
   * from the first free row of column C (below the header and below every
   * value already there) down one sheet row per ticker.
   */
  lemma LogAlwaysWritten(ts: seq<Ticker>, filledC: nat, replies: seq<Replies>, minNotional: real)
    requires ts != [] && |ts| <= |replies|
    ensures var w := LogUpdate(filledC, LogGrid(LogOf(ts, replies, minNotional)));
      && w.Some?
      && |w.value.values| == |ts|
      && (forall k :: 0 <= k < |ts| ==> w.value.values[k][0] == ts[k].symbol)
      && var first := FirstEmptyRow(filledC, LogStartRow);
        && LogStartRow <= first && filledC < first
        && w.value.range == LogRange(Block(first, first + |ts| - 1))
  {
    LogNamesTickers(ts, replies, minNotional);
  }

  /** The grid of the log has one row per ticker, whose first cell is that ticker. */
  lemma LogNamesTickers(ts: seq<Ticker>, replies: seq<Replies>, minNotional: real)
    requires |ts| <= |replies|
    ensures var g := LogGrid(LogOf(ts, replies, minNotional));
      |g| == |ts| && forall k :: 0 <= k < |ts| ==> g[k][0] == ts[k].symbol
  {
    var log := LogOf(ts, replies, minNotional);
    forall k | 0 <= k < |ts|
      ensures log[k].ticker == ts[k].symbol
    {
      LogOfAt(ts, replies, minNotional, k);
    }
  }

  /** The order for the k-th ticker was for the cleaned text of a non-blank cell below the header. */
  lemma TickerFromColumnA(colA: seq<Cell>, k: nat)
    requires k < |Tickers(colA)|
    ensures var row := Tickers(colA)[k].row;
      && row in Rows(Tickers(colA))
      && StartRow <= row <= |colA|
      && !AllSpace(CellText(colA[row - 1]))
      && Tickers(colA)[k].symbol == Clean(colA[row - 1])
  {
    TickerFromItsRow(colA, k);
    TickersCoverNonBlankRows(colA);
  }

  /**
   * Every order placed was for the cleaned text of a non-blank cell of
   * column A below the header, and met the minimum notional.
   */
  lemma OrdersFromColumnA(colA: seq<Cell>, replies: seq<Replies>, minNotional: real)
    requires |colA| <= |replies|
    ensures var ts := Tickers(colA);
      forall o :: o in OrdersOf(ts, replies, minNotional) ==>
        && minNotional <= Dollars(o.notional)
        && exists row :: (row in Rows(ts) && StartRow <= row <= |colA|
                            && !AllSpace(CellText(colA[row - 1])) && o.symbol == Clean(colA[row - 1]))
  {
    var ts := Tickers(colA);
    OrdersWithinTickers(ts, replies, minNotional);
    forall o | o in OrdersOf(ts, replies, minNotional)
      ensures exists row :: (row in Rows(ts) && StartRow <= row <= |colA|
                             && !AllSpace(CellText(colA[row - 1])) && o.symbol == Clean(colA[row - 1]))
    {
      var k :| 0 <= k < |ts| && ts[k].symbol == o.symbol;
      TickerFromColumnA(colA, k);
    }
  }
}
