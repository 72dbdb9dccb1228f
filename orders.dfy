/**
 * The buying loop of main.py (lines 120-143): for each ticker, in order,
 * read the buying power again, size a notional buy, skip it when it is
 * under the minimum, otherwise submit it, and record one log row per
 * ticker. The broker is an oracle: its replies for the i-th ticker are an
 * input, so the model covers every sequence of answers it could give.
 */
module Orders {
  import opened Wrappers
  import opened Money
  import opened Render
  import opened TickerColumn

  /** The broker's answer to `get_account()`: a buying power, or an exception. */
  datatype AccountReply = Account(buyingPower: real) | AccountFailure(error: string)

  /** The broker's answer to `submit_order(...)`: an order id, or an exception. */
  datatype SubmitReply = Accepted(orderId: string) | Rejected(error: string)

  /** The replies the broker gives while the loop handles one ticker. */
  datatype Replies = Replies(account: AccountReply, submit: SubmitReply)

  /** A market buy for `notional` cents of `symbol`, accepted by the broker. */
  datatype Order = Order(symbol: string, notional: int)

  /** What happened to one ticker: the second cell of its log row. */
  datatype Outcome = Skipped(notional: int) | Bought(notional: int) | Failed(error: string)

  /** One row of the log: the ticker and what happened to it. */
  datatype LogRow = LogRow(ticker: string, outcome: Outcome)

  /** One pass of the loop body: the outcome and the order it placed, if any. */
  datatype Attempt = Attempt(outcome: Outcome, order: Option<Order>)

  /**
   * The body of the loop for one ticker (lines 121-141). A failed account
   * read or a rejected submission ends in an error row; a notional under
   * the minimum is skipped without contacting the broker again; otherwise
   * the order is placed and its notional logged.
   */
  function TryBuy(symbol: string, r: Replies, minNotional: real): (a: Attempt)
    ensures a.order.Some? <==> a.outcome.Bought?
    ensures a.order.Some? ==> a.order.value == Order(symbol, a.outcome.notional)
    ensures a.outcome.Bought? ==> minNotional <= Dollars(a.outcome.notional)
    ensures a.outcome.Skipped? ==> Dollars(a.outcome.notional) < minNotional
    ensures !a.outcome.Failed? ==> r.account.Account?
    ensures r.account.AccountFailure? ==> a.outcome == Failed(r.account.error)
    ensures r.account.Account? && a.outcome.Failed? ==> r.submit.Rejected? && a.outcome.error == r.submit.error
    ensures !a.outcome.Failed? ==> r.account.Account? && a.outcome.notional == NotionalCents(TruncCents(r.account.buyingPower))
  {
    match r.account
    case AccountFailure(e) => Attempt(Failed(e), None)
    case Account(raw) =>
      var notional := NotionalCents(TruncCents(raw));
      if Dollars(notional) < minNotional then Attempt(Skipped(notional), None)
      else
        match r.submit
        case Rejected(e) => Attempt(Failed(e), None)
        case Accepted(_) => Attempt(Bought(notional), Some(Order(symbol, notional)))
  }

  /**
   * Whenever the account read succeeds, the loop computes 7% of the buying
   * power rounded down to the cent: for a non-negative buying power the
   * logged or bought notional never exceeds 7% of it and falls short of it
   * by less than 1.07 cents (one cent lost truncating the buying power,
   * then one more truncating the product).
   */
  lemma NotionalIsSevenPercent(symbol: string, r: Replies, minNotional: real)
    requires r.account.Account? && 0.0 <= r.account.buyingPower
    ensures var o := TryBuy(symbol, r, minNotional).outcome;
      !o.Failed? ==>
        && 0 <= o.notional
        && Dollars(o.notional) <= BuyFraction * r.account.buyingPower
        && BuyFraction * r.account.buyingPower < Dollars(o.notional) + 0.0107
  {
    var raw := r.account.buyingPower;
    var bp := TruncCents(raw);
    assert raw - 0.01 < Dollars(bp) <= raw;
    var n := NotionalCents(bp);
    assert Dollars(bp) * BuyFraction < Dollars(n) + 0.01;
    assert Dollars(n) <= Dollars(bp) * BuyFraction;
    assert BuyFraction * raw < BuyFraction * Dollars(bp) + 0.0007;
  }

  /**
   * A ticker is skipped exactly when the account read succeeds and the
   * notional it gives is under the minimum; it is bought exactly when the
   * notional reaches the minimum and the broker accepts the order.
   */
  lemma SkipIffUnderMinimum(symbol: string, r: Replies, minNotional: real)
    ensures var o := TryBuy(symbol, r, minNotional).outcome;
      && (o.Skipped? <==>
            r.account.Account?
            && Dollars(NotionalCents(TruncCents(r.account.buyingPower))) < minNotional)
      && (o.Bought? <==>
            r.account.Account? && r.submit.Accepted?
            && minNotional <= Dollars(NotionalCents(TruncCents(r.account.buyingPower))))
      && (o.Failed? <==> r.account.AccountFailure? || (r.submit.Rejected? && !o.Skipped?))
  {
  }

  /** The log rows of the first |ts| tickers, in ticker order. */
  function LogOf(ts: seq<Ticker>, rs: seq<Replies>, minNotional: real): (log: seq<LogRow>)
    requires |ts| <= |rs|
    ensures |log| == |ts|
  {
    if ts == [] then []
    else
      var k := |ts| - 1;
      LogOf(ts[..k], rs, minNotional) + [LogRow(ts[k].symbol, TryBuy(ts[k].symbol, rs[k], minNotional).outcome)]
  }

  /** The orders the broker accepted while handling the tickers `ts`, in submission order. */
  function OrdersOf(ts: seq<Ticker>, rs: seq<Replies>, minNotional: real): (orders: seq<Order>)
    requires |ts| <= |rs|
    ensures |orders| <= |ts|
  {
    if ts == [] then []
    else
      var k := |ts| - 1;
      var a := TryBuy(ts[k].symbol, rs[k], minNotional);
      OrdersOf(ts[..k], rs, minNotional) + (if a.order.Some? then [a.order.value] else [])
  }

  /**
   * The loop of main.py, lines 120-143: one log row per ticker, in order,
   * and one order placed for every ticker the broker accepted.
   */
  method ProcessTickers(tickers: seq<Ticker>, replies: seq<Replies>, minNotional: real)
    returns (log: seq<LogRow>, orders: seq<Order>)
    requires |tickers| <= |replies|
    ensures log == LogOf(tickers, replies, minNotional)
    ensures orders == OrdersOf(tickers, replies, minNotional)
  {
    log, orders := [], [];
    for i := 0 to |tickers|
      invariant log == LogOf(tickers[..i], replies, minNotional)
      invariant orders == OrdersOf(tickers[..i], replies, minNotional)
    {
      var ticker := tickers[i].symbol;
      var r := replies[i];
      assert tickers[..i + 1][..i] == tickers[..i];
      match r.account {
        case AccountFailure(e) =>
          log := log + [LogRow(ticker, Failed(e))];
        case Account(raw) =>
          var buyingPower := TruncCents(raw);
          var notional := NotionalCents(buyingPower);
          if Dollars(notional) < minNotional {
            log := log + [LogRow(ticker, Skipped(notional))];
          } else {
            match r.submit {
              case Rejected(e) =>
                log := log + [LogRow(ticker, Failed(e))];
              case Accepted(_) =>
                orders := orders + [Order(ticker, notional)];
                log := log + [LogRow(ticker, Bought(notional))];
            }
          }
      }
    }
    assert tickers[..|tickers|] == tickers;
  }

  /** Row `k` of the log names ticker `k` and records what TryBuy did with the k-th replies. */
  lemma {:induction false} LogOfAt(ts: seq<Ticker>, rs: seq<Replies>, minNotional: real, k: nat)
    requires |ts| <= |rs| && k < |ts|
    ensures LogOf(ts, rs, minNotional)[k] == LogRow(ts[k].symbol, TryBuy(ts[k].symbol, rs[k], minNotional).outcome)
  {
    var n := |ts| - 1;
    if k < n {
      LogOfAt(ts[..n], rs, minNotional, k);
    }
  }

  /** The orders a log records: one per Bought row, in log order. */
  function BoughtOrders(log: seq<LogRow>): seq<Order>
  {
    if log == [] then []
    else
      var last := log[|log| - 1];
      BoughtOrders(log[..|log| - 1]) + (if last.outcome.Bought? then [Order(last.ticker, last.outcome.notional)] else [])
  }

  /** The orders placed are exactly the ones the log reports as bought, in the same order. */
  lemma {:induction false} OrdersMatchLog(ts: seq<Ticker>, rs: seq<Replies>, minNotional: real)
    requires |ts| <= |rs|
    ensures OrdersOf(ts, rs, minNotional) == BoughtOrders(LogOf(ts, rs, minNotional))
  {
    if ts != [] {
      var k := |ts| - 1;
      OrdersMatchLog(ts[..k], rs, minNotional);
      var log := LogOf(ts, rs, minNotional);
      assert log[..k] == LogOf(ts[..k], rs, minNotional);
    }
  }

  /**
   * Every order placed meets the minimum notional and was for one of the
   * tickers; there are never more orders than tickers.
   */
  lemma {:induction false} OrdersWithinTickers(ts: seq<Ticker>, rs: seq<Replies>, minNotional: real)
    requires |ts| <= |rs|
    ensures |OrdersOf(ts, rs, minNotional)| <= |ts|
    ensures forall o :: o in OrdersOf(ts, rs, minNotional) ==>
      minNotional <= Dollars(o.notional) && exists k :: 0 <= k < |ts| && ts[k].symbol == o.symbol
  {
    if ts != [] {
      var k := |ts| - 1;
      OrdersWithinTickers(ts[..k], rs, minNotional);
      forall o | o in OrdersOf(ts[..k], rs, minNotional)
        ensures exists j :: 0 <= j < |ts| && ts[j].symbol == o.symbol
      {
        var j :| 0 <= j < k && ts[..k][j].symbol == o.symbol;
        assert ts[j].symbol == o.symbol;
      }
    }
  }

  /** When every account read fails, nothing is bought and every row is an error. */
  lemma {:induction false} BrokerDownBuysNothing(ts: seq<Ticker>, rs: seq<Replies>, minNotional: real)
    requires |ts| <= |rs|
    requires forall k :: 0 <= k < |ts| ==> rs[k].account.AccountFailure?
    ensures OrdersOf(ts, rs, minNotional) == []
    ensures forall k :: 0 <= k < |ts| ==> LogOf(ts, rs, minNotional)[k].outcome.Failed?
  {
    if ts != [] {
      BrokerDownBuysNothing(ts[..|ts| - 1], rs, minNotional);
    }
    forall k | 0 <= k < |ts|
      ensures LogOf(ts, rs, minNotional)[k].outcome.Failed?
    {
      LogOfAt(ts, rs, minNotional, k);
    }
  }

  const SkipPrefix: string := "SKIPPED (notional $"
  const ErrorPrefix: string := "ERROR: "

  /**
   * The second cell of a log row (lines 128, 136 and 139): the amount for
   * a buy, "SKIPPED (notional $<amount>)" for a skip, "ERROR: <message>"
   * for a failure.
   */
  function OutcomeText(o: Outcome): (s: string)
    ensures o.Bought? ==> s == FormatCents(o.notional)
    ensures o.Skipped? ==> |s| > |SkipPrefix| && s[..|SkipPrefix|] == SkipPrefix
    ensures o.Failed? ==> |s| >= |ErrorPrefix| && s[..|ErrorPrefix|] == ErrorPrefix && s[|ErrorPrefix|..] == o.error
  {
    match o
    case Bought(n) => FormatCents(n)
    case Skipped(n) => SkipPrefix + FormatCents(n) + ")"
    case Failed(e) => ErrorPrefix + e
  }

  /** The two cells written for one log row: columns C and D. */
  function LogCells(row: LogRow): (cells: seq<string>)
    ensures |cells| == 2 && cells[0] == row.ticker && cells[1] == OutcomeText(row.outcome)
  {
    [row.ticker, OutcomeText(row.outcome)]
  }

  /** `log_rows` as written to the sheet: one [ticker, outcome] pair of cells per row. */
  function LogGrid(log: seq<LogRow>): (g: seq<seq<string>>)
    ensures |g| == |log| && forall i :: 0 <= i < |log| ==> g[i] == LogCells(log[i])
  {
    seq(|log|, i requires 0 <= i < |log| => LogCells(log[i]))
  }

  /** Reads a log cell back into the outcome it records. */
  function ReadOutcome(s: string): Option<Outcome>
  {
    if |s| >= |ErrorPrefix| && s[..|ErrorPrefix|] == ErrorPrefix then Some(Failed(s[|ErrorPrefix|..]))
    else if |s| > |SkipPrefix| && s[..|SkipPrefix|] == SkipPrefix && s[|s| - 1] == ')' then
      match ParseCents(s[|SkipPrefix|..|s| - 1])
      case Some(n) => Some(Skipped(n))
      case None => None
    else
      match ParseCents(s)
      case Some(n) => Some(Bought(n))
      case None => None
  }

  /** A printed amount never starts like an error or a skip message. */
  lemma AmountIsNotAMessage(n: int)
    ensures var s := FormatCents(n);
      !(|s| >= |ErrorPrefix| && s[..|ErrorPrefix|] == ErrorPrefix)
      && !(|s| > |SkipPrefix| && s[..|SkipPrefix|] == SkipPrefix)
  {
    var s := FormatCents(n);
    if n < 0 {
      assert s[0] == '-';
    } else {
      assert IsDigit(s[0]);
    }
  }

  /** The log is unambiguous: every cell reads back as the outcome that was logged. */
  lemma OutcomeTextRoundTrip(o: Outcome)
    ensures ReadOutcome(OutcomeText(o)) == Some(o)
  {
    var s := OutcomeText(o);
    match o
    case Failed(e) =>
    case Bought(n) =>
      AmountIsNotAMessage(n);
      FormatCentsRoundTrip(n);
    case Skipped(n) =>
      assert s[..|ErrorPrefix|][0] == 'S';
      assert s[|SkipPrefix|..|s| - 1] == FormatCents(n);
      FormatCentsRoundTrip(n);
  }

  /**
   * The reader accepts only the texts OutcomeText writes: a cell that reads
   * as an outcome is that outcome's text, except for a zero amount written
   * "-0.00".
   */
  lemma ReadOutcomeExact(s: string, o: Outcome)
    requires ReadOutcome(s) == Some(o)
    ensures s == OutcomeText(o) || (!o.Failed? && o.notional == 0)
  {
    if |s| >= |ErrorPrefix| && s[..|ErrorPrefix|] == ErrorPrefix {
      assert o == Failed(s[|ErrorPrefix|..]);
      ErrorCellExact(s);
    } else if |s| > |SkipPrefix| && s[..|SkipPrefix|] == SkipPrefix && s[|s| - 1] == ')' {
      var inner := s[|SkipPrefix|..|s| - 1];
      assert o.Skipped? && ParseCents(inner) == Some(o.notional);
      SkipCellExact(s, o.notional);
    } else {
      assert o.Bought? && ParseCents(s) == Some(o.notional);
      FormatCentsExact(s, o.notional);
    }
  }

  /** A cell starting "ERROR: " is the error text of the message after it. */
  lemma ErrorCellExact(s: string)
    requires |s| >= |ErrorPrefix| && s[..|ErrorPrefix|] == ErrorPrefix
    ensures s == OutcomeText(Failed(s[|ErrorPrefix|..]))
  {
    assert s == ErrorPrefix + s[|ErrorPrefix|..];
  }

  /** A skip cell whose amount reads as `n` is the skip text of `n`, unless `n` is 0 written "-0.00". */
  lemma SkipCellExact(s: string, n: int)
    requires |s| > |SkipPrefix| && s[..|SkipPrefix|] == SkipPrefix && s[|s| - 1] == ')'
    requires ParseCents(s[|SkipPrefix|..|s| - 1]) == Some(n)
    ensures s == OutcomeText(Skipped(n)) || n == 0
  {
    var inner := s[|SkipPrefix|..|s| - 1];
    Enclosed(s, SkipPrefix);
    FormatCentsExact(inner, n);
    if inner == FormatCents(n) {
      assert OutcomeText(Skipped(n)) == SkipPrefix + inner + ")";
    }
  }

  /** A text that starts with `prefix` and ends in ")" is the prefix, what lies between, and the ")". */
  lemma Enclosed(s: string, prefix: string)
    requires |s| > |prefix| && s[..|prefix|] == prefix && s[|s| - 1] == ')'
    ensures s == prefix + s[|prefix|..|s| - 1] + ")"
  {
  }

  /** Reads the two cells of one log row back into the row they record. */
  function ReadLogRow(cells: seq<string>): Option<LogRow>
  {
    if |cells| != 2 then None
    else
      match ReadOutcome(cells[1])
      case Some(o) => Some(LogRow(cells[0], o))
      case None => None
  }

  /** Reads a grid of log cells back into log rows; None if any row does not read back. */
  function ReadLogGrid(g: seq<seq<string>>): Option<seq<LogRow>>
  {
    if g == [] then Some([])
    else
      match ReadLogGrid(g[..|g| - 1])
      case None => None
      case Some(rows) =>
        match ReadLogRow(g[|g| - 1])
        case None => None
        case Some(row) => Some(rows + [row])
  }

  /** One row of cells reads back as the log row it was written from. */
  lemma LogCellsRoundTrip(row: LogRow)
    ensures ReadLogRow(LogCells(row)) == Some(row)
  {
    OutcomeTextRoundTrip(row.outcome);
  }

  /** The grid of a prefix of the log is the prefix of the grid. */
  lemma LogGridPrefix(log: seq<LogRow>, n: nat)
    requires n <= |log|
    ensures LogGrid(log)[..n] == LogGrid(log[..n])
  {
  }

  /** Reading a grid one row longer adds that row's reading. */
  lemma ReadLogGridStep(g: seq<seq<string>>, rows: seq<LogRow>, row: LogRow)
    requires g != [] && ReadLogGrid(g[..|g| - 1]) == Some(rows) && ReadLogRow(g[|g| - 1]) == Some(row)
    ensures ReadLogGrid(g) == Some(rows + [row])
  {
  }

  /** The grid written to C:D records the log exactly: it reads back as the same rows, in order. */
  lemma {:induction false} LogGridRoundTrip(log: seq<LogRow>)
    ensures ReadLogGrid(LogGrid(log)) == Some(log)
  {
    if log != [] {
      var n := |log| - 1;
      var g := LogGrid(log);
      LogGridRoundTrip(log[..n]);
      LogGridPrefix(log, n);
      LogCellsRoundTrip(log[n]);
      ReadLogGridStep(g, log[..n], log[n]);
      assert log[..n] + [log[n]] == log;
    }
  }
}
