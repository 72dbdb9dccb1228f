# Sheet-driven notional buyer — a Dafny model

`main.py` is a one-shot script. It reads stock tickers from column A of a
Google Sheet. For each ticker it places a market buy on Alpaca sized at 7%
of the account's current buying power, truncated to the cent. It appends
one log row per ticker (ticker and amount, "SKIPPED (notional $…)" or
"ERROR: …") to columns C:D. Then it clears column A, falling back to
writing blanks when `batch_clear` fails.

This project models that core in Dafny and proves what it promises. The
modules are:

- `Money` (`money.dfy`): amounts quantized to 0.01 are whole cents (`int`).
  - A raw decimal from the broker is an exact `real`.
  - `decimal_usd` and the notional quantization are truncations toward zero.
- `Text` (`text.dfy`): Python's `str.strip()` and `str.upper()`.
  - Strip uses Python's whitespace set and scans the way CPython does.
- `TickerColumn` (`tickers.dfy`): reading column A into `(row, ticker)` pairs.
  - Row 1 is skipped.
  - Blank cells are dropped.
  - Symbols are stripped and upper-cased.
- `Orders` (`orders.dfy`): the per-ticker buying loop, and the text of each log cell.
- `Render` (`render.dfy`): `str()` of a quantized Decimal, and A1-notation ranges.
- `Sheet` (`sheet.dfy`): `first_empty_row`, the C:D block that receives the log, and the fallback clear of column A.
- `Run` (`run.dfy`): `main()` from reading column A to clearing it.
- `Wrappers` (`wrappers.dfy`): an `Option` type.

Everything the script reads from outside is an input to the model:

- the cells of column A;
- the number of values in column C;
- the broker's replies for each ticker;
- whether `batch_clear` raises;
- the row count of `get_all_values`.

So the proofs hold for every answer the broker could give, and for every content of the sheet. The sheet calls the script makes outside any `try` (reading column C and writing the log, lines 147-149), and those inside the fallback's `except` (lines 158-160), are taken to succeed; when one raises, the script stops there (see "## Left out").

Three behaviours of the code are worth stating, since a reader might expect otherwise:

- Row 1 is always skipped, whether or not it looks like a header.
- Column A is cleared whenever at least one ticker was read and the sheet accepts the writes, even if every order failed or was skipped.
- There is no spending cap across tickers. Each ticker re-reads the buying power and takes 7% of it.

## Model

| member | source | states |
|---|---|---|
| Money.TruncCents | main.py:66-67 | `decimal_usd` rounds toward zero: the result lies between 0 and x and is less than one cent from x, for both signs |
| Money.TruncCentsUnique | main.py:66-67 | the truncation is the only whole-cent amount satisfying those bounds |
| Money.TruncCentsIdempotent | main.py:66-67 | truncating an amount that is already whole cents returns it unchanged |
| Money.TruncCentsMonotone | main.py:66-67 | truncation preserves order |
| Money.NotionalCents | main.py:124 | for a non-negative buying power, the notional is non-negative, at most 7% of it, and within a cent of 7%; a negative buying power gives a non-positive notional |
| Money.NotionalIntegerForm | main.py:124 | the notional equals 7 × cents / 100 with the quotient truncated toward zero |
| Money.NotionalMonotone | main.py:124 | more buying power never gives a smaller notional |
| Render.DigitsRoundTrip | main.py:136 | the decimal digits printed for a whole number read back as that number |
| Render.FormatCents | main.py:136 | `str()` of a quantized amount has a point followed by exactly two digits, and a leading minus exactly when negative |
| Render.FormatCentsCanonical | main.py:136 | the whole dollars are printed as Python prints them, with no leading zero unless they are 0, and two decimal digits follow the point |
| Render.FormatCentsRoundTrip | main.py:136 | a printed amount parses back to the same number of cents, through a reader that refuses whole dollars with a leading zero |
| Render.FormatCentsExact | main.py:136 | the reader accepts only the printed form of the amount it reads, or "-0.00" for 0, so each amount has one printed text |
| Render.A1Range | main.py:149 | the range f-string reads back as exactly the two columns and two rows it was built from; rows are printed without leading zeros, which the reader refuses |
| Render.A1RangeExact | main.py:149 | the reader accepts only the texts A1Range builds, so each pair of corners has exactly one range text |
| Render.A1RangeInjective | main.py:149 | different corners give different range texts |
| Text.Strip | main.py:107 | `strip()` never lengthens a string |
| Text.StripSpec | main.py:107 | `strip()` removes an all-whitespace prefix and suffix and nothing else; the result has no whitespace at either end; it is empty exactly when the input is all whitespace |
| Text.StripIdempotent | main.py:107 | stripping twice is stripping once |
| Text.Upper | main.py:109 | the model's upper-casing keeps the length; Text.UpperAt and Text.UpperSpec give each character's upper-case form |
| Text.UpperChar | main.py:109 | one character upper-cased: never a lower-case ASCII letter, and either unchanged or the lower-case letter shifted to upper case |
| Text.UpperSpec | main.py:109 | `upper()` leaves no lower-case letter, changes only lower-case letters, and keeps whitespace as whitespace |
| Text.UpperIdempotent | main.py:109 | upper-casing twice is upper-casing once |
| TickerColumn.Clean | main.py:107-109 | `(col_a[idx] or "").strip()` followed by the model's upper-casing is never longer than the cell's text; TickerColumn.CleanEmptyIff says when it is empty |
| TickerColumn.CleanEmptyIff | main.py:107-108 | a cell's stripped, upper-cased text is empty exactly when the cell is missing, empty or all whitespace; otherwise it has no whitespace at either end |
| TickerColumn.Tickers | main.py:103-109 | `tickers_to_process` has at most one ticker per cell; the lemmas below say which cells give one and what it holds |
| TickerColumn.ExtractTickers | main.py:103-109 | the loop returns exactly the tickers of `Tickers(col)` |
| TickerColumn.TickersFromTheirRows | main.py:103-109 | every ticker comes from a row in 2..len(col) and is that cell stripped and upper-cased; it is non-empty with no whitespace at either end; there are fewer tickers than rows |
| TickerColumn.TickersInRowOrder | main.py:106-109 | tickers appear in strictly increasing row order, so none repeats a row |
| TickerColumn.TickersCoverNonBlankRows | main.py:106-109 | a row below the header gives a ticker exactly when its cell is not blank |
| TickerColumn.HeaderSkipped | main.py:103-106 | row 1 never gives a ticker, and a column of at most one cell gives none |
| Orders.TryBuy | main.py:121-141 | an order is placed exactly when the outcome is a buy, for that ticker and notional; a buy meets the minimum; a skip is under it; a skipped or bought notional is 7% of the truncated buying power, truncated; a failed account read is logged as that error, and any other failure is the broker's rejection of the order, logged as its error |
| Orders.NotionalIsSevenPercent | main.py:122-124 | for a non-negative buying power, a logged or bought notional is non-negative, never above 7% of the buying power, and less than 1.07 cents below it |
| Orders.SkipIffUnderMinimum | main.py:126-141 | skipped iff the account read succeeds and the notional is under the minimum; bought iff it reaches the minimum and the broker accepts; failed otherwise |
| Orders.LogOf | main.py:118-141 | `log_rows` holds exactly one row per ticker; Orders.LogOfAt gives row k |
| Orders.OrdersOf | main.py:131-133 | at most one order is placed per ticker; Orders.OrdersMatchLog ties the orders to the bought rows |
| Orders.ProcessTickers | main.py:120-143 | the loop produces exactly `LogOf` and `OrdersOf` of the tickers and broker replies |
| Orders.LogOfAt | main.py:120-141 | log row k names ticker k and records what happened to it |
| Orders.OrdersMatchLog | main.py:131-136 | the orders placed are exactly the rows logged as bought, in the same order |
| Orders.OrdersWithinTickers | main.py:120-136 | every order meets the minimum notional and is for one of the tickers; there are never more orders than tickers |
| Orders.BrokerDownBuysNothing | main.py:121-123 | when every account read fails, nothing is bought and every log row is an error |
| Orders.OutcomeText | main.py:128-141 | the log cell is the amount for a buy, starts "SKIPPED (notional $" for a skip, and is "ERROR: " followed by the message for a failure |
| Orders.ReadOutcomeExact | main.py:128-141 | a cell that reads as an outcome is exactly that outcome's text ("SKIPPED (notional $" amount ")", the amount, or "ERROR: " message), except a zero amount written "-0.00" |
| Orders.OutcomeTextRoundTrip | main.py:136-141 | every log cell reads back as the outcome that was logged, so buys, skips and errors are never confused |
| Orders.LogCellsRoundTrip | main.py:128-141 | the two cells written for a log row read back as that row: the ticker and its outcome |
| Orders.LogGridRoundTrip | main.py:118-141 | the grid `log_rows` written to C:D reads back as the log, row for row and in order |
| Sheet.FirstEmptyRow | main.py:70-72 | the result is at or below `start_row` and past every value, and is the lowest such row |
| Sheet.LogBlock | main.py:146-148 | there is a block exactly when there are log rows; it holds one sheet row per log row and starts at `first_empty_row` of column C, so below the header and below every value already there |
| Sheet.LogRange | main.py:149 | the range text of a block reads back as columns C to D, from the block's first row to its last |
| Sheet.LogUpdate | main.py:146-149 | the log is written only when there are rows; exactly those rows are written, to the range that reads back as C`first`:D`first + n - 1`, where `first` is `first_empty_row` of column C and n the number of rows |
| Sheet.LogRangeDeterminesBlock | main.py:149 | the range text determines which rows receive the log |
| Sheet.FallbackRows | main.py:158 | at least one row; every row reported by `get_all_values` is included; 1000 on an empty sheet |
| Sheet.Blanks | main.py:159 | one blank cell per row |
| Sheet.FallbackClear | main.py:158-160 | the fallback writes `len(get_all_values()) or 1000` blanks, to the range that reads back as A1:A of that many rows, so through the last row holding any value; every value written is blank |
| Run.ClearColumnA | main.py:152-160 | column A is cleared by `batch_clear` exactly when it succeeds; otherwise it is cleared by the fallback write |
| Run.Run | main.py:97-160 | an empty column A, or one with no tickers, ends the run; otherwise the run tries every ticker in row order, writes the log below column C's entries, and clears column A by `batch_clear` or the fallback (the sheet's own writes being taken to succeed) |
| Run.LogAlwaysWritten | main.py:146-149 | once there are tickers, the log is written with one row per ticker, each naming its ticker, to the C:D range from the first free row of column C (below the header and every value there) down one row per ticker |
| Run.TickerFromColumnA | main.py:103-109 | the k-th ticker comes from a non-blank cell below the header and is that cell's cleaned text |
| Run.OrdersFromColumnA | main.py:103-136 | every order placed meets the minimum and is for the cleaned text of a non-blank cell of column A below the header |

## Left out

- Google Sheets and Alpaca I/O are not modelled. Opening the sheet, authorizing, and the REST calls become inputs: cells, counts and broker replies.
- `validate_alpaca_env`, the environment configuration and the service-account credentials (lines 1-63) are not modelled. `MIN_NOTIONAL` is a parameter and is taken to be a finite number; a NaN minimum, which would make every comparison raise, is not modelled.
- The initial `get_account` check that aborts on an authentication failure (lines 90-95) is not modelled.
- `die` is not modelled. It ends the process at lines 87 and 95, before any order or sheet write, on the paths the model leaves out (opening the sheet, the initial account check).
- The `time.sleep(0.4)` pause is not modelled. It has no effect on the sheet or the orders.
- `print` is not modelled, and is taken never to raise. The prints at lines 127 and 135 sit inside the loop's `try`, and the one at line 155 inside the `try` around `batch_clear`: if one raised (a `UnicodeEncodeError` on a console that cannot print the emoji, or a reply without an `id`), the `except` would log "ERROR: …" for that ticker. At line 135 the order has already been placed, so the log would then report an error for a bought ticker; Orders.OrdersMatchLog does not cover that case. At line 155 `batch_clear` has already succeeded, so the fallback would run as well, which Run.ClearColumnA's "exactly when" does not cover.
- Exceptions from the sheet calls outside the loop are not modelled. The column reads at lines 98, 117 and 147 and `ws.update` of the log (line 149) sit outside any `try`, and `get_all_values` and the fallback `update` (lines 158 and 160) sit inside the `except`; when one raises, `main` stops there, so the log or the clear of column A never happens. The model takes these calls to succeed.
- The unused `next_log_row` computed at line 117 is not modelled. Its value is never used; the log position is read again at line 147.
- A buying power that gives no finite amount is an `AccountFailure`, since the script logs it as an error either way. A text `Decimal` rejects raises in the `Decimal(str(x))` constructor on line 67; an infinity and a signalling NaN raise in that line's `quantize`; a quiet NaN passes both quantizations and raises at the comparison on line 126.
- Money.NotionalCents: Decimal arithmetic is treated as exact. The 28-digit context precision, and the `InvalidOperation` raised when quantizing an amount beyond it, are not modelled.
- Render.FormatCents: a negative amount that truncates to zero is printed "0.00", where Python's Decimal prints "-0.00".
- `float(notional)`: the conversion passed to `submit_order` is not modelled. The broker oracle receives the order as whole cents.
- Text.Upper: maps only ASCII a-z. Python's `str.upper()` also maps non-ASCII letters and can lengthen a string (for example "ß" becomes "SS").
- TickerColumn.ExtractTickers: requires a non-empty column, because the script reaches the loop only after its emptiness check at lines 99-101.
- Run.Run: requires at least one broker reply per cell of column A. The model fixes the broker's answers in advance, one per ticker.
