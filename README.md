# TradeZero web API: the table and argument logic, in Dafny

TradeZeroWebAPI drives the TradeZero web platform through a browser. It reads the
tables the page renders (open positions, closed positions, locate inventory,
active orders) and turns them into pandas tables. It validates arguments before
it fills in order and locate forms.

This project models the logic that sits between the page and the caller:

- Every rendered table reaches the model as rows of cell texts.
- For the active-orders table, each row also carries its `order-id` attribute.
- Each read is a function of those rows.
- The clicks that the portfolio panel issues are recorded by a class.
- The argument checks of the session object are functions that return either the
  exception they would raise or the values they would type into the page.

Modules:

- `Wrappers` (wrappers.dfy): `Option`, `Result` and `Outcome`. They stand for Python's
  `None` and its exceptions.
- `Text` (text.dfy): ASCII `str.upper()` and `str.lower()`, `str.isdigit()`, and
  `str.replace(pat, '')` (`RemoveAll`: every non-overlapping occurrence, left to right).
- `Enums` (enums.dfy): `OrderType`, `TIF`, `Order` and `PortfolioTab`. Each has its
  string value and, where the code uses it, its member name.
- `Frames` (frames.dfy): what the code relies on when pandas names the columns of a
  list of rows:
  - the table is as wide as its widest row;
  - shorter rows are filled with a missing value, modelled as `""`;
  - naming fails unless the width equals the number of names.
- `PortfolioView` (portfolio.dfy): the reads of `Portfolio`:
  - the open-positions snapshot with its "empty" sentinel;
  - intraday positions and `invested`;
  - closed positions and the locate inventory;
  - active orders and the symbol test;
  - the selection of the orders to cancel.

  The class `Portfolio` holds the tab last switched to and the clicks issued. Its
  methods are the tab switch, `close_position_overview` and `cancel_active_order`
  with its click loop.
- `Trading` (trading.dfy): the checks and string handling of `TradeZero`:
  - the order-type lookup;
  - the share-lot checks of locating and crediting;
  - the reply to a locate offer;
  - the checks of the three order placers and the form values they enter;
  - `current_symbol`;
  - `load_symbol`'s price test and its polling loop;
  - `locate_stock`'s retry loop.

Some of the code's behaviour is easy to misread. The model follows the code:

- `cancel_active_order` uses the reference number with every `"S."` removed as the
  order id. The first id without a cancel cell raises, and the remaining ids are not
  clicked.
- `portfolio('dict')` goes through `to_dict('index')`, which raises when a symbol repeats.
  The model returns `DuplicateIndex`.
- `get_active_orders` uses the `order-id` attribute only to decide whether there is a
  table. Every body row is returned, with or without the attribute.
- `get_inventory` keeps `th` cells when a row has no `td` cells, so a header row is
  kept as data. Its docstring (portfolio.py:105) says such rows are ignored.
- `locate_stock` lets a missing share amount pass its lot check (main.py:270), but then
  types that amount into the form (main.py:287), which raises. The model returns
  `SharesNotTyped` there.
- `invested` upper-cases the query but compares it with the stored symbols as they are.

## Model

| member | source | states |
|---|---|---|
| Enums.OrderTypesListed | tradezeroapi/enums.py:6-14 | the seven order types are listed once each, in declaration order |
| Enums.OrderTypeValuesDistinct | tradezeroapi/enums.py:6-14 | no two order types share a value, so a lookup by value is well defined |
| Enums.TifValuesAreWhitelist | tradezeroapi/enums.py:17-21 | each TIF value equals its member name; the values are exactly the whitelist DAY/GTC/GTX; each text belongs to one member |
| Enums.OrderButtonId | tradezeroapi/main.py:417 | the send button id is `trading-order-button-` followed by exactly the direction's value |
| Enums.OrderButtonsDistinct | tradezeroapi/enums.py:24-29 | the direction values are lower-case; different directions press different buttons |
| Enums.PortfolioTabIdsDistinct | tradezeroapi/enums.py:32-37 | the four tab selector ids are pairwise distinct |
| Text.Upper | tradezeroapi/portfolio.py:221 | `str.upper()`: same length; no lower-case letter left; each character equal to the input's up to case |
| Text.Lower | tradezeroapi/portfolio.py:41 | `str.lower()`: same length; no capital left; each character equal to the input's up to case; characters other than capitals unchanged |
| Text.UpperIdempotent | tradezeroapi/main.py:162 | upper-casing twice is upper-casing once; upper-casing does not change the lower-cased text, nor lower-casing the upper-cased one |
| Text.RemoveAll | tradezeroapi/portfolio.py:230 | `str.replace(pat, '')`: the result is no longer than the input and uses only the input's characters |
| Text.RemoveAllSplit | tradezeroapi/portfolio.py:230 | an occurrence preceded by text without the pattern's first character is cut out, and the scan goes on after it |
| Text.RemoveAllJoin | tradezeroapi/portfolio.py:230 | every occurrence is removed: pieces without the pattern's first character, joined by the pattern, come back run together |
| Text.RemoveAllFree | tradezeroapi/main.py:192 | text without the pattern's first character is returned unchanged |
| Text.RemoveAllShrinks | tradezeroapi/portfolio.py:230 | text that holds the pattern always loses characters |
| Text.RemoveAllUnchanged | tradezeroapi/portfolio.py:230 | the text comes back unchanged iff it does not hold the pattern |
| Text.RemoveCharMembers | tradezeroapi/main.py:172 | removing a one-character pattern keeps exactly the other characters |
| Text.DigitsValuePositive | tradezeroapi/main.py:164 | a digit string spells a number above zero iff it is not all zeros |
| Frames.ToFrame | tradezeroapi/portfolio.py:139 | naming columns succeeds iff there are no rows or the widest row has exactly that many cells; the error carries both widths; on success, row k is row k padded with missing cells |
| Frames.ToFrameExact | tradezeroapi/portfolio.py:138-139 | rows that already have the expected width are taken unchanged |
| PortfolioView.BindPosition | tradezeroapi/portfolio.py:45-47 | the eleven open-position columns are bound by position: field k is cell k |
| PortfolioView.PortfolioSnapshot | tradezeroapi/portfolio.py:38-48 | None iff no row has a symbol cell or the first cell, lower-cased, is "you have no open positions."; fails iff there is a symbol cell and the first row has no cell, or the table is not 11 wide; otherwise one position per row, padded, with the symbol from the first cell |
| PortfolioView.SentinelMeansEmpty | tradezeroapi/portfolio.py:41-43 | the sentinel row in any capitalisation gives None |
| PortfolioView.ToDict | tradezeroapi/portfolio.py:48-50 | the symbol-keyed dict exists iff no symbol repeats (otherwise DuplicateIndex); its keys are exactly the symbols and each row is stored under its own symbol |
| PortfolioView.Invested | tradezeroapi/portfolio.py:158-169 | false for an empty snapshot; fails iff the snapshot fails or a symbol repeats; true iff the upper-cased query is the first cell of some row |
| PortfolioView.KeyedByFirstCell | tradezeroapi/portfolio.py:165-169 | a symbol keys the dict form iff it is the first cell of some row |
| PortfolioView.Intraday | tradezeroapi/portfolio.py:155-156 | keeps exactly the positions whose overnight column is not "Yes"; never longer than its input |
| PortfolioView.IntradayConcat | tradezeroapi/portfolio.py:155-156 | the filter distributes over concatenation, so the kept rows stay in snapshot order |
| PortfolioView.OpenOrders | tradezeroapi/portfolio.py:143-156 | an empty table (not None) when the snapshot is None; otherwise exactly the intraday filter of the snapshot, a subset of it; fails iff the snapshot fails |
| PortfolioView.CollectTdTexts | tradezeroapi/portfolio.py:78-84 | the row loop produces one list per row, the row's `td` texts in DOM order, with no row dropped |
| PortfolioView.BindClosed | tradezeroapi/portfolio.py:87 | the eleven closed-position columns are bound by position |
| PortfolioView.ClosedTable | tradezeroapi/portfolio.py:87-93 | succeeds iff there are no rows or the widest row has 11 cells; one record per row, padded |
| PortfolioView.Portfolio.constructor | tradezeroapi/portfolio.py:15-17 | a new panel has no tab switched and no clicks issued |
| PortfolioView.Portfolio.SwitchTab | tradezeroapi/portfolio.py:171-181 | the tab shown afterwards is the given one, whatever was shown before; exactly one click on its selector is added |
| PortfolioView.Portfolio.ClosePositionOverview | tradezeroapi/portfolio.py:53-96 | switches to the closed-positions tab (one click), then returns the closed table of the rows' `td` texts |
| PortfolioView.RowCells | tradezeroapi/portfolio.py:126-129 | a row with `td` cells gives exactly its `td` texts; a row without gives exactly its `th` texts; empty iff it has neither |
| PortfolioView.DropColumn | tradezeroapi/portfolio.py:131 | the cell at index 4 is left out (when present) and the other cells keep their order |
| PortfolioView.NonEmptyRows | tradezeroapi/portfolio.py:136 | keeps exactly the rows with at least one cell; never more rows |
| PortfolioView.NonEmptyRowsConcat | tradezeroapi/portfolio.py:136 | the filter distributes over concatenation, so the kept rows stay in order |
| PortfolioView.BindInventory | tradezeroapi/portfolio.py:118 | the five inventory columns are bound by position |
| PortfolioView.InventoryCellsShape | tradezeroapi/portfolio.py:124-136 | no more rows out than in; each row out is some row's cells without index 4; a row is dropped only when it has neither `td` nor `th` cells |
| PortfolioView.GetInventory | tradezeroapi/portfolio.py:98-141 | the loop's rows, empty ones dropped, are bound to the five columns; succeeds iff there are none or the widest has 5 cells |
| PortfolioView.BindActiveOrder | tradezeroapi/portfolio.py:197 | the ten active-order fields `ref_number` … `placed` are bound by position |
| PortfolioView.GetActiveOrders | tradezeroapi/portfolio.py:183-202 | None iff no row has an `order-id`; fails iff the table is not 11 wide; otherwise every row, its first (CANCEL) column dropped and the rest bound, with the symbol from the row's third cell |
| PortfolioView.PaddedAfterButton | tradezeroapi/portfolio.py:196 | dropping the first column of a padded 11-cell row leaves the padded 10 cells after it |
| PortfolioView.SymbolPresentInActiveOrders | tradezeroapi/portfolio.py:204-211 | there is no table to look in when no row has an `order-id`; otherwise true iff some row's symbol is the upper-cased query |
| PortfolioView.Matching | tradezeroapi/portfolio.py:228-229 | keeps exactly the orders with the given symbol and order type; never more |
| PortfolioView.MatchingConcat | tradezeroapi/portfolio.py:228-229 | the selection distributes over concatenation, so it keeps table order |
| PortfolioView.StripRef | tradezeroapi/portfolio.py:230 | the order id is never longer than the reference number, and equals it iff the reference number holds no `S.` |
| PortfolioView.StripRefEvery | tradezeroapi/portfolio.py:230 | every `S.` is removed, not only the first: pieces without `S` joined by `S.` come back run together |
| PortfolioView.StripRefPrefixed | tradezeroapi/portfolio.py:230 | a reference number `S.` + n, where n has no `S`, gives back n |
| PortfolioView.CancelIds | tradezeroapi/portfolio.py:228-230 | one id per selected order, in order, each its reference number with every `S.` removed |
| PortfolioView.CancelTargets | tradezeroapi/portfolio.py:221-230 | with the symbol upper-cased: fails when the table cannot be read or there is none; succeeds iff the symbol is in the symbol column (otherwise SymbolNotActive); the ids are the stripped reference numbers of the rows with that symbol and order-type value |
| PortfolioView.TwoAaplOrdersRead | tradezeroapi/portfolio.py:195-197 | a two-row active-orders table reads back as its two orders |
| PortfolioView.CancelTargetsExample | tradezeroapi/portfolio.py:221-230 | cancelling the limit orders of "aapl" in a table of one AAPL limit and one AAPL market order selects only id "100" |
| PortfolioView.FirstMissing | tradezeroapi/portfolio.py:232-235 | the first id whose cancel cell is missing: all ids before it have one, and it does not |
| PortfolioView.Portfolio.ClickCancelButtons | tradezeroapi/portfolio.py:232-235 | one cancel click per id in order, up to the first id with no cancel cell, which ends the loop with an error; the tab is unchanged |
| PortfolioView.Portfolio.CancelActiveOrder | tradezeroapi/portfolio.py:213-235 | switches to the active-orders tab; when the selection fails, nothing else is clicked; otherwise the clicks and the outcome are those of the click loop over the selected ids |
| Trading.GetOrderTypeFromString | tradezeroapi/main.py:26-30 | returns a name iff some order type has that value, and then that member's name; so looking up `o.value` gives `o.name` for every member |
| Trading.RoundLotIff | tradezeroapi/main.py:270 | the remainder test accepts exactly the whole numbers of 100-share lots |
| Trading.CheckShareAmount | tradezeroapi/main.py:270-271 | passes iff no amount is given or the amount is a whole number of lots; otherwise the error names the amount |
| Trading.CreditLocates | tradezeroapi/main.py:346-377 | checked in order: the upper-cased symbol must be located; a given quantity must be whole lots, then no more than the located shares; with no quantity both are skipped; on success the symbol's inventory row and the quantity are used |
| Trading.CreditLocatesMonotone | tradezeroapi/main.py:363-370 | a quantity that passes lets crediting everything pass, and one lot less also passes |
| Trading.OfferButton | tradezeroapi/main.py:336-341 | the path names the offer of the upper-cased symbol (which can be read back from it) and its cell 8; span 1 accepts, span 2 declines |
| Trading.OfferButtonsDiffer | tradezeroapi/main.py:336-341 | accept and decline press different spans of the same offer cell |
| Trading.AcceptOrDeclineLocate | tradezeroapi/main.py:322-344 | fails iff the decision is neither "accept" nor "decline"; a shown offer gets span 1 (accept) or span 2 (decline) pressed with its message; a missing offer gives the error message and no press, not an exception |
| Trading.CheckTimeInForce | tradezeroapi/main.py:398-399 | passes iff the text is DAY, GTC or GTX; otherwise the error names it |
| Trading.TimeInForceOfMembers | tradezeroapi/main.py:396-399 | every TIF member passes the check, and a text passes iff it is some member's value |
| Trading.MenuIndexSelectsOrderType | tradezeroapi/main.py:403-404 | with the menu taken to list the order types in declaration order, each placer's index is the position of its order type (LMT, MKT, Stop-MKT), and different placers select different entries |
| Trading.PlaceOrder | tradezeroapi/main.py:380-515 | market and stop orders fail outside market hours; otherwise an order fails iff loading reports its symbol not found, with the lower-cased symbol in the error; on success the form has the lower-cased symbol, menu index 1/0/2, the whitelisted TIF text, the share amount, and the direction's button |
| Trading.LimitOrdersIgnoreMarketHours | tradezeroapi/main.py:380-421 | a limit order's outcome does not depend on market hours; it passes iff its symbol is not reported missing; its symbol has no capitals, its button has the send prefix, and its menu entry is LMT |
| Trading.CurrentSymbol | tradezeroapi/main.py:190-192 | the shown text with "(USD)" removed: never longer, and returned unchanged iff it shows no "(USD)" |
| Trading.CurrentSymbolEvery | tradezeroapi/main.py:190-192 | every "(USD)" is removed: pieces without "(" joined by "(USD)" come back run together |
| Trading.CurrentSymbolStripsCurrency | tradezeroapi/main.py:192 | a symbol without "(" shown with "(USD)" appended reads back as the symbol, and a bare symbol is unchanged |
| Trading.PriceText | tradezeroapi/main.py:172 | the ask text with '.' and ',' removed is no longer than the ask text |
| Trading.PriceTextMembers | tradezeroapi/main.py:172 | the price text has exactly the ask's characters other than '.' and ',' |
| Trading.PriceTextShape | tradezeroapi/main.py:172-182 | the price text is digits iff the ask has a digit and nothing but digits, points and commas; it is empty (not yet shown) iff the ask has nothing but points and commas |
| Trading.PriceLoaded | tradezeroapi/main.py:181 | the polled price counts as loaded iff the ask has a digit and nothing but digits, points and commas |
| Trading.PositivePrice | tradezeroapi/main.py:164 | `price.isdigit() and float(price) > 0` holds iff the text is digits, not all zeros |
| Trading.AlreadyLoaded | tradezeroapi/main.py:162-165 | the fast path returns iff the panel shows the upper-cased symbol and a loaded ask with a digit from 1 to 9 |
| Trading.NotFoundAt | tradezeroapi/main.py:184-188 | a poll confirms "not found" iff it is poll 15 or 299, the ask has a character other than a digit, point or comma, and the latest notice is "Symbol not found: " with the upper-cased symbol |
| Trading.LoadSymbolCaseBlind | tradezeroapi/main.py:401 | handing `load_symbol` the lower-cased symbol, as the placers do, gives the same fast path and the same deciding polls as the symbol as written |
| Trading.FirstDecisiveUnique | tradezeroapi/main.py:171-188 | the first poll that ends the wait is unique |
| Trading.LoadSymbol | tradezeroapi/main.py:154-188 | loaded iff the fast path holds or the first deciding poll shows a loaded price; not found iff the first deciding poll is poll 15 or 299 with a non-digit price and the "Symbol not found" notice; gives up (returns None) iff no poll decides |
| Trading.LocateRetryAsWritten | tradezeroapi/main.py:301-317 | the loop as written never reports insufficient buying power; an offer is returned iff some try reads one, and then it is the first one read; no locate iff no try reads one |
| Trading.LocateRetry | tradezeroapi/main.py:301-317 | the first offer read is returned, iff any try reads one; otherwise insufficient buying power is reported iff the last try's notice contains the message |
| Trading.LocateStock | tradezeroapi/main.py:258-320 | fails iff the share amount is missing (the typing step raises) or not whole lots; "Easy to borrow" short-cuts to no cost; otherwise, through the loop as written, the first offer read is returned iff some try reads one, no locate iff none does, and insufficient buying power is never reported |

## Left out

- Driving the browser: finding elements, clicks other than the ones recorded, typing,
  `Select` menus, page reads, and `Chrome.click_element`'s retries. Page contents are
  inputs.
- `pd.read_html`: it turns the page into rows, and its header detection and type
  coercion of numbers are not modelled. Cells stay texts, and a filled-in cell is `""`.
- The `'df'` versus `'dict'` shape of `portfolio` and `get_active_orders`. The model
  returns rows, plus the symbol-keyed dict where `invested` uses it.
- Floating point:
  - `bid`, `ask`, `last`, `data` and `calculate_order_quantity`;
  - the parsing of locate prices, which are kept as texts;
  - the `float(price) > 0` of the fast path, which on a digit string is modelled as
    the value the digits spell;
  - the located share count, which is a real.
- `locate_stock`'s warning for prices under 1.00: it only prints.
- `locate_stock`'s polling for a non-empty borrow status. The model takes the first
  non-empty status.
- Sleeps, prints, warnings and the `time_it` decorator.
- The market-hours test `time_between` is an input to `PlaceOrder`. Its module is not
  part of this model.
- The limit and stop prices that the order placers type. These are floats. The
  placers' call to `load_symbol` is an input to `PlaceOrder`: its outcome, as
  `LoadSymbol` computes it.
- `login`, `conn`, `_dom_fully_loaded` and `exit`.
- `Watchlist`, `Notification` and `Account`. These are not part of this model. The
  latest notification is an input.
- Text.Upper: only ASCII letters change case. Python's Unicode case mapping is not
  modelled, and neither is `isdigit` on non-ASCII digits.
- Text.RemoveAll: its own contract states only a length and character bound. The
  lemmas `RemoveAllSplit`, `RemoveAllJoin`, `RemoveAllUnchanged` and
  `RemoveCharMembers` pin it down for text whose pieces between occurrences lack the
  pattern's first character (every `"S."` and `"(USD)"` of a reference number or
  symbol without `S` or `(`). Text where that character also occurs outside an
  occurrence, such as `"SS.1"`, is covered only by the definition.
- PortfolioView.PortfolioSnapshot: when no row has a symbol cell, the model returns
  None, as the docstring says. The code first takes `pd.read_html(...)[0]`
  (portfolio.py:39). That raises when the table yields no frame at all, which depends
  on its header rows. Header rows are not part of the model's input.
- PortfolioView.Portfolio.CancelActiveOrder: whether the cancel cells are on the page
  when they are clicked is an input (`cancelable`). What the page shows after a cancel
  is not modelled.

## Findings

| source | as written | input that shows it | evidently intended | confidence | as-written member | corrected member |
|---|---|---|---|---|---|---|
| tradezeroapi/main.py:301-314 | the retry loop runs `range(10)` but checks the insufficient-buying-power notification only when `i == 15 or i == 299` (copied from the 300-poll loop of `load_symbol`), so the check never runs | ten tries that read no offer, with the last notification "Insufficient BP to short a position with requested quantity.": the code warns "Can't locate stock" and returns None instead of the buying-power warning | check the notification on the last try | medium, not executed | Trading.LocateRetryAsWritten | Trading.LocateRetry |
