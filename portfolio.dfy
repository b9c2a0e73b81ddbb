/** The portfolio panel (tradezeroapi/portfolio.py). Every table the browser
    renders reaches the model as plain data: rows of cell texts in DOM order,
    and for the active-orders table the `order-id` attribute of each row. The
    reads are functions of that data; the clicks the panel issues (tab
    switches, cancel buttons) are recorded by the class Portfolio. */
module PortfolioView {
  import opened Wrappers
  import opened Text
  import opened Enums
  import opened Frames

  /** What the Python code raises, as values. */
  datatype Error =
    | Schema(frame: FrameError)            // column names assigned to a table of another width
    | MissingFirstCell                     // the first row has no cell to lower-case
    | DuplicateIndex                       // a nested dict keyed by a symbol that repeats
    | NoActiveOrders                       // the None of get_active_orders used as a table
    | SymbolNotActive(symbol: string)      // the assert of cancel_active_order
    | CancelButtonNotFound(orderId: string) // no cancel cell for that order id

  /** The first cell of a row, or the missing value pandas fills in. */
  function FirstCell(row: Row): (c: string)
    ensures |row| > 0 ==> c == row[0]
    ensures |row| == 0 ==> c == Missing
  {
    if |row| > 0 then row[0] else Missing
  }

  // ---------------------------------------------------------------------
  // Open positions

  /** The text the open-positions table shows, lower-cased, when it is empty. */
  const NoPositionsText := "you have no open positions."

  const PositionColumns: nat := 11

  /** One row of the open-positions table, its columns bound by position. */
  datatype Position = Position(
    symbol: string, side: string, qty: string, pClose: string, entry: string,
    price: string, change: string, pctChange: string, dayPnl: string, pnl: string,
    overnight: string)

  function PositionFields(p: Position): (row: Row)
    ensures |row| == PositionColumns && row[0] == p.symbol && row[10] == p.overnight
  {
    [p.symbol, p.side, p.qty, p.pClose, p.entry, p.price, p.change, p.pctChange,
     p.dayPnl, p.pnl, p.overnight]
  }

  /** Column k of the row becomes field k of the position. */
  function BindPosition(row: Row): (p: Position)
    requires |row| == PositionColumns
    ensures PositionFields(p) == row
  {
    Position(row[0], row[1], row[2], row[3], row[4], row[5], row[6], row[7],
             row[8], row[9], row[10])
  }

  /** Some row has a first `td` cell: the symbol column is not empty. */
  predicate HasSymbolCell(body: seq<Row>) {
    exists k :: 0 <= k < |body| && |body[k]| > 0
  }

  /** The open-positions snapshot: None when no row has a symbol cell or the
      first cell reads "you have no open positions." in any case; otherwise
      one position per row, bound to the eleven columns by position (the
      symbol column first, which keys the snapshot). */
  function PortfolioSnapshot(body: seq<Row>): (r: Result<Option<seq<Position>>, Error>)
    ensures r == Success(None) <==>
      !HasSymbolCell(body) || (|body[0]| > 0 && Lower(body[0][0]) == NoPositionsText)
    ensures r.Failure? <==>
      HasSymbolCell(body)
      && (|body[0]| == 0 || (Lower(body[0][0]) != NoPositionsText && MaxWidth(body) != PositionColumns))
    ensures r.Success? && r.value.Some? ==>
      |r.value.value| == |body|
      && forall k :: 0 <= k < |body| ==>
           PaddedFrom(PositionFields(r.value.value[k]), body[k], PositionColumns)
           && r.value.value[k].symbol == FirstCell(body[k])
  {
    if !HasSymbolCell(body) then Success(None)
    else if |body[0]| == 0 then Failure(MissingFirstCell)
    else if Lower(body[0][0]) == NoPositionsText then Success(None)
    else
      match ToFrame(body, PositionColumns)
      case Failure(e) => Failure(Schema(e))
      case Success(frame) =>
        Success(Some(seq(|frame|, k requires 0 <= k < |frame| => BindPosition(frame[k]))))
  }

  /** The sentinel row is recognised whatever its capitalisation. */
  lemma SentinelMeansEmpty(body: seq<Row>, first: Row)
    requires |body| > 0 && body[0] == first && |first| > 0
    requires Lower(first[0]) == NoPositionsText
    ensures PortfolioSnapshot(body) == Success(None)
  {
  }

  predicate UniqueSymbols(ps: seq<Position>) {
    forall i, j :: 0 <= i < j < |ps| ==> ps[i].symbol != ps[j].symbol
  }

  /** The nested-dict form of the snapshot, keyed by symbol. It exists only
      when no symbol repeats; then it holds every row under its own symbol,
      so it carries the same field values as the row form. */
  function ToDict(ps: seq<Position>): (r: Result<map<string, Position>, Error>)
    ensures r.Success? <==> UniqueSymbols(ps)
    ensures r.Failure? ==> r.error == DuplicateIndex
    ensures r.Success? ==> r.value.Keys == (set p | p in ps :: p.symbol)
    ensures r.Success? ==> forall k :: 0 <= k < |ps| ==> r.value[ps[k].symbol] == ps[k]
  {
    if |ps| == 0 then Success(map[])
    else
      UniqueSymbolsCons(ps);
      match ToDict(ps[1..])
      case Failure(e) => Failure(e)
      case Success(m) =>
        if ps[0].symbol in m then
          var j :| 0 <= j < |ps[1..]| && ps[1..][j].symbol == ps[0].symbol;
          assert ps[j + 1].symbol == ps[0].symbol;
          Failure(DuplicateIndex)
        else
          DictAddHead(ps, m);
          Success(m[ps[0].symbol := ps[0]])
  }

  /** Adding the head row to the dict of the tail, whose keys miss the
      head's symbol, gives the dict of the whole snapshot. */
  lemma DictAddHead(ps: seq<Position>, m: map<string, Position>)
    requires |ps| > 0
    requires m.Keys == (set p | p in ps[1..] :: p.symbol)
    requires forall k :: 0 <= k < |ps[1..]| ==> m[ps[1..][k].symbol] == ps[1..][k]
    requires ps[0].symbol !in m
    ensures forall k :: 0 <= k < |ps[1..]| ==> ps[1..][k].symbol != ps[0].symbol
    ensures m[ps[0].symbol := ps[0]].Keys == (set p | p in ps :: p.symbol)
    ensures forall k :: 0 <= k < |ps| ==> m[ps[0].symbol := ps[0]][ps[k].symbol] == ps[k]
  {
    SymbolsCons(ps);
    forall k | 0 <= k < |ps[1..]|
      ensures ps[1..][k].symbol != ps[0].symbol
    {
      assert ps[1..][k] in ps[1..];
    }
    assert forall k :: 1 <= k < |ps| ==> ps[k] == ps[1..][k - 1];
  }

  /** The symbols are unique when those of the tail are and none of them is
      the head's. */
  lemma UniqueSymbolsCons(ps: seq<Position>)
    requires |ps| > 0
    ensures UniqueSymbols(ps) <==>
      UniqueSymbols(ps[1..]) && forall k :: 0 <= k < |ps[1..]| ==> ps[1..][k].symbol != ps[0].symbol
  {
    assert forall k :: 1 <= k < |ps| ==> ps[k] == ps[1..][k - 1];
  }

  /** The symbol set is the head's symbol and the tail's. */
  lemma SymbolsCons(ps: seq<Position>)
    requires |ps| > 0
    ensures (set p | p in ps :: p.symbol) == {ps[0].symbol} + (set p | p in ps[1..] :: p.symbol)
  {
    assert ps == [ps[0]] + ps[1..];
  }

  /** Whether the symbol, upper-cased, keys a row of the snapshot; the stored
      symbols are compared as they are, without upper-casing them. */
  function Invested(symbol: string, body: seq<Row>): (r: Result<bool, Error>)
    ensures PortfolioSnapshot(body) == Success(None) ==> r == Success(false)
    ensures r.Failure? <==>
      PortfolioSnapshot(body).Failure?
      || (PortfolioSnapshot(body).value.Some? && !UniqueSymbols(PortfolioSnapshot(body).value.value))
    ensures r == Success(true) <==>
      PortfolioSnapshot(body).Success? && PortfolioSnapshot(body).value.Some?
      && UniqueSymbols(PortfolioSnapshot(body).value.value)
      && exists k :: 0 <= k < |body| && FirstCell(body[k]) == Upper(symbol)
  {
    match PortfolioSnapshot(body)
    case Failure(e) => Failure(e)
    case Success(None) => Success(false)
    case Success(Some(ps)) =>
      match ToDict(ps)
      case Failure(e) => Failure(e)
      case Success(m) =>
        KeyedByFirstCell(Upper(symbol), body, ps, m);
        Success(Upper(symbol) in m)
  }

  /** A symbol keys the dict form exactly when it is the first cell of a row. */
  lemma KeyedByFirstCell(s: string, body: seq<Row>, ps: seq<Position>, m: map<string, Position>)
    requires |ps| == |body| && forall k :: 0 <= k < |ps| ==> ps[k].symbol == FirstCell(body[k])
    requires m.Keys == (set p | p in ps :: p.symbol)
    ensures s in m <==> exists k :: 0 <= k < |body| && FirstCell(body[k]) == s
  {
    if s in m {
      var p :| p in ps && p.symbol == s;
      var k :| 0 <= k < |ps| && ps[k] == p;
      assert FirstCell(body[k]) == s;
    }
    if exists k :: 0 <= k < |body| && FirstCell(body[k]) == s {
      var k :| 0 <= k < |body| && FirstCell(body[k]) == s;
      assert ps[k] in ps;
    }
  }

  /** Positions whose overnight column is not "Yes", in snapshot order. */
  function Intraday(ps: seq<Position>): (r: seq<Position>)
    ensures |r| <= |ps|
    ensures forall p :: p in r <==> p in ps && p.overnight != "Yes"
  {
    if |ps| == 0 then []
    else
      assert forall p :: p in ps <==> p == ps[0] || p in ps[1..] by {
        assert ps == [ps[0]] + ps[1..];
      }
      (if ps[0].overnight != "Yes" then [ps[0]] else []) + Intraday(ps[1..])
  }

  /** The filter keeps the relative order of the positions it keeps. */
  lemma {:induction false} IntradayConcat(a: seq<Position>, b: seq<Position>)
    ensures Intraday(a + b) == Intraday(a) + Intraday(b)
    decreases |a|
  {
    if |a| > 0 {
      assert (a + b)[1..] == a[1..] + b;
      IntradayConcat(a[1..], b);
    } else {
      assert a + b == b;
    }
  }

  /** The intraday positions: an empty table, not None, when the snapshot is
      None; otherwise exactly the snapshot rows not held overnight. */
  function OpenOrders(body: seq<Row>): (r: Result<seq<Position>, Error>)
    ensures r.Success? <==> PortfolioSnapshot(body).Success?
    ensures PortfolioSnapshot(body) == Success(None) ==> r == Success([])
    ensures PortfolioSnapshot(body).Success? && PortfolioSnapshot(body).value.Some? ==>
      var ps := PortfolioSnapshot(body).value.value;
      r.value == Intraday(ps)
      && |r.value| <= |ps|
      && forall p :: p in r.value <==> p in ps && p.overnight != "Yes"
  {
    match PortfolioSnapshot(body)
    case Failure(e) => Failure(e)
    case Success(None) => Success([])
    case Success(Some(ps)) => Success(Intraday(ps))
  }

  // ---------------------------------------------------------------------
  // Rows as the browser renders them

  /** A `tr` element: the texts of its `td` cells and of its `th` cells. */
  datatype DomRow = DomRow(tds: Row, ths: Row)

  function TdTexts(rows: seq<DomRow>): (data: seq<Row>)
    ensures |data| == |rows| && forall k :: 0 <= k < |rows| ==> data[k] == rows[k].tds
  {
    seq(|rows|, k requires 0 <= k < |rows| => rows[k].tds)
  }

  /** The loop that reads one list of `td` texts per row, keeping every row. */
  method CollectTdTexts(rows: seq<DomRow>) returns (data: seq<Row>)
    ensures |data| == |rows|
    ensures forall k :: 0 <= k < |rows| ==> data[k] == rows[k].tds
  {
    data := [];
    for i := 0 to |rows|
      invariant |data| == i
      invariant forall k :: 0 <= k < i ==> data[k] == rows[k].tds
    {
      data := data + [rows[i].tds];
    }
  }

  // ---------------------------------------------------------------------
  // Closed positions

  const ClosedColumns: nat := 11

  datatype ClosedPosition = ClosedPosition(
    symbol: string, side: string, qty: string, pClose: string, entry: string,
    close: string, pnl: string, dayPnl: string, openedAt: string, closedAt: string,
    overnight: string)

  function ClosedFields(c: ClosedPosition): (row: Row)
    ensures |row| == ClosedColumns && row[0] == c.symbol
  {
    [c.symbol, c.side, c.qty, c.pClose, c.entry, c.close, c.pnl, c.dayPnl,
     c.openedAt, c.closedAt, c.overnight]
  }

  function BindClosed(row: Row): (c: ClosedPosition)
    requires |row| == ClosedColumns
    ensures ClosedFields(c) == row
  {
    ClosedPosition(row[0], row[1], row[2], row[3], row[4], row[5], row[6], row[7],
                   row[8], row[9], row[10])
  }

  /** The closed-positions table: one record per body row, unfiltered, its
      cells bound by position to the eleven columns. */
  function ClosedTable(data: seq<Row>): (r: Result<seq<ClosedPosition>, Error>)
    ensures r.Success? <==> |data| == 0 || MaxWidth(data) == ClosedColumns
    ensures r.Success? ==>
      |r.value| == |data|
      && forall k :: 0 <= k < |data| ==> PaddedFrom(ClosedFields(r.value[k]), data[k], ClosedColumns)
  {
    match ToFrame(data, ClosedColumns)
    case Failure(e) => Failure(Schema(e))
    case Success(frame) =>
      Success(seq(|frame|, k requires 0 <= k < |frame| => BindClosed(frame[k])))
  }

  // ---------------------------------------------------------------------
  // Locate inventory

  /** The index of the cell every inventory row leaves out. */
  const InventoryDroppedColumn: nat := 4

  const InventoryColumns: nat := 5

  datatype InventoryRow = InventoryRow(
    symbol: string, available: string, unavailable: string, preBorrow: string, action: string)

  function InventoryFields(v: InventoryRow): (row: Row)
    ensures |row| == InventoryColumns && row[0] == v.symbol
  {
    [v.symbol, v.available, v.unavailable, v.preBorrow, v.action]
  }

  function BindInventory(row: Row): (v: InventoryRow)
    requires |row| == InventoryColumns
    ensures InventoryFields(v) == row
  {
    InventoryRow(row[0], row[1], row[2], row[3], row[4])
  }

  /** The `td` texts of a row, or its `th` texts when it has no `td`. */
  function RowCells(row: DomRow): (cells: Row)
    ensures |row.tds| > 0 ==> cells == row.tds
    ensures |row.tds| == 0 ==> cells == row.ths
    ensures |cells| == 0 <==> |row.tds| == 0 && |row.ths| == 0
  {
    if |row.tds| > 0 then row.tds else row.ths
  }

  /** The cells with the one at index k left out, the others kept in order. */
  function DropColumn(cells: Row, k: nat): (r: Row)
    ensures |r| == if k < |cells| then |cells| - 1 else |cells|
    ensures forall j :: 0 <= j < |r| ==> r[j] == if j < k then cells[j] else cells[j + 1]
  {
    if k < |cells| then cells[..k] + cells[k + 1..] else cells
  }

  /** The rows that have at least one cell, in order. */
  function NonEmptyRows(rows: seq<Row>): (r: seq<Row>)
    ensures |r| <= |rows|
    ensures forall x :: x in r <==> x in rows && |x| > 0
  {
    if |rows| == 0 then []
    else
      assert forall x :: x in rows <==> x == rows[0] || x in rows[1..] by {
        assert rows == [rows[0]] + rows[1..];
      }
      (if |rows[0]| > 0 then [rows[0]] else []) + NonEmptyRows(rows[1..])
  }

  /** Dropping the empty rows keeps the order: it distributes over
      concatenation. */
  lemma {:induction false} NonEmptyRowsConcat(a: seq<Row>, b: seq<Row>)
    ensures NonEmptyRows(a + b) == NonEmptyRows(a) + NonEmptyRows(b)
    decreases |a|
  {
    if |a| > 0 {
      assert (a + b)[1..] == a[1..] + b;
      NonEmptyRowsConcat(a[1..], b);
    } else {
      assert a + b == b;
    }
  }

  function InventoryCells(rows: seq<DomRow>): seq<Row> {
    NonEmptyRows(seq(|rows|, k requires 0 <= k < |rows| => DropColumn(RowCells(rows[k]), InventoryDroppedColumn)))
  }

  /** What the inventory extraction keeps: no more rows than the table has;
      every kept row is some row's cells without index 4; a row is dropped only
      when it has neither `td` nor `th` cells, so a header row made of `th`
      cells is kept as data. */
  lemma InventoryCellsShape(rows: seq<DomRow>)
    ensures |InventoryCells(rows)| <= |rows|
    ensures forall x :: x in InventoryCells(rows) ==>
      |x| > 0 && exists k :: 0 <= k < |rows| && x == DropColumn(RowCells(rows[k]), InventoryDroppedColumn)
    ensures forall k :: 0 <= k < |rows| && (|rows[k].tds| > 0 || |rows[k].ths| > 0) ==>
      DropColumn(RowCells(rows[k]), InventoryDroppedColumn) in InventoryCells(rows)
  {
    var all := seq(|rows|, k requires 0 <= k < |rows| => DropColumn(RowCells(rows[k]), InventoryDroppedColumn));
    assert InventoryCells(rows) == NonEmptyRows(all);
    forall x | x in InventoryCells(rows)
      ensures exists k :: 0 <= k < |rows| && x == DropColumn(RowCells(rows[k]), InventoryDroppedColumn)
    {
      var k :| 0 <= k < |all| && all[k] == x;
    }
    forall k | 0 <= k < |rows| && (|rows[k].tds| > 0 || |rows[k].ths| > 0)
      ensures DropColumn(RowCells(rows[k]), InventoryDroppedColumn) in InventoryCells(rows)
    {
      assert all[k] in all;
    }
  }

  /** The inventory table: each row's cells without index 4, rows left empty
      dropped, then bound to the five column names. */
  method GetInventory(rows: seq<DomRow>) returns (r: Result<seq<InventoryRow>, Error>)
    ensures var cells := InventoryCells(rows);
      (r.Success? <==> |cells| == 0 || MaxWidth(cells) == InventoryColumns)
      && (r.Success? ==>
            |r.value| == |cells|
            && forall k :: 0 <= k < |cells| ==> PaddedFrom(InventoryFields(r.value[k]), cells[k], InventoryColumns))
  {
    var allRowData: seq<Row> := [];
    for i := 0 to |rows|
      invariant |allRowData| == i
      invariant forall k :: 0 <= k < i ==>
        allRowData[k] == DropColumn(RowCells(rows[k]), InventoryDroppedColumn)
    {
      var cells := if |rows[i].tds| > 0 then rows[i].tds else rows[i].ths;
      var rowData := DropColumn(cells, InventoryDroppedColumn);
      allRowData := allRowData + [rowData];
    }
    assert allRowData == seq(|rows|, k requires 0 <= k < |rows| => DropColumn(RowCells(rows[k]), InventoryDroppedColumn));
    allRowData := NonEmptyRows(allRowData);
    match ToFrame(allRowData, InventoryColumns)
    case Failure(e) =>
      r := Failure(Schema(e));
    case Success(frame) =>
      r := Success(seq(|frame|, k requires 0 <= k < |frame| => BindInventory(frame[k])));
  }

  // ---------------------------------------------------------------------
  // Active orders

  /** The CANCEL button column and the ten order fields. */
  const ActiveOrderTableColumns: nat := 11

  const ActiveOrderColumns: nat := 10

  /** A body row of the active-orders table with its `order-id` attribute. */
  datatype AoRow = AoRow(cells: Row, orderId: Option<string>)

  datatype ActiveOrder = ActiveOrder(
    refNumber: string, symbol: string, side: string, qty: string, orderType: string,
    status: string, tif: string, limit: string, stop: string, placed: string)

  function ActiveOrderFields(o: ActiveOrder): (row: Row)
    ensures |row| == ActiveOrderColumns && row[0] == o.refNumber && row[1] == o.symbol && row[4] == o.orderType
  {
    [o.refNumber, o.symbol, o.side, o.qty, o.orderType, o.status, o.tif, o.limit, o.stop, o.placed]
  }

  function BindActiveOrder(row: Row): (o: ActiveOrder)
    requires |row| == ActiveOrderColumns
    ensures ActiveOrderFields(o) == row
  {
    ActiveOrder(row[0], row[1], row[2], row[3], row[4], row[5], row[6], row[7], row[8], row[9])
  }

  predicate HasOrderId(table: seq<AoRow>) {
    exists k :: 0 <= k < |table| && table[k].orderId.Some?
  }

  function AoCells(table: seq<AoRow>): (rows: seq<Row>)
    ensures |rows| == |table| && forall k :: 0 <= k < |table| ==> rows[k] == table[k].cells
  {
    seq(|table|, k requires 0 <= k < |table| => table[k].cells)
  }

  /** The cells after the button column. */
  function AfterButton(cells: Row): Row {
    if |cells| > 0 then cells[1..] else []
  }

  /** The symbol cell of an active-order row as the table binds it. */
  function AoSymbol(row: AoRow): string {
    if |row.cells| > 2 then row.cells[2] else Missing
  }

  /** The active orders: None when no row carries an `order-id`; otherwise
      every body row (with or without the attribute), its first column
      dropped and the rest bound to the ten fields by position. */
  function GetActiveOrders(table: seq<AoRow>): (r: Result<Option<seq<ActiveOrder>>, Error>)
    ensures r == Success(None) <==> !HasOrderId(table)
    ensures r.Failure? <==> HasOrderId(table) && MaxWidth(AoCells(table)) != ActiveOrderTableColumns
    ensures r.Success? && r.value.Some? ==>
      |r.value.value| == |table|
      && forall k :: 0 <= k < |table| ==>
           PaddedFrom(ActiveOrderFields(r.value.value[k]), AfterButton(table[k].cells), ActiveOrderColumns)
           && r.value.value[k].symbol == AoSymbol(table[k])
  {
    if !HasOrderId(table) then Success(None)
    else
      match ToFrame(AoCells(table), ActiveOrderTableColumns)
      case Failure(e) => Failure(Schema(e))
      case Success(frame) =>
        var os := seq(|frame|, k requires 0 <= k < |frame| => BindActiveOrder(frame[k][1..]));
        assert forall k :: 0 <= k < |table| ==>
          PaddedFrom(ActiveOrderFields(os[k]), AfterButton(table[k].cells), ActiveOrderColumns)
          && os[k].symbol == AoSymbol(table[k])
        by {
          forall k | 0 <= k < |table|
            ensures PaddedFrom(ActiveOrderFields(os[k]), AfterButton(table[k].cells), ActiveOrderColumns)
            ensures os[k].symbol == AoSymbol(table[k])
          {
            PaddedAfterButton(frame[k], table[k].cells);
          }
        }
        Success(Some(os))
  }

  /** Dropping the button column of a padded row pads what follows it. */
  lemma PaddedAfterButton(out: Row, row: Row)
    requires PaddedFrom(out, row, ActiveOrderTableColumns)
    ensures PaddedFrom(out[1..], AfterButton(row), ActiveOrderColumns)
    ensures out[2] == if |row| > 2 then row[2] else Missing
  {
    if |row| > 0 {
      assert out[1..][..|row| - 1] == out[..|row|][1..];
    }
  }

  /** Whether the upper-cased symbol is in the symbol column of the active
      orders; there is no table to look in when no row has an `order-id`. */
  function SymbolPresentInActiveOrders(symbol: string, table: seq<AoRow>): (r: Result<bool, Error>)
    ensures r.Success? <==> GetActiveOrders(table).Success? && GetActiveOrders(table).value.Some?
    ensures r == Success(true) <==>
      r.Success? && exists k :: 0 <= k < |table| && AoSymbol(table[k]) == Upper(symbol)
  {
    match GetActiveOrders(table)
    case Failure(e) => Failure(e)
    case Success(None) => Failure(NoActiveOrders)
    case Success(Some(os)) =>
      Success(exists k :: 0 <= k < |os| && os[k].symbol == Upper(symbol))
  }

  /** The orders of one symbol and one order type, in table order. */
  function Matching(os: seq<ActiveOrder>, symbol: string, orderType: string): (r: seq<ActiveOrder>)
    ensures |r| <= |os|
    ensures forall o :: o in r <==> o in os && o.symbol == symbol && o.orderType == orderType
  {
    if |os| == 0 then []
    else
      assert forall o :: o in os <==> o == os[0] || o in os[1..] by {
        assert os == [os[0]] + os[1..];
      }
      (if os[0].symbol == symbol && os[0].orderType == orderType then [os[0]] else [])
      + Matching(os[1..], symbol, orderType)
  }

  /** Selecting is order-preserving: it distributes over concatenation. */
  lemma {:induction false} MatchingConcat(a: seq<ActiveOrder>, b: seq<ActiveOrder>, symbol: string, orderType: string)
    ensures Matching(a + b, symbol, orderType) == Matching(a, symbol, orderType) + Matching(b, symbol, orderType)
    decreases |a|
  {
    if |a| > 0 {
      assert (a + b)[1..] == a[1..] + b;
      MatchingConcat(a[1..], b, symbol, orderType);
    } else {
      assert a + b == b;
    }
  }

  /** The reference number with every "S." cut out: it comes back unchanged
      exactly when it holds no "S.". */
  function StripRef(refNumber: string): (id: string)
    ensures |id| <= |refNumber|
    ensures id == refNumber <==> !Contains(refNumber, "S.")
  {
    RemoveAllUnchanged(refNumber, "S.");
    RemoveAll(refNumber, "S.")
  }

  /** Every "S." goes, not just the first: pieces without an 'S' joined by
      "S." come back as the pieces run together. */
  lemma StripRefEvery(parts: seq<string>)
    requires forall i :: 0 <= i < |parts| ==> 'S' !in parts[i]
    ensures StripRef(JoinWith(parts, "S.")) == Concat(parts)
  {
    RemoveAllJoin(parts, "S.");
  }

  /** A reference number "S." + n, where n has no 'S', gives back n. */
  lemma StripRefPrefixed(n: string)
    requires 'S' !in n
    ensures StripRef("S." + n) == n
  {
    RemoveAllSplit([], "S.", n);
    RemoveAllFree(n, "S.");
    assert [] + "S." + n == "S." + n;
  }

  /** The ids to cancel: one per selected order, in table order. */
  function CancelIds(os: seq<ActiveOrder>, symbol: string, orderType: string): (ids: seq<string>)
    ensures var m := Matching(os, symbol, orderType);
      |ids| == |m| && forall i :: 0 <= i < |ids| ==> ids[i] == StripRef(m[i].refNumber)
  {
    var m := Matching(os, symbol, orderType);
    seq(|m|, i requires 0 <= i < |m| => StripRef(m[i].refNumber))
  }

  /** The selection half of cancel_active_order: the symbol is upper-cased;
      the table must exist and list that symbol; the ids are the reference
      numbers, stripped of "S.", of the rows with that symbol and the value of
      that order type. */
  function CancelTargets(symbol: string, orderType: OrderType, table: seq<AoRow>): (r: Result<seq<string>, Error>)
    ensures GetActiveOrders(table).Failure? ==> r == Failure(GetActiveOrders(table).error)
    ensures GetActiveOrders(table) == Success(None) ==> r == Failure(NoActiveOrders)
    ensures GetActiveOrders(table).Success? && GetActiveOrders(table).value.Some? ==>
      var os := GetActiveOrders(table).value.value;
      (r.Success? <==> exists k :: 0 <= k < |table| && AoSymbol(table[k]) == Upper(symbol))
      && (r.Failure? ==> r.error == SymbolNotActive(Upper(symbol)))
      && (r.Success? ==> r.value == CancelIds(os, Upper(symbol), orderType.Value()))
  {
    var s := Upper(symbol);
    match GetActiveOrders(table)
    case Failure(e) => Failure(e)
    case Success(None) => Failure(NoActiveOrders)
    case Success(Some(os)) =>
      SameSymbolColumn(table, os, s);
      if exists k :: 0 <= k < |os| && os[k].symbol == s then
        Success(CancelIds(os, s, orderType.Value()))
      else
        Failure(SymbolNotActive(s))
  }

  /** Orders read from a table have the table's symbol column, so a symbol
      is among the orders exactly when it is in that column. */
  lemma SameSymbolColumn(table: seq<AoRow>, os: seq<ActiveOrder>, s: string)
    requires |os| == |table| && forall k :: 0 <= k < |table| ==> os[k].symbol == AoSymbol(table[k])
    ensures (exists k :: 0 <= k < |os| && os[k].symbol == s) <==>
            (exists k :: 0 <= k < |table| && AoSymbol(table[k]) == s)
  {
  }

  /** Two AAPL orders, a limit one and a market one. */
  const TwoAaplOrders: seq<AoRow> := [
    AoRow(["CANCEL", "S.100", "AAPL", "buy", "100", "LMT", "Open", "DAY", "150.00", "", "09:31:00"], Some("100")),
    AoRow(["CANCEL", "S.101", "AAPL", "sell", "100", "MKT", "Open", "DAY", "", "", "09:32:00"], Some("101"))]

  lemma TwoAaplOrdersRead()
    ensures GetActiveOrders(TwoAaplOrders) ==
      Success(Some([BindActiveOrder(TwoAaplOrders[0].cells[1..]), BindActiveOrder(TwoAaplOrders[1].cells[1..])]))
  {
    var t := TwoAaplOrders;
    assert HasOrderId(t) by { assert t[0].orderId.Some?; }
    var cells := AoCells(t);
    assert |cells| == 2 && |cells[0]| == 11 && |cells[1]| == 11;
    ToFrameExact(cells, ActiveOrderTableColumns);
    var frame := ToFrame(cells, ActiveOrderTableColumns).value;
    assert frame == cells;
    var os := seq(|frame|, k requires 0 <= k < |frame| => BindActiveOrder(frame[k][1..]));
    assert os == [BindActiveOrder(t[0].cells[1..]), BindActiveOrder(t[1].cells[1..])];
  }

  lemma UpperAapl()
    ensures Upper("aapl") == "AAPL"
  {
    var u := Upper("aapl");
    assert u[0] == 'A' && u[1] == 'A' && u[2] == 'P' && u[3] == 'L';
  }

  /** Cancelling the AAPL limit orders of that table selects the limit
      order's id only, "S." stripped. */
  lemma CancelTargetsExample()
    ensures CancelTargets("aapl", Limit, TwoAaplOrders) == Success(["100"])
  {
    var o0 := BindActiveOrder(TwoAaplOrders[0].cells[1..]);
    var o1 := BindActiveOrder(TwoAaplOrders[1].cells[1..]);
    assert GetActiveOrders(TwoAaplOrders) == Success(Some([o0, o1])) by { TwoAaplOrdersRead(); }
    assert Upper("aapl") == "AAPL" by { UpperAapl(); }
    assert AoSymbol(TwoAaplOrders[0]) == "AAPL";
    assert CancelIds([o0, o1], "AAPL", "LMT") == ["100"] by {
      assert o0.symbol == "AAPL" && o0.orderType == "LMT" && o0.refNumber == "S.100";
      assert o1.orderType == "MKT";
      CancelIdsOfFirst(o0, o1);
    }
    CancelTargetsOfReadTable(TwoAaplOrders, [o0, o1]);
  }

  /** The step from a read table to the cancel targets, for any table. */
  lemma CancelTargetsOfReadTable(table: seq<AoRow>, os: seq<ActiveOrder>)
    requires GetActiveOrders(table) == Success(Some(os))
    requires |table| > 0 && AoSymbol(table[0]) == "AAPL"
    requires CancelIds(os, "AAPL", "LMT") == ["100"]
    ensures CancelTargets("aapl", Limit, table) == Success(["100"])
  {
    UpperAapl();
    assert Limit.Value() == "LMT";
  }

  /** Of a limit and a market order on AAPL, only the limit order is selected. */
  lemma CancelIdsOfFirst(o0: ActiveOrder, o1: ActiveOrder)
    requires o0.symbol == "AAPL" && o0.orderType == "LMT" && o0.refNumber == "S.100"
    requires o1.orderType == "MKT"
    ensures CancelIds([o0, o1], "AAPL", "LMT") == ["100"]
  {
    MatchingConcat([o0], [o1], "AAPL", "LMT");
    assert [o0, o1] == [o0] + [o1];
    assert Matching([o0, o1], "AAPL", "LMT") == [o0];
    StripRefPrefixed("100");
    assert "S." + "100" == "S.100";
  }

  /** The first index whose cancel cell cannot be found, or |ids|. */
  function FirstMissing(ids: seq<string>, present: set<string>): (n: nat)
    ensures n <= |ids|
    ensures forall j :: 0 <= j < n ==> ids[j] in present
    ensures n < |ids| ==> ids[n] !in present
  {
    if |ids| == 0 || ids[0] !in present then 0
    else 1 + FirstMissing(ids[1..], present)
  }

  /** A click the panel issues in the browser. */
  datatype Click = TabClick(tab: PortfolioTab) | CancelClick(orderId: string)

  function CancelClicks(ids: seq<string>): (cs: seq<Click>)
    ensures |cs| == |ids| && forall i :: 0 <= i < |ids| ==> cs[i] == CancelClick(ids[i])
  {
    seq(|ids|, i requires 0 <= i < |ids| => CancelClick(ids[i]))
  }

  /** The panel as the caller drives it: the tab it last switched to and every
      click it issued, in order. */
  class Portfolio {
    var activeTab: Option<PortfolioTab>
    var clicks: seq<Click>

    constructor ()
      ensures activeTab == None && clicks == []
    {
      activeTab := None;
      clicks := [];
    }

    /** Clicking a tab selector; the tab shown afterwards does not depend on
        what was shown before, so switching twice is switching once. */
    method SwitchTab(tab: PortfolioTab)
      modifies this
      ensures activeTab == Some(tab)
      ensures clicks == old(clicks) + [TabClick(tab)]
    {
      activeTab := Some(tab);
      clicks := clicks + [TabClick(tab)];
    }

    /** Switches to the closed-positions tab, then reads one list of `td`
        texts per body row and binds them to the closed-position columns. */
    method ClosePositionOverview(rows: seq<DomRow>) returns (r: Result<seq<ClosedPosition>, Error>)
      modifies this
      ensures activeTab == Some(ClosedPositions)
      ensures clicks == old(clicks) + [TabClick(ClosedPositions)]
      ensures r == ClosedTable(TdTexts(rows))
    {
      SwitchTab(ClosedPositions);
      var data := CollectTdTexts(rows);
      assert data == TdTexts(rows);
      r := ClosedTable(data);
    }

    /** Switches to the active-orders tab, selects the ids to cancel from the
        table read there, and clicks the cancel cell of each id in turn. The
        first id whose cancel cell is not in `cancelable` (the order ids on the
        page when the clicks are issued) raises and ends the batch. */
    method CancelActiveOrder(symbol: string, orderType: OrderType, table: seq<AoRow>, cancelable: set<string>)
      returns (outcome: Outcome<Error>)
      modifies this
      ensures activeTab == Some(ActiveOrders)
      ensures var t := CancelTargets(symbol, orderType, table);
        t.Failure? ==> outcome == Fail(t.error) && clicks == old(clicks) + [TabClick(ActiveOrders)]
      ensures var t := CancelTargets(symbol, orderType, table);
        t.Success? ==>
          var n := FirstMissing(t.value, cancelable);
          clicks == old(clicks) + [TabClick(ActiveOrders)] + CancelClicks(t.value[..n])
          && outcome == if n == |t.value| then Pass else Fail(CancelButtonNotFound(t.value[n]))
    {
      SwitchTab(ActiveOrders);
      var t := CancelTargets(symbol, orderType, table);
      if t.Failure? {
        return Fail(t.error);
      }
      outcome := ClickCancelButtons(t.value, cancelable);
    }

    /** One click on the cancel cell of each id, in order, until an id has no
        cancel cell on the page. */
    method ClickCancelButtons(ids: seq<string>, cancelable: set<string>) returns (outcome: Outcome<Error>)
      modifies this
      ensures activeTab == old(activeTab)
      ensures var n := FirstMissing(ids, cancelable);
        clicks == old(clicks) + CancelClicks(ids[..n])
        && outcome == if n == |ids| then Pass else Fail(CancelButtonNotFound(ids[n]))
    {
      ghost var n := FirstMissing(ids, cancelable);
      var i := 0;
      while i < |ids|
        invariant 0 <= i <= n
        invariant activeTab == old(activeTab)
        invariant clicks == old(clicks) + CancelClicks(ids[..i])
      {
        if ids[i] !in cancelable {
          return Fail(CancelButtonNotFound(ids[i]));
        }
        assert CancelClicks(ids[..i + 1]) == CancelClicks(ids[..i]) + [CancelClick(ids[i])];
        clicks := clicks + [CancelClick(ids[i])];
        i := i + 1;
      }
      assert ids[..i] == ids;
      return Pass;
    }
  }
}
