/** The closed vocabularies of the web interface (tradezeroapi/enums.py): each
    Python string enumeration becomes a datatype whose Value() is the string
    the member stands for and whose Name() is the member's Python name. */
module Enums {
  import opened Text

  /** The entries of the order-type drop-down menu. */
  datatype OrderType = Market | Limit | Stop | StopLimit | MarketOnClose | LimitOnClose | Range
  {
    function Value(): string {
      match this
      case Market => "MKT"
      case Limit => "LMT"
      case Stop => "Stop-MKT"
      case StopLimit => "Stop-LMT"
      case MarketOnClose => "MKT-Close"
      case LimitOnClose => "LMT-Close"
      case Range => "RANGE"
    }

    function Name(): string {
      match this
      case Market => "Market"
      case Limit => "Limit"
      case Stop => "Stop"
      case StopLimit => "StopLimit"
      case MarketOnClose => "MarketOnClose"
      case LimitOnClose => "LimitOnClose"
      case Range => "Range"
    }
  }

  /** The members in declaration order, the order Python iterates them in. */
  const OrderTypes: seq<OrderType> :=
    [Market, Limit, Stop, StopLimit, MarketOnClose, LimitOnClose, Range]

  /** Every member is listed exactly once. */
  lemma OrderTypesListed()
    ensures |OrderTypes| == 7
    ensures forall o: OrderType :: o in OrderTypes
    ensures forall i, j :: 0 <= i < j < |OrderTypes| ==> OrderTypes[i] != OrderTypes[j]
  {
    forall o: OrderType
      ensures o in OrderTypes
    {
      match o
      case Market => assert o == OrderTypes[0];
      case Limit => assert o == OrderTypes[1];
      case Stop => assert o == OrderTypes[2];
      case StopLimit => assert o == OrderTypes[3];
      case MarketOnClose => assert o == OrderTypes[4];
      case LimitOnClose => assert o == OrderTypes[5];
      case Range => assert o == OrderTypes[6];
    }
  }

  /** No two members share a value, so a lookup by value is well defined. */
  lemma OrderTypeValuesDistinct(a: OrderType, b: OrderType)
    ensures a.Value() == b.Value() ==> a == b
  {
  }

  /** Time in force. */
  datatype TIF = DAY | GTC | GTX
  {
    function Value(): string {
      match this
      case DAY => "DAY"
      case GTC => "GTC"
      case GTX => "GTX"
    }

    function Name(): string {
      match this
      case DAY => "DAY"
      case GTC => "GTC"
      case GTX => "GTX"
    }
  }

  /** The time-in-force texts the order placers accept. */
  const TifWhitelist: seq<string> := ["DAY", "GTC", "GTX"]

  /** Each TIF value is its own member name, the whitelist holds exactly the
      three values, and each accepted text belongs to one member only. */
  lemma TifValuesAreWhitelist()
    ensures forall t: TIF :: t.Value() == t.Name()
    ensures forall t: TIF :: t.Value() in TifWhitelist
    ensures forall v :: v in TifWhitelist ==> exists t: TIF :: t.Value() == v
    ensures forall a: TIF, b: TIF :: a.Value() == b.Value() ==> a == b
  {
    assert DAY.Value() == TifWhitelist[0];
    assert GTC.Value() == TifWhitelist[1];
    assert GTX.Value() == TifWhitelist[2];
  }

  /** Order direction, spliced into the id of the button that sends the order. */
  datatype Order = BUY | SELL | SHORT | COVER
  {
    function Value(): string {
      match this
      case BUY => "buy"
      case SELL => "sell"
      case SHORT => "short"
      case COVER => "cover"
    }
  }

  const OrderButtonPrefix := "trading-order-button-"

  /** The id of the button that sends an order in direction d: the common
      prefix followed by the direction's value. */
  function OrderButtonId(d: Order): (id: string)
    ensures |id| > |OrderButtonPrefix| && id[..|OrderButtonPrefix|] == OrderButtonPrefix
    ensures id[|OrderButtonPrefix|..] == d.Value()
  {
    OrderButtonPrefix + d.Value()
  }

  /** Directions are lower-case words, and different directions press
      different buttons. */
  lemma OrderButtonsDistinct(a: Order, b: Order)
    ensures Lower(a.Value()) == a.Value()
    ensures OrderButtonId(a) == OrderButtonId(b) ==> a == b
  {
    if OrderButtonId(a) == OrderButtonId(b) {
      assert a.Value()[0] == b.Value()[0];
      if a.Value()[0] == 's' {
        assert a.Value()[1] == b.Value()[1];
      }
    }
    assert forall i :: 0 <= i < |a.Value()| ==> IsLowerLetter(a.Value()[i]);
  }

  /** The tabs of the portfolio panel, by the DOM id of their selector. */
  datatype PortfolioTab = OpenPositions | ClosedPositions | ActiveOrders | InactiveOrders
  {
    function Id(): string {
      match this
      case OpenPositions => "portfolio-tab-op-1"
      case ClosedPositions => "portfolio-tab-cp-1"
      case ActiveOrders => "portfolio-tab-ao-1"
      case InactiveOrders => "portfolio-tab-io-1"
    }
  }

  /** Different tabs have different selector ids. */
  lemma PortfolioTabIdsDistinct(a: PortfolioTab, b: PortfolioTab)
    ensures a.Id() == b.Id() ==> a == b
  {
    if a.Id() == b.Id() {
      assert a.Id()[14..16] == b.Id()[14..16];
    }
  }
}
