/** The argument checks and string handling of the TradeZero session object
    (tradezeroapi/main.py): the order-type lookup, the share-lot rules of
    locating and crediting, the locate offer reply, the order placers' checks
    and form values, and how load_symbol and current_symbol read the page.
    What the page shows is passed in as text; nothing here drives a browser. */
module Trading {
  import opened Wrappers
  import opened Text
  import opened Enums

  /** The exceptions the checks raise, by the argument that caused them. */
  datatype TradeError =
    | InvalidDecision(decision: string)
    | SharesNotRoundLot(amount: int)
    | NotLocated(symbol: string)
    | QuantityNotRoundLot(quantity: int)
    | ExceedsLocated(quantity: int, located: real)
    | InvalidTimeInForce(tif: string)
    | OutsideMarketHours
    | UnknownSymbol(symbol: string)
    | SharesNotTyped

  // ---------------------------------------------------------------------
  // get_order_type_from_string

  /** The name of the order type whose value is the given text, found by
      walking the members in declaration order; None when no member has it. */
  method GetOrderTypeFromString(value: string) returns (name: Option<string>)
    ensures name.Some? <==> exists o: OrderType :: o.Value() == value
    ensures forall o: OrderType :: o.Value() == value ==> name == Some(o.Name())
  {
    OrderTypesListed();
    var i := 0;
    while i < |OrderTypes|
      invariant 0 <= i <= |OrderTypes|
      invariant forall j :: 0 <= j < i ==> OrderTypes[j].Value() != value
    {
      if OrderTypes[i].Value() == value {
        forall o: OrderType | o.Value() == value
          ensures o == OrderTypes[i]
        {
          OrderTypeValuesDistinct(o, OrderTypes[i]);
        }
        return Some(OrderTypes[i].Name());
      }
      i := i + 1;
    }
    forall o: OrderType
      ensures o.Value() != value
    {
      assert o in OrderTypes;
      var j :| 0 <= j < |OrderTypes| && OrderTypes[j] == o;
    }
    return None;
  }

  // ---------------------------------------------------------------------
  // Share lots

  /** Shares are located and credited in lots of this size. */
  const LotSize: int := 100

  /** k whole lots. */
  function Lots(k: int): int {
    LotSize * k
  }

  /** The test the code applies: no remainder when divided by the lot size
      (Python's % and Dafny's agree on whether the remainder is zero). */
  predicate IsRoundLot(n: int) {
    n % LotSize == 0
  }

  /** The remainder test accepts exactly the whole numbers of lots. */
  lemma RoundLotIff(n: int)
    ensures IsRoundLot(n) <==> exists k :: Lots(k) == n
  {
    if IsRoundLot(n) {
      assert Lots(n / LotSize) == n;
    }
    if exists k :: Lots(k) == n {
      var k :| Lots(k) == n;
      assert n == LotSize * k;
      assert n % LotSize == 0;
    }
  }

  /** locate_stock's first check: an amount, when given, is a whole number
      of lots. */
  function CheckShareAmount(shareAmount: Option<int>): (r: Outcome<TradeError>)
    ensures r.Pass? <==> shareAmount.None? || exists k :: Lots(k) == shareAmount.value
    ensures r.Fail? ==> r.error == SharesNotRoundLot(shareAmount.value)
  {
    match shareAmount
    case None => Pass
    case Some(n) =>
      RoundLotIff(n);
      if !IsRoundLot(n) then Fail(SharesNotRoundLot(n)) else Pass
  }

  // ---------------------------------------------------------------------
  // credit_locates

  /** What crediting does once its checks pass: the row of the located
      symbol in the inventory table, and the quantity typed into it (none
      credits every located share). */
  datatype CreditRequest = CreditRequest(rowId: string, quantity: Option<int>)

  /** The checks of credit_locates, in their order: the upper-cased symbol
      must be among the symbols of the locate inventory; a given quantity must
      be a whole number of lots and no more than the located shares. */
  function CreditLocates(symbol: string, quantity: Option<int>, locatedSymbols: seq<string>, locatedShares: real)
    : (r: Result<CreditRequest, TradeError>)
    ensures Upper(symbol) !in locatedSymbols ==> r == Failure(NotLocated(symbol))
    ensures Upper(symbol) in locatedSymbols && quantity.Some? && !IsRoundLot(quantity.value) ==>
      r == Failure(QuantityNotRoundLot(quantity.value))
    ensures (Upper(symbol) in locatedSymbols && quantity.Some? && IsRoundLot(quantity.value)
             && quantity.value as real > locatedShares) ==>
      r == Failure(ExceedsLocated(quantity.value, locatedShares))
    ensures r.Success? <==>
      (Upper(symbol) in locatedSymbols
       && (quantity.None? || (IsRoundLot(quantity.value) && quantity.value as real <= locatedShares)))
    ensures r.Success? ==> r.value == CreditRequest("inv-" + Upper(symbol), quantity)
  {
    if Upper(symbol) !in locatedSymbols then Failure(NotLocated(symbol))
    else match quantity
      case None => Success(CreditRequest("inv-" + Upper(symbol), None))
      case Some(q) =>
        if !IsRoundLot(q) then Failure(QuantityNotRoundLot(q))
        else if q as real > locatedShares then Failure(ExceedsLocated(q, locatedShares))
        else Success(CreditRequest("inv-" + Upper(symbol), quantity))
  }

  /** Crediting everything needs only the symbol to be located, and a
      quantity that passes can always be lowered by whole lots down to one lot. */
  lemma CreditLocatesMonotone(symbol: string, q: int, locatedSymbols: seq<string>, locatedShares: real)
    requires CreditLocates(symbol, Some(q), locatedSymbols, locatedShares).Success?
    ensures CreditLocates(symbol, None, locatedSymbols, locatedShares).Success?
    ensures q >= 2 * LotSize ==> CreditLocates(symbol, Some(q - LotSize), locatedSymbols, locatedShares).Success?
  {
    assert (q - LotSize) % LotSize == q % LotSize;
  }

  // ---------------------------------------------------------------------
  // accept_or_decline_locate

  const Accept := "accept"
  const Decline := "decline"

  /** How the path to an offer's cells begins; the upper-cased symbol
      follows. */
  const OfferPathHead := "//*[@id=\"oitem-l-"

  /** The button of a locate offer: the path names the offer of the
      upper-cased symbol and its eighth cell, whose first span accepts and
      whose second span declines. */
  function OfferButton(symbol: string, accept: bool): (xpath: string)
    ensures |xpath| > |OfferPathHead| + |symbol|
    ensures xpath[..|OfferPathHead|] == OfferPathHead
    ensures xpath[|OfferPathHead|..|OfferPathHead| + |symbol|] == Upper(symbol)
    ensures xpath[|OfferPathHead| + |symbol|..] == "-cell-8\"]/span[" + (if accept then "1" else "2") + "]"
  {
    OfferPathHead + Upper(symbol) + "-cell-8\"]/span[" + (if accept then "1" else "2") + "]"
  }

  /** The two buttons of an offer differ, and they belong to the same cell. */
  lemma OfferButtonsDiffer(symbol: string)
    ensures OfferButton(symbol, true) != OfferButton(symbol, false)
    ensures |OfferButton(symbol, true)| == |OfferButton(symbol, false)|
    ensures OfferButton(symbol, true)[..|OfferButton(symbol, true)| - 2]
         == OfferButton(symbol, false)[..|OfferButton(symbol, false)| - 2]
  {
    var pre := OfferPathHead + Upper(symbol) + "-cell-8\"]/span[";
    assert OfferButton(symbol, true) == pre + "1]";
    assert OfferButton(symbol, false) == pre + "2]";
    assert OfferButton(symbol, true)[|pre|] == '1';
    assert OfferButton(symbol, true)[..|pre|] == pre;
    assert OfferButton(symbol, false)[..|pre|] == pre;
  }

  /** The reply to a locate offer: the button pressed, if any, and the
      message returned to the caller. */
  datatype LocateReply = LocateReply(pressed: Option<string>, message: string)

  /** Only "accept" and "decline" are decisions; a shown offer has the
      matching button pressed; a missing offer is reported in the returned
      message, not raised. */
  function AcceptOrDeclineLocate(symbol: string, decision: string, offerShown: bool): (r: Result<LocateReply, TradeError>)
    ensures r.Failure? <==> decision != Accept && decision != Decline
    ensures r.Failure? ==> r.error == InvalidDecision(decision)
    ensures r.Success? ==> (r.value.pressed.Some? <==> offerShown)
    ensures r.Success? && offerShown ==> r.value.pressed == Some(OfferButton(symbol, decision == Accept))
    ensures r.Success? && offerShown && decision == Accept ==>
      r.value.message == "Locate offer for " + symbol + " has been accepted."
    ensures r.Success? && offerShown && decision == Decline ==>
      r.value.message == "Locate offer for " + symbol + " has been declined."
    ensures r.Success? && !offerShown ==>
      r.value.message == "ERROR: Locate offer for " + symbol + " not found or already processed."
  {
    if decision != Accept && decision != Decline then Failure(InvalidDecision(decision))
    else if !offerShown then
      Success(LocateReply(None, "ERROR: Locate offer for " + symbol + " not found or already processed."))
    else if decision == Accept then
      Success(LocateReply(Some(OfferButton(symbol, true)), "Locate offer for " + symbol + " has been accepted."))
    else
      Success(LocateReply(Some(OfferButton(symbol, false)), "Locate offer for " + symbol + " has been declined."))
  }

  // ---------------------------------------------------------------------
  // The order placers

  /** The time-in-force check every placer makes. */
  function CheckTimeInForce(value: string): (r: Outcome<TradeError>)
    ensures r.Pass? <==> value == "DAY" || value == "GTC" || value == "GTX"
    ensures r.Fail? ==> r.error == InvalidTimeInForce(value)
  {
    if value !in TifWhitelist then Fail(InvalidTimeInForce(value)) else Pass
  }

  /** The placers take a TIF member and check its value, so the check never
      fails, and it rejects every text that is not such a value. */
  lemma TimeInForceOfMembers(value: string)
    ensures forall t: TIF :: CheckTimeInForce(t.Value()).Pass?
    ensures CheckTimeInForce(value).Pass? <==> exists t: TIF :: t.Value() == value
  {
    TifValuesAreWhitelist();
    if value in TifWhitelist {
      assert exists t: TIF :: t.Value() == value;
    }
  }

  /** The three placers. */
  datatype OrderKind = LimitOrder | MarketOrder | StopMarketOrder
  {
    /** The entry the placer selects in the order-type menu. */
    function MenuIndex(): nat {
      match this
      case LimitOrder => 1
      case MarketOrder => 0
      case StopMarketOrder => 2
    }

    /** The order type of that entry. */
    function OrderType(): OrderType {
      match this
      case LimitOrder => Limit
      case MarketOrder => Market
      case StopMarketOrder => Stop
    }

    /** Market and stop orders are refused outside market hours. */
    predicate NeedsMarketHours() {
      !LimitOrder?
    }
  }

  /** The order-type menu itself is not modelled: its entries are taken to
      follow the declaration order of OrderType, as the placers' indices
      (1 for a limit, 0 for a market, 2 for a stop order) and the enum's
      description suggest. Under that reading each placer's index selects
      its own order type, and different placers select different entries. */
  lemma MenuIndexSelectsOrderType(a: OrderKind, b: OrderKind)
    ensures a.MenuIndex() < |OrderTypes| && OrderTypes[a.MenuIndex()] == a.OrderType()
    ensures a.MenuIndex() == b.MenuIndex() ==> a == b
  {
  }

  /** The form an order placer fills in before pressing the send button. */
  datatype OrderTicket = OrderTicket(symbol: string, menuIndex: nat, tif: string, shares: int, button: string)

  /** The checks of limit_order, market_order and stop_market_order, in their
      order, and the values they put into the order form. The market-hours
      test and the outcome of loading the lower-cased symbol (what LoadSymbol
      returns) are inputs; the prices are not modelled. Loading aborts the
      order only when the symbol is reported as not found. */
  function PlaceOrder(kind: OrderKind, side: Order, symbol: string, shares: int, tif: TIF,
                      inMarketHours: bool, loaded: LoadOutcome)
    : (r: Result<OrderTicket, TradeError>)
    ensures r.Success? <==> (!kind.NeedsMarketHours() || inMarketHours) && loaded != SymbolNotFound
    ensures r.Failure? && kind.NeedsMarketHours() && !inMarketHours ==> r.error == OutsideMarketHours
    ensures r.Failure? && (!kind.NeedsMarketHours() || inMarketHours) ==> r.error == UnknownSymbol(Lower(symbol))
    ensures r.Success? ==>
      && r.value.symbol == Lower(symbol)
      && r.value.menuIndex == kind.MenuIndex()
      && r.value.tif == tif.Value() && r.value.tif in TifWhitelist
      && r.value.shares == shares
      && r.value.button == OrderButtonId(side)
  {
    if kind.NeedsMarketHours() && !inMarketHours then Failure(OutsideMarketHours)
    else
      TimeInForceOfMembers(tif.Value());
      match CheckTimeInForce(tif.Value())
      case Fail(e) => Failure(e)
      case Pass =>
        if loaded == SymbolNotFound then Failure(UnknownSymbol(Lower(symbol)))
        else Success(OrderTicket(Lower(symbol), kind.MenuIndex(), tif.Value(), shares, OrderButtonId(side)))
  }

  /** A limit order does not depend on the time of day: it fails only when
      its symbol is not found; the form names the symbol in lower case and
      the button of the order's direction. */
  lemma LimitOrdersIgnoreMarketHours(side: Order, symbol: string, shares: int, tif: TIF, loaded: LoadOutcome)
    ensures PlaceOrder(LimitOrder, side, symbol, shares, tif, true, loaded)
         == PlaceOrder(LimitOrder, side, symbol, shares, tif, false, loaded)
    ensures PlaceOrder(LimitOrder, side, symbol, shares, tif, false, loaded).Success? <==> loaded != SymbolNotFound
    ensures loaded != SymbolNotFound ==>
      var t := PlaceOrder(LimitOrder, side, symbol, shares, tif, false, loaded).value;
      (forall i :: 0 <= i < |t.symbol| ==> !IsUpperLetter(t.symbol[i]))
      && t.button[..|OrderButtonPrefix|] == OrderButtonPrefix
      && OrderTypes[t.menuIndex] == Limit
  {
    MenuIndexSelectsOrderType(LimitOrder, LimitOrder);
  }

  // ---------------------------------------------------------------------
  // current_symbol and the price text of load_symbol

  /** The symbol shown in the order panel, every "(USD)" removed: it comes
      back unchanged exactly when it shows no "(USD)". */
  function CurrentSymbol(shown: string): (s: string)
    ensures |s| <= |shown|
    ensures s == shown <==> !Contains(shown, "(USD)")
  {
    RemoveAllUnchanged(shown, "(USD)");
    RemoveAll(shown, "(USD)")
  }

  /** A symbol shown with its currency reads back as the symbol. */
  lemma CurrentSymbolStripsCurrency(symbol: string)
    requires '(' !in symbol
    ensures CurrentSymbol(symbol + "(USD)") == symbol
    ensures CurrentSymbol(symbol) == symbol
  {
    RemoveAllSplit(symbol, "(USD)", []);
    assert symbol + "(USD)" + [] == symbol + "(USD)";
    RemoveAllFree(symbol, "(USD)");
  }

  /** Every "(USD)" goes, not just the first: pieces without a '(' joined by
      "(USD)" come back as the pieces run together. */
  lemma CurrentSymbolEvery(parts: seq<string>)
    requires forall i :: 0 <= i < |parts| ==> '(' !in parts[i]
    ensures CurrentSymbol(JoinWith(parts, "(USD)")) == Concat(parts)
  {
    RemoveAllJoin(parts, "(USD)");
  }

  /** The ask text with every '.' and then every ',' removed. */
  function PriceText(ask: string): (p: string)
    ensures |p| <= |ask|
  {
    RemoveAll(RemoveAll(ask, "."), ",")
  }

  /** A price counts as loaded when that text is a non-empty run of digits. */
  function PriceLoaded(ask: string): (b: bool)
    ensures b <==>
      (exists c :: c in ask && IsDigit(c)) && forall c :: c in ask ==> IsDigit(c) || c == '.' || c == ','
  {
    PriceTextShape(ask);
    IsDigits(PriceText(ask))
  }

  /** The price text holds exactly the characters of the ask other than '.'
      and ','. */
  lemma {:induction false} PriceTextMembers(ask: string)
    ensures forall c :: c in PriceText(ask) <==> c in ask && c != '.' && c != ','
  {
    RemoveCharMembers(ask, '.');
    RemoveCharMembers(RemoveAll(ask, "."), ',');
  }

  /** The price text is digits exactly when the ask has a digit and nothing
      but digits, points and commas; it is empty (the price is not yet
      shown) exactly when the ask holds nothing but points and commas. */
  lemma PriceTextShape(ask: string)
    ensures IsDigits(PriceText(ask)) <==>
      (exists c :: c in ask && IsDigit(c)) && forall c :: c in ask ==> IsDigit(c) || c == '.' || c == ','
    ensures PriceText(ask) == "" <==> forall c :: c in ask ==> c == '.' || c == ','
  {
    PriceTextMembers(ask);
    var p := PriceText(ask);
    if IsDigits(p) {
      assert p[0] in p;
    }
    if exists c :: c in ask && IsDigit(c) {
      var c :| c in ask && IsDigit(c);
      assert c in p;
    }
    if p != "" {
      assert p[0] in p;
    }
  }

  /** The test of the fast path: the price text is digits and the number
      they spell is above zero, that is, they are not all zeros. */
  function PositivePrice(p: string): (b: bool)
    ensures b <==> IsDigits(p) && exists i :: 0 <= i < |p| && p[i] != '0'
  {
    if IsDigits(p) then
      DigitsValuePositive(p);
      DigitsValue(p) > 0
    else false
  }

  /** load_symbol returns at once when the panel already shows the symbol
      and a loaded price with a digit other than zero. */
  function AlreadyLoaded(symbol: string, shownSymbol: string, shownAsk: string): (b: bool)
    ensures b <==>
      Upper(symbol) == CurrentSymbol(shownSymbol) && PriceLoaded(shownAsk)
      && exists c :: c in shownAsk && '1' <= c <= '9'
  {
    PriceTextMembers(shownAsk);
    var p := PriceText(shownAsk);
    assert IsDigits(p) && (exists i :: 0 <= i < |p| && p[i] != '0') ==>
      exists c :: c in shownAsk && '1' <= c <= '9' by {
      if IsDigits(p) && exists i :: 0 <= i < |p| && p[i] != '0' {
        var i :| 0 <= i < |p| && p[i] != '0';
        assert p[i] in p && p[i] in shownAsk;
      }
    }
    assert (exists c :: c in shownAsk && '1' <= c <= '9') ==> exists i :: 0 <= i < |p| && p[i] != '0' by {
      if exists c :: c in shownAsk && '1' <= c <= '9' {
        var c :| c in shownAsk && '1' <= c <= '9';
        assert c in p;
        var i :| 0 <= i < |p| && p[i] == c;
      }
    }
    Upper(symbol) == CurrentSymbol(shownSymbol) && PositivePrice(p)
  }

  // ---------------------------------------------------------------------
  // load_symbol's polling

  /** How many times load_symbol reads the ask after entering the symbol. */
  const QuotePolls := 300

  /** What one poll sees: the ask text, and the latest notification, which
      the code reads only at polls 15 and 299. */
  datatype QuotePoll = QuotePoll(askText: string, lastNotice: string)

  datatype LoadOutcome = Loaded | SymbolNotFound | GaveUp

  function NotFoundNotice(symbol: string): string {
    "Symbol not found: " + Upper(symbol)
  }

  /** Poll i ends the wait with "not found": it is poll 15 or 299, the price
      text is neither empty nor digits, and the latest notification says the
      upper-cased symbol was not found. */
  function NotFoundAt(symbol: string, polls: seq<QuotePoll>, i: int): (b: bool)
    requires 0 <= i < |polls|
    ensures b <==>
      (i == 15 || i == 299)
      && (exists c :: c in polls[i].askText && !IsDigit(c) && c != '.' && c != ',')
      && polls[i].lastNotice == NotFoundNotice(symbol)
  {
    PriceTextShape(polls[i].askText);
    (i == 15 || i == 299)
    && PriceText(polls[i].askText) != "" && !PriceLoaded(polls[i].askText)
    && polls[i].lastNotice == NotFoundNotice(symbol)
  }

  /** Poll i ends the wait, one way or the other. */
  predicate Decisive(symbol: string, polls: seq<QuotePoll>, i: int)
    requires 0 <= i < |polls|
  {
    PriceLoaded(polls[i].askText) || NotFoundAt(symbol, polls, i)
  }

  /** No poll before i is decisive. */
  predicate FirstDecisive(symbol: string, polls: seq<QuotePoll>, i: int)
    requires 0 <= i <= |polls|
  {
    forall j :: 0 <= j < i ==> !Decisive(symbol, polls, j)
  }

  /** The placers hand load_symbol the lower-cased symbol; since load_symbol
      only ever looks at the symbol upper-cased, that gives the same fast
      path and the same deciding polls as the symbol as the caller wrote it,
      so LoadSymbol's outcome is the same. */
  lemma LoadSymbolCaseBlind(symbol: string, shownSymbol: string, shownAsk: string, polls: seq<QuotePoll>)
    ensures AlreadyLoaded(Lower(symbol), shownSymbol, shownAsk) == AlreadyLoaded(symbol, shownSymbol, shownAsk)
    ensures forall i :: 0 <= i < |polls| ==> Decisive(Lower(symbol), polls, i) == Decisive(symbol, polls, i)
  {
    UpperIdempotent(symbol);
    assert NotFoundNotice(Lower(symbol)) == NotFoundNotice(symbol);
  }

  /** The first decisive poll is the only one. */
  lemma FirstDecisiveUnique(symbol: string, polls: seq<QuotePoll>, i: int)
    requires 0 <= i < |polls| && Decisive(symbol, polls, i) && FirstDecisive(symbol, polls, i)
    ensures forall k :: 0 <= k < |polls| && Decisive(symbol, polls, k) && FirstDecisive(symbol, polls, k) ==> k == i
  {
  }

  /** load_symbol: the fast path, then up to 300 polls of the ask. The first
      poll that shows a loaded price or that confirms "not found" decides;
      when none does, the code falls off the loop and returns None. */
  method LoadSymbol(symbol: string, shownSymbol: string, shownAsk: string, polls: seq<QuotePoll>)
    returns (r: LoadOutcome)
    requires |polls| == QuotePolls
    ensures r == Loaded <==>
      (AlreadyLoaded(symbol, shownSymbol, shownAsk)
       || exists i :: 0 <= i < |polls| && PriceLoaded(polls[i].askText) && FirstDecisive(symbol, polls, i))
    ensures r == SymbolNotFound <==>
      (!AlreadyLoaded(symbol, shownSymbol, shownAsk)
       && exists i :: 0 <= i < |polls| && NotFoundAt(symbol, polls, i) && FirstDecisive(symbol, polls, i))
    ensures r == GaveUp <==>
      (!AlreadyLoaded(symbol, shownSymbol, shownAsk)
       && forall i :: 0 <= i < |polls| ==> !Decisive(symbol, polls, i))
  {
    if AlreadyLoaded(symbol, shownSymbol, shownAsk) {
      return Loaded;
    }
    var i := 0;
    while i < QuotePolls
      invariant 0 <= i <= QuotePolls
      invariant forall j :: 0 <= j < i ==> !Decisive(symbol, polls, j)
    {
      var price := PriceText(polls[i].askText);
      if price == "" {
      } else if IsDigits(price) {
        assert Decisive(symbol, polls, i);
        FirstDecisiveUnique(symbol, polls, i);
        return Loaded;
      } else if i == 15 || i == 299 {
        if polls[i].lastNotice == NotFoundNotice(symbol) {
          assert NotFoundAt(symbol, polls, i) && Decisive(symbol, polls, i);
          FirstDecisiveUnique(symbol, polls, i);
          return SymbolNotFound;
        }
      }
      i := i + 1;
    }
    assert forall k :: 0 <= k < |polls| ==> !Decisive(symbol, polls, k);
    forall k | 0 <= k < |polls|
      ensures !PriceLoaded(polls[k].askText) && !NotFoundAt(symbol, polls, k)
    {
      assert !Decisive(symbol, polls, k);
    }
    return GaveUp;
  }

  // ---------------------------------------------------------------------
  // locate_stock

  /** How many times locate_stock tries to read the offer. */
  const LocateTries := 10

  const InsufficientBp := "Insufficient BP to short a position with requested quantity."

  const EasyToBorrow := "Easy to borrow"

  /** The texts of the offer's price-per-share and total cells. */
  datatype LocateQuote = LocateQuote(pricePerShare: string, total: string)

  /** What one try sees: the offer, when both cells could be read, and the
      latest notification. */
  datatype LocateAttempt = LocateAttempt(quote: Option<LocateQuote>, lastNotice: string)

  datatype LocateResult =
    | EasyBorrow
    | Offered(quote: LocateQuote)
    | NoLocate
    | InsufficientBuyingPower

  /** The retry loop as written: ten tries, each checking the notification
      only when the try number is 15 or 299, which a loop over ten tries
      never reaches, so a lack of buying power is never reported. The first
      offer read is returned. */
  method LocateRetryAsWritten(attempts: seq<LocateAttempt>) returns (r: LocateResult)
    requires |attempts| == LocateTries
    ensures r != InsufficientBuyingPower && r != EasyBorrow
    ensures r == NoLocate <==> forall j :: 0 <= j < LocateTries ==> attempts[j].quote.None?
    ensures r.Offered? <==> exists i :: 0 <= i < LocateTries && attempts[i].quote.Some?
    ensures r.Offered? ==>
      exists i :: 0 <= i < LocateTries && attempts[i].quote == Some(r.quote)
                  && forall j :: 0 <= j < i ==> attempts[j].quote.None?
  {
    var i := 0;
    while i < LocateTries
      invariant 0 <= i <= LocateTries
      invariant forall j :: 0 <= j < i ==> attempts[j].quote.None?
    {
      if attempts[i].quote.Some? {
        return Offered(attempts[i].quote.value);
      }
      var notice := attempts[i].lastNotice;
      if (i == 15 || i == 299) && Contains(notice, InsufficientBp) {
        return InsufficientBuyingPower;
      }
      i := i + 1;
    }
    return NoLocate;
  }

  /** The retry loop with the notification checked on the last try: the
      first offer read is returned; when none is, a lack of buying power is
      reported exactly when the last notification says so. */
  method LocateRetry(attempts: seq<LocateAttempt>) returns (r: LocateResult)
    requires |attempts| == LocateTries
    ensures r.Offered? <==> exists i :: 0 <= i < LocateTries && attempts[i].quote.Some?
    ensures r.Offered? ==>
      exists i :: 0 <= i < LocateTries && attempts[i].quote == Some(r.quote)
                  && forall j :: 0 <= j < i ==> attempts[j].quote.None?
    ensures r == InsufficientBuyingPower <==>
      (forall j :: 0 <= j < LocateTries ==> attempts[j].quote.None?)
      && Contains(attempts[LocateTries - 1].lastNotice, InsufficientBp)
    ensures r != EasyBorrow
  {
    var i := 0;
    while i < LocateTries
      invariant 0 <= i <= LocateTries
      invariant forall j :: 0 <= j < i ==> attempts[j].quote.None?
      invariant i == LocateTries ==> !Contains(attempts[LocateTries - 1].lastNotice, InsufficientBp)
    {
      if attempts[i].quote.Some? {
        return Offered(attempts[i].quote.value);
      }
      var notice := attempts[i].lastNotice;
      if i == LocateTries - 1 && Contains(notice, InsufficientBp) {
        return InsufficientBuyingPower;
      }
      i := i + 1;
    }
    return NoLocate;
  }

  /** locate_stock: the share-lot check, then the amount is typed into the
      form, which fails when none was given (the lot check lets a missing
      amount through, but the browser cannot type it); then the borrow status
      (the first non-empty status text), then the retry loop as written, so
      a lack of buying power is reported as no locate at all. */
  method LocateStock(shareAmount: Option<int>, status: string, attempts: seq<LocateAttempt>)
    returns (r: Result<LocateResult, TradeError>)
    requires |attempts| == LocateTries
    ensures CheckShareAmount(shareAmount).Fail? ==> r == Failure(CheckShareAmount(shareAmount).error)
    ensures shareAmount.None? ==> r == Failure(SharesNotTyped)
    ensures r.Success? <==> shareAmount.Some? && exists k :: Lots(k) == shareAmount.value
    ensures r.Success? ==> (r.value == EasyBorrow <==> status == EasyToBorrow)
    ensures r.Success? && status != EasyToBorrow ==>
      (r.value.Offered? <==> exists i :: 0 <= i < LocateTries && attempts[i].quote.Some?)
    ensures r.Success? && status != EasyToBorrow ==>
      (r.value == NoLocate <==> forall j :: 0 <= j < LocateTries ==> attempts[j].quote.None?)
    ensures r.Success? && r.value.Offered? ==>
      exists i :: 0 <= i < LocateTries && attempts[i].quote == Some(r.value.quote)
                  && forall j :: 0 <= j < i ==> attempts[j].quote.None?
    ensures r != Success(InsufficientBuyingPower)
  {
    var check := CheckShareAmount(shareAmount);
    if check.Fail? {
      return Failure(check.error);
    }
    if shareAmount.None? {
      return Failure(SharesNotTyped);
    }
    if status == EasyToBorrow {
      return Success(EasyBorrow);
    }
    var offer := LocateRetryAsWritten(attempts);
    return Success(offer);
  }
}
