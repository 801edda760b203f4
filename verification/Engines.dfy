/** The arbitrage engine: the depth walk in both directions between two books, fees and filters,
    and the top-of-book spread the scan prints beside it.
  */
module Engines {
  import opened Ladders
  import opened OrderBooks
  import opened Walks
  import opened Optimality
  import opened Sorting

  const BPS: real := 10000.0

  datatype Settings = Settings(
    minNetSpreadBps: real, minNotional: real, maxNotional: real,
    binanceTakerFeeBps: real, mexcTakerFeeBps: real, maxDepthLevels: nat)
  {
    function TakerFeeBps(exchange: Exchange): real {
      match exchange
      case Binance => binanceTakerFeeBps
      case Mexc => mexcTakerFeeBps
    }
  }

  datatype Opportunity = Opportunity(
    symbol: string, buyExchange: Exchange, sellExchange: Exchange,
    baseQuantity: real, buyNotional: real, sellNotional: real, buyVwap: real, sellVwap: real,
    grossProfit: real, fees: real, netProfit: real,
    grossSpreadBps: real, totalFeeBps: real, netSpreadBps: real)

  // ----- one direction -----

  function Fee(notional: real, feeBps: real): real {
    notional * feeBps / BPS
  }

  /** An amount in basis points of a notional. */
  function InBps(amount: real, notional: real): real
    requires notional != 0.0
  {
    amount / notional * BPS
  }

  function Vwap(notional: real, base: real): real
    requires base != 0.0
  {
    notional / base
  }

  /** An opportunity of the given totals, every other figure determined by what it stands for. */
  function Priced(s: Settings, symbol: string, buyExchange: Exchange, sellExchange: Exchange,
                  base: real, buy: real, sell: real): Opportunity
    requires base > 0.0 && buy > 0.0
  {
    var gross := sell - buy;
    var fees := Fee(buy, s.TakerFeeBps(buyExchange)) + Fee(sell, s.TakerFeeBps(sellExchange));
    Opportunity(
      symbol, buyExchange, sellExchange, base, buy, sell, Vwap(buy, base), Vwap(sell, base),
      gross, fees, gross - fees,
      InBps(gross, buy), InBps(fees, buy), InBps(gross - fees, buy))
  }

  /** What a finished walk of these totals is reported as, if it passes the filters. */
  function Report(s: Settings, symbol: string, buyExchange: Exchange, sellExchange: Exchange,
                  base: real, buy: real, sell: real): Option<Opportunity>
  {
    if base <= EPSILON || buy <= EPSILON || buy < s.minNotional then None
    else
      var o := Priced(s, symbol, buyExchange, sellExchange, base, buy, sell);
      if o.netSpreadBps < s.minNetSpreadBps then None else Some(o)
  }

  ghost function Evaluate(s: Settings, symbol: string, buyExchange: Exchange, sellExchange: Exchange,
                          asks: Ladder, bids: Ladder): Option<Opportunity>
  {
    if asks == [] || bids == [] then None
    else
      var w := Final(asks, bids, s.maxNotional);
      Report(s, symbol, buyExchange, sellExchange, w.base, w.buy, w.sell)
  }

  ghost function Direction(s: Settings, symbol: string, buyExchange: Exchange, sellExchange: Exchange,
                           buyBook: BookState, sellBook: BookState): Option<Opportunity>
  {
    Evaluate(s, symbol, buyExchange, sellExchange,
             Top(buyBook.asks, s.maxDepthLevels), Top(sellBook.bids, s.maxDepthLevels))
  }

  function Listed(o: Option<Opportunity>): seq<Opportunity> {
    match o
    case None => []
    case Some(v) => [v]
  }

  function NetSpread(): Opportunity -> real {
    (o: Opportunity) => o.netSpreadBps
  }

  ghost function Scan(s: Settings, symbol: string, binance: BookState, mexc: BookState): seq<Opportunity> {
    if !binance.initialized || !mexc.initialized then []
    else Sort(Listed(Direction(s, symbol, Binance, Mexc, binance, mexc)) +
              Listed(Direction(s, symbol, Mexc, Binance, mexc, binance)), NetSpread())
  }

  // ----- what an opportunity stands for -----

  /** Concrete fills that carry the opportunity out against the two sides. */
  ghost predicate CarriedOutBy(o: Opportunity, asks: Ladder, bids: Ladder, maxNotional: real,
                               x: seq<real>, y: seq<real>)
  {
    && Feasible(asks, bids, maxNotional, x, y)
    && Sum(x) == o.baseQuantity
    && Value(asks, x) == o.buyNotional && Value(bids, y) == o.sellNotional
  }

  ghost predicate IsVwap(vwap: real, base: real, notional: real) {
    vwap * base == notional
  }

  ghost predicate IsInBps(bps: real, notional: real, amount: real) {
    bps * notional == amount * 10000.0
  }

  ghost predicate AreFees(fees: real, buy: real, sell: real, buyFeeBps: real, sellFeeBps: real) {
    fees * 10000.0 == buy * buyFeeBps + sell * sellFeeBps
  }

  /** The figures of an opportunity whose legs are charged these fees, each by the equation that
      defines it. */
  ghost predicate FiguresFor(o: Opportunity, buyFeeBps: real, sellFeeBps: real) {
    && IsVwap(o.buyVwap, o.baseQuantity, o.buyNotional) && IsVwap(o.sellVwap, o.baseQuantity, o.sellNotional)
    && o.grossProfit == o.sellNotional - o.buyNotional
    && AreFees(o.fees, o.buyNotional, o.sellNotional, buyFeeBps, sellFeeBps)
    && o.netProfit == o.grossProfit - o.fees
    && IsInBps(o.grossSpreadBps, o.buyNotional, o.grossProfit)
    && IsInBps(o.totalFeeBps, o.buyNotional, o.fees)
    && o.netSpreadBps == o.grossSpreadBps - o.totalFeeBps
  }

  /** Each leg is charged the taker fee of its own exchange. */
  ghost predicate Figures(o: Opportunity, s: Settings) {
    FiguresFor(o, if o.buyExchange == Binance then s.binanceTakerFeeBps else s.mexcTakerFeeBps,
               if o.sellExchange == Binance then s.binanceTakerFeeBps else s.mexcTakerFeeBps)
  }

  lemma PricedFigures(s: Settings, symbol: string, buyExchange: Exchange, sellExchange: Exchange,
                      base: real, buy: real, sell: real)
    requires base > 0.0 && buy > 0.0
    ensures Figures(Priced(s, symbol, buyExchange, sellExchange, base, buy, sell), s)
  {
  }

  /** An average price between two bounds: `quantity` units are worth `value`. */
  ghost predicate AverageWithin(low: real, high: real, quantity: real, value: real) {
    low * quantity <= value <= high * quantity
  }

  /** A walk that traded paid and got average prices between the best ones and the last ones. */
  lemma WalkAverages(asks: Ladder, bids: Ladder, maxNotional: real, w: Walk)
    requires Tradable(asks, bids) && WalkInv(asks, bids, maxNotional, w) && w.base > 0.0
    ensures AverageWithin(asks[0].price, w.lastAsk, w.base, w.buy)
    ensures AverageWithin(w.lastBid, bids[0].price, w.base, w.sell)
  {
    forall k | 0 <= k < |asks|
      ensures w.askFills[k] > 0.0 ==> asks[0].price <= asks[k].price <= w.lastAsk
    {
      BestIsFirst(Ask, asks, k);
    }
    forall k | 0 <= k < |bids|
      ensures w.bidFills[k] > 0.0 ==> w.lastBid <= bids[k].price <= bids[0].price
    {
      BestIsFirst(Bid, bids, k);
    }
    ValueBetween(asks, w.askFills, asks[0].price, w.lastAsk);
    ValueBetween(bids, w.bidFills, w.lastBid, bids[0].price);
  }

  lemma {:induction false} ValueBetween(l: Ladder, f: seq<real>, low: real, high: real)
    requires Fits(l, f)
    requires forall k :: 0 <= k < |l| && f[k] > 0.0 ==> low <= l[k].price <= high
    ensures AverageWithin(low, high, Sum(f), Value(l, f))
  {
    if f != [] {
      ValueBetween(l[1..], f[1..], low, high);
      OneMoreWithin(f[0], l[0].price, low, high, Sum(f[1..]), Value(l[1..], f[1..]));
    }
  }

  lemma OneMoreWithin(q: real, p: real, low: real, high: real, s: real, v: real)
    requires q >= 0.0 && (q > 0.0 ==> low <= p <= high)
    requires AverageWithin(low, high, s, v)
    ensures AverageWithin(low, high, q + s, q * p + v)
  {
    if q > 0.0 {
      assert q * (p - low) >= 0.0;
      assert q * (high - p) >= 0.0;
      assert low * q <= q * p <= high * q;
    } else {
      assert low * q == q * p == high * q == 0.0;
    }
    assert low * (q + s) == low * q + low * s;
    assert high * (q + s) == high * q + high * s;
  }

  lemma TradeNeedsPositiveAsk(asks: Ladder, bids: Ladder, maxNotional: real)
    requires asks != [] && bids != [] && WellFormed(Ask, asks) && WellFormed(Bid, bids)
    ensures Final(asks, bids, maxNotional).base != 0.0 ==> Tradable(asks, bids) && asks[0].price < bids[0].price
  {
  }

  /** Every reported opportunity is backed by concrete fills within the levels and the cap, passes
      the filters, and its figures mean what they are called. */
  lemma OpportunityMeaning(s: Settings, symbol: string, buyExchange: Exchange, sellExchange: Exchange,
                           asks: Ladder, bids: Ladder)
    requires WellFormed(Ask, asks) && WellFormed(Bid, bids)
    requires Evaluate(s, symbol, buyExchange, sellExchange, asks, bids).Some?
    ensures var o := Evaluate(s, symbol, buyExchange, sellExchange, asks, bids).value;
            && asks != [] && bids != []
            && o.symbol == symbol && o.buyExchange == buyExchange && o.sellExchange == sellExchange
            && Figures(o, s)
            && o.baseQuantity > EPSILON && EPSILON < o.buyNotional && s.minNotional <= o.buyNotional <= s.maxNotional
            && o.netSpreadBps >= s.minNetSpreadBps && o.grossProfit > 0.0
            && asks[0].price <= o.buyVwap < o.sellVwap <= bids[0].price
            && exists x, y :: CarriedOutBy(o, asks, bids, s.maxNotional, x, y)
  {
    var o := Evaluate(s, symbol, buyExchange, sellExchange, asks, bids).value;
    var w := Final(asks, bids, s.maxNotional);
    TradeNeedsPositiveAsk(asks, bids, s.maxNotional);
    FinalInv(asks, bids, s.maxNotional);
    WalkAverages(asks, bids, s.maxNotional, w);
    PricedFigures(s, symbol, buyExchange, sellExchange, w.base, w.buy, w.sell);
    Averages(o, s, asks[0].price, w.lastAsk, w.lastBid, bids[0].price);
    WalkIsFeasible(asks, bids, s.maxNotional);
    assert CarriedOutBy(o, asks, bids, s.maxNotional, w.askFills, w.bidFills);
  }

  /** After both fees, what selling for `sell` leaves over buying for `buy` is at least `minBps` basis
      points of what was bought. */
  ghost predicate KeepsSpread(minBps: real, buyFeeBps: real, sellFeeBps: real, buy: real, sell: real) {
    sell * (10000.0 - sellFeeBps) - buy * (10000.0 + buyFeeBps) >= minBps * buy
  }

  ghost predicate KeepsMinSpread(s: Settings, buyExchange: Exchange, sellExchange: Exchange, buy: real, sell: real) {
    KeepsSpread(s.minNetSpreadBps,
                if buyExchange == Binance then s.binanceTakerFeeBps else s.mexcTakerFeeBps,
                if sellExchange == Binance then s.binanceTakerFeeBps else s.mexcTakerFeeBps, buy, sell)
  }

  lemma NetSpreadMeaning(o: Opportunity, s: Settings)
    requires Figures(o, s) && o.buyNotional > 0.0
    ensures o.netSpreadBps >= s.minNetSpreadBps <==>
            KeepsMinSpread(s, o.buyExchange, o.sellExchange, o.buyNotional, o.sellNotional)
  {
  }

  /** Totals that pass the filters: more than dust, at least the minimum notional, and enough spread. */
  ghost predicate Passes(s: Settings, buyExchange: Exchange, sellExchange: Exchange, base: real, buy: real, sell: real)
  {
    && base > EPSILON && buy > EPSILON && buy >= s.minNotional
    && KeepsMinSpread(s, buyExchange, sellExchange, buy, sell)
  }

  /** An opportunity of these totals, with every other figure as the equations have it. */
  ghost predicate Describes(o: Opportunity, s: Settings, symbol: string, buyExchange: Exchange, sellExchange: Exchange,
                            base: real, buy: real, sell: real)
  {
    && o.symbol == symbol && o.buyExchange == buyExchange && o.sellExchange == sellExchange
    && o.baseQuantity == base && o.buyNotional == buy && o.sellNotional == sell
    && Figures(o, s)
  }

  lemma ReportMeaning(s: Settings, symbol: string, buyExchange: Exchange, sellExchange: Exchange,
                      base: real, buy: real, sell: real)
    ensures var r := Report(s, symbol, buyExchange, sellExchange, base, buy, sell);
            && (r.Some? <==> Passes(s, buyExchange, sellExchange, base, buy, sell))
            && (r.Some? ==> Describes(r.value, s, symbol, buyExchange, sellExchange, base, buy, sell))
  {
    if base > EPSILON && buy > EPSILON {
      PricedFigures(s, symbol, buyExchange, sellExchange, base, buy, sell);
      NetSpreadMeaning(Priced(s, symbol, buyExchange, sellExchange, base, buy, sell), s);
    }
  }

  /** Nothing that passes the filters goes unreported: there is an opportunity exactly when the walk
      traded, reached the minimum notional and keeps the minimum spread after fees. */
  lemma ReportedExactlyWhen(s: Settings, symbol: string, buyExchange: Exchange, sellExchange: Exchange,
                            asks: Ladder, bids: Ladder)
    requires asks != [] && bids != []
    ensures var w := Final(asks, bids, s.maxNotional);
            Evaluate(s, symbol, buyExchange, sellExchange, asks, bids).Some? <==>
            Passes(s, buyExchange, sellExchange, w.base, w.buy, w.sell)
  {
    var w := Final(asks, bids, s.maxNotional);
    ReportMeaning(s, symbol, buyExchange, sellExchange, w.base, w.buy, w.sell);
  }

  /** On lot-sized books no other plan within the same levels and cap earns more than the reported
      gross profit, but for the negligible unspent cap. */
  lemma NothingBeatsTheOpportunity(s: Settings, symbol: string, buyExchange: Exchange, sellExchange: Exchange,
                                   asks: Ladder, bids: Ladder, lot: real, x: seq<real>, y: seq<real>)
    requires WellFormed(Ask, asks) && WellFormed(Bid, bids) && InLots(lot, asks) && InLots(lot, bids)
    requires Evaluate(s, symbol, buyExchange, sellExchange, asks, bids).Some?
    requires Feasible(asks, bids, s.maxNotional, x, y)
    ensures var o := Evaluate(s, symbol, buyExchange, sellExchange, asks, bids).value;
            var w := Final(asks, bids, s.maxNotional);
            && Profit(asks, bids, x, y) <= o.grossProfit + CapSlack(asks, bids, w)
            && NegligibleSlack(asks, bids, w)
  {
    TradeNeedsPositiveAsk(asks, bids, s.maxNotional);
    GreedyOptimal(asks, bids, s.maxNotional, lot, x, y);
  }

  lemma Averages(o: Opportunity, s: Settings, a0: real, la: real, lb: real, b0: real)
    requires Figures(o, s) && o.baseQuantity > 0.0 && la < lb
    requires AverageWithin(a0, la, o.baseQuantity, o.buyNotional)
    requires AverageWithin(lb, b0, o.baseQuantity, o.sellNotional)
    ensures a0 <= o.buyVwap < o.sellVwap <= b0 && o.grossProfit > 0.0
  {
    AverageBetween(o.buyVwap, o.baseQuantity, o.buyNotional, a0, la);
    AverageBetween(o.sellVwap, o.baseQuantity, o.sellNotional, lb, b0);
    SellsForMore(o.buyVwap, o.sellVwap, o.baseQuantity, o.buyNotional, o.sellNotional);
  }

  lemma SellsForMore(buyVwap: real, sellVwap: real, base: real, buy: real, sell: real)
    requires base > 0.0 && buyVwap < sellVwap && IsVwap(buyVwap, base, buy) && IsVwap(sellVwap, base, sell)
    ensures buy < sell
  {
  }

  lemma AverageBetween(average: real, quantity: real, value: real, low: real, high: real)
    requires quantity > 0.0 && IsVwap(average, quantity, value) && AverageWithin(low, high, quantity, value)
    ensures low <= average <= high
  {
  }

  lemma LeftFactor(p: real, q: real, r: real)
    requires r > 0.0 && p * r <= q * r
    ensures p <= q
  {
  }

  // ----- top of book -----

  datatype Config = Config(
    symbols: seq<string>, minNetSpreadBps: int, minNotional: real, maxNotional: real,
    binanceTakerBps: real, mexcTakerBps: real, bookSnapshotLimit: nat)

  function MakeSettings(c: Config): Settings {
    Settings(c.minNetSpreadBps as real, c.minNotional, c.maxNotional, c.binanceTakerBps, c.mexcTakerBps, 50)
  }

  datatype TopOfBookSpread = TopOfBookSpread(
    symbol: string,
    binanceBid: PriceLevel, binanceAsk: PriceLevel, mexcBid: PriceLevel, mexcAsk: PriceLevel,
    buyExchange: Exchange, sellExchange: Exchange,
    grossSpreadBps: real, totalFeeBps: real, netSpreadBps: real)

  function GrossBps(ask: real, bid: real): real
    requires ask > 0.0
  {
    InBps(bid - ask, ask)
  }

  function ComputeTopOfBookSpread(symbol: string, binance: BookState, mexc: BookState, c: Config)
      : Option<TopOfBookSpread>
  {
    if binance.bids == [] || binance.asks == [] || mexc.bids == [] || mexc.asks == [] then None
    else if binance.asks[0].price <= 0.0 || mexc.asks[0].price <= 0.0 then None
    else
      var fee := c.binanceTakerBps + c.mexcTakerBps;
      var buyBinance := GrossBps(binance.asks[0].price, mexc.bids[0].price);
      var buyMexc := GrossBps(mexc.asks[0].price, binance.bids[0].price);
      var spread := TopOfBookSpread(symbol, binance.bids[0], binance.asks[0], mexc.bids[0], mexc.asks[0],
                                    Binance, Mexc, buyBinance, fee, buyBinance - fee);
      Some(if buyMexc - fee > spread.netSpreadBps
           then spread.(buyExchange := Mexc, sellExchange := Binance,
                        grossSpreadBps := buyMexc, netSpreadBps := buyMexc - fee)
           else spread)
  }

  /** The spread quotes the four best levels, and its direction is the better of the two: its gross
      spread is that of its own ask and bid, and neither direction's net spread is greater. */
  lemma TopSpreadMeaning(symbol: string, binance: BookState, mexc: BookState, c: Config)
    ensures var r := ComputeTopOfBookSpread(symbol, binance, mexc, c);
            && (r.Some? <==> Best(binance.bids).Some? && Best(mexc.bids).Some? &&
                             Best(binance.asks).Some? && Best(binance.asks).value.price > 0.0 &&
                             Best(mexc.asks).Some? && Best(mexc.asks).value.price > 0.0)
            && (r.Some? ==>
                  var t := r.value;
                  var bid := if t.buyExchange == Binance then t.mexcBid else t.binanceBid;
                  var ask := if t.buyExchange == Binance then t.binanceAsk else t.mexcAsk;
                  && t.symbol == symbol && t.sellExchange != t.buyExchange
                  && Best(binance.bids) == Some(t.binanceBid) && Best(binance.asks) == Some(t.binanceAsk)
                  && Best(mexc.bids) == Some(t.mexcBid) && Best(mexc.asks) == Some(t.mexcAsk)
                  && IsInBps(t.grossSpreadBps, ask.price, bid.price - ask.price)
                  && t.netSpreadBps == t.grossSpreadBps - (c.binanceTakerBps + c.mexcTakerBps)
                  && t.totalFeeBps == c.binanceTakerBps + c.mexcTakerBps
                  && t.grossSpreadBps >= GrossBps(t.binanceAsk.price, t.mexcBid.price)
                  && t.grossSpreadBps >= GrossBps(t.mexcAsk.price, t.binanceBid.price))
  {
  }

  lemma SpreadBound(ask: real, bid: real, base: real, buy: real, sell: real, grossBps: real, high: real, low: real)
    requires 0.0 < ask <= bid && base > 0.0 && buy > 0.0
    requires AverageWithin(ask, high, base, buy) && AverageWithin(low, bid, base, sell)
    requires IsInBps(grossBps, buy, sell - buy)
    ensures grossBps <= GrossBps(ask, bid)
  {
  }

  lemma FeeBound(buy: real, sell: real, buyFee: real, sellFee: real, totalFeeBps: real, fees: real)
    requires 0.0 < buy <= sell && sellFee >= 0.0
    requires AreFees(fees, buy, sell, buyFee, sellFee) && IsInBps(totalFeeBps, buy, fees)
    ensures totalFeeBps >= buyFee + sellFee
  {
    assert (sell - buy) * sellFee >= 0.0;
    assert (buyFee + sellFee) * buy <= totalFeeBps * buy;
    LeftFactor(buyFee + sellFee, totalFeeBps, buy);
  }

  lemma BelowTop(o: Opportunity, s: Settings, a0: real, la: real, lb: real, b0: real)
    requires Figures(o, s) && o.baseQuantity > 0.0 && o.buyNotional > 0.0 && 0.0 < a0 && la < lb
    requires AverageWithin(a0, la, o.baseQuantity, o.buyNotional)
    requires AverageWithin(lb, b0, o.baseQuantity, o.sellNotional)
    requires s.TakerFeeBps(o.sellExchange) >= 0.0
    ensures a0 < b0
    ensures o.grossSpreadBps <= GrossBps(a0, b0)
    ensures o.netSpreadBps <= GrossBps(a0, b0) - (s.TakerFeeBps(o.buyExchange) + s.TakerFeeBps(o.sellExchange))
  {
    Averages(o, s, a0, la, lb, b0);
    SpreadBound(a0, b0, o.baseQuantity, o.buyNotional, o.sellNotional, o.grossSpreadBps, la, lb);
    FeeBound(o.buyNotional, o.sellNotional, s.TakerFeeBps(o.buyExchange), s.TakerFeeBps(o.sellExchange),
             o.totalFeeBps, o.fees);
  }

  /** An opportunity is never better than the best pair of its own direction, gross or net. */
  lemma DirectionBelowTop(s: Settings, symbol: string, buyExchange: Exchange, sellExchange: Exchange,
                          buyBook: BookState, sellBook: BookState)
    requires buyBook.Valid() && sellBook.Valid() && s.TakerFeeBps(sellExchange) >= 0.0
    requires Direction(s, symbol, buyExchange, sellExchange, buyBook, sellBook).Some?
    ensures buyBook.asks != [] && sellBook.bids != [] && 0.0 < buyBook.asks[0].price < sellBook.bids[0].price
    ensures var o := Direction(s, symbol, buyExchange, sellExchange, buyBook, sellBook).value;
            var top := GrossBps(buyBook.asks[0].price, sellBook.bids[0].price);
            && o.grossSpreadBps <= top
            && o.netSpreadBps <= top - (s.TakerFeeBps(buyExchange) + s.TakerFeeBps(sellExchange))
  {
    var asks, bids := Top(buyBook.asks, s.maxDepthLevels), Top(sellBook.bids, s.maxDepthLevels);
    var o := Direction(s, symbol, buyExchange, sellExchange, buyBook, sellBook).value;
    var w := Final(asks, bids, s.maxNotional);
    TradeNeedsPositiveAsk(asks, bids, s.maxNotional);
    FinalInv(asks, bids, s.maxNotional);
    WalkAverages(asks, bids, s.maxNotional, w);
    PricedFigures(s, symbol, buyExchange, sellExchange, w.base, w.buy, w.sell);
    BelowTop(o, s, asks[0].price, w.lastAsk, w.lastBid, bids[0].price);
  }

  // ----- both directions -----

  lemma ScanMembers(s: Settings, symbol: string, binance: BookState, mexc: BookState, o: Opportunity)
    requires o in Scan(s, symbol, binance, mexc)
    ensures binance.initialized && mexc.initialized
    ensures Direction(s, symbol, Binance, Mexc, binance, mexc) == Some(o) ||
            Direction(s, symbol, Mexc, Binance, mexc, binance) == Some(o)
  {
    SortKeepsElements(Listed(Direction(s, symbol, Binance, Mexc, binance, mexc)) +
                      Listed(Direction(s, symbol, Mexc, Binance, mexc, binance)), NetSpread());
  }

  /** The scan's result lists exactly the opportunities of the two directions, best net spread first. */
  lemma ScanOrdered(s: Settings, symbol: string, binance: BookState, mexc: BookState)
    ensures Descending(Scan(s, symbol, binance, mexc), NetSpread())
    ensures binance.initialized && mexc.initialized ==>
              multiset(Scan(s, symbol, binance, mexc)) ==
              multiset(Listed(Direction(s, symbol, Binance, Mexc, binance, mexc))) +
              multiset(Listed(Direction(s, symbol, Mexc, Binance, mexc, binance)))
  {
    SortSorts(Listed(Direction(s, symbol, Binance, Mexc, binance, mexc)) +
              Listed(Direction(s, symbol, Mexc, Binance, mexc, binance)), NetSpread());
  }

  /** Top of book dominates depth: what the scan reports never exceeds the top-of-book spread of the
      same two books, so a top net spread below the threshold rules opportunities out. */
  lemma TopDominatesDepth(c: Config, symbol: string, binance: BookState, mexc: BookState)
    requires binance.Valid() && mexc.Valid() && c.binanceTakerBps >= 0.0 && c.mexcTakerBps >= 0.0
    requires ComputeTopOfBookSpread(symbol, binance, mexc, c).Some?
    ensures var top := ComputeTopOfBookSpread(symbol, binance, mexc, c).value;
            var found := Scan(MakeSettings(c), symbol, binance, mexc);
            && (forall o :: o in found ==> o.netSpreadBps <= top.netSpreadBps)
            && (forall o :: o in found && o.buyExchange == top.buyExchange ==> o.grossSpreadBps <= top.grossSpreadBps)
            && (top.netSpreadBps < c.minNetSpreadBps as real ==> found == [])
  {
    var s := MakeSettings(c);
    var top := ComputeTopOfBookSpread(symbol, binance, mexc, c).value;
    var found := Scan(s, symbol, binance, mexc);
    forall o | o in found
      ensures o.netSpreadBps <= top.netSpreadBps && o.netSpreadBps >= c.minNetSpreadBps as real
      ensures o.buyExchange == top.buyExchange ==> o.grossSpreadBps <= top.grossSpreadBps
    {
      ScanMembers(s, symbol, binance, mexc, o);
      if Direction(s, symbol, Binance, Mexc, binance, mexc) == Some(o) {
        DirectionBelowTop(s, symbol, Binance, Mexc, binance, mexc);
      } else {
        DirectionBelowTop(s, symbol, Mexc, Binance, mexc, binance);
      }
    }
    assert found != [] ==> found[0] in found;
  }

  ghost predicate UncrossedBook(b: BookState) {
    b.bids != [] && b.asks != [] ==> b.bids[0].price <= b.asks[0].price
  }

  lemma DirectionNeedsSpread(s: Settings, symbol: string, buyExchange: Exchange, sellExchange: Exchange,
                             buyBook: BookState, sellBook: BookState)
    requires buyBook.Valid() && sellBook.Valid()
    requires Direction(s, symbol, buyExchange, sellExchange, buyBook, sellBook).Some?
    ensures buyBook.asks != [] && sellBook.bids != [] && 0.0 < buyBook.asks[0].price < sellBook.bids[0].price
  {
  }

  /** Two books that are not themselves crossed never offer both directions. */
  lemma AtMostOneDirection(s: Settings, symbol: string, binance: BookState, mexc: BookState)
    requires binance.Valid() && mexc.Valid() && UncrossedBook(binance) && UncrossedBook(mexc)
    ensures |Scan(s, symbol, binance, mexc)| <= 1
  {
    var forth := Direction(s, symbol, Binance, Mexc, binance, mexc);
    var back := Direction(s, symbol, Mexc, Binance, mexc, binance);
    SortKeepsElements(Listed(forth) + Listed(back), NetSpread());
    if forth.Some? {
      DirectionNeedsSpread(s, symbol, Binance, Mexc, binance, mexc);
    }
    if back.Some? {
      DirectionNeedsSpread(s, symbol, Mexc, Binance, mexc, binance);
    }
  }

  // ----- the class -----

  class ArbitrageEngine {
    const settings: Settings

    constructor (settings: Settings)
      ensures this.settings == settings
    {
      this.settings := settings;
    }

    /** The loop of the walk. */
    method WalkDepth(asks: seq<PriceLevel>, bids: seq<PriceLevel>)
        returns (base: real, buyNotional: real, sellNotional: real)
      requires asks != [] && bids != []
      ensures var w := Final(asks, bids, settings.maxNotional);
              base == w.base && buyNotional == w.buy && sellNotional == w.sell
    {
      var askIndex: nat, bidIndex: nat := 0, 0;
      var askRemaining, bidRemaining := asks[0].quantity, bids[0].quantity;
      var remainingCap := settings.maxNotional;
      base, buyNotional, sellNotional := 0.0, 0.0, 0.0;
      ghost var w := Start(asks, bids, settings.maxNotional);

      while askIndex < |asks| && bidIndex < |bids| && remainingCap > EPSILON
        invariant Shaped(asks, bids, w)
        invariant w.ask == askIndex && w.bid == bidIndex && w.askLeft == askRemaining && w.bidLeft == bidRemaining
        invariant w.cap == remainingCap && w.base == base && w.buy == buyNotional && w.sell == sellNotional
        invariant Run(asks, bids, w) == Final(asks, bids, settings.maxNotional)
        decreases Remaining(asks, bids, w)
      {
        var askPrice, bidPrice := asks[askIndex].price, bids[bidIndex].price;
        if askPrice <= 0.0 || bidPrice <= 0.0 {
          break;
        }
        if bidPrice <= askPrice {
          break;
        }
        var quantityByCap := remainingCap / askPrice;
        var executable := Min(Min(askRemaining, bidRemaining), quantityByCap);
        if executable <= EPSILON {
          break;
        }
        RunMatched(asks, bids, w, executable);
        w := Matched(asks, bids, w, executable);

        base := base + executable;
        buyNotional := buyNotional + Notional(executable, askPrice);
        sellNotional := sellNotional + Notional(executable, bidPrice);
        remainingCap := remainingCap - Notional(executable, askPrice);
        askRemaining := askRemaining - executable;
        bidRemaining := bidRemaining - executable;
        if askRemaining <= EPSILON {
          askIndex := askIndex + 1;
          if askIndex < |asks| {
            askRemaining := asks[askIndex].quantity;
          }
        }
        if bidRemaining <= EPSILON {
          bidIndex := bidIndex + 1;
          if bidIndex < |bids| {
            bidRemaining := bids[bidIndex].quantity;
          }
        }
      }
      assert !Running(asks, bids, w);
    }

    method EvaluateDirection(symbol: string, buyExchange: Exchange, sellExchange: Exchange,
                             buyBook: OrderBook, sellBook: OrderBook) returns (r: Option<Opportunity>)
      ensures r == Direction(settings, symbol, buyExchange, sellExchange, buyBook.State(), sellBook.State())
    {
      var asks := buyBook.TopAsks(settings.maxDepthLevels);
      var bids := sellBook.TopBids(settings.maxDepthLevels);
      if asks == [] || bids == [] {
        return None;
      }
      var base, buyNotional, sellNotional := WalkDepth(asks, bids);
      r := Assess(symbol, buyExchange, sellExchange, base, buyNotional, sellNotional);
    }

    /** Fees, spreads and filters. */
    method Assess(symbol: string, buyExchange: Exchange, sellExchange: Exchange,
                  base: real, buyNotional: real, sellNotional: real) returns (r: Option<Opportunity>)
      ensures r == Report(settings, symbol, buyExchange, sellExchange, base, buyNotional, sellNotional)
      ensures r.Some? <==> Passes(settings, buyExchange, sellExchange, base, buyNotional, sellNotional)
      ensures r.Some? ==>
                Describes(r.value, settings, symbol, buyExchange, sellExchange, base, buyNotional, sellNotional)
    {
      ReportMeaning(settings, symbol, buyExchange, sellExchange, base, buyNotional, sellNotional);
      if base <= EPSILON || buyNotional <= EPSILON {
        return None;
      }
      if buyNotional < settings.minNotional {
        return None;
      }
      var buyFee := Fee(buyNotional, settings.TakerFeeBps(buyExchange));
      var sellFee := Fee(sellNotional, settings.TakerFeeBps(sellExchange));
      var grossProfit := sellNotional - buyNotional;
      var fees := buyFee + sellFee;
      var netProfit := grossProfit - fees;
      var buyVwap, sellVwap := Vwap(buyNotional, base), Vwap(sellNotional, base);
      var grossSpreadBps := InBps(grossProfit, buyNotional);
      var totalFeeBps := InBps(fees, buyNotional);
      var netSpreadBps := InBps(netProfit, buyNotional);
      if netSpreadBps < settings.minNetSpreadBps {
        return None;
      }
      return Some(Opportunity(
        symbol, buyExchange, sellExchange, base, buyNotional, sellNotional, buyVwap, sellVwap,
        grossProfit, fees, netProfit, grossSpreadBps, totalFeeBps, netSpreadBps));
    }

    method ScanSymbol(symbol: string, binanceBook: OrderBook, mexcBook: OrderBook)
        returns (opportunities: seq<Opportunity>)
      ensures opportunities == Scan(settings, symbol, binanceBook.State(), mexcBook.State())
    {
      opportunities := [];
      if !binanceBook.initialized || !mexcBook.initialized {
        return;
      }
      var opportunity := EvaluateDirection(symbol, Binance, Mexc, binanceBook, mexcBook);
      if opportunity.Some? {
        opportunities := opportunities + [opportunity.value];
      }
      ghost var forth := opportunities;
      opportunity := EvaluateDirection(symbol, Mexc, Binance, mexcBook, binanceBook);
      if opportunity.Some? {
        opportunities := opportunities + [opportunity.value];
      }
      assert opportunities == forth + Listed(opportunity);
      opportunities := Sort(opportunities, NetSpread());
    }
  }
}
