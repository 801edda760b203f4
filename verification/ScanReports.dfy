/** What a scan reports, said of the two books and the configuration alone.

    A direction walks the first 50 levels of the buying exchange's asks and of the selling exchange's
    bids. `Reports` says which opportunity that is, if any, by the totals of the walk and the equations
    of its figures. The scan of a symbol, the scan of a whole store and the list of top-of-book spreads
    are characterised by what they contain, how often, and in which order.
  */
module ScanReports {
  import opened Ladders
  import opened OrderBooks
  import opened Walks
  import opened Optimality
  import opened Sorting
  import opened Engines
  import opened LiveProtocol
  import opened LiveScans

  // ----- one direction -----

  /** The first `limit` levels of a side. */
  ghost predicate AreFirst(a: Ladder, l: Ladder, limit: nat) {
    a <= l && |a| == if limit < |l| then limit else |l|
  }

  /** A direction between two books reports an opportunity exactly when the walk through the first
      levels of both sides trades and passes the filters, and then it is that walk's. */
  lemma DirectionMeaning(s: Settings, symbol: string, buyExchange: Exchange, sellExchange: Exchange,
                         buyBook: BookState, sellBook: BookState, a: Ladder, b: Ladder)
    requires AreFirst(a, buyBook.asks, s.maxDepthLevels) && AreFirst(b, sellBook.bids, s.maxDepthLevels)
    ensures var r := Direction(s, symbol, buyExchange, sellExchange, buyBook, sellBook);
            if a == [] || b == [] then r == None
            else
              var w := Final(a, b, s.maxNotional);
              && (r.Some? <==> Passes(s, buyExchange, sellExchange, w.base, w.buy, w.sell))
              && (r.Some? ==> Describes(r.value, s, symbol, buyExchange, sellExchange, w.base, w.buy, w.sell))
  {
    assert a == Top(buyBook.asks, s.maxDepthLevels) && b == Top(sellBook.bids, s.maxDepthLevels);
    if a != [] && b != [] {
      var w := Final(a, b, s.maxNotional);
      ReportMeaning(s, symbol, buyExchange, sellExchange, w.base, w.buy, w.sell);
    }
  }

  lemma FirstInLots(lot: real, a: Ladder, l: Ladder, limit: nat)
    requires InLots(lot, l) && AreFirst(a, l, limit)
    ensures InLots(lot, a)
  {
    forall k | 0 <= k < |a| ensures Multiple(lot, a[k].quantity) {
      assert a[k] == l[k] && Multiple(lot, l[k].quantity);
    }
  }

  /** On lots no plan on those levels earns more than the direction reports, but for the negligible
      unspent cap. */
  lemma NothingBeatsTheDirection(s: Settings, symbol: string, buyExchange: Exchange, sellExchange: Exchange,
                                 buyBook: BookState, sellBook: BookState, a: Ladder, b: Ladder,
                                 lot: real, x: seq<real>, y: seq<real>)
    requires buyBook.Valid() && sellBook.Valid() && InLots(lot, buyBook.asks) && InLots(lot, sellBook.bids)
    requires AreFirst(a, buyBook.asks, s.maxDepthLevels) && AreFirst(b, sellBook.bids, s.maxDepthLevels)
    requires Direction(s, symbol, buyExchange, sellExchange, buyBook, sellBook).Some?
    requires Feasible(a, b, s.maxNotional, x, y)
    ensures a != [] && b != []
    ensures var o := Direction(s, symbol, buyExchange, sellExchange, buyBook, sellBook).value;
            var w := Final(a, b, s.maxNotional);
            Profit(a, b, x, y) <= o.grossProfit + CapSlack(a, b, w) && NegligibleSlack(a, b, w)
  {
    assert a == Top(buyBook.asks, s.maxDepthLevels) && b == Top(sellBook.bids, s.maxDepthLevels);
    FirstInLots(lot, a, buyBook.asks, s.maxDepthLevels);
    FirstInLots(lot, b, sellBook.bids, s.maxDepthLevels);
    NothingBeatsTheOpportunity(s, symbol, buyExchange, sellExchange, a, b, lot, x, y);
  }

  // ----- one direction, by the configuration -----

  ghost function TakerBps(c: Config, exchange: Exchange): real {
    if exchange == Binance then c.binanceTakerBps else c.mexcTakerBps
  }

  /** `o` is what buying from `asks` and selling to `bids` comes to: the walk through the first 50 levels
      of each within the cap, with the taker fee of its own exchange charged on each leg, and it passes
      the configured minimum notional and spread. */
  ghost predicate Reports(c: Config, symbol: string, buyExchange: Exchange, sellExchange: Exchange,
                          asks: Ladder, bids: Ladder, o: Opportunity)
  {
    && asks != [] && bids != []
    && var a, b := asks[..if 50 < |asks| then 50 else |asks|], bids[..if 50 < |bids| then 50 else |bids|];
    && var w := Final(a, b, c.maxNotional);
    && o.symbol == symbol && o.buyExchange == buyExchange && o.sellExchange == sellExchange
    && o.baseQuantity == w.base && o.buyNotional == w.buy && o.sellNotional == w.sell
    && FiguresFor(o, TakerBps(c, buyExchange), TakerBps(c, sellExchange))
    && w.base > EPSILON && w.buy > EPSILON && w.buy >= c.minNotional
    && o.netSpreadBps >= c.minNetSpreadBps as real
  }

  lemma SameFactor(p: real, q: real, r: real)
    requires r != 0.0 && p * r == q * r
    ensures p == q
  {
  }

  /** The totals and the fees determine every other figure. */
  lemma FiguresDetermine(o: Opportunity, o': Opportunity, buyFeeBps: real, sellFeeBps: real)
    requires FiguresFor(o, buyFeeBps, sellFeeBps) && FiguresFor(o', buyFeeBps, sellFeeBps)
    requires o.symbol == o'.symbol && o.buyExchange == o'.buyExchange && o.sellExchange == o'.sellExchange
    requires o.baseQuantity == o'.baseQuantity && o.baseQuantity > 0.0
    requires o.buyNotional == o'.buyNotional && o.sellNotional == o'.sellNotional && o.buyNotional > 0.0
    ensures o == o'
  {
    SameFactor(o.buyVwap, o'.buyVwap, o.baseQuantity);
    SameFactor(o.sellVwap, o'.sellVwap, o.baseQuantity);
    SameFactor(o.grossSpreadBps, o'.grossSpreadBps, o.buyNotional);
    SameFactor(o.totalFeeBps, o'.totalFeeBps, o.buyNotional);
  }

  /** A direction of a scan reports exactly that. */
  lemma DirectionReports(c: Config, symbol: string, buyExchange: Exchange, sellExchange: Exchange,
                         buyBook: BookState, sellBook: BookState, o: Opportunity)
    ensures Direction(MakeSettings(c), symbol, buyExchange, sellExchange, buyBook, sellBook) == Some(o) <==>
            Reports(c, symbol, buyExchange, sellExchange, buyBook.asks, sellBook.bids, o)
  {
    var s := MakeSettings(c);
    var r := Direction(s, symbol, buyExchange, sellExchange, buyBook, sellBook);
    var asks, bids := buyBook.asks, sellBook.bids;
    var a, b := asks[..if 50 < |asks| then 50 else |asks|], bids[..if 50 < |bids| then 50 else |bids|];
    assert AreFirst(a, asks, 50) && AreFirst(b, bids, 50);
    DirectionMeaning(s, symbol, buyExchange, sellExchange, buyBook, sellBook, a, b);
    if r.Some? {
      NetSpreadMeaning(r.value, s);
    }
    if Reports(c, symbol, buyExchange, sellExchange, asks, bids, o) {
      NetSpreadMeaning(o, s);
      FiguresDetermine(o, r.value, TakerBps(c, buyExchange), TakerBps(c, sellExchange));
    }
  }

  /** And there is something to report exactly when the walk trades, reaches the minimum notional, and
      keeps the minimum spread after the buying exchange's fee on what is spent and the selling
      exchange's on what is earned. */
  lemma DirectionReportsWhen(c: Config, symbol: string, buyExchange: Exchange, sellExchange: Exchange,
                             buyBook: BookState, sellBook: BookState, a: Ladder, b: Ladder)
    requires AreFirst(a, buyBook.asks, 50) && AreFirst(b, sellBook.bids, 50) && a != [] && b != []
    ensures var w := Final(a, b, c.maxNotional);
            (exists o :: Reports(c, symbol, buyExchange, sellExchange, buyBook.asks, sellBook.bids, o)) <==>
              && w.base > EPSILON && w.buy > EPSILON && w.buy >= c.minNotional
              && KeepsSpread(c.minNetSpreadBps as real, TakerBps(c, buyExchange), TakerBps(c, sellExchange),
                             w.buy, w.sell)
  {
    var r := Direction(MakeSettings(c), symbol, buyExchange, sellExchange, buyBook, sellBook);
    DirectionMeaning(MakeSettings(c), symbol, buyExchange, sellExchange, buyBook, sellBook, a, b);
    if r.Some? {
      DirectionReports(c, symbol, buyExchange, sellExchange, buyBook, sellBook, r.value);
    }
    if o :| Reports(c, symbol, buyExchange, sellExchange, buyBook.asks, sellBook.bids, o) {
      DirectionReports(c, symbol, buyExchange, sellExchange, buyBook, sellBook, o);
    }
  }

  // ----- one symbol -----

  /** One of the two directions between two books reports `o`. */
  ghost predicate Offers(c: Config, symbol: string, binance: BookState, mexc: BookState, o: Opportunity) {
    && binance.initialized && mexc.initialized
    && (Reports(c, symbol, Binance, Mexc, binance.asks, mexc.bids, o) ||
        Reports(c, symbol, Mexc, Binance, mexc.asks, binance.bids, o))
  }

  /** The scan of a symbol holds each opportunity that is offered, once, the best net spread first. */
  lemma ScanMeaning(c: Config, symbol: string, binance: BookState, mexc: BookState)
    ensures var r := Scan(MakeSettings(c), symbol, binance, mexc);
            && (forall i, j :: 0 <= i < j < |r| ==> r[i].netSpreadBps >= r[j].netSpreadBps)
            && (forall o :: multiset(r)[o] == if Offers(c, symbol, binance, mexc, o) then 1 else 0)
  {
    var s := MakeSettings(c);
    var r := Scan(s, symbol, binance, mexc);
    ScanOrdered(s, symbol, binance, mexc);
    forall o ensures multiset(r)[o] == if Offers(c, symbol, binance, mexc, o) then 1 else 0 {
      DirectionReports(c, symbol, Binance, Mexc, binance, mexc, o);
      DirectionReports(c, symbol, Mexc, Binance, mexc, binance, o);
    }
  }

  /** On lots no plan on the levels that a direction looks at earns more than the scan reports for it,
      but for the negligible unspent cap. */
  lemma NothingBeatsTheScan(c: Config, symbol: string, binance: BookState, mexc: BookState, o: Opportunity,
                            a: Ladder, b: Ladder, lot: real, x: seq<real>, y: seq<real>)
    requires binance.Valid() && mexc.Valid() && o in Scan(MakeSettings(c), symbol, binance, mexc)
    requires var asks := if o.buyExchange == Binance then binance.asks else mexc.asks;
             var bids := if o.buyExchange == Binance then mexc.bids else binance.bids;
             && AreFirst(a, asks, 50) && AreFirst(b, bids, 50)
             && InLots(lot, asks) && InLots(lot, bids) && Feasible(a, b, c.maxNotional, x, y)
    ensures a != [] && b != []
    ensures var w := Final(a, b, c.maxNotional);
            Profit(a, b, x, y) <= o.grossProfit + CapSlack(a, b, w) && NegligibleSlack(a, b, w)
  {
    var s := MakeSettings(c);
    ScanMembers(s, symbol, binance, mexc, o);
    if Direction(s, symbol, Binance, Mexc, binance, mexc) == Some(o) {
      DirectionReports(c, symbol, Binance, Mexc, binance, mexc, o);
      NothingBeatsTheDirection(s, symbol, Binance, Mexc, binance, mexc, a, b, lot, x, y);
    } else {
      DirectionReports(c, symbol, Mexc, Binance, mexc, binance, o);
      NothingBeatsTheDirection(s, symbol, Mexc, Binance, mexc, binance, a, b, lot, x, y);
    }
  }

  // ----- the top-of-book spread of one symbol -----

  /** A fraction `p / a` is greater than `q / b`. */
  ghost predicate GreaterRatio(p: real, a: real, q: real, b: real) {
    p * b > q * a
  }

  /** `t` quotes the four best levels, and the direction whose spread is the greater fraction of its ask;
      buying on Binance if neither is. Its figures are in basis points of that ask, less both fees. */
  ghost predicate Quotes(c: Config, symbol: string, binance: BookState, mexc: BookState, t: TopOfBookSpread) {
    && binance.bids != [] && binance.asks != [] && mexc.bids != [] && mexc.asks != []
    && t.symbol == symbol
    && t.binanceBid == binance.bids[0] && t.binanceAsk == binance.asks[0]
    && t.mexcBid == mexc.bids[0] && t.mexcAsk == mexc.asks[0]
    && t.binanceAsk.price > 0.0 && t.mexcAsk.price > 0.0
    && var buyBinance, buyMexc := t.mexcBid.price - t.binanceAsk.price, t.binanceBid.price - t.mexcAsk.price;
    && (if GreaterRatio(buyMexc, t.mexcAsk.price, buyBinance, t.binanceAsk.price)
        then t.buyExchange == Mexc && t.sellExchange == Binance &&
             IsInBps(t.grossSpreadBps, t.mexcAsk.price, buyMexc)
        else t.buyExchange == Binance && t.sellExchange == Mexc &&
             IsInBps(t.grossSpreadBps, t.binanceAsk.price, buyBinance))
    && t.totalFeeBps == c.binanceTakerBps + c.mexcTakerBps
    && t.netSpreadBps == t.grossSpreadBps - t.totalFeeBps
  }

  lemma RatioOrder(p: real, a: real, q: real, b: real)
    requires a > 0.0 && b > 0.0
    ensures InBps(p, a) > InBps(q, b) <==> GreaterRatio(p, a, q, b)
  {
    var u, v := p / a, q / b;
    assert u * a == p && v * b == q;
    assert p * b - q * a == (u - v) * (a * b);
    assert a * b > 0.0;
    if u > v {
      assert (u - v) * (a * b) > 0.0;
    } else {
      assert (v - u) * (a * b) >= 0.0;
    }
  }

  lemma BpsDetermine(bps: real, notional: real, amount: real)
    requires notional > 0.0
    ensures IsInBps(bps, notional, amount) <==> bps == InBps(amount, notional)
  {
    var u := amount / notional;
    assert u * notional == amount;
    assert InBps(amount, notional) * notional == amount * 10000.0;
    if IsInBps(bps, notional, amount) {
      SameFactor(bps, InBps(amount, notional), notional);
    }
  }

  lemma TopSpreadQuotes(c: Config, symbol: string, binance: BookState, mexc: BookState, t: TopOfBookSpread)
    ensures ComputeTopOfBookSpread(symbol, binance, mexc, c) == Some(t) <==> Quotes(c, symbol, binance, mexc, t)
  {
    if binance.bids != [] && binance.asks != [] && mexc.bids != [] && mexc.asks != [] {
      var a, b := binance.asks[0].price, mexc.asks[0].price;
      if a > 0.0 && b > 0.0 {
        var p, q := mexc.bids[0].price - a, binance.bids[0].price - b;
        RatioOrder(q, b, p, a);
        BpsDetermine(t.grossSpreadBps, a, p);
        BpsDetermine(t.grossSpreadBps, b, q);
      }
    }
  }

  // ----- a whole store -----

  /** Both books of a symbol are stored and initialised. */
  ghost predicate Paired(store: map<Key, BookState>, symbol: string) {
    && Key(Binance, symbol) in store && store[Key(Binance, symbol)].initialized
    && Key(Mexc, symbol) in store && store[Key(Mexc, symbol)].initialized
  }

  ghost predicate OffersIn(c: Config, store: map<Key, BookState>, symbol: string, o: Opportunity) {
    Paired(store, symbol) && Offers(c, symbol, store[Key(Binance, symbol)], store[Key(Mexc, symbol)], o)
  }

  ghost predicate QuotesIn(c: Config, store: map<Key, BookState>, symbol: string, t: TopOfBookSpread) {
    Paired(store, symbol) && Quotes(c, symbol, store[Key(Binance, symbol)], store[Key(Mexc, symbol)], t)
  }

  /** The positions of a list of symbols at which there is a pair, an offer, a quote. */
  ghost function PairsAt(store: map<Key, BookState>, symbols: seq<string>): set<int> {
    set i | 0 <= i < |symbols| && Paired(store, symbols[i])
  }

  ghost function OffersAt(c: Config, store: map<Key, BookState>, symbols: seq<string>, o: Opportunity): set<int> {
    set i | 0 <= i < |symbols| && OffersIn(c, store, symbols[i], o)
  }

  ghost function QuotesAt(c: Config, store: map<Key, BookState>, symbols: seq<string>, t: TopOfBookSpread): set<int> {
    set i | 0 <= i < |symbols| && QuotesIn(c, store, symbols[i], t)
  }

  ghost function Positions(symbols: seq<string>, p: string -> bool): set<int> {
    set i | 0 <= i < |symbols| && p(symbols[i])
  }

  lemma OneMorePosition(symbols: seq<string>, p: string -> bool)
    requires symbols != []
    ensures var n := |symbols| - 1;
            |Positions(symbols, p)| == |Positions(symbols[..n], p)| + if p(symbols[n]) then 1 else 0
  {
    var n := |symbols| - 1;
    var before, after := Positions(symbols[..n], p), Positions(symbols, p);
    assert after == if p(symbols[n]) then before + {n} else before;
  }

  lemma {:induction false} PairsCountedBy(store: map<Key, BookState>, symbols: seq<string>, p: string -> bool)
    requires forall symbol :: p(symbol) <==> IsPair(store, symbol)
    ensures Pairs(store, symbols) == |Positions(symbols, p)|
  {
    if symbols != [] {
      PairsCountedBy(store, symbols[..|symbols| - 1], p);
      OneMorePosition(symbols, p);
    }
  }

  lemma {:induction false} OffersCountedBy(c: Config, store: map<Key, BookState>, symbols: seq<string>,
                                           o: Opportunity, p: string -> bool)
    requires forall symbol {:trigger p(symbol)} ::
               multiset(ScanOne(c, store, symbol))[o] == if p(symbol) then 1 else 0
    ensures multiset(ScanEach(c, store, symbols))[o] == |Positions(symbols, p)|
  {
    if symbols != [] {
      var n := |symbols| - 1;
      OffersCountedBy(c, store, symbols[..n], o, p);
      OneMorePosition(symbols, p);
    }
  }

  lemma {:induction false} QuotesCountedBy(c: Config, store: map<Key, BookState>, symbols: seq<string>,
                                           t: TopOfBookSpread, p: string -> bool)
    requires forall symbol {:trigger p(symbol)} ::
               multiset(TopSpreadOf(c, store, symbol))[t] == if p(symbol) then 1 else 0
    ensures multiset(TopSpreads(c, store, symbols))[t] == |Positions(symbols, p)|
  {
    if symbols != [] {
      var n := |symbols| - 1;
      QuotesCountedBy(c, store, symbols[..n], t, p);
      OneMorePosition(symbols, p);
    }
  }

  lemma ScanOneMeaning(c: Config, store: map<Key, BookState>, symbol: string, o: Opportunity)
    ensures multiset(ScanOne(c, store, symbol))[o] == if OffersIn(c, store, symbol, o) then 1 else 0
  {
    var b, m := Key(Binance, symbol), Key(Mexc, symbol);
    if b in store && m in store {
      ScanMeaning(c, symbol, store[b], store[m]);
    }
  }

  lemma TopSpreadOfMeaning(c: Config, store: map<Key, BookState>, symbol: string, t: TopOfBookSpread)
    ensures multiset(TopSpreadOf(c, store, symbol))[t] == if QuotesIn(c, store, symbol, t) then 1 else 0
  {
    if Paired(store, symbol) {
      TopSpreadQuotes(c, symbol, store[Key(Binance, symbol)], store[Key(Mexc, symbol)], t);
    }
  }

  lemma OffersCounted(c: Config, store: map<Key, BookState>, symbols: seq<string>, o: Opportunity)
    ensures multiset(ScanEach(c, store, symbols))[o] == |OffersAt(c, store, symbols, o)|
  {
    var p := symbol => OffersIn(c, store, symbol, o);
    forall symbol ensures multiset(ScanOne(c, store, symbol))[o] == if p(symbol) then 1 else 0 {
      ScanOneMeaning(c, store, symbol, o);
    }
    OffersCountedBy(c, store, symbols, o, p);
    assert Positions(symbols, p) == OffersAt(c, store, symbols, o);
  }

  lemma QuotesCounted(c: Config, store: map<Key, BookState>, symbols: seq<string>, t: TopOfBookSpread)
    ensures multiset(TopSpreads(c, store, symbols))[t] == |QuotesAt(c, store, symbols, t)|
  {
    var p := symbol => QuotesIn(c, store, symbol, t);
    forall symbol ensures multiset(TopSpreadOf(c, store, symbol))[t] == if p(symbol) then 1 else 0 {
      TopSpreadOfMeaning(c, store, symbol, t);
    }
    QuotesCountedBy(c, store, symbols, t, p);
    assert Positions(symbols, p) == QuotesAt(c, store, symbols, t);
  }

  lemma PairsCounted(store: map<Key, BookState>, symbols: seq<string>)
    ensures Pairs(store, symbols) == |PairsAt(store, symbols)|
  {
    var p := symbol => Paired(store, symbol);
    PairsCountedBy(store, symbols, p);
    assert Positions(symbols, p) == PairsAt(store, symbols);
  }

  /** The scan of a store lists each opportunity as often as there are positions in the configured
      symbols at which it is offered, the best net spread first. */
  lemma StoreScanMeaning(c: Config, store: map<Key, BookState>)
    ensures var r := ScanResult(c, store);
            && (forall i, j :: 0 <= i < j < |r| ==> r[i].netSpreadBps >= r[j].netSpreadBps)
            && (forall o :: multiset(r)[o] == |OffersAt(c, store, c.symbols, o)|)
  {
    SortSorts(ScanEach(c, store, c.symbols), NetSpread());
    forall o ensures multiset(ScanResult(c, store))[o] == |OffersAt(c, store, c.symbols, o)| {
      OffersCounted(c, store, c.symbols, o);
    }
  }

  /** The same of the list of top-of-book spreads, and the number of pairs. */
  lemma StoreSpreadsMeaning(c: Config, store: map<Key, BookState>)
    ensures var r := Sort(TopSpreads(c, store, c.symbols), TopNetSpread());
            && (forall i, j :: 0 <= i < j < |r| ==> r[i].netSpreadBps >= r[j].netSpreadBps)
            && (forall t :: multiset(r)[t] == |QuotesAt(c, store, c.symbols, t)|)
    ensures Pairs(store, c.symbols) == |PairsAt(store, c.symbols)|
  {
    SortSorts(TopSpreads(c, store, c.symbols), TopNetSpread());
    forall t ensures multiset(Sort(TopSpreads(c, store, c.symbols), TopNetSpread()))[t] ==
                     |QuotesAt(c, store, c.symbols, t)|
    {
      QuotesCounted(c, store, c.symbols, t);
    }
    PairsCounted(store, c.symbols);
  }
}
