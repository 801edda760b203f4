/** When the walk is also the best plan after fees.

    Fees act like a dearer ask and a cheaper bid. The walk ignores them and goes on while the plain
    prices pay, so that its last matches can lose money after fees. On the sides with fees added, a
    walk whose last pair still pays is certified by the same dual prices as before; when the last
    pair does not pay, undoing some of it is a better plan.
  */
module NetProfit {
  import opened Ladders
  import opened Walks
  import opened Optimality
  import opened DustStops
  import opened Engines
  import opened OrderBooks

  /** Net profit of buying for `buy` and selling for `sell`, as an opportunity reports it. */
  function Net(buy: real, sell: real, buyFee: real, sellFee: real): real {
    (sell - buy) - (Fee(buy, buyFee) + Fee(sell, sellFee))
  }

  ghost function NetOfPlan(asks: Ladder, bids: Ladder, x: seq<real>, y: seq<real>, buyFee: real, sellFee: real): real
    requires |x| == |asks| && |y| == |bids|
  {
    Net(Value(asks, x), Value(bids, y), buyFee, sellFee)
  }

  /** What one unit of money spent comes to with the fee, and one unit earned. */
  function BuyFactor(feeBps: real): real {
    1.0 + feeBps / BPS
  }

  function SellFactor(feeBps: real): real {
    1.0 - feeBps / BPS
  }

  predicate RealFees(buyFee: real, sellFee: real) {
    0.0 <= buyFee && 0.0 <= sellFee < BPS
  }

  /** A pair still pays after both fees. */
  ghost predicate PaysAfterFees(ask: real, bid: real, buyFee: real, sellFee: real) {
    ask * (BPS + buyFee) <= bid * (BPS - sellFee)
  }

  // ----- prices with fees -----

  function Times(c: real, p: real): real {
    c * p
  }

  lemma NetByFactors(buy: real, sell: real, buyFee: real, sellFee: real)
    ensures Net(buy, sell, buyFee, sellFee) == Times(SellFactor(sellFee), sell) - Times(BuyFactor(buyFee), buy)
  {
  }

  lemma PaysByFactors(ask: real, bid: real, buyFee: real, sellFee: real)
    ensures PaysAfterFees(ask, bid, buyFee, sellFee) <==>
            Times(BuyFactor(buyFee), ask) <= Times(SellFactor(sellFee), bid)
  {
    assert Times(BuyFactor(buyFee), ask) * BPS == ask * (BPS + buyFee);
    assert Times(SellFactor(sellFee), bid) * BPS == bid * (BPS - sellFee);
  }

  lemma TimesOrder(c: real, p: real, q: real)
    requires c > 0.0
    ensures p < q <==> Times(c, p) < Times(c, q)
    ensures p == q <==> Times(c, p) == Times(c, q)
  {
    if p < q {
      assert c * (q - p) > 0.0;
    } else if q < p {
      assert c * (p - q) > 0.0;
    }
  }

  lemma TimesSum(c: real, p: real, q: real)
    ensures Times(c, p + q) == Times(c, p) + Times(c, q)
  {
  }

  /** A side with every price multiplied by `c`. */
  function Scaled(l: Ladder, c: real): (r: Ladder) {
    seq(|l|, k requires 0 <= k < |l| => PriceLevel(Times(c, l[k].price), l[k].quantity))
  }

  lemma ScaledOrder(side: Side, c: real, p: real, q: real)
    requires c > 0.0
    ensures Before(side, Times(c, p), Times(c, q)) == Before(side, p, q)
  {
    TimesOrder(c, p, q);
    TimesOrder(c, q, p);
  }

  lemma ScaledWellFormed(side: Side, l: Ladder, c: real)
    requires WellFormed(side, l) && c > 0.0
    ensures WellFormed(side, Scaled(l, c))
  {
    forall i, j | 0 <= i < j < |l|
      ensures Before(side, Scaled(l, c)[i].price, Scaled(l, c)[j].price)
    {
      ScaledOrder(side, c, l[i].price, l[j].price);
    }
  }

  lemma {:induction false} ScaledValue(l: Ladder, f: seq<real>, c: real)
    requires |f| == |l|
    ensures Value(Scaled(l, c), f) == Times(c, Value(l, f))
  {
    if f != [] {
      ScaledValue(l[1..], f[1..], c);
      assert Scaled(l, c)[1..] == Scaled(l[1..], c);
      TimesSum(c, f[0] * l[0].price, Value(l[1..], f[1..]));
      assert f[0] * Times(c, l[0].price) == Times(c, f[0] * l[0].price);
    }
  }

  lemma ScaledSide(side: Side, l: Ladder, i: nat, left: real, f: seq<real>, last: real, c: real)
    requires SideInv(side, l, i, left, f, last) && c > 0.0
    ensures SideInv(side, Scaled(l, c), i, left, f, Times(c, last))
  {
    forall k | 0 <= k < |l|
      ensures Before(side, Times(c, last), Scaled(l, c)[k].price) == Before(side, last, l[k].price)
      ensures Before(side, Scaled(l, c)[k].price, Times(c, last)) == Before(side, l[k].price, last)
    {
      ScaledOrder(side, c, last, l[k].price);
      ScaledOrder(side, c, l[k].price, last);
    }
  }

  /** The walk as it looks with fees in the prices. */
  ghost function ScaledWalk(w: Walk, tau: real, sigma: real): Walk {
    w.(cap := Times(tau, w.cap), buy := Times(tau, w.buy), sell := Times(sigma, w.sell),
       lastAsk := Times(tau, w.lastAsk), lastBid := Times(sigma, w.lastBid))
  }

  lemma ScaledTotals(asks: Ladder, bids: Ladder, maxNotional: real, w: Walk, tau: real, sigma: real)
    requires Shaped(asks, bids, w) && Totalled(asks, bids, maxNotional, w)
    ensures Shaped(Scaled(asks, tau), Scaled(bids, sigma), ScaledWalk(w, tau, sigma))
    ensures Totalled(Scaled(asks, tau), Scaled(bids, sigma), Times(tau, maxNotional), ScaledWalk(w, tau, sigma))
  {
    ScaledValue(asks, w.askFills, tau);
    ScaledValue(bids, w.bidFills, sigma);
    TimesSum(tau, w.buy, w.cap);
  }

  lemma ScaledTradable(asks: Ladder, bids: Ladder, tau: real, sigma: real)
    requires Tradable(asks, bids) && tau > 0.0 && sigma > 0.0
    ensures Tradable(Scaled(asks, tau), Scaled(bids, sigma))
  {
    ScaledWellFormed(Ask, asks, tau);
    ScaledWellFormed(Bid, bids, sigma);
    TimesOrder(tau, 0.0, asks[0].price);
  }

  /** With fees in the prices the walk is still one of those the dual prices certify, as long as its
      last pair pays. */
  lemma ScaledFacts(asks: Ladder, bids: Ladder, maxNotional: real, w: Walk, tau: real, sigma: real)
    requires Tradable(asks, bids) && WalkInv(asks, bids, maxNotional, w) && tau > 0.0 && sigma > 0.0
    requires w.base > 0.0 ==> Times(tau, w.lastAsk) <= Times(sigma, w.lastBid)
    ensures Tradable(Scaled(asks, tau), Scaled(bids, sigma))
    ensures WalkFacts(Scaled(asks, tau), Scaled(bids, sigma), Times(tau, maxNotional), ScaledWalk(w, tau, sigma))
  {
    ScaledTradable(asks, bids, tau, sigma);
    ScaledSide(Ask, asks, w.ask, w.askLeft, w.askFills, w.lastAsk, tau);
    ScaledSide(Bid, bids, w.bid, w.bidLeft, w.bidFills, w.lastBid, sigma);
    ScaledTotals(asks, bids, maxNotional, w, tau, sigma);
    TimesOrder(tau, 0.0, w.cap);
    TimesOrder(tau, w.lastAsk, asks[0].price);
    TimesOrder(sigma, bids[0].price, w.lastBid);
  }

  /** The best price difference the books offer after fees. */
  ghost function NetEdge(asks: Ladder, bids: Ladder, buyFee: real, sellFee: real): real
    requires asks != [] && bids != []
  {
    Edge(Scaled(asks, BuyFactor(buyFee)), Scaled(bids, SellFactor(sellFee)))
  }

  lemma ScaledResidues(asks: Ladder, bids: Ladder, w: Walk, tau: real, sigma: real, rho: real, unit: real)
    requires asks != [] && bids != [] && Shaped(asks, bids, w)
    requires Allows(rho, Edge(Scaled(asks, tau), Scaled(bids, sigma)), unit)
    requires PassedWithin(asks, w.ask, w.askFills, w.lastAsk, w.cap, rho)
    requires PassedWithin(bids, w.bid, w.bidFills, w.lastBid, w.cap, rho)
    ensures Residues(Scaled(asks, tau), Scaled(bids, sigma), ScaledWalk(w, tau, sigma), rho, unit)
  {
  }

  /** Plans are the same with fees in the prices, and their gross profit there is what they net. */
  lemma ScaledPlan(asks: Ladder, bids: Ladder, maxNotional: real, x: seq<real>, y: seq<real>,
                   buyFee: real, sellFee: real)
    requires |x| == |asks| && |y| == |bids| && RealFees(buyFee, sellFee)
    ensures var tau, sigma := BuyFactor(buyFee), SellFactor(sellFee);
            && (Feasible(Scaled(asks, tau), Scaled(bids, sigma), Times(tau, maxNotional), x, y) <==>
                  Feasible(asks, bids, maxNotional, x, y))
            && Profit(Scaled(asks, tau), Scaled(bids, sigma), x, y) == NetOfPlan(asks, bids, x, y, buyFee, sellFee)
  {
    var tau, sigma := BuyFactor(buyFee), SellFactor(sellFee);
    ScaledValue(asks, x, tau);
    ScaledValue(bids, y, sigma);
    TimesOrder(tau, maxNotional, Value(asks, x));
    NetByFactors(Value(asks, x), Value(bids, y), buyFee, sellFee);
  }

  /** What the unspent cap could still have earned after fees, at the pair the walk stopped at. */
  ghost function NetCapSlack(asks: Ladder, bids: Ladder, w: Walk, buyFee: real, sellFee: real): real {
    var tau, sigma := BuyFactor(buyFee), SellFactor(sellFee);
    CapSlack(Scaled(asks, tau), Scaled(bids, sigma), ScaledWalk(w, tau, sigma))
  }

  /** After fees the unspent cap is worth no more than before them. */
  lemma NetCapSlackIsLess(asks: Ladder, bids: Ladder, w: Walk, buyFee: real, sellFee: real)
    requires RealFees(buyFee, sellFee) && w.cap >= 0.0
    ensures NetCapSlack(asks, bids, w, buyFee, sellFee) <= CapSlack(asks, bids, w)
  {
    if InRange(asks, bids, w) {
      var a, b := asks[w.ask].price, bids[w.bid].price;
      var tau, sigma := BuyFactor(buyFee), SellFactor(sellFee);
      if 0.0 < Times(tau, a) < Times(sigma, b) {
        FactorsNarrow(tau, sigma, a, b);
        RatioNarrows(tau, sigma, a, b, w.cap);
      } else if 0.0 < a < b {
        CapWorthSomething(a, b, w.cap);
      }
    }
  }

  lemma CapWorthSomething(a: real, b: real, cap: real)
    requires 0.0 < a <= b && cap >= 0.0
    ensures CapValue(b / a, cap) >= 0.0
  {
    Ratio(a, b, PriceLevel(a, 0.0));
  }

  lemma TimesMonotone(u: real, v: real, c: real)
    requires u <= v && c >= 0.0
    ensures u * c <= v * c
  {
    assert (v - u) * c >= 0.0;
  }

  lemma FactorsNarrow(tau: real, sigma: real, a: real, b: real)
    requires tau >= 1.0 && 0.0 < sigma <= 1.0 && 0.0 < Times(tau, a) < Times(sigma, b)
    ensures 0.0 < a <= Times(tau, a) && Times(sigma, b) <= b
  {
    TimesOrder(tau, 0.0, a);
    TimesOrder(sigma, 0.0, b);
    TimesMonotone(1.0, tau, a);
    TimesMonotone(sigma, 1.0, b);
  }

  /** If `k` pays `b` for `a`, and `k'` no more than `b` for `tau` times `a`, then `k'` times `tau` is at most `k`. */
  lemma RatioBelow(k: real, k': real, tau: real, a: real, b: real)
    requires a > 0.0 && k * a == b && k' * Times(tau, a) <= b
    ensures k' * tau <= k
  {
    assert (k' * tau) * a == k' * Times(tau, a);
    LeftFactor(k' * tau, k, a);
  }

  lemma CapValueTimes(k': real, tau: real, cap: real)
    ensures CapValue(k', Times(tau, cap)) == (k' * tau - tau) * cap
  {
  }

  lemma RatioNarrows(tau: real, sigma: real, a: real, b: real, cap: real)
    requires tau >= 1.0 && cap >= 0.0 && 0.0 < a <= Times(tau, a) < Times(sigma, b) <= b
    ensures CapValue(Times(sigma, b) / Times(tau, a), Times(tau, cap)) <= CapValue(b / a, cap)
  {
    var k, k' := b / a, Times(sigma, b) / Times(tau, a);
    RatioBelow(k, k', tau, a, b);
    CapValueTimes(k', tau, cap);
    TimesMonotone(k' * tau - tau, k - 1.0, cap);
  }

  // ----- the last pair decides -----

  lemma FactorsPositive(buyFee: real, sellFee: real)
    requires RealFees(buyFee, sellFee)
    ensures BuyFactor(buyFee) >= 1.0 && 0.0 < SellFactor(sellFee) <= 1.0
  {
  }

  /** When the last matched pair still pays after fees, or nothing was matched, no plan nets more than
      the walk, but for the worth of the unspent cap and of what is left on passed levels. */
  lemma NetBound(asks: Ladder, bids: Ladder, maxNotional: real, w: Walk, buyFee: real, sellFee: real,
                 x: seq<real>, y: seq<real>, rho: real, unit: real)
    requires Tradable(asks, bids) && WalkInv(asks, bids, maxNotional, w)
    requires RealFees(buyFee, sellFee) && Feasible(asks, bids, maxNotional, x, y)
    requires w.base == 0.0 || PaysAfterFees(w.lastAsk, w.lastBid, buyFee, sellFee)
    requires Allows(rho, NetEdge(asks, bids, buyFee, sellFee), unit)
    requires PassedWithin(asks, w.ask, w.askFills, w.lastAsk, w.cap, rho)
    requires PassedWithin(bids, w.bid, w.bidFills, w.lastBid, w.cap, rho)
    ensures NetOfPlan(asks, bids, x, y, buyFee, sellFee) <=
            Net(w.buy, w.sell, buyFee, sellFee) + NetCapSlack(asks, bids, w, buyFee, sellFee) +
            (Forgone(w.ask, unit) + Forgone(w.bid, unit))
  {
    var tau, sigma := BuyFactor(buyFee), SellFactor(sellFee);
    var asks', bids', w' := Scaled(asks, tau), Scaled(bids, sigma), ScaledWalk(w, tau, sigma);
    FactorsPositive(buyFee, sellFee);
    PaysByFactors(w.lastAsk, w.lastBid, buyFee, sellFee);
    ScaledFacts(asks, bids, maxNotional, w, tau, sigma);
    ScaledResidues(asks, bids, w, tau, sigma, rho, unit);
    ScaledPlan(asks, bids, maxNotional, x, y, buyFee, sellFee);
    NetByFactors(w.buy, w.sell, buyFee, sellFee);
    var pi, kappa := StopCertificate(asks', bids', Times(tau, maxNotional), w', rho, unit);
    CertificateBounds(asks', bids', Times(tau, maxNotional), w', x, y, w.ask, w.bid, pi, kappa, unit,
                      CapSlack(asks', bids', w'));
  }

  /** For arbitrary positive quantities: the residues come to EPSILON times the best price difference
      after fees for every level passed, and on sides without dust levels the cap left is negligible.
      Where dust stops the walk the cap it leaves is not bounded by this; see `NetDustDichotomy`. */
  lemma NetNearlyOptimal(asks: Ladder, bids: Ladder, maxNotional: real, buyFee: real, sellFee: real,
                         x: seq<real>, y: seq<real>)
    requires Tradable(asks, bids) && RealFees(buyFee, sellFee) && Feasible(asks, bids, maxNotional, x, y)
    requires var w := Final(asks, bids, maxNotional);
             w.base == 0.0 || PaysAfterFees(w.lastAsk, w.lastBid, buyFee, sellFee)
    ensures var w := Final(asks, bids, maxNotional); var unit := EPSILON * NetEdge(asks, bids, buyFee, sellFee);
            && NetOfPlan(asks, bids, x, y, buyFee, sellFee) <=
               Net(w.buy, w.sell, buyFee, sellFee) + NetCapSlack(asks, bids, w, buyFee, sellFee) +
               (Forgone(w.ask, unit) + Forgone(w.bid, unit))
            && (maxNotional >= 0.0 ==> NetCapSlack(asks, bids, w, buyFee, sellFee) <= CapSlack(asks, bids, w))
            && (NoDust(asks) && NoDust(bids) ==> NegligibleSlack(asks, bids, w))
  {
    var w := Final(asks, bids, maxNotional);
    FinalInv(asks, bids, maxNotional);
    NetBound(asks, bids, maxNotional, w, buyFee, sellFee, x, y,
             EPSILON, EPSILON * NetEdge(asks, bids, buyFee, sellFee));
    if maxNotional >= 0.0 {
      NetCapSlackIsLess(asks, bids, w, buyFee, sellFee);
    }
    SlackNegligibleUnlessDust(asks, bids, maxNotional);
  }

  /** For whole lots or dust there are none. */
  lemma NetOptimal(asks: Ladder, bids: Ladder, maxNotional: real, lot: real, buyFee: real, sellFee: real,
                   x: seq<real>, y: seq<real>)
    requires Tradable(asks, bids) && InLotsOrDust(lot, asks) && InLotsOrDust(lot, bids)
    requires RealFees(buyFee, sellFee) && Feasible(asks, bids, maxNotional, x, y)
    requires var w := Final(asks, bids, maxNotional);
             w.base == 0.0 || PaysAfterFees(w.lastAsk, w.lastBid, buyFee, sellFee)
    ensures var w := Final(asks, bids, maxNotional);
            NetOfPlan(asks, bids, x, y, buyFee, sellFee) <=
            Net(w.buy, w.sell, buyFee, sellFee) + NetCapSlack(asks, bids, w, buyFee, sellFee)
  {
    var w := Final(asks, bids, maxNotional);
    FinalLots(asks, bids, maxNotional, lot);
    NothingResidual(asks, bids, lot, w);
    NetBound(asks, bids, maxNotional, w, buyFee, sellFee, x, y, 0.0, 0.0);
  }

  /** Some plan nets more than `net`. */
  ghost predicate NetBeaten(asks: Ladder, bids: Ladder, maxNotional: real, buyFee: real, sellFee: real, net: real) {
    exists x, y :: Feasible(asks, bids, maxNotional, x, y) && NetOfPlan(asks, bids, x, y, buyFee, sellFee) > net
  }

  lemma AddsTimes(c: real, after: real, before: real, d: real, p: real)
    requires Adds(after, before, d, p)
    ensures Adds(Times(c, after), Times(c, before), d, Times(c, p))
  {
    TimesSum(c, before, d * p);
    assert Times(c, d * p) == d * Times(c, p);
  }

  /** Taking back units (`d` is negative) of a pair that does not pay after fees nets more. */
  lemma TakenBackNetsMore(d: real, buy: real, buy': real, a: real, sell: real, sell': real, b: real,
                          buyFee: real, sellFee: real)
    requires d < 0.0 && !PaysAfterFees(a, b, buyFee, sellFee)
    requires Adds(buy', buy, d, a) && Adds(sell', sell, d, b)
    ensures Net(buy', sell', buyFee, sellFee) > Net(buy, sell, buyFee, sellFee)
  {
    var tau, sigma := BuyFactor(buyFee), SellFactor(sellFee);
    var ta, sb := Times(tau, a), Times(sigma, b);
    PaysByFactors(a, b, buyFee, sellFee);
    NetByFactors(buy, sell, buyFee, sellFee);
    NetByFactors(buy', sell', buyFee, sellFee);
    AddsTimes(tau, buy', buy, d, a);
    AddsTimes(sigma, sell', sell, d, b);
    PairGain(Times(tau, buy), Times(sigma, sell), d, ta, sb, Times(tau, buy'), Times(sigma, sell'));
    AddsSomething(Times(sigma, sell') - Times(tau, buy'), Times(sigma, sell) - Times(tau, buy), d, sb - ta);
  }

  lemma CostsLess(after: real, before: real, d: real, p: real)
    requires Adds(after, before, d, p) && d <= 0.0 && p >= 0.0
    ensures after <= before
  {
    assert d * p <= 0.0;
  }

  lemma TouchedLevel(l: Ladder, f: seq<real>, p: real) returns (i: nat)
    requires |l| == |f| && Touched(l, f, p)
    ensures i < |l| && l[i].price == p && f[i] > 0.0
  {
    i :| 0 <= i < |l| && l[i].price == p && f[i] > 0.0;
  }

  /** When the last matched pair does not pay after fees, taking some of it back nets more. */
  lemma LastPairLoses(asks: Ladder, bids: Ladder, maxNotional: real, w: Walk, buyFee: real, sellFee: real)
    requires Tradable(asks, bids) && WalkInv(asks, bids, maxNotional, w) && w.base > 0.0
    requires !PaysAfterFees(w.lastAsk, w.lastBid, buyFee, sellFee)
    ensures NetBeaten(asks, bids, maxNotional, buyFee, sellFee, Net(w.buy, w.sell, buyFee, sellFee))
  {
    var i := TouchedLevel(asks, w.askFills, w.lastAsk);
    var j := TouchedLevel(bids, w.bidFills, w.lastBid);
    var d := -Min(w.askFills[i], w.bidFills[j]);
    var x, y := Filled(w.askFills, i, d), Filled(w.bidFills, j, d);
    Refill(asks, w.askFills, i, d, w.base, w.buy);
    Refill(bids, w.bidFills, j, d, w.base, w.sell);
    CostsLess(Value(asks, x), w.buy, d, w.lastAsk);
    TakenBackNetsMore(d, w.buy, Value(asks, x), w.lastAsk, w.sell, Value(bids, y), w.lastBid, buyFee, sellFee);
    assert Feasible(asks, bids, maxNotional, x, y);
  }

  /** Then the pair the walk stopped at does not pay either, and the unspent cap is worth nothing. */
  lemma NothingForTheCap(asks: Ladder, bids: Ladder, maxNotional: real, w: Walk, buyFee: real, sellFee: real)
    requires Tradable(asks, bids) && WalkInv(asks, bids, maxNotional, w) && RealFees(buyFee, sellFee)
    requires w.base > 0.0 && !PaysAfterFees(w.lastAsk, w.lastBid, buyFee, sellFee)
    ensures NetCapSlack(asks, bids, w, buyFee, sellFee) == 0.0
  {
    if InRange(asks, bids, w) {
      var tau, sigma := BuyFactor(buyFee), SellFactor(sellFee);
      FactorsPositive(buyFee, sellFee);
      PaysByFactors(w.lastAsk, w.lastBid, buyFee, sellFee);
      TimesOrder(tau, asks[w.ask].price, w.lastAsk);
      TimesOrder(sigma, w.lastBid, bids[w.bid].price);
    }
  }

  // ----- dust stops after fees -----

  /** More than dust is left of a pair that pays after fees. */
  ghost predicate NetLive(asks: Ladder, bids: Ladder, f: seq<real>, g: seq<real>, buyFee: real, sellFee: real)
    requires |f| == |asks| && |g| == |bids|
  {
    Live(Scaled(asks, BuyFactor(buyFee)), Scaled(bids, SellFactor(sellFee)), f, g)
  }

  /** EPSILON times the best price difference after fees for every level. */
  ghost function NetDustPerLevel(asks: Ladder, bids: Ladder, buyFee: real, sellFee: real): real
    requires asks != [] && bids != []
  {
    DustPerLevel(Scaled(asks, BuyFactor(buyFee)), Scaled(bids, SellFactor(sellFee)))
  }

  /** Beating a net profit is beating it as a gross profit with fees in the prices. */
  lemma ScaledBeaten(asks: Ladder, bids: Ladder, maxNotional: real, buyFee: real, sellFee: real, net: real)
    requires RealFees(buyFee, sellFee)
    ensures var tau, sigma := BuyFactor(buyFee), SellFactor(sellFee);
            Beaten(Scaled(asks, tau), Scaled(bids, sigma), Times(tau, maxNotional), net) <==>
            NetBeaten(asks, bids, maxNotional, buyFee, sellFee, net)
  {
    var tau, sigma := BuyFactor(buyFee), SellFactor(sellFee);
    var asks', bids', cap' := Scaled(asks, tau), Scaled(bids, sigma), Times(tau, maxNotional);
    if Beaten(asks', bids', cap', net) {
      var x, y :| Feasible(asks', bids', cap', x, y) && Profit(asks', bids', x, y) > net;
      ScaledPlan(asks, bids, maxNotional, x, y, buyFee, sellFee);
    }
    if NetBeaten(asks, bids, maxNotional, buyFee, sellFee, net) {
      var x, y :| Feasible(asks, bids, maxNotional, x, y) && NetOfPlan(asks, bids, x, y, buyFee, sellFee) > net;
      ScaledPlan(asks, bids, maxNotional, x, y, buyFee, sellFee);
      assert Feasible(asks', bids', cap', x, y);
    }
  }

  /** With fees in the prices, a walk that dust stopped still has cap, and sells for something. */
  lemma ScaledStop(asks: Ladder, bids: Ladder, w: Walk, tau: real, sigma: real)
    requires Tradable(asks, bids) && StoppedByDust(asks, bids, w) && tau > 0.0 && sigma > 0.0
    ensures ScaledWalk(w, tau, sigma).cap > 0.0 && Scaled(bids, sigma)[0].price >= 0.0
  {
    StoppedPays(asks, bids, w);
    TimesOrder(tau, 0.0, w.cap);
    TimesOrder(sigma, 0.0, bids[0].price);
  }

  /** What a walk that dust stopped has lost after fees, for arbitrary positive quantities: if its fills
      leave more than dust of a pair that pays after fees, some plan nets more; if not, and its last
      pair pays, no plan nets more than EPSILON times the best price difference a level. */
  lemma NetDustDichotomy(asks: Ladder, bids: Ladder, maxNotional: real, buyFee: real, sellFee: real)
    requires Tradable(asks, bids) && RealFees(buyFee, sellFee)
    requires var w := Final(asks, bids, maxNotional);
             StoppedByDust(asks, bids, w) && (w.base > 0.0 ==> PaysAfterFees(w.lastAsk, w.lastBid, buyFee, sellFee))
    ensures var w := Final(asks, bids, maxNotional); var net := Net(w.buy, w.sell, buyFee, sellFee);
            if NetLive(asks, bids, w.askFills, w.bidFills, buyFee, sellFee)
            then NetBeaten(asks, bids, maxNotional, buyFee, sellFee, net)
            else !NetBeaten(asks, bids, maxNotional, buyFee, sellFee,
                            net + NetDustPerLevel(asks, bids, buyFee, sellFee))
  {
    var w, tau, sigma := Final(asks, bids, maxNotional), BuyFactor(buyFee), SellFactor(sellFee);
    var asks', bids', w' := Scaled(asks, tau), Scaled(bids, sigma), ScaledWalk(w, tau, sigma);
    var net := Net(w.buy, w.sell, buyFee, sellFee);
    FinalInv(asks, bids, maxNotional);
    FactorsPositive(buyFee, sellFee);
    PaysByFactors(w.lastAsk, w.lastBid, buyFee, sellFee);
    ScaledFacts(asks, bids, maxNotional, w, tau, sigma);
    ScaledStop(asks, bids, w, tau, sigma);
    NetByFactors(w.buy, w.sell, buyFee, sellFee);
    if Live(asks', bids', w.askFills, w.bidFills) {
      LiveIsBeaten(asks', bids', Times(tau, maxNotional), w');
      ScaledBeaten(asks, bids, maxNotional, buyFee, sellFee, net);
    } else {
      DeadIsNearlyOptimal(asks', bids', Times(tau, maxNotional), w');
      ScaledBeaten(asks, bids, maxNotional, buyFee, sellFee, net + DustPerLevel(asks', bids'));
    }
  }

  // ----- the exact condition -----

  /** The verdict on a walk that nets `net`: where it loses, some plan nets more; where it does not, no
      plan does, but for dust on every level if dust stopped it, and otherwise for a negligible cap. */
  ghost predicate NetDecided(asks: Ladder, bids: Ladder, maxNotional: real, w: Walk, buyFee: real, sellFee: real,
                             net: real, loses: bool, dust: bool)
    requires asks != [] && bids != []
  {
    if loses then NetBeaten(asks, bids, maxNotional, buyFee, sellFee, net)
    else if dust then
      !NetBeaten(asks, bids, maxNotional, buyFee, sellFee, net + NetDustPerLevel(asks, bids, buyFee, sellFee))
    else
      && NegligibleSlack(asks, bids, w)
      && (maxNotional >= 0.0 ==> NetCapSlack(asks, bids, w, buyFee, sellFee) <= CapSlack(asks, bids, w))
      && !NetBeaten(asks, bids, maxNotional, buyFee, sellFee, net + NetCapSlack(asks, bids, w, buyFee, sellFee))
  }

  /** Read off the walk's exit: its last pair does not pay after fees, or dust stopped it in front of a
      pair that does. */
  ghost predicate LosesAtExit(asks: Ladder, bids: Ladder, w: Walk, buyFee: real, sellFee: real)
    requires |w.askFills| == |asks| && |w.bidFills| == |bids|
  {
    || (w.base > 0.0 && !PaysAfterFees(w.lastAsk, w.lastBid, buyFee, sellFee))
    || (StoppedByDust(asks, bids, w) && NetLive(asks, bids, w.askFills, w.bidFills, buyFee, sellFee))
  }

  /** On books whose quantities are whole lots or dust, some plan nets more than the walk, beyond the
      worth of its unspent cap, exactly when the last pair it matched does not pay after fees. That
      worth is at most what it is before fees, and negligible unless dust stops the walk. */
  lemma BeatenBeyondTheCap(asks: Ladder, bids: Ladder, maxNotional: real, lot: real, buyFee: real, sellFee: real)
    requires Tradable(asks, bids) && InLotsOrDust(lot, asks) && InLotsOrDust(lot, bids) && RealFees(buyFee, sellFee)
    ensures var w := Final(asks, bids, maxNotional);
            var slack := NetCapSlack(asks, bids, w, buyFee, sellFee);
            && (NetBeaten(asks, bids, maxNotional, buyFee, sellFee, Net(w.buy, w.sell, buyFee, sellFee) + slack) <==>
                  w.base > 0.0 && !PaysAfterFees(w.lastAsk, w.lastBid, buyFee, sellFee))
            && (maxNotional >= 0.0 ==> slack <= CapSlack(asks, bids, w))
            && (!DustAhead(asks, bids, maxNotional) ==> NegligibleSlack(asks, bids, w))
  {
    var w := Final(asks, bids, maxNotional);
    FinalInv(asks, bids, maxNotional);
    DustStopsExactlyWhen(asks, bids, maxNotional, lot);
    SlackNegligibleUnlessDust(asks, bids, maxNotional);
    if maxNotional >= 0.0 {
      NetCapSlackIsLess(asks, bids, w, buyFee, sellFee);
    }
    if w.base > 0.0 && !PaysAfterFees(w.lastAsk, w.lastBid, buyFee, sellFee) {
      LastPairLoses(asks, bids, maxNotional, w, buyFee, sellFee);
      NothingForTheCap(asks, bids, maxNotional, w, buyFee, sellFee);
    } else {
      forall x, y | Feasible(asks, bids, maxNotional, x, y)
        ensures NetOfPlan(asks, bids, x, y, buyFee, sellFee) <=
                Net(w.buy, w.sell, buyFee, sellFee) + NetCapSlack(asks, bids, w, buyFee, sellFee)
      {
        NetOptimal(asks, bids, maxNotional, lot, buyFee, sellFee, x, y);
      }
    }
  }

  /** On books whose quantities are whole lots or dust the walk's exit decides whether some plan nets
      more. */
  lemma NetBeatenExactlyWhen(asks: Ladder, bids: Ladder, maxNotional: real, lot: real, buyFee: real, sellFee: real)
    requires Tradable(asks, bids) && InLotsOrDust(lot, asks) && InLotsOrDust(lot, bids) && RealFees(buyFee, sellFee)
    ensures var w := Final(asks, bids, maxNotional); var net := Net(w.buy, w.sell, buyFee, sellFee);
            && NetDecided(asks, bids, maxNotional, w, buyFee, sellFee, net,
                          LosesAtExit(asks, bids, w, buyFee, sellFee), StoppedByDust(asks, bids, w))
            && (NetBeaten(asks, bids, maxNotional, buyFee, sellFee,
                          net + NetCapSlack(asks, bids, w, buyFee, sellFee)) <==>
                  w.base > 0.0 && !PaysAfterFees(w.lastAsk, w.lastBid, buyFee, sellFee))
            && (maxNotional >= 0.0 ==> NetCapSlack(asks, bids, w, buyFee, sellFee) <= CapSlack(asks, bids, w))
            && (!DustAhead(asks, bids, maxNotional) ==> NegligibleSlack(asks, bids, w))
  {
    var w := Final(asks, bids, maxNotional);
    BeatenBeyondTheCap(asks, bids, maxNotional, lot, buyFee, sellFee);
    DustStopsExactlyWhen(asks, bids, maxNotional, lot);
    SlackNegligibleUnlessDust(asks, bids, maxNotional);
    if w.base > 0.0 && !PaysAfterFees(w.lastAsk, w.lastBid, buyFee, sellFee) {
      FinalInv(asks, bids, maxNotional);
      LastPairLoses(asks, bids, maxNotional, w, buyFee, sellFee);
    } else if StoppedByDust(asks, bids, w) {
      NetDustDichotomy(asks, bids, maxNotional, buyFee, sellFee);
    }
  }

  // ----- reading it off the books -----

  /** What a side holds in front of level `i`. */
  ghost function InFront(l: Ladder, i: nat): real
    requires i <= |l|
  {
    if i == 0 then 0.0 else l[0].quantity + InFront(l[1..], i - 1)
  }

  ghost function Max(a: real, b: real): real {
    if a < b then b else a
  }

  /** The walk comes to match levels `i` and `j`: both are next once what is in front of them has been
      traded, neither side has come to dust by then, the pair pays, and the cap still buys more than dust. */
  ghost predicate Meets(asks: Ladder, bids: Ladder, maxNotional: real, i: nat, j: nat) {
    && i < |asks| && j < |bids|
    && var q := Max(InFront(asks, i), InFront(bids, j));
    && LevelAt(asks, q) == i && LevelAt(bids, q) == j && q < SafeBase(asks, bids)
    && GoesOnAfter(asks, bids, maxNotional, q)
  }

  /** The walk comes to a pair that pays before fees but not after them. */
  ghost predicate MeetsLoss(asks: Ladder, bids: Ladder, maxNotional: real, buyFee: real, sellFee: real) {
    exists i: nat, j: nat :: Meets(asks, bids, maxNotional, i, j) &&
      !PaysAfterFees(asks[i].price, bids[j].price, buyFee, sellFee)
  }

  lemma {:induction false} InFrontOfLevel(l: Ladder, q: real)
    requires Positive(l) && q >= 0.0
    ensures 0.0 <= InFront(l, LevelAt(l, q)) <= q
  {
    if l != [] && l[0].quantity <= q {
      InFrontOfLevel(l[1..], q - l[0].quantity);
    }
  }

  lemma {:induction false} LevelAfter(l: Ladder, i: nat)
    requires Positive(l) && i <= |l|
    ensures InFront(l, i) >= 0.0 && LevelAt(l, InFront(l, i)) == i
  {
    if i > 0 {
      LevelAfter(l[1..], i - 1);
    }
  }

  lemma {:induction false} FilledInFront(l: Ladder, f: seq<real>, n: nat)
    requires Fits(l, f) && n <= |l| && forall k :: n <= k < |l| ==> f[k] == 0.0
    ensures Sum(f) <= InFront(l, n)
  {
    if n == 0 {
      assert f == Zeros(|l|);
      ZeroTotals(l, |l|);
    } else {
      FilledInFront(l[1..], f[1..], n - 1);
    }
  }

  /** A side that has filled more than `q` has last matched at the level after `q` or behind it. */
  lemma LastIsBeyond(side: Side, l: Ladder, i: nat, left: real, f: seq<real>, last: real, q: real)
    requires WellFormed(side, l) && SideInv(side, l, i, left, f, last) && 0.0 <= q < Sum(f)
    ensures LevelAt(l, q) < |l| && !Before(side, last, l[LevelAt(l, q)].price)
  {
    var n := LevelAt(l, q);
    InFrontOfLevel(l, q);
    if n == |l| || Before(side, last, l[n].price) {
      FilledInFront(l, f, n);
    }
  }

  /** A walk that can go on after `q`, short of any dust, has not stopped before it. */
  lemma GoesBeyond(asks: Ladder, bids: Ladder, maxNotional: real, lot: real, w: Walk, q: real)
    requires Tradable(asks, bids) && WalkInv(asks, bids, maxNotional, w) && LotInv(asks, bids, lot, w)
    requires !Running(asks, bids, w) && q < SafeBase(asks, bids) && GoesOnAfter(asks, bids, maxNotional, q)
    ensures w.base > q
  {
    if w.base <= q {
      OnlyDustStops(asks, bids, maxNotional, lot, w, q);
      DustStopIsAhead(asks, bids, maxNotional, lot, w);
    }
  }

  /** Then its last match was at the pair after `q` or at a worse one. */
  lemma LastIsNoBetter(asks: Ladder, bids: Ladder, maxNotional: real, lot: real, w: Walk, q: real)
    requires Tradable(asks, bids) && WalkInv(asks, bids, maxNotional, w) && LotInv(asks, bids, lot, w)
    requires !Running(asks, bids, w)
    requires 0.0 <= q < SafeBase(asks, bids) && GoesOnAfter(asks, bids, maxNotional, q)
    ensures w.base > q
    ensures asks[LevelAt(asks, q)].price <= w.lastAsk && w.lastBid <= bids[LevelAt(bids, q)].price
  {
    GoesBeyond(asks, bids, maxNotional, lot, w, q);
    LastIsBeyond(Ask, asks, w.ask, w.askLeft, w.askFills, w.lastAsk, q);
    LastIsBeyond(Bid, bids, w.bid, w.bidLeft, w.bidFills, w.lastBid, q);
  }

  lemma MeetsLossMatchesIt(asks: Ladder, bids: Ladder, maxNotional: real, lot: real, w: Walk,
                           buyFee: real, sellFee: real)
    requires Tradable(asks, bids) && WalkInv(asks, bids, maxNotional, w) && LotInv(asks, bids, lot, w)
    requires !Running(asks, bids, w) && RealFees(buyFee, sellFee)
    requires MeetsLoss(asks, bids, maxNotional, buyFee, sellFee)
    ensures w.base > 0.0 && !PaysAfterFees(w.lastAsk, w.lastBid, buyFee, sellFee)
  {
    var i: nat, j: nat :| Meets(asks, bids, maxNotional, i, j) &&
                          !PaysAfterFees(asks[i].price, bids[j].price, buyFee, sellFee);
    LevelAfter(asks, i);
    LastIsNoBetter(asks, bids, maxNotional, lot, w, Max(InFront(asks, i), InFront(bids, j)));
    WorseDoesNotPay(asks[i].price, bids[j].price, w.lastAsk, w.lastBid, buyFee, sellFee);
  }

  lemma WorseDoesNotPay(a: real, b: real, a': real, b': real, buyFee: real, sellFee: real)
    requires RealFees(buyFee, sellFee) && a <= a' && b' <= b && !PaysAfterFees(a, b, buyFee, sellFee)
    ensures !PaysAfterFees(a', b', buyFee, sellFee)
  {
    TimesMonotone(a, a', BPS + buyFee);
    TimesMonotone(b', b, BPS - sellFee);
  }

  /** Where the last match of a walk began. */
  ghost predicate MatchedAfter(asks: Ladder, bids: Ladder, maxNotional: real, w: Walk, q: real) {
    && 0.0 <= q < SafeBase(asks, bids)
    && GoesOnAfter(asks, bids, maxNotional, q)
    && asks[LevelAt(asks, q)].price == w.lastAsk && bids[LevelAt(bids, q)].price == w.lastBid
  }

  lemma RunningBuys(asks: Ladder, bids: Ladder, w: Walk)
    requires Running(asks, bids, w)
    ensures asks[w.ask].price < bids[w.bid].price && BuysMoreThanDust(w.cap, asks[w.ask].price)
  {
  }

  lemma StandsAfter(asks: Ladder, bids: Ladder, maxNotional: real, lot: real, w: Walk)
    requires Tradable(asks, bids) && WalkInv(asks, bids, maxNotional, w) && LotInv(asks, bids, lot, w)
    requires InRange(asks, bids, w) && asks[w.ask].price < bids[w.bid].price
    requires BuysMoreThanDust(w.cap, asks[w.ask].price)
    ensures w.ask == LevelAt(asks, w.base) && w.bid == LevelAt(bids, w.base)
    ensures GoesOnAfter(asks, bids, maxNotional, w.base)
  {
    FillsAreBest(asks, bids, maxNotional, lot, w);
    GoesOnAt(asks, bids, maxNotional, w.base, w.ask, w.bid, w.cap);
  }

  lemma StepMatchedAfter(asks: Ladder, bids: Ladder, maxNotional: real, lot: real, w: Walk)
    requires Tradable(asks, bids) && WalkInv(asks, bids, maxNotional, w) && LotInv(asks, bids, lot, w)
    requires Running(asks, bids, w)
    ensures MatchedAfter(asks, bids, maxNotional, Step(asks, bids, w), w.base)
  {
    RunningBuys(asks, bids, w);
    StandsAfter(asks, bids, maxNotional, lot, w);
    AmountFits(asks, bids, w);
    StepInv(asks, bids, maxNotional, w);
    BaseIsSafe(asks, bids, maxNotional, Step(asks, bids, w));
  }

  lemma {:induction false} IterateMatchedAfter(asks: Ladder, bids: Ladder, maxNotional: real, lot: real,
                                               w: Walk, n: nat) returns (q: real)
    requires Tradable(asks, bids) && WalkInv(asks, bids, maxNotional, w) && LotInv(asks, bids, lot, w)
    requires InLotsOrDust(lot, asks) && InLotsOrDust(lot, bids)
    ensures Iterate(asks, bids, w, n) == w || MatchedAfter(asks, bids, maxNotional, Iterate(asks, bids, w, n), q)
    decreases n
  {
    q := 0.0;
    if n > 0 && Running(asks, bids, w) {
      var w' := Step(asks, bids, w);
      StepInv(asks, bids, maxNotional, w);
      LotStep(asks, bids, maxNotional, lot, w);
      StepMatchedAfter(asks, bids, maxNotional, lot, w);
      q := IterateMatchedAfter(asks, bids, maxNotional, lot, w', n - 1);
      if Iterate(asks, bids, w', n - 1) == w' {
        q := w.base;
      }
    }
  }

  /** The pair of a match is one the walk meets. */
  lemma MatchIsMet(asks: Ladder, bids: Ladder, maxNotional: real, w: Walk, q: real)
    requires Tradable(asks, bids) && MatchedAfter(asks, bids, maxNotional, w, q)
    ensures Meets(asks, bids, maxNotional, LevelAt(asks, q), LevelAt(bids, q))
  {
    var i, j := LevelAt(asks, q), LevelAt(bids, q);
    var q' := Max(InFront(asks, i), InFront(bids, j));
    InFrontOfLevel(asks, q);
    InFrontOfLevel(bids, q);
    LevelAfter(asks, i);
    LevelAfter(bids, j);
    LevelAtMonotone(asks, InFront(asks, i), q');
    LevelAtMonotone(asks, q', q);
    LevelAtMonotone(bids, InFront(bids, j), q');
    LevelAtMonotone(bids, q', q);
    AskPrices(asks);
    CostMonotone(asks, q', q);
    MoreThanDust(maxNotional - CostOf(asks, q'), asks[i].price, maxNotional - CostOf(asks, q), asks[i].price);
  }

  lemma LossIsMet(asks: Ladder, bids: Ladder, maxNotional: real, lot: real, buyFee: real, sellFee: real)
    requires Tradable(asks, bids) && InLotsOrDust(lot, asks) && InLotsOrDust(lot, bids)
    requires var w := Final(asks, bids, maxNotional);
             w.base > 0.0 && !PaysAfterFees(w.lastAsk, w.lastBid, buyFee, sellFee)
    ensures MeetsLoss(asks, bids, maxNotional, buyFee, sellFee)
  {
    var w := Final(asks, bids, maxNotional);
    FinalInv(asks, bids, maxNotional);
    StartInv(asks, bids, maxNotional);
    NoDustOnLots(asks, bids, maxNotional, lot, 0);
    TerminationBound(asks, bids, maxNotional);
    var q := IterateMatchedAfter(asks, bids, maxNotional, lot, Start(asks, bids, maxNotional), |asks| + |bids| - 1);
    MatchIsMet(asks, bids, maxNotional, w, q);
  }

  lemma MeetsLossExactlyWhen(asks: Ladder, bids: Ladder, maxNotional: real, lot: real, buyFee: real, sellFee: real)
    requires Tradable(asks, bids) && InLotsOrDust(lot, asks) && InLotsOrDust(lot, bids) && RealFees(buyFee, sellFee)
    ensures var w := Final(asks, bids, maxNotional);
            MeetsLoss(asks, bids, maxNotional, buyFee, sellFee) <==>
            w.base > 0.0 && !PaysAfterFees(w.lastAsk, w.lastBid, buyFee, sellFee)
  {
    var w := Final(asks, bids, maxNotional);
    if w.base > 0.0 && !PaysAfterFees(w.lastAsk, w.lastBid, buyFee, sellFee) {
      LossIsMet(asks, bids, maxNotional, lot, buyFee, sellFee);
    }
    if MeetsLoss(asks, bids, maxNotional, buyFee, sellFee) {
      FinalLots(asks, bids, maxNotional, lot);
      MeetsLossMatchesIt(asks, bids, maxNotional, lot, w, buyFee, sellFee);
    }
  }

  /** The caller's test, on the two sides and the cap alone: the walk comes to a pair that pays before
      fees but not after them, or to a dust level in front of a pair that does pay after them. */
  ghost predicate LosesAfterFees(asks: Ladder, bids: Ladder, maxNotional: real, buyFee: real, sellFee: real) {
    var q := SafeBase(asks, bids);
    || MeetsLoss(asks, bids, maxNotional, buyFee, sellFee)
    || (DustAhead(asks, bids, maxNotional) &&
        NetLive(asks, bids, BestFills(asks, q), BestFills(bids, q), buyFee, sellFee))
  }

  /** On books whose quantities are whole lots or dust the caller's test decides whether some plan nets
      more than the walk. */
  lemma NetBeatenByTheBooks(asks: Ladder, bids: Ladder, maxNotional: real, lot: real, buyFee: real, sellFee: real)
    requires Tradable(asks, bids) && InLotsOrDust(lot, asks) && InLotsOrDust(lot, bids) && RealFees(buyFee, sellFee)
    ensures var w := Final(asks, bids, maxNotional); var net := Net(w.buy, w.sell, buyFee, sellFee);
            && NetDecided(asks, bids, maxNotional, w, buyFee, sellFee, net,
                          LosesAfterFees(asks, bids, maxNotional, buyFee, sellFee), DustAhead(asks, bids, maxNotional))
            && (NetBeaten(asks, bids, maxNotional, buyFee, sellFee,
                          net + NetCapSlack(asks, bids, w, buyFee, sellFee)) <==>
                  MeetsLoss(asks, bids, maxNotional, buyFee, sellFee))
  {
    NetBeatenExactlyWhen(asks, bids, maxNotional, lot, buyFee, sellFee);
    MeetsLossExactlyWhen(asks, bids, maxNotional, lot, buyFee, sellFee);
    DustStopsExactlyWhen(asks, bids, maxNotional, lot);
  }

  /** The same about what the engine reports: whether its net profit can be bettered is decided by the
      two sides, the cap and the two taker fees. */
  lemma OpportunityBeatenExactlyWhen(s: Settings, symbol: string, buyExchange: Exchange, sellExchange: Exchange,
                                     asks: Ladder, bids: Ladder, lot: real)
    requires WellFormed(Ask, asks) && WellFormed(Bid, bids) && InLotsOrDust(lot, asks) && InLotsOrDust(lot, bids)
    requires RealFees(s.TakerFeeBps(buyExchange), s.TakerFeeBps(sellExchange))
    requires Evaluate(s, symbol, buyExchange, sellExchange, asks, bids).Some?
    ensures asks != [] && bids != []
    ensures var o := Evaluate(s, symbol, buyExchange, sellExchange, asks, bids).value;
            var buyFee, sellFee := s.TakerFeeBps(buyExchange), s.TakerFeeBps(sellExchange);
            var w := Final(asks, bids, s.maxNotional);
            var slack := NetCapSlack(asks, bids, w, buyFee, sellFee);
            && NetDecided(asks, bids, s.maxNotional, w, buyFee, sellFee, o.netProfit,
                          LosesAfterFees(asks, bids, s.maxNotional, buyFee, sellFee),
                          DustAhead(asks, bids, s.maxNotional))
            && (NetBeaten(asks, bids, s.maxNotional, buyFee, sellFee, o.netProfit + slack) <==>
                  !PaysAfterFees(w.lastAsk, w.lastBid, buyFee, sellFee))
            && (NetBeaten(asks, bids, s.maxNotional, buyFee, sellFee, o.netProfit + slack) <==>
                  MeetsLoss(asks, bids, s.maxNotional, buyFee, sellFee))
  {
    TradeNeedsPositiveAsk(asks, bids, s.maxNotional);
    NetBeatenExactlyWhen(asks, bids, s.maxNotional, lot, s.TakerFeeBps(buyExchange), s.TakerFeeBps(sellExchange));
    NetBeatenByTheBooks(asks, bids, s.maxNotional, lot, s.TakerFeeBps(buyExchange), s.TakerFeeBps(sellExchange));
  }

  /** An input on which the last pair loses: the walk fills both asks and, after fees of 75 basis points a side,
      loses money; a plan that stops after the first ask makes some. */
  lemma WalkNetsLess()
    ensures var asks := [PriceLevel(100.0, 1.0), PriceLevel(101.0, 1.0)]; var bids := [PriceLevel(102.0, 2.0)];
            var w := Final(asks, bids, 1000.0);
            && Tradable(asks, bids)
            && w.askFills == [1.0, 1.0] && w.bidFills == [2.0]
            && Net(w.buy, w.sell, 75.0, 75.0) < 0.0
            && Feasible(asks, bids, 1000.0, [1.0, 0.0], [1.0])
            && NetOfPlan(asks, bids, [1.0, 0.0], [1.0], 75.0, 75.0) > 0.0
  {
    var asks := [PriceLevel(100.0, 1.0), PriceLevel(101.0, 1.0)];
    var bids := [PriceLevel(102.0, 2.0)];
    var w0 := Start(asks, bids, 1000.0);
    RunMatched(asks, bids, w0, 1.0);
    var w1 := Matched(asks, bids, w0, 1.0);
    assert w1.ask == 1 && w1.bid == 0 && w1.askLeft == 1.0 && w1.bidLeft == 1.0 && w1.cap == 900.0;
    RunMatched(asks, bids, w1, 1.0);
    var w2 := Matched(asks, bids, w1, 1.0);
    assert w2.ask == 2 && w2.buy == 201.0 && w2.sell == 204.0;
    assert [1.0, 0.0][1..] == [0.0] && asks[1..] == [PriceLevel(101.0, 1.0)];
    OneLevel(PriceLevel(101.0, 1.0), 0.0);
    OneLevel(PriceLevel(102.0, 2.0), 1.0);
  }

  /** An input on which dust loses: the walk stops before it trades, and a plan that skips the dust level
      nets money after fees of 75 basis points a side. */
  lemma DustCostsNetProfit()
    ensures var asks := [PriceLevel(1.0, EPSILON), PriceLevel(2.0, 10.0)]; var bids := [PriceLevel(3.0, 10.0)];
            && Tradable(asks, bids)
            && Final(asks, bids, 100.0).base == 0.0
            && Feasible(asks, bids, 100.0, [0.0, 10.0], [10.0])
            && NetOfPlan(asks, bids, [0.0, 10.0], [10.0], 75.0, 75.0) > 9.0
  {
    DustLevelDefeatsTheWalk();
    OneLevel(PriceLevel(3.0, 10.0), 10.0);
  }
}
