/** What a dust level costs the walk, and on which books one stops it.

    The loop ends at a level of at most EPSILON, although levels behind it may pay. A stop of this
    kind can be bettered when more than dust is left on both sides of some pair that pays, and forgoes
    no more than dust on each level when not.
    When quantities are whole lots or dust, whether the walk comes to such a stop, and what it has
    filled by then, can be read off the two sides and the cap before it starts.
  */
module DustStops {
  import opened Ladders
  import opened Walks
  import opened Optimality

  /** Why dust levels are set apart: a single dust level at the top stops the walk before it trades,
      although a plan that skips the level earns real money. */
  lemma DustLevelDefeatsTheWalk()
    ensures var asks := [PriceLevel(1.0, EPSILON), PriceLevel(2.0, 10.0)]; var bids := [PriceLevel(3.0, 10.0)];
            && Tradable(asks, bids)
            && Final(asks, bids, 100.0).base == 0.0
            && StoppedByDust(asks, bids, Final(asks, bids, 100.0))
            && Feasible(asks, bids, 100.0, [0.0, 10.0], [10.0])
            && Profit(asks, bids, [0.0, 10.0], [10.0]) == 10.0
  {
    var asks := [PriceLevel(1.0, EPSILON), PriceLevel(2.0, 10.0)];
    var bids := [PriceLevel(3.0, 10.0)];
    var w := Start(asks, bids, 100.0);
    assert Amount(asks, bids, w) == EPSILON;
    assert Value(asks, [0.0, 10.0]) == 20.0 by {
      assert asks[1..] == [PriceLevel(2.0, 10.0)] && [0.0, 10.0][1..] == [10.0];
      OneLevel(PriceLevel(2.0, 10.0), 10.0);
    }
    OneLevel(PriceLevel(3.0, 10.0), 10.0);
    assert Sum([0.0, 10.0]) == 10.0 by {
      assert [0.0, 10.0][1..] == [10.0];
    }
  }

  lemma OneLevel(level: PriceLevel, q: real)
    ensures Value([level], [q]) == q * level.price && Sum([q]) == q
  {
  }

  // ----- what a dust stop loses -----

  /** A pair that pays, and of which the fills `f` and `g` leave more than dust. */
  ghost predicate LivePair(asks: Ladder, bids: Ladder, f: seq<real>, g: seq<real>, i: nat, j: nat)
    requires |f| == |asks| && |g| == |bids|
  {
    && i < |asks| && j < |bids| && asks[i].price < bids[j].price
    && asks[i].quantity - f[i] > EPSILON && bids[j].quantity - g[j] > EPSILON
  }

  ghost predicate Live(asks: Ladder, bids: Ladder, f: seq<real>, g: seq<real>)
    requires |f| == |asks| && |g| == |bids|
  {
    exists i: nat, j: nat :: LivePair(asks, bids, f, g, i, j)
  }

  /** How much more can be traded on levels `i` and `j` within `cap`. */
  ghost function More(asks: Ladder, bids: Ladder, f: seq<real>, g: seq<real>, cap: real, i: nat, j: nat): real
    requires |f| == |asks| && |g| == |bids| && i < |asks| && j < |bids| && asks[i].price != 0.0
  {
    Min(Min(asks[i].quantity - f[i], bids[j].quantity - g[j]), cap / asks[i].price)
  }

  /** `d` more units at `p` turn `before` into `after`. */
  ghost predicate Adds(after: real, before: real, d: real, p: real) {
    after == before + d * p
  }

  /** Filling `d` more units of a level, or fewer when `d` is negative. */
  lemma Refill(l: Ladder, f: seq<real>, i: nat, d: real, quantity: real, value: real)
    requires Fits(l, f) && i < |l| && 0.0 <= f[i] + d <= l[i].quantity && Totals(l, f, quantity, value)
    ensures Fits(l, Filled(f, i, d)) && Sum(Filled(f, i, d)) == quantity + d
    ensures Adds(Value(l, Filled(f, i, d)), value, d, l[i].price)
  {
    FilledTotals(l, f, i, d);
  }

  /** `cap` pays for `d` units at `p`. */
  ghost predicate Affordable(d: real, p: real, cap: real) {
    d * p <= cap
  }

  lemma StaysWithin(after: real, before: real, d: real, p: real, cap: real)
    requires Adds(after, before, d, p) && Affordable(d, p, cap)
    ensures after <= before + cap
  {
  }

  /** Trading `d` more units at `a` and `b` earns the price difference on each. */
  lemma PairGain(buy: real, sell: real, d: real, a: real, b: real, spent: real, earned: real)
    requires Adds(spent, buy, d, a) && Adds(earned, sell, d, b)
    ensures Adds(earned - spent, sell - buy, d, b - a)
  {
  }

  lemma AddsSomething(after: real, before: real, d: real, p: real)
    requires Adds(after, before, d, p) && ((d > 0.0 && p > 0.0) || (d < 0.0 && p < 0.0))
    ensures after > before
  {
    assert d * p > 0.0;
  }

  lemma CapCovers(d: real, cap: real, p: real)
    requires p > 0.0 && cap > 0.0 && d <= cap / p
    ensures Affordable(d, p, cap) && cap / p > 0.0
  {
    var q := cap / p;
    assert q * p == cap;
    assert (q - d) * p >= 0.0;
  }

  lemma PlanWithMore(asks: Ladder, bids: Ladder, maxNotional: real, w: Walk, i: nat, j: nat, d: real)
    requires asks != [] && bids != [] && WalkFacts(asks, bids, maxNotional, w)
    requires i < |asks| && 0.0 <= d <= asks[i].quantity - w.askFills[i]
    requires j < |bids| && d <= bids[j].quantity - w.bidFills[j]
    requires Affordable(d, asks[i].price, w.cap)
    ensures var x, y := Filled(w.askFills, i, d), Filled(w.bidFills, j, d);
            && Feasible(asks, bids, maxNotional, x, y)
            && Adds(Profit(asks, bids, x, y), GrossProfit(w), d, bids[j].price - asks[i].price)
  {
    var x, y := Filled(w.askFills, i, d), Filled(w.bidFills, j, d);
    Refill(asks, w.askFills, i, d, w.base, w.buy);
    Refill(bids, w.bidFills, j, d, w.base, w.sell);
    StaysWithin(Value(asks, x), w.buy, d, asks[i].price, w.cap);
    PairGain(w.buy, w.sell, d, asks[i].price, bids[j].price, Value(asks, x), Value(bids, y));
  }

  /** A live pair can be traded on top of what a walk did, as far as the pair and the cap reach. */
  lemma LivePairGains(asks: Ladder, bids: Ladder, maxNotional: real, w: Walk, i: nat, j: nat)
    requires Tradable(asks, bids) && WalkFacts(asks, bids, maxNotional, w) && w.cap > 0.0
    requires LivePair(asks, bids, w.askFills, w.bidFills, i, j)
    ensures asks[i].price > 0.0
    ensures var d := More(asks, bids, w.askFills, w.bidFills, w.cap, i, j);
            var x, y := Filled(w.askFills, i, d), Filled(w.bidFills, j, d);
            && d > 0.0
            && Feasible(asks, bids, maxNotional, x, y)
            && Adds(Profit(asks, bids, x, y), GrossProfit(w), d, bids[j].price - asks[i].price)
  {
    BestIsFirst(Ask, asks, i);
    var d := More(asks, bids, w.askFills, w.bidFills, w.cap, i, j);
    CapCovers(d, w.cap, asks[i].price);
    PlanWithMore(asks, bids, maxNotional, w, i, j, d);
  }

  lemma LivePairBeatsTheWalk(asks: Ladder, bids: Ladder, maxNotional: real, i: nat, j: nat)
    requires Tradable(asks, bids) && Final(asks, bids, maxNotional).cap > 0.0
    requires var w := Final(asks, bids, maxNotional); LivePair(asks, bids, w.askFills, w.bidFills, i, j)
    ensures asks[i].price > 0.0
    ensures var w := Final(asks, bids, maxNotional);
            var d := More(asks, bids, w.askFills, w.bidFills, w.cap, i, j);
            var x, y := Filled(w.askFills, i, d), Filled(w.bidFills, j, d);
            && d > 0.0
            && Feasible(asks, bids, maxNotional, x, y)
            && Adds(Profit(asks, bids, x, y), GrossProfit(w), d, bids[j].price - asks[i].price)
  {
    FinalInv(asks, bids, maxNotional);
    LivePairGains(asks, bids, maxNotional, Final(asks, bids, maxNotional), i, j);
  }

  /** The first level from `i` on of which more than dust is left. */
  ghost function FirstLive(l: Ladder, f: seq<real>, i: nat): (r: nat)
    requires |f| == |l| && i <= |l|
    ensures i <= r <= |l|
    ensures forall k :: i <= k < r ==> l[k].quantity - f[k] <= EPSILON
    ensures r < |l| ==> l[r].quantity - f[r] > EPSILON
    decreases |l| - i
  {
    if i < |l| && l[i].quantity - f[i] <= EPSILON then FirstLive(l, f, i + 1) else i
  }

  /** A level that is worth nothing unfilled, or of which only dust is left. */
  lemma DustLevel(level: PriceLevel, f: real, alpha: real, beta: real, edge: real, unit: real)
    requires level.quantity - f <= EPSILON && Margin(level, alpha, beta) <= edge
    requires Margin(level, alpha, beta) < 0.0 ==> f == 0.0
    requires edge >= 0.0 && unit == EPSILON * edge
    ensures WellFilled(level, f, alpha, beta, unit)
  {
    if Margin(level, alpha, beta) >= 0.0 {
      FilledEnough(level, f, alpha, beta, EPSILON, edge, unit);
    }
  }

  /** Under an asset price between the last match and the first live level, a side of the walk forgoes
      at most the worth of dust on every level. */
  lemma DustSide(side: Side, l: Ladder, i: nat, left: real, f: seq<real>, last: real, pi: real, edge: real, unit: real)
    requires l != [] && WellFormed(side, l) && SideInv(side, l, i, left, f, last)
    requires !Before(side, pi, last)
    requires var r := FirstLive(l, f, i); r < |l| ==> !Before(side, l[r].price, pi)
    requires Margin(l[0], AssetPrice(side, pi), MoneyPrice(side)) <= edge
    requires edge >= 0.0 && unit == EPSILON * edge
    ensures BestResponse(l, f, |l|, AssetPrice(side, pi), MoneyPrice(side), unit)
  {
    var alpha, beta, r := AssetPrice(side, pi), MoneyPrice(side), FirstLive(l, f, i);
    forall k | 0 <= k < |l|
      ensures WellFilled(l[k], f[k], alpha, beta, unit)
    {
      BestIsFirst(side, l, k);
      if k < r {
        DustLevel(l[k], f[k], alpha, beta, edge, unit);
      } else {
        BestIsFirst(side, l[r..], k - r);
        assert NotWorthFilling(l[k], f[k], alpha, beta);
      }
    }
  }

  /** Without a live pair some price lies between the last match and all that is left of either side. */
  lemma DeadPrice(asks: Ladder, bids: Ladder, maxNotional: real, w: Walk) returns (pi: real)
    requires Tradable(asks, bids) && WalkFacts(asks, bids, maxNotional, w) && bids[0].price >= 0.0
    requires !Live(asks, bids, w.askFills, w.bidFills)
    ensures w.lastAsk <= pi <= w.lastBid
    ensures pi - asks[0].price <= Edge(asks, bids) && bids[0].price - pi <= Edge(asks, bids)
    ensures var r := FirstLive(asks, w.askFills, w.ask); r < |asks| ==> pi <= asks[r].price
    ensures var t := FirstLive(bids, w.bidFills, w.bid); t < |bids| ==> bids[t].price <= pi
  {
    var r, t := FirstLive(asks, w.askFills, w.ask), FirstLive(bids, w.bidFills, w.bid);
    pi := w.lastBid;
    if r < |asks| && asks[r].price < w.lastBid {
      pi := asks[r].price;
      BestIsFirst(Ask, asks, r);
      assert !LivePair(asks, bids, w.askFills, w.bidFills, r, t);
    }
  }

  /** Dual prices for a walk that left no live pair. */
  lemma DeadStop(asks: Ladder, bids: Ladder, maxNotional: real, w: Walk, unit: real) returns (pi: real)
    requires Tradable(asks, bids) && WalkFacts(asks, bids, maxNotional, w) && bids[0].price >= 0.0
    requires !Live(asks, bids, w.askFills, w.bidFills) && unit == EPSILON * Edge(asks, bids)
    ensures Certificate(asks, bids, w, |asks|, |bids|, pi, 1.0, unit)
  {
    pi := DeadPrice(asks, bids, maxNotional, w);
    DustSide(Ask, asks, w.ask, w.askLeft, w.askFills, w.lastAsk, pi, Edge(asks, bids), unit);
    DustSide(Bid, bids, w.bid, w.bidLeft, w.bidFills, w.lastBid, pi, Edge(asks, bids), unit);
  }

  /** Some plan earns more than `profit`. */
  ghost predicate Beaten(asks: Ladder, bids: Ladder, maxNotional: real, profit: real) {
    exists x, y :: Feasible(asks, bids, maxNotional, x, y) && Profit(asks, bids, x, y) > profit
  }

  lemma LiveIsBeaten(asks: Ladder, bids: Ladder, maxNotional: real, w: Walk)
    requires Tradable(asks, bids) && WalkFacts(asks, bids, maxNotional, w) && w.cap > 0.0
    requires Live(asks, bids, w.askFills, w.bidFills)
    ensures Beaten(asks, bids, maxNotional, GrossProfit(w))
  {
    var i: nat, j: nat :| LivePair(asks, bids, w.askFills, w.bidFills, i, j);
    LivePairGains(asks, bids, maxNotional, w, i, j);
    var d := More(asks, bids, w.askFills, w.bidFills, w.cap, i, j);
    var x, y := Filled(w.askFills, i, d), Filled(w.bidFills, j, d);
    AddsSomething(Profit(asks, bids, x, y), GrossProfit(w), d, bids[j].price - asks[i].price);
  }

  /** EPSILON times the best price difference for every level. */
  ghost function DustPerLevel(asks: Ladder, bids: Ladder): real
    requires asks != [] && bids != []
  {
    Forgone(|asks|, EPSILON * Edge(asks, bids)) + Forgone(|bids|, EPSILON * Edge(asks, bids))
  }

  lemma DeadIsNearlyOptimal(asks: Ladder, bids: Ladder, maxNotional: real, w: Walk)
    requires Tradable(asks, bids) && WalkFacts(asks, bids, maxNotional, w) && bids[0].price >= 0.0
    requires !Live(asks, bids, w.askFills, w.bidFills)
    ensures !Beaten(asks, bids, maxNotional, GrossProfit(w) + DustPerLevel(asks, bids))
  {
    var unit := EPSILON * Edge(asks, bids);
    var pi := DeadStop(asks, bids, maxNotional, w, unit);
    forall x, y | Feasible(asks, bids, maxNotional, x, y)
      ensures Profit(asks, bids, x, y) <= GrossProfit(w) + DustPerLevel(asks, bids)
    {
      CertificateBounds(asks, bids, maxNotional, w, x, y, |asks|, |bids|, pi, 1.0, unit, 0.0);
    }
  }

  lemma StoppedPays(asks: Ladder, bids: Ladder, w: Walk)
    requires Tradable(asks, bids) && StoppedByDust(asks, bids, w)
    ensures w.cap > 0.0 && bids[0].price > 0.0
  {
    BestIsFirst(Bid, bids, w.bid);
  }

  /** What a walk that dust stopped has lost: if its fills leave a live pair, some plan earns more; if
      they leave none, no plan earns more than EPSILON times the best price difference a level. */
  lemma DustStopDichotomy(asks: Ladder, bids: Ladder, maxNotional: real)
    requires Tradable(asks, bids) && StoppedByDust(asks, bids, Final(asks, bids, maxNotional))
    ensures var w := Final(asks, bids, maxNotional);
            if Live(asks, bids, w.askFills, w.bidFills)
            then Beaten(asks, bids, maxNotional, GrossProfit(w))
            else !Beaten(asks, bids, maxNotional, GrossProfit(w) + DustPerLevel(asks, bids))
  {
    var w := Final(asks, bids, maxNotional);
    FinalInv(asks, bids, maxNotional);
    StoppedPays(asks, bids, w);
    if Live(asks, bids, w.askFills, w.bidFills) {
      LiveIsBeaten(asks, bids, maxNotional, w);
    } else {
      DeadIsNearlyOptimal(asks, bids, maxNotional, w);
    }
  }

  // ----- the books on which dust stops the walk -----

  /** Quantity in front of the first dust level; all of the side when it has none. */
  ghost function SafeQuantity(l: Ladder): (r: real) {
    if l == [] || l[0].quantity <= EPSILON then 0.0 else l[0].quantity + SafeQuantity(l[1..])
  }

  /** The best `q` units of a side: how much of each level that is. */
  ghost function BestFills(l: Ladder, q: real): (f: seq<real>)
    ensures |f| == |l|
  {
    if l == [] then []
    else if q < l[0].quantity then [q] + Zeros(|l| - 1)
    else [l[0].quantity] + BestFills(l[1..], q - l[0].quantity)
  }

  /** The level that follows the best `q` units, or the level they end in. */
  ghost function LevelAt(l: Ladder, q: real): (i: nat)
    ensures i <= |l|
  {
    if l == [] || q < l[0].quantity then 0 else 1 + LevelAt(l[1..], q - l[0].quantity)
  }

  /** What the best `q` units cost. */
  ghost function CostOf(l: Ladder, q: real): real {
    if l == [] then 0.0
    else if q < l[0].quantity then Notional(q, l[0].price)
    else Notional(l[0].quantity, l[0].price) + CostOf(l[1..], q - l[0].quantity)
  }

  ghost predicate PositivePrices(l: Ladder) {
    forall k :: 0 <= k < |l| ==> l[k].price > 0.0
  }

  lemma {:induction false} BestFillsFit(l: Ladder, q: real)
    requires Positive(l) && q >= 0.0
    ensures Fits(l, BestFills(l, q))
    ensures q <= SafeQuantity(l) ==> Sum(BestFills(l, q)) == q
  {
    if l != [] {
      if q < l[0].quantity {
        ZeroTotals(l[1..], |l| - 1);
        assert BestFills(l, q)[1..] == Zeros(|l| - 1);
      } else {
        BestFillsFit(l[1..], q - l[0].quantity);
        assert BestFills(l, q)[1..] == BestFills(l[1..], q - l[0].quantity);
      }
    }
  }

  lemma {:induction false} CostIsValue(l: Ladder, q: real)
    ensures CostOf(l, q) == Value(l, BestFills(l, q))
  {
    if l != [] {
      if q < l[0].quantity {
        assert BestFills(l, q)[1..] == Zeros(|l| - 1);
        ZeroTotals(l[1..], |l| - 1);
      } else {
        assert BestFills(l, q)[1..] == BestFills(l[1..], q - l[0].quantity);
        CostIsValue(l[1..], q - l[0].quantity);
      }
    }
  }

  lemma MoreCostsMore(q: real, q': real, p: real)
    requires q <= q' && p >= 0.0
    ensures Notional(q, p) <= Notional(q', p)
    ensures q >= 0.0 ==> Notional(q, p) >= 0.0
  {
    assert (q' - q) * p >= 0.0;
  }

  lemma {:induction false} LevelAtMonotone(l: Ladder, q: real, q': real)
    requires q <= q'
    ensures LevelAt(l, q) <= LevelAt(l, q')
  {
    if l != [] && l[0].quantity <= q {
      LevelAtMonotone(l[1..], q - l[0].quantity, q' - l[0].quantity);
    }
  }

  lemma {:induction false} CostMonotone(l: Ladder, q: real, q': real)
    requires Positive(l) && PositivePrices(l) && 0.0 <= q <= q'
    ensures 0.0 <= CostOf(l, q) <= CostOf(l, q')
  {
    if l != [] {
      var head := l[0];
      if head.quantity <= q {
        MoreCostsMore(head.quantity, head.quantity, head.price);
        CostMonotone(l[1..], q - head.quantity, q' - head.quantity);
      } else if head.quantity <= q' {
        MoreCostsMore(q, head.quantity, head.price);
        CostMonotone(l[1..], 0.0, q' - head.quantity);
      } else {
        MoreCostsMore(q, q', head.price);
      }
    }
  }

  /** Fills that reach only levels in front of the first dust level. */
  lemma {:induction false} FillsAreSafe(l: Ladder, f: seq<real>, n: nat)
    requires Fits(l, f) && n <= |l|
    requires forall k :: 0 <= k < n ==> l[k].quantity > EPSILON
    requires forall k :: n <= k < |l| ==> f[k] == 0.0
    ensures Sum(f) <= SafeQuantity(l)
  {
    if n > 0 {
      FillsAreSafe(l[1..], f[1..], n - 1);
    } else {
      assert f == Zeros(|l|);
      ZeroTotals(l, |l|);
      SafeNotNegative(l);
    }
  }

  lemma {:induction false} SafeNotNegative(l: Ladder)
    ensures SafeQuantity(l) >= 0.0
  {
    if l != [] && l[0].quantity > EPSILON {
      SafeNotNegative(l[1..]);
    }
  }

  /** Levels before `i` are filled, level `i` is not, and none behind it is touched. */
  ghost predicate FilledTo(l: Ladder, f: seq<real>, i: nat) {
    && Fits(l, f) && i <= |l|
    && (forall k :: 0 <= k < i ==> f[k] == l[k].quantity)
    && (forall k :: i < k < |l| ==> f[k] == 0.0)
    && (i < |l| ==> f[i] < l[i].quantity)
  }

  lemma FilledToTail(l: Ladder, f: seq<real>, i: nat)
    requires FilledTo(l, f, i) && i > 0
    ensures FilledTo(l[1..], f[1..], i - 1) && f == [l[0].quantity] + f[1..]
    ensures Sum(f) == l[0].quantity + Sum(f[1..])
  {
  }

  /** The best units beyond the first level. */
  lemma BestBeyondFirst(l: Ladder, q: real)
    requires l != [] && q >= 0.0
    ensures BestFills(l, l[0].quantity + q) == [l[0].quantity] + BestFills(l[1..], q)
    ensures LevelAt(l, l[0].quantity + q) == 1 + LevelAt(l[1..], q)
  {
    assert (l[0].quantity + q) - l[0].quantity == q;
  }

  lemma FilledToFirst(l: Ladder, f: seq<real>)
    requires FilledTo(l, f, 0)
    ensures l != [] ==> f == [f[0]] + Zeros(|l| - 1) && Sum(f) == f[0]
  {
    if l != [] {
      assert f[1..] == Zeros(|l| - 1);
      ZeroTotals(l[1..], |l| - 1);
    }
  }

  /** Fills of that form are the best units of the side. */
  lemma {:induction false} FilledToIsBest(l: Ladder, f: seq<real>, i: nat)
    requires FilledTo(l, f, i)
    ensures Sum(f) >= 0.0 && f == BestFills(l, Sum(f)) && i == LevelAt(l, Sum(f))
  {
    if i == 0 {
      FilledToFirst(l, f);
    } else {
      FilledToTail(l, f, i);
      FilledToIsBest(l[1..], f[1..], i - 1);
      BestBeyondFirst(l, Sum(f[1..]));
    }
  }

  /** And when they stop at a dust level or at the end, they are everything in front of it. */
  lemma {:induction false} FilledToDust(l: Ladder, f: seq<real>, i: nat)
    requires FilledTo(l, f, i)
    requires forall k :: 0 <= k < i ==> l[k].quantity > EPSILON
    requires i < |l| ==> l[i].quantity <= EPSILON && f[i] == 0.0
    ensures Sum(f) == SafeQuantity(l)
  {
    if i > 0 {
      FilledToDust(l[1..], f[1..], i - 1);
    } else {
      assert f == Zeros(|l|);
      ZeroTotals(l, |l|);
    }
  }

  /** What can be traded before either side comes to a dust level. */
  ghost function SafeBase(asks: Ladder, bids: Ladder): real {
    Min(SafeQuantity(asks), SafeQuantity(bids))
  }

  /** `cap` is more than EPSILON, and buys more than EPSILON at `price`. */
  ghost predicate BuysMoreThanDust(cap: real, price: real) {
    price > 0.0 && cap > EPSILON && cap / price > EPSILON
  }

  /** After trading the best `q` units both sides go on, at a pair that pays, and the cap has more than
      EPSILON left, in money and in units of that pair. */
  ghost predicate GoesOnAfter(asks: Ladder, bids: Ladder, maxNotional: real, q: real) {
    var i, j := LevelAt(asks, q), LevelAt(bids, q);
    && i < |asks| && j < |bids|
    && asks[i].price < bids[j].price
    && BuysMoreThanDust(maxNotional - CostOf(asks, q), asks[i].price)
  }

  /** The caller's test: everything but dust is in place for the walk to go on. */
  ghost predicate DustAhead(asks: Ladder, bids: Ladder, maxNotional: real) {
    GoesOnAfter(asks, bids, maxNotional, SafeBase(asks, bids))
  }

  lemma SideIsSafe(side: Side, l: Ladder, i: nat, left: real, f: seq<real>, last: real)
    requires SideInv(side, l, i, left, f, last)
    ensures Sum(f) <= SafeQuantity(l)
  {
    FillsAreSafe(l, f, if i < |l| && f[i] > 0.0 then i + 1 else i);
  }

  lemma SideIsFilledTo(side: Side, l: Ladder, i: nat, left: real, f: seq<real>, last: real, cap: real)
    requires SideInv(side, l, i, left, f, last) && Positive(l) && PassedWithin(l, i, f, last, cap, 0.0) && cap != 0.0
    ensures FilledTo(l, f, i)
    ensures i < |l| && left <= EPSILON ==> Sum(f) == SafeQuantity(l)
  {
    if i < |l| && left <= EPSILON {
      FilledToDust(l, f, i);
    }
  }

  /** A walk over whole lots or dust has filled the best units of each side, unless the cap cut it short. */
  lemma FillsAreBest(asks: Ladder, bids: Ladder, maxNotional: real, lot: real, w: Walk)
    requires Tradable(asks, bids) && WalkInv(asks, bids, maxNotional, w) && LotInv(asks, bids, lot, w) && w.cap != 0.0
    ensures w.askFills == BestFills(asks, w.base) && w.ask == LevelAt(asks, w.base)
    ensures w.bidFills == BestFills(bids, w.base) && w.bid == LevelAt(bids, w.base)
    ensures w.cap == maxNotional - CostOf(asks, w.base)
    ensures w.ask < |asks| && w.askLeft <= EPSILON ==> w.base == SafeQuantity(asks)
    ensures w.bid < |bids| && w.bidLeft <= EPSILON ==> w.base == SafeQuantity(bids)
  {
    SideIsFilledTo(Ask, asks, w.ask, w.askLeft, w.askFills, w.lastAsk, w.cap);
    SideIsFilledTo(Bid, bids, w.bid, w.bidLeft, w.bidFills, w.lastBid, w.cap);
    FilledToIsBest(asks, w.askFills, w.ask);
    FilledToIsBest(bids, w.bidFills, w.bid);
    CostIsValue(asks, w.base);
  }

  /** The pair at which a walk stands that has filled the best `q` units. */
  lemma GoesOnAt(asks: Ladder, bids: Ladder, maxNotional: real, q: real, i: nat, j: nat, cap: real)
    requires i == LevelAt(asks, q) && j == LevelAt(bids, q) && cap == maxNotional - CostOf(asks, q)
    requires i < |asks| && j < |bids| && asks[i].price < bids[j].price && BuysMoreThanDust(cap, asks[i].price)
    ensures GoesOnAfter(asks, bids, maxNotional, q)
  {
  }

  lemma BaseIsSafe(asks: Ladder, bids: Ladder, maxNotional: real, w: Walk)
    requires Tradable(asks, bids) && WalkInv(asks, bids, maxNotional, w)
    ensures w.base <= SafeBase(asks, bids)
  {
    SideIsSafe(Ask, asks, w.ask, w.askLeft, w.askFills, w.lastAsk);
    SideIsSafe(Bid, bids, w.bid, w.bidLeft, w.bidFills, w.lastBid);
  }

  lemma AskPrices(asks: Ladder)
    requires WellFormed(Ask, asks) && (asks != [] ==> asks[0].price > 0.0)
    ensures PositivePrices(asks)
  {
    forall k | 0 <= k < |asks| ensures asks[k].price > 0.0 {
      BestIsFirst(Ask, asks, k);
    }
  }

  lemma SpendsForBest(asks: Ladder, bids: Ladder, maxNotional: real, lot: real, w: Walk, x: seq<real>)
    requires Tradable(asks, bids) && WalkInv(asks, bids, maxNotional, w) && LotInv(asks, bids, lot, w)
    requires Fits(asks, x) && Sum(x) == w.base
    ensures w.buy <= Value(asks, x)
  {
    NothingResidual(asks, bids, lot, w);
    NoneCheaper(asks, bids, maxNotional, w, x, 0.0, 0.0);
  }

  /** A walk that traded no more than `q` spent no more than the best `q` units cost. */
  lemma SpendsUpTo(asks: Ladder, bids: Ladder, maxNotional: real, lot: real, w: Walk, q: real)
    requires Tradable(asks, bids) && WalkInv(asks, bids, maxNotional, w) && LotInv(asks, bids, lot, w)
    requires w.base <= q
    ensures w.buy <= CostOf(asks, q)
  {
    BaseIsSafe(asks, bids, maxNotional, w);
    AskPrices(asks);
    BestFillsFit(asks, w.base);
    CostIsValue(asks, w.base);
    SpendsForBest(asks, bids, maxNotional, lot, w, BestFills(asks, w.base));
    CostMonotone(asks, w.base, q);
  }

  lemma DustStopIsAhead(asks: Ladder, bids: Ladder, maxNotional: real, lot: real, w: Walk)
    requires Tradable(asks, bids) && WalkInv(asks, bids, maxNotional, w) && LotInv(asks, bids, lot, w)
    requires StoppedByDust(asks, bids, w)
    ensures DustAhead(asks, bids, maxNotional) && w.base == SafeBase(asks, bids)
  {
    BaseIsSafe(asks, bids, maxNotional, w);
    FillsAreBest(asks, bids, maxNotional, lot, w);
    assert w.base == SafeBase(asks, bids);
    GoesOnAt(asks, bids, maxNotional, w.base, w.ask, w.bid, w.cap);
  }

  /** A larger cap at a smaller price buys more than dust too. */
  lemma MoreThanDust(cap: real, a: real, cap': real, a': real)
    requires 0.0 < a <= a' && cap' <= cap && BuysMoreThanDust(cap', a')
    ensures BuysMoreThanDust(cap, a)
  {
    QuotientBound(cap', a');
    QuotientBound(cap, a);
    assert EPSILON * (a' - a) >= 0.0;
  }

  lemma NotRunningForDust(asks: Ladder, bids: Ladder, w: Walk)
    requires Shaped(asks, bids, w) && !Running(asks, bids, w)
    requires InRange(asks, bids, w) && Uncrossed(asks, bids, w)
    requires BuysMoreThanDust(w.cap, asks[w.ask].price)
    ensures StoppedByDust(asks, bids, w)
  {
  }

  /** A walk that stands no further than levels `i` and `j`, a pair that pays, meets at least as good a pair. */
  lemma PaysBefore(asks: Ladder, bids: Ladder, w: Walk, i: nat, j: nat)
    requires Tradable(asks, bids) && w.ask <= i < |asks| && w.bid <= j < |bids|
    requires asks[i].price < bids[j].price
    ensures InRange(asks, bids, w) && Uncrossed(asks, bids, w) && asks[w.ask].price <= asks[i].price
  {
    BestIsFirst(Ask, asks, w.ask);
    assert w.ask < i ==> Before(Ask, asks[w.ask].price, asks[i].price);
    assert w.bid < j ==> Before(Bid, bids[w.bid].price, bids[j].price);
  }

  /** A walk that traded no more than `q` stands no further than the pair after `q`, with no less cap. */
  lemma NoFurtherThan(asks: Ladder, bids: Ladder, maxNotional: real, lot: real, w: Walk, q: real)
    requires Tradable(asks, bids) && WalkInv(asks, bids, maxNotional, w) && LotInv(asks, bids, lot, w)
    requires w.base <= q && maxNotional - CostOf(asks, q) > 0.0
    ensures w.cap >= maxNotional - CostOf(asks, q)
    ensures w.ask <= LevelAt(asks, q) && w.bid <= LevelAt(bids, q)
  {
    SpendsUpTo(asks, bids, maxNotional, lot, w, q);
    FillsAreBest(asks, bids, maxNotional, lot, w);
    LevelAtMonotone(asks, w.base, q);
    LevelAtMonotone(bids, w.base, q);
  }

  /** And if everything but dust is in place for going on after `q`, only dust can have stopped it. */
  lemma OnlyDustStops(asks: Ladder, bids: Ladder, maxNotional: real, lot: real, w: Walk, q: real)
    requires Tradable(asks, bids) && WalkInv(asks, bids, maxNotional, w) && LotInv(asks, bids, lot, w)
    requires !Running(asks, bids, w) && w.base <= q && GoesOnAfter(asks, bids, maxNotional, q)
    ensures StoppedByDust(asks, bids, w)
  {
    var i, j, cap := LevelAt(asks, q), LevelAt(bids, q), maxNotional - CostOf(asks, q);
    NoFurtherThan(asks, bids, maxNotional, lot, w, q);
    PaysBefore(asks, bids, w, i, j);
    MoreThanDust(w.cap, asks[w.ask].price, cap, asks[i].price);
    NotRunningForDust(asks, bids, w);
  }

  /** On books whose quantities are whole lots or dust, the caller's test decides whether dust stops
      the walk, and at a dust stop the walk has filled the best units up to the first dust level. */
  lemma DustStopsExactlyWhen(asks: Ladder, bids: Ladder, maxNotional: real, lot: real)
    requires Tradable(asks, bids) && InLotsOrDust(lot, asks) && InLotsOrDust(lot, bids)
    ensures var w := Final(asks, bids, maxNotional); var q := SafeBase(asks, bids);
            && (StoppedByDust(asks, bids, w) <==> DustAhead(asks, bids, maxNotional))
            && (StoppedByDust(asks, bids, w) ==> w.askFills == BestFills(asks, q) && w.bidFills == BestFills(bids, q))
  {
    var w := Final(asks, bids, maxNotional);
    FinalLots(asks, bids, maxNotional, lot);
    if StoppedByDust(asks, bids, w) {
      DustStopIsAhead(asks, bids, maxNotional, lot, w);
      FillsAreBest(asks, bids, maxNotional, lot, w);
    }
    if DustAhead(asks, bids, maxNotional) {
      BaseIsSafe(asks, bids, maxNotional, w);
      OnlyDustStops(asks, bids, maxNotional, lot, w, SafeBase(asks, bids));
    }
  }

  /** The walk meets a dust level in front of a pair worth trading: the condition, on the two sides and
      the cap alone, under which dust costs real profit. */
  ghost predicate LosesToDust(asks: Ladder, bids: Ladder, maxNotional: real) {
    var q := SafeBase(asks, bids);
    DustAhead(asks, bids, maxNotional) && Live(asks, bids, BestFills(asks, q), BestFills(bids, q))
  }

  /** On books whose quantities are whole lots or dust: where the condition holds some plan beats the
      walk; where it does not, no plan does, but for a negligible unspent cap or, behind a harmless
      dust stop, EPSILON times the best price difference a level. */
  lemma OptimalUnlessDustCosts(asks: Ladder, bids: Ladder, maxNotional: real, lot: real)
    requires Tradable(asks, bids) && InLotsOrDust(lot, asks) && InLotsOrDust(lot, bids)
    ensures var w := Final(asks, bids, maxNotional);
            if LosesToDust(asks, bids, maxNotional)
            then Beaten(asks, bids, maxNotional, GrossProfit(w))
            else if DustAhead(asks, bids, maxNotional)
            then !Beaten(asks, bids, maxNotional, GrossProfit(w) + DustPerLevel(asks, bids))
            else NegligibleSlack(asks, bids, w) &&
                 !Beaten(asks, bids, maxNotional, GrossProfit(w) + CapSlack(asks, bids, w))
  {
    var w := Final(asks, bids, maxNotional);
    DustStopsExactlyWhen(asks, bids, maxNotional, lot);
    if DustAhead(asks, bids, maxNotional) {
      DustStopDichotomy(asks, bids, maxNotional);
    } else {
      SlackNegligibleUnlessDust(asks, bids, maxNotional);
      forall x, y | Feasible(asks, bids, maxNotional, x, y)
        ensures Profit(asks, bids, x, y) <= GrossProfit(w) + CapSlack(asks, bids, w)
      {
        OnlyTheCapIsForgone(asks, bids, maxNotional, lot, x, y);
      }
    }
  }
}
