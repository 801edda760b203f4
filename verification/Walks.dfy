/** The depth walk: buying up the asks of one book and selling into the bids of another, best
    levels first, until the prices cross, a side is used up or the buy notional cap is reached.

    `Walk` holds the local variables of the loop, and beside them its history: how much of every
    level was filled, and the prices of the last pair of levels that was matched. `Step` is one
    iteration. The invariant, the termination bound and the effect of lot-sized quantities are
    proved here; what they say about other ways of trading is in `Optimality`.
  */
module Walks {
  import opened Ladders

  const EPSILON: real := 0.000000000001

  datatype Walk = Walk(
    ask: nat, bid: nat, askLeft: real, bidLeft: real, cap: real,
    base: real, buy: real, sell: real,
    askFills: seq<real>, bidFills: seq<real>, lastAsk: real, lastBid: real)

  function Zeros(n: nat): seq<real> {
    seq(n, _ => 0.0)
  }

  function Start(asks: Ladder, bids: Ladder, maxNotional: real): Walk
    requires asks != [] && bids != []
  {
    Walk(0, 0, asks[0].quantity, bids[0].quantity, maxNotional, 0.0, 0.0, 0.0,
         Zeros(|asks|), Zeros(|bids|), 0.0, bids[0].price)
  }

  function Min(a: real, b: real): real {
    if b < a then b else a
  }

  predicate InRange(asks: Ladder, bids: Ladder, w: Walk) {
    w.ask < |asks| && w.bid < |bids|
  }

  /** Both prices are positive and selling still pays more than buying. */
  predicate Uncrossed(asks: Ladder, bids: Ladder, w: Walk)
    requires InRange(asks, bids, w)
  {
    0.0 < asks[w.ask].price < bids[w.bid].price
  }

  function Amount(asks: Ladder, bids: Ladder, w: Walk): real
    requires InRange(asks, bids, w) && Uncrossed(asks, bids, w)
  {
    Min(Min(w.askLeft, w.bidLeft), w.cap / asks[w.ask].price)
  }

  predicate Running(asks: Ladder, bids: Ladder, w: Walk) {
    && InRange(asks, bids, w)
    && w.cap > EPSILON
    && Uncrossed(asks, bids, w)
    && Amount(asks, bids, w) > EPSILON
  }

  /** The level a side stands at when `left` of level `i` remains. */
  function NextIndex(i: nat, left: real): nat {
    if left <= EPSILON then i + 1 else i
  }

  function NextLeft(l: Ladder, i: nat, left: real): real {
    if left <= EPSILON && i + 1 < |l| then l[i + 1].quantity else left
  }

  function Filled(fills: seq<real>, i: nat, d: real): seq<real>
    requires i < |fills|
  {
    fills[i := fills[i] + d]
  }

  function Notional(quantity: real, price: real): real {
    quantity * price
  }

  /** Matching `d` units of the current pair of levels. */
  function Matched(asks: Ladder, bids: Ladder, w: Walk, d: real): Walk
    requires InRange(asks, bids, w) && |w.askFills| == |asks| && |w.bidFills| == |bids|
  {
    var a, b := asks[w.ask].price, bids[w.bid].price;
    Walk(
      NextIndex(w.ask, w.askLeft - d), NextIndex(w.bid, w.bidLeft - d),
      NextLeft(asks, w.ask, w.askLeft - d), NextLeft(bids, w.bid, w.bidLeft - d),
      w.cap - Notional(d, a),
      w.base + d, w.buy + Notional(d, a), w.sell + Notional(d, b),
      Filled(w.askFills, w.ask, d), Filled(w.bidFills, w.bid, d), a, b)
  }

  function Step(asks: Ladder, bids: Ladder, w: Walk): Walk
    requires Running(asks, bids, w) && |w.askFills| == |asks| && |w.bidFills| == |bids|
  {
    Matched(asks, bids, w, Amount(asks, bids, w))
  }

  /** Every iteration uses up a level or the cap. */
  function Remaining(asks: Ladder, bids: Ladder, w: Walk): nat
    requires w.ask <= |asks| && w.bid <= |bids|
  {
    |asks| - w.ask + |bids| - w.bid + if w.cap > 0.0 then 1 else 0
  }

  ghost predicate Shaped(asks: Ladder, bids: Ladder, w: Walk) {
    w.ask <= |asks| && w.bid <= |bids| && |w.askFills| == |asks| && |w.bidFills| == |bids|
  }

  lemma StepProgress(asks: Ladder, bids: Ladder, w: Walk)
    requires Shaped(asks, bids, w) && Running(asks, bids, w)
    ensures var w' := Step(asks, bids, w);
            && Shaped(asks, bids, w')
            && (w'.cap == 0.0 || w'.ask == w.ask + 1 || w'.bid == w.bid + 1)
            && w'.cap >= 0.0
            && Remaining(asks, bids, w') < Remaining(asks, bids, w)
  {
  }

  ghost function Run(asks: Ladder, bids: Ladder, w: Walk): (r: Walk)
    requires Shaped(asks, bids, w)
    ensures Shaped(asks, bids, r) && !Running(asks, bids, r)
    ensures w.ask <= r.ask && w.bid <= r.bid
    decreases Remaining(asks, bids, w)
  {
    if Running(asks, bids, w) then
      StepProgress(asks, bids, w);
      Run(asks, bids, Step(asks, bids, w))
    else w
  }

  lemma RunMatched(asks: Ladder, bids: Ladder, w: Walk, d: real)
    requires Shaped(asks, bids, w) && Running(asks, bids, w) && d == Amount(asks, bids, w)
    ensures var w' := Matched(asks, bids, w, d);
            && Shaped(asks, bids, w') && Remaining(asks, bids, w') < Remaining(asks, bids, w)
            && Run(asks, bids, w) == Run(asks, bids, w')
  {
  }

  /** The walk as the loop leaves it. */
  ghost function Final(asks: Ladder, bids: Ladder, maxNotional: real): Walk
    requires asks != [] && bids != []
  {
    Run(asks, bids, Start(asks, bids, maxNotional))
  }

  /** The walk after at most `n` iterations. */
  ghost function Iterate(asks: Ladder, bids: Ladder, w: Walk, n: nat): (r: Walk)
    requires Shaped(asks, bids, w)
    ensures Shaped(asks, bids, r)
    decreases n
  {
    if n > 0 && Running(asks, bids, w) then
      StepProgress(asks, bids, w);
      Iterate(asks, bids, Step(asks, bids, w), n - 1)
    else w
  }

  lemma {:induction false} IterateToTheEnd(asks: Ladder, bids: Ladder, w: Walk, n: nat)
    requires Shaped(asks, bids, w)
    requires Running(asks, bids, w) ==> n >= |asks| - w.ask + |bids| - w.bid - 1
    ensures Iterate(asks, bids, w, n) == Run(asks, bids, w)
    decreases n
  {
    if Running(asks, bids, w) {
      StepProgress(asks, bids, w);
      IterateToTheEnd(asks, bids, Step(asks, bids, w), n - 1);
    }
  }

  /** The loop runs at most |asks| + |bids| - 1 times, whatever the quantities are. */
  lemma TerminationBound(asks: Ladder, bids: Ladder, maxNotional: real)
    requires asks != [] && bids != []
    ensures Iterate(asks, bids, Start(asks, bids, maxNotional), |asks| + |bids| - 1)
         == Final(asks, bids, maxNotional)
  {
    IterateToTheEnd(asks, bids, Start(asks, bids, maxNotional), |asks| + |bids| - 1);
  }

  // ----- totals -----

  ghost function Sum(f: seq<real>): real {
    if f == [] then 0.0 else f[0] + Sum(f[1..])
  }

  /** What `f` units of each level cost or earn. */
  ghost function Value(l: Ladder, f: seq<real>): real
    requires |l| == |f|
  {
    if f == [] then 0.0 else f[0] * l[0].price + Value(l[1..], f[1..])
  }

  lemma {:induction false} FilledTotals(l: Ladder, f: seq<real>, i: nat, d: real)
    requires |l| == |f| && i < |f|
    ensures Sum(Filled(f, i, d)) == Sum(f) + d
    ensures Value(l, Filled(f, i, d)) == Value(l, f) + d * l[i].price
  {
    var g := Filled(f, i, d);
    if i == 0 {
      assert g[1..] == f[1..];
      assert (f[0] + d) * l[0].price == f[0] * l[0].price + d * l[0].price;
    } else {
      assert g[1..] == Filled(f[1..], i - 1, d);
      FilledTotals(l[1..], f[1..], i - 1, d);
    }
  }

  lemma {:induction false} ZeroTotals(l: Ladder, n: nat)
    requires |l| == n
    ensures Sum(Zeros(n)) == 0.0 && Value(l, Zeros(n)) == 0.0
  {
    if n > 0 {
      assert Zeros(n)[1..] == Zeros(n - 1);
      ZeroTotals(l[1..], n - 1);
    }
  }

  // ----- the invariant -----

  /** Fills that a side can serve. */
  ghost predicate Fits(l: Ladder, f: seq<real>) {
    |f| == |l| && forall k :: 0 <= k < |l| ==> 0.0 <= f[k] <= l[k].quantity
  }

  /** One side of the walk: levels before `i` are filled up to dust, level `i` in part, the rest not
      at all; and the last matched price separates the levels passed from those still ahead. */
  ghost predicate SideInv(side: Side, l: Ladder, i: nat, left: real, f: seq<real>, last: real) {
    && Fits(l, f)
    && i <= |l|
    && (forall k :: 0 <= k < i ==> l[k].quantity - f[k] <= EPSILON && f[k] > EPSILON)
    && (forall k :: 0 <= k < i ==> !Before(side, last, l[k].price))
    && (forall k :: i <= k < |l| ==> !Before(side, l[k].price, last))
    && (forall k :: i < k < |l| ==> f[k] == 0.0)
    && (i < |l| ==>
          && left == l[i].quantity - f[i]
          && (f[i] > 0.0 ==> l[i].price == last && left > EPSILON))
  }

  lemma SideStep(side: Side, l: Ladder, i: nat, left: real, f: seq<real>, last: real, d: real)
    requires WellFormed(side, l) && SideInv(side, l, i, left, f, last)
    requires i < |l| && EPSILON < d <= left
    ensures SideInv(side, l, NextIndex(i, left - d), NextLeft(l, i, left - d), Filled(f, i, d), l[i].price)
    ensures Touched(l, Filled(f, i, d), l[i].price)
  {
    assert Filled(f, i, d)[i] == f[i] + d;
  }

  /** What the walk meets: two sides that are sorted, with positive quantities and positive asks. */
  ghost predicate Tradable(asks: Ladder, bids: Ladder) {
    && asks != [] && bids != []
    && WellFormed(Ask, asks) && WellFormed(Bid, bids)
    && asks[0].price > 0.0
  }

  /** The fills reach a level at the price `p`. */
  ghost predicate Touched(l: Ladder, f: seq<real>, p: real)
    requires |l| == |f|
  {
    exists k :: 0 <= k < |l| && l[k].price == p && f[k] > 0.0
  }

  /** What holds of a walk through two books, whichever pairs it went on to match. */
  ghost predicate WalkFacts(asks: Ladder, bids: Ladder, maxNotional: real, w: Walk)
    requires asks != [] && bids != []
  {
    && Shaped(asks, bids, w)
    && SideInv(Ask, asks, w.ask, w.askLeft, w.askFills, w.lastAsk)
    && SideInv(Bid, bids, w.bid, w.bidLeft, w.bidFills, w.lastBid)
    && Totalled(asks, bids, maxNotional, w)
    && w.base >= 0.0
    && (w.base == 0.0 ==> w.ask == w.bid == 0 && w.buy == 0.0 && w.lastAsk == 0.0 && w.lastBid == bids[0].price)
    && (w.base > 0.0 ==> w.cap >= 0.0 && asks[0].price <= w.lastAsk <= w.lastBid <= bids[0].price)
  }

  /** The walk matches only pairs that pay, and the prices of its last pair are of levels it filled. */
  ghost predicate WalkInv(asks: Ladder, bids: Ladder, maxNotional: real, w: Walk)
    requires asks != [] && bids != []
  {
    && WalkFacts(asks, bids, maxNotional, w)
    && (w.base > 0.0 ==>
          && w.lastAsk < w.lastBid
          && Touched(asks, w.askFills, w.lastAsk)
          && Touched(bids, w.bidFills, w.lastBid))
  }

  lemma StartInv(asks: Ladder, bids: Ladder, maxNotional: real)
    requires Tradable(asks, bids)
    ensures WalkInv(asks, bids, maxNotional, Start(asks, bids, maxNotional))
  {
    ZeroTotals(asks, |asks|);
    ZeroTotals(bids, |bids|);
  }

  lemma AmountFits(asks: Ladder, bids: Ladder, w: Walk)
    requires Running(asks, bids, w)
    ensures EPSILON < Amount(asks, bids, w) <= w.askLeft && Amount(asks, bids, w) <= w.bidLeft
  {
  }

  lemma MatchedSides(asks: Ladder, bids: Ladder, maxNotional: real, w: Walk, d: real)
    requires Tradable(asks, bids) && WalkInv(asks, bids, maxNotional, w) && InRange(asks, bids, w)
    requires EPSILON < d <= w.askLeft && d <= w.bidLeft
    ensures var w' := Matched(asks, bids, w, d);
            && SideInv(Ask, asks, w'.ask, w'.askLeft, w'.askFills, w'.lastAsk)
            && SideInv(Bid, bids, w'.bid, w'.bidLeft, w'.bidFills, w'.lastBid)
            && Touched(asks, w'.askFills, w'.lastAsk)
            && Touched(bids, w'.bidFills, w'.lastBid)
  {
    SideStep(Ask, asks, w.ask, w.askLeft, w.askFills, w.lastAsk, d);
    SideStep(Bid, bids, w.bid, w.bidLeft, w.bidFills, w.lastBid, d);
  }

  /** The totals of a walk are those of its fills; what was spent and what is left make up the cap. */
  ghost predicate Totalled(asks: Ladder, bids: Ladder, maxNotional: real, w: Walk)
    requires Shaped(asks, bids, w)
  {
    && Totals(asks, w.askFills, w.base, w.buy)
    && Totals(bids, w.bidFills, w.base, w.sell)
    && w.buy + w.cap == maxNotional
  }

  ghost predicate Totals(l: Ladder, f: seq<real>, quantity: real, value: real)
    requires |l| == |f|
  {
    Sum(f) == quantity && Value(l, f) == value
  }

  lemma SideTotals(l: Ladder, f: seq<real>, i: nat, d: real, quantity: real, value: real)
    requires |l| == |f| && i < |f| && Totals(l, f, quantity, value)
    ensures Totals(l, Filled(f, i, d), quantity + d, value + d * l[i].price)
  {
    FilledTotals(l, f, i, d);
  }

  lemma MatchedTotals(asks: Ladder, bids: Ladder, maxNotional: real, w: Walk, d: real)
    requires Shaped(asks, bids, w) && InRange(asks, bids, w) && Totalled(asks, bids, maxNotional, w)
    ensures Shaped(asks, bids, Matched(asks, bids, w, d))
    ensures Totalled(asks, bids, maxNotional, Matched(asks, bids, w, d))
  {
    SideTotals(asks, w.askFills, w.ask, d, w.base, w.buy);
    SideTotals(bids, w.bidFills, w.bid, d, w.base, w.sell);
  }

  lemma BestIsFirst(side: Side, l: Ladder, i: nat)
    requires WellFormed(side, l) && i < |l|
    ensures l[0].price == l[i].price || Before(side, l[0].price, l[i].price)
  {
  }

  lemma StepInv(asks: Ladder, bids: Ladder, maxNotional: real, w: Walk)
    requires Tradable(asks, bids) && WalkInv(asks, bids, maxNotional, w) && Running(asks, bids, w)
    ensures WalkInv(asks, bids, maxNotional, Step(asks, bids, w))
  {
    AmountFits(asks, bids, w);
    MatchedSides(asks, bids, maxNotional, w, Amount(asks, bids, w));
    MatchedTotals(asks, bids, maxNotional, w, Amount(asks, bids, w));
    StepProgress(asks, bids, w);
    BestIsFirst(Ask, asks, w.ask);
    BestIsFirst(Bid, bids, w.bid);
  }

  lemma {:induction false} IterateInv(asks: Ladder, bids: Ladder, maxNotional: real, w: Walk, n: nat)
    requires Tradable(asks, bids) && WalkInv(asks, bids, maxNotional, w)
    ensures WalkInv(asks, bids, maxNotional, Iterate(asks, bids, w, n))
    decreases n
  {
    if n > 0 && Running(asks, bids, w) {
      StepInv(asks, bids, maxNotional, w);
      IterateInv(asks, bids, maxNotional, Step(asks, bids, w), n - 1);
    }
  }

  /** Conservation in every iteration: the fills of each side sum to the base quantity, fit the
      levels, leave at most EPSILON of a passed level, and account for the two notionals; and what
      was spent and what is left of the cap make up the cap. */
  lemma EveryIteration(asks: Ladder, bids: Ladder, maxNotional: real, n: nat)
    requires Tradable(asks, bids)
    ensures WalkInv(asks, bids, maxNotional, Iterate(asks, bids, Start(asks, bids, maxNotional), n))
  {
    StartInv(asks, bids, maxNotional);
    IterateInv(asks, bids, maxNotional, Start(asks, bids, maxNotional), n);
  }

  lemma FinalInv(asks: Ladder, bids: Ladder, maxNotional: real)
    requires Tradable(asks, bids)
    ensures WalkInv(asks, bids, maxNotional, Final(asks, bids, maxNotional))
  {
    EveryIteration(asks, bids, maxNotional, |asks| + |bids| - 1);
    TerminationBound(asks, bids, maxNotional);
  }

  // ----- one iteration -----

  /** The loop goes on exactly while both sides have a level, the cap is more than EPSILON, both prices are
      positive and selling pays more, and both levels and the cap have more than EPSILON units. */
  ghost predicate GoesOn(asks: Ladder, bids: Ladder, w: Walk) {
    && w.ask < |asks| && w.bid < |bids|
    && w.cap > 0.000000000001
    && 0.0 < asks[w.ask].price < bids[w.bid].price
    && w.askLeft > 0.000000000001 && w.bidLeft > 0.000000000001
    && w.cap / asks[w.ask].price > 0.000000000001
  }

  /** What one iteration does: it matches as much of the current pair as its two levels and the cap allow,
      and goes to the next level of a side that has at most EPSILON left. */
  lemma IterationMeaning(asks: Ladder, bids: Ladder, w: Walk)
    requires Shaped(asks, bids, w)
    ensures var w' := Iterate(asks, bids, w, 1);
            if GoesOn(asks, bids, w) then
              var a, b, d := asks[w.ask].price, bids[w.bid].price, w'.base - w.base;
              && 0.000000000001 < d <= w.askLeft && d <= w.bidLeft && d <= w.cap / a
              && (d == w.askLeft || d == w.bidLeft || d == w.cap / a)
              && w'.buy == w.buy + Notional(d, a) && w'.sell == w.sell + Notional(d, b)
              && w'.cap == w.cap - Notional(d, a)
              && w'.ask == (if w.askLeft - d <= 0.000000000001 then w.ask + 1 else w.ask)
              && w'.bid == (if w.bidLeft - d <= 0.000000000001 then w.bid + 1 else w.bid)
              && (w'.ask < |asks| ==>
                    w'.askLeft == if w'.ask == w.ask then w.askLeft - d else asks[w'.ask].quantity)
              && (w'.bid < |bids| ==>
                    w'.bidLeft == if w'.bid == w.bid then w.bidLeft - d else bids[w'.bid].quantity)
            else w' == w
  {
    assert Running(asks, bids, w) <==> GoesOn(asks, bids, w);
    if Running(asks, bids, w) {
      assert Iterate(asks, bids, Step(asks, bids, w), 0) == Step(asks, bids, w);
    }
  }

  // ----- lots -----

  function Lots(n: int, lot: real): real {
    n as real * lot
  }

  /** A whole number of lots. */
  ghost predicate Multiple(lot: real, q: real) {
    exists n: int :: q == Lots(n, lot)
  }

  /** All quantities are whole numbers of a lot that is larger than EPSILON. */
  ghost predicate InLots(lot: real, l: Ladder) {
    && lot > EPSILON
    && forall k {:trigger Multiple(lot, l[k].quantity)} :: 0 <= k < |l| ==> Multiple(lot, l[k].quantity)
  }

  ghost predicate WholeOrDust(lot: real, q: real) {
    Multiple(lot, q) || q <= EPSILON
  }

  /** The same, but that some quantities are dust. */
  ghost predicate InLotsOrDust(lot: real, l: Ladder) {
    && lot > EPSILON
    && forall k {:trigger WholeOrDust(lot, l[k].quantity)} :: 0 <= k < |l| ==> WholeOrDust(lot, l[k].quantity)
  }

  lemma MultipleDifference(lot: real, a: real, b: real)
    requires Multiple(lot, a) && Multiple(lot, b)
    ensures Multiple(lot, a - b)
  {
    var m: int :| a == Lots(m, lot);
    var n: int :| b == Lots(n, lot);
    assert Lots(m - n, lot) == Lots(m, lot) - Lots(n, lot);
  }

  lemma LotsGrow(n: int, lot: real)
    requires lot > 0.0
    ensures n >= 1 ==> Lots(n, lot) >= lot
    ensures n <= -1 ==> Lots(n, lot) < 0.0
  {
  }

  lemma SmallMultiple(lot: real, a: real)
    requires lot > EPSILON && Multiple(lot, a) && 0.0 <= a <= EPSILON
    ensures a == 0.0
  {
    var n: int :| a == Lots(n, lot);
    LotsGrow(n, lot);
    assert n == 0;
  }

  /** At most `rho` of a passed level was left, unless the cap cut the last match short. */
  ghost predicate PassedWithin(l: Ladder, i: nat, f: seq<real>, last: real, cap: real, rho: real)
    requires i <= |l| == |f|
  {
    forall k :: 0 <= k < i ==> l[k].quantity - f[k] <= rho || (cap == 0.0 && l[k].price == last)
  }

  ghost predicate LotInv(asks: Ladder, bids: Ladder, lot: real, w: Walk)
    requires Shaped(asks, bids, w)
  {
    && PassedWithin(asks, w.ask, w.askFills, w.lastAsk, w.cap, 0.0)
    && PassedWithin(bids, w.bid, w.bidFills, w.lastBid, w.cap, 0.0)
    && (w.cap != 0.0 ==>
          && (w.ask < |asks| ==> WholeOrDust(lot, w.askLeft))
          && (w.bid < |bids| ==> WholeOrDust(lot, w.bidLeft)))
  }

  /** One side over a step that the cap did not cut short. */
  lemma LotSideStep(side: Side, l: Ladder, i: nat, left: real, f: seq<real>, last: real, cap: real, d: real,
                    lot: real)
    requires SideInv(side, l, i, left, f, last) && InLotsOrDust(lot, l) && i < |l| && 0.0 <= d <= left
    requires forall k :: 0 <= k < i ==> l[k].quantity - f[k] <= 0.0
    requires Multiple(lot, left) && Multiple(lot, d)
    ensures NextIndex(i, left - d) <= |l|
    ensures PassedWithin(l, NextIndex(i, left - d), Filled(f, i, d), l[i].price, cap, 0.0)
    ensures NextIndex(i, left - d) < |l| ==> WholeOrDust(lot, NextLeft(l, i, left - d))
  {
    MultipleDifference(lot, left, d);
    if left - d <= EPSILON {
      SmallMultiple(lot, left - d);
    }
  }

  lemma LotMatched(asks: Ladder, bids: Ladder, maxNotional: real, lot: real, w: Walk, d: real)
    requires Tradable(asks, bids) && WalkInv(asks, bids, maxNotional, w) && InRange(asks, bids, w)
    requires InLotsOrDust(lot, asks) && InLotsOrDust(lot, bids) && LotInv(asks, bids, lot, w) && w.cap != 0.0
    requires w.askLeft > EPSILON && w.bidLeft > EPSILON
    requires d == w.askLeft <= w.bidLeft || d == w.bidLeft <= w.askLeft
    ensures Shaped(asks, bids, Matched(asks, bids, w, d))
    ensures LotInv(asks, bids, lot, Matched(asks, bids, w, d))
  {
    var cap := Matched(asks, bids, w, d).cap;
    LotSideStep(Ask, asks, w.ask, w.askLeft, w.askFills, w.lastAsk, cap, d, lot);
    LotSideStep(Bid, bids, w.bid, w.bidLeft, w.bidFills, w.lastBid, cap, d, lot);
  }

  lemma LotCapped(asks: Ladder, bids: Ladder, maxNotional: real, lot: real, w: Walk, d: real)
    requires Tradable(asks, bids) && WalkInv(asks, bids, maxNotional, w) && InRange(asks, bids, w)
    requires LotInv(asks, bids, lot, w) && w.cap != 0.0 && Matched(asks, bids, w, d).cap == 0.0
    ensures Shaped(asks, bids, Matched(asks, bids, w, d))
    ensures LotInv(asks, bids, lot, Matched(asks, bids, w, d))
  {
  }

  /** What limits a match: one of the two levels, or the cap, which it then uses up. */
  lemma AmountCases(asks: Ladder, bids: Ladder, w: Walk)
    requires Shaped(asks, bids, w) && Running(asks, bids, w)
    ensures var d := Amount(asks, bids, w);
            && w.askLeft > EPSILON && w.bidLeft > EPSILON
            && (Matched(asks, bids, w, d).cap == 0.0
                || d == w.askLeft <= w.bidLeft || d == w.bidLeft <= w.askLeft)
  {
  }

  lemma LotStep(asks: Ladder, bids: Ladder, maxNotional: real, lot: real, w: Walk)
    requires Tradable(asks, bids) && WalkInv(asks, bids, maxNotional, w) && Running(asks, bids, w)
    requires InLotsOrDust(lot, asks) && InLotsOrDust(lot, bids) && LotInv(asks, bids, lot, w)
    ensures Shaped(asks, bids, Step(asks, bids, w))
    ensures LotInv(asks, bids, lot, Step(asks, bids, w))
  {
    AmountCases(asks, bids, w);
    var d := Amount(asks, bids, w);
    if Matched(asks, bids, w, d).cap == 0.0 {
      LotCapped(asks, bids, maxNotional, lot, w, d);
    } else {
      LotMatched(asks, bids, maxNotional, lot, w, d);
    }
  }

  lemma {:induction false} LotIterate(asks: Ladder, bids: Ladder, maxNotional: real, lot: real, w: Walk, n: nat)
    requires Tradable(asks, bids) && WalkInv(asks, bids, maxNotional, w)
    requires InLotsOrDust(lot, asks) && InLotsOrDust(lot, bids) && LotInv(asks, bids, lot, w)
    ensures LotInv(asks, bids, lot, Iterate(asks, bids, w, n))
    decreases n
  {
    if n > 0 && Running(asks, bids, w) {
      StepInv(asks, bids, maxNotional, w);
      LotStep(asks, bids, maxNotional, lot, w);
      LotIterate(asks, bids, maxNotional, lot, Step(asks, bids, w), n - 1);
    }
  }

  /** When the quantities are whole lots, or dust, nothing is left of a passed level, in any iteration:
      the walk stops at dust, and cuts a lot only when the cap does. */
  lemma NoDustOnLots(asks: Ladder, bids: Ladder, maxNotional: real, lot: real, n: nat)
    requires Tradable(asks, bids) && InLotsOrDust(lot, asks) && InLotsOrDust(lot, bids)
    ensures LotInv(asks, bids, lot, Iterate(asks, bids, Start(asks, bids, maxNotional), n))
  {
    StartInv(asks, bids, maxNotional);
    LotIterate(asks, bids, maxNotional, lot, Start(asks, bids, maxNotional), n);
  }

  lemma FinalLots(asks: Ladder, bids: Ladder, maxNotional: real, lot: real)
    requires Tradable(asks, bids) && InLotsOrDust(lot, asks) && InLotsOrDust(lot, bids)
    ensures WalkInv(asks, bids, maxNotional, Final(asks, bids, maxNotional))
    ensures LotInv(asks, bids, lot, Final(asks, bids, maxNotional))
  {
    FinalInv(asks, bids, maxNotional);
    NoDustOnLots(asks, bids, maxNotional, lot, |asks| + |bids| - 1);
    TerminationBound(asks, bids, maxNotional);
  }
}
