/** What the walk achieves among all ways of trading the same two books.

    A plan fills each level within its quantity, buys as much as it sells and spends at most the
    cap. The walk's gross profit is compared with that of every plan by linear-programming duality:
    for each way the loop can stop there is a price `pi` for the traded asset and a price
    `kappa - 1` for the cap under which no plan can do better than the walk did, up to what the walk
    left on passed levels and what it left of the cap.
  */
module Optimality {
  import opened Ladders
  import opened Walks

  ghost predicate Feasible(asks: Ladder, bids: Ladder, maxNotional: real, x: seq<real>, y: seq<real>) {
    Fits(asks, x) && Fits(bids, y) && Sum(x) == Sum(y) && Value(asks, x) <= maxNotional
  }

  /** Gross profit of buying `x` and selling `y`. */
  ghost function Profit(asks: Ladder, bids: Ladder, x: seq<real>, y: seq<real>): real
    requires |x| == |asks| && |y| == |bids|
  {
    Value(bids, y) - Value(asks, x)
  }

  ghost function GrossProfit(w: Walk): real {
    w.sell - w.buy
  }

  // ----- one side under linear prices -----

  /** What a unit of a level is worth under prices `alpha` for the asset and `beta` for money. */
  ghost function Margin(level: PriceLevel, alpha: real, beta: real): real {
    alpha + beta * level.price
  }

  ghost function Gain(l: Ladder, f: seq<real>, alpha: real, beta: real): real
    requires |l| == |f|
  {
    if f == [] then 0.0 else f[0] * Margin(l[0], alpha, beta) + Gain(l[1..], f[1..], alpha, beta)
  }

  /** A level worth filling, and filled until no more than `unit` is forgone on it. */
  ghost predicate WorthFilling(level: PriceLevel, f: real, alpha: real, beta: real, unit: real) {
    Margin(level, alpha, beta) >= 0.0 && (level.quantity - f) * Margin(level, alpha, beta) <= unit
  }

  /** A level not worth filling, and filled only if it is worth exactly nothing. */
  ghost predicate NotWorthFilling(level: PriceLevel, f: real, alpha: real, beta: real) {
    Margin(level, alpha, beta) <= 0.0 && (f == 0.0 || Margin(level, alpha, beta) == 0.0)
  }

  /** A level filled as it should be, but for forgoing at most `unit`. */
  ghost predicate WellFilled(level: PriceLevel, f: real, alpha: real, beta: real, unit: real) {
    WorthFilling(level, f, alpha, beta, unit) || NotWorthFilling(level, f, alpha, beta)
  }

  /** The fills `f` are best under these prices, to within `unit` for each of the first `n` levels;
      the others are not worth filling. */
  ghost predicate BestResponse(l: Ladder, f: seq<real>, n: nat, alpha: real, beta: real, unit: real) {
    && Fits(l, f) && n <= |l| && unit >= 0.0
    && (forall k {:trigger WellFilled(l[k], f[k], alpha, beta, unit)} ::
          0 <= k < n ==> WellFilled(l[k], f[k], alpha, beta, unit))
    && (forall k {:trigger NotWorthFilling(l[k], f[k], alpha, beta)} ::
          n <= k < |l| ==> NotWorthFilling(l[k], f[k], alpha, beta))
  }

  ghost function Forgone(n: nat, unit: real): real {
    if n == 0 then 0.0 else Forgone(n - 1, unit) + unit
  }

  lemma HeadBound(l: Ladder, x: real, f: seq<real>, n: nat, alpha: real, beta: real, unit: real)
    requires BestResponse(l, f, n, alpha, beta, unit) && l != [] && 0.0 <= x <= l[0].quantity
    ensures x * Margin(l[0], alpha, beta) <= f[0] * Margin(l[0], alpha, beta) + (if n == 0 then 0.0 else unit)
  {
    var m, q := Margin(l[0], alpha, beta), l[0].quantity;
    assert n > 0 ==> WellFilled(l[0], f[0], alpha, beta, unit);
    if NotWorthFilling(l[0], f[0], alpha, beta) {
      assert x * m <= 0.0;
      assert f[0] * m == 0.0;
    } else {
      assert (q - x) * m >= 0.0;
      assert (q - f[0]) * m == (q - x) * m + x * m - f[0] * m;
    }
  }

  lemma BestResponseTail(l: Ladder, f: seq<real>, n: nat, alpha: real, beta: real, unit: real)
    requires BestResponse(l, f, n, alpha, beta, unit) && l != []
    ensures BestResponse(l[1..], f[1..], if n == 0 then 0 else n - 1, alpha, beta, unit)
  {
  }

  lemma {:induction false} BestResponseWins(l: Ladder, x: seq<real>, f: seq<real>, n: nat,
                                            alpha: real, beta: real, unit: real)
    requires Fits(l, x) && BestResponse(l, f, n, alpha, beta, unit)
    ensures Gain(l, x, alpha, beta) <= Gain(l, f, alpha, beta) + Forgone(n, unit)
    decreases |l|
  {
    if l != [] {
      BestResponseTail(l, f, n, alpha, beta, unit);
      HeadBound(l, x[0], f, n, alpha, beta, unit);
      BestResponseWins(l[1..], x[1..], f[1..], if n == 0 then 0 else n - 1, alpha, beta, unit);
    }
  }

  /** `unit` covers leaving `rho` of a level worth at most `bound`. */
  ghost predicate Allows(rho: real, bound: real, unit: real) {
    rho >= 0.0 && unit >= rho * bound
  }

  lemma UnitNonNegative(rho: real, edge: real, unit: real)
    requires Allows(rho, edge, unit) && edge >= 0.0
    ensures unit >= 0.0
  {
    assert rho * edge >= 0.0;
  }

  /** A level is filled well enough when at most `rho` of it is left, or it is worth nothing. */
  lemma FilledEnough(level: PriceLevel, f: real, alpha: real, beta: real, rho: real, bound: real, unit: real)
    requires 0.0 <= Margin(level, alpha, beta) <= bound && Allows(rho, bound, unit)
    requires level.quantity - f <= rho || Margin(level, alpha, beta) == 0.0
    ensures WellFilled(level, f, alpha, beta, unit)
  {
  }

  /** The price `p` separates what the side filled from what it did not. */
  ghost predicate StandsAt(side: Side, l: Ladder, i: nat, f: seq<real>, p: real, rho: real)
    requires i <= |l| == |f|
  {
    && (forall k :: 0 <= k < i ==>
          !Before(side, p, l[k].price) && (l[k].quantity - f[k] <= rho || l[k].price == p))
    && (forall k :: i <= k < |l| ==>
          !Before(side, l[k].price, p) && (f[k] == 0.0 || l[k].price == p))
  }

  /** The prices under which a level of a side is worth its distance from `pi`. */
  ghost function AssetPrice(side: Side, pi: real): real {
    match side
    case Ask => pi
    case Bid => -pi
  }

  ghost function MoneyPrice(side: Side): real {
    match side
    case Ask => -1.0
    case Bid => 1.0
  }

  /** A side that a price separates responds best to it. */
  lemma SideAt(side: Side, l: Ladder, i: nat, f: seq<real>, pi: real, rho: real, edge: real, unit: real)
    requires WellFormed(side, l) && Fits(l, f) && i <= |l| && StandsAt(side, l, i, f, pi, rho)
    requires i > 0 ==> Margin(l[0], AssetPrice(side, pi), MoneyPrice(side)) <= edge
    requires Allows(rho, edge, unit) && edge >= 0.0
    ensures BestResponse(l, f, i, AssetPrice(side, pi), MoneyPrice(side), unit)
  {
    var alpha, beta := AssetPrice(side, pi), MoneyPrice(side);
    UnitNonNegative(rho, edge, unit);
    forall k | 0 <= k < i
      ensures WellFilled(l[k], f[k], alpha, beta, unit)
    {
      BestIsFirst(side, l, k);
      FilledEnough(l[k], f[k], alpha, beta, rho, edge, unit);
    }
    forall k | i <= k < |l|
      ensures NotWorthFilling(l[k], f[k], alpha, beta)
    {
    }
  }

  /** A price between the last match and what is still ahead separates a side. */
  lemma StandsBetween(side: Side, l: Ladder, i: nat, left: real, f: seq<real>, last: real, pi: real, rho: real)
    requires WellFormed(side, l) && SideInv(side, l, i, left, f, last)
    requires forall k :: 0 <= k < i ==> l[k].quantity - f[k] <= rho
    requires if i < |l| && f[i] > 0.0 then pi == last else i > 0 ==> !Before(side, pi, last)
    requires i < |l| ==> !Before(side, l[i].price, pi)
    ensures StandsAt(side, l, i, f, pi, rho)
  {
    forall k | i <= k < |l|
      ensures !Before(side, l[k].price, pi)
    {
      BestIsFirst(side, l[i..], k - i);
    }
  }

  // ----- both sides -----

  /** A dual certificate: under asset price `pi` and money price `kappa` both sides of the walk are
      best responses, but for the first `nA` asks and the first `nB` bids. */
  ghost predicate Certificate(asks: Ladder, bids: Ladder, w: Walk, nA: nat, nB: nat,
                              pi: real, kappa: real, unit: real)
  {
    && kappa >= 1.0
    && BestResponse(asks, w.askFills, nA, pi, -kappa, unit)
    && BestResponse(bids, w.bidFills, nB, -pi, 1.0, unit)
  }

  /** Trading `q` for `v` gains `g`. */
  ghost predicate GainsExactly(alpha: real, beta: real, q: real, v: real, g: real) {
    g == alpha * q + beta * v
  }

  /** Trading `dq` more for `dv` more gains at most `slack`. */
  ghost predicate GainsAtMost(alpha: real, beta: real, dq: real, dv: real, slack: real) {
    alpha * dq + beta * dv <= slack
  }

  lemma {:induction false} GainIsLinear(l: Ladder, f: seq<real>, alpha: real, beta: real)
    requires |l| == |f|
    ensures GainsExactly(alpha, beta, Sum(f), Value(l, f), Gain(l, f, alpha, beta))
  {
    if f != [] {
      GainIsLinear(l[1..], f[1..], alpha, beta);
      OneLevelMore(f[0], l[0], Sum(f[1..]), Value(l[1..], f[1..]), Gain(l[1..], f[1..], alpha, beta), alpha, beta);
    }
  }

  lemma OneLevelMore(q: real, level: PriceLevel, s: real, v: real, g: real, alpha: real, beta: real)
    requires GainsExactly(alpha, beta, s, v, g)
    ensures GainsExactly(alpha, beta, q + s, q * level.price + v, q * Margin(level, alpha, beta) + g)
  {
  }

  lemma Difference(alpha: real, beta: real, q: real, v: real, g: real, q': real, v': real, g': real, slack: real)
    requires GainsExactly(alpha, beta, q, v, g) && GainsExactly(alpha, beta, q', v', g') && g <= g' + slack
    ensures GainsAtMost(alpha, beta, q - q', v - v', slack)
  {
  }

  lemma SideWins(l: Ladder, x: seq<real>, f: seq<real>, n: nat, alpha: real, beta: real, unit: real,
                 dq: real, dv: real, slack: real)
    requires Fits(l, x) && BestResponse(l, f, n, alpha, beta, unit)
    requires dq == Sum(x) - Sum(f) && dv == Value(l, x) - Value(l, f) && slack == Forgone(n, unit)
    ensures GainsAtMost(alpha, beta, dq, dv, slack)
  {
    BestResponseWins(l, x, f, n, alpha, beta, unit);
    GainIsLinear(l, x, alpha, beta);
    GainIsLinear(l, f, alpha, beta);
    Difference(alpha, beta, Sum(x), Value(l, x), Gain(l, x, alpha, beta),
               Sum(f), Value(l, f), Gain(l, f, alpha, beta), slack);
  }

  /** What `cap` of unspent cap is worth when money is worth `kappa`. */
  ghost function CapValue(kappa: real, cap: real): real {
    (kappa - 1.0) * cap
  }

  /** Adding the two sides: the asset cancels, and the cap bounds what money is worth. */
  lemma Combine(dq: real, spent: real, earned: real, cap: real, pi: real, kappa: real,
                slackA: real, slackB: real, slackCap: real)
    requires GainsAtMost(pi, -kappa, dq, spent, slackA)
    requires GainsAtMost(-pi, 1.0, dq, earned, slackB)
    requires spent <= cap && kappa >= 1.0 && slackCap == CapValue(kappa, cap)
    ensures earned - spent <= slackCap + (slackA + slackB)
  {
  }

  lemma CertificateBounds(asks: Ladder, bids: Ladder, maxNotional: real, w: Walk, x: seq<real>, y: seq<real>,
                          nA: nat, nB: nat, pi: real, kappa: real, unit: real, slack: real)
    requires slack == CapValue(kappa, w.cap)
    requires asks != [] && bids != [] && WalkFacts(asks, bids, maxNotional, w)
    requires Feasible(asks, bids, maxNotional, x, y)
    requires Certificate(asks, bids, w, nA, nB, pi, kappa, unit)
    ensures Profit(asks, bids, x, y) <= GrossProfit(w) + slack + (Forgone(nA, unit) + Forgone(nB, unit))
  {
    var dq, spent, earned := Sum(x) - w.base, Value(asks, x) - w.buy, Value(bids, y) - w.sell;
    var slackA, slackB := Forgone(nA, unit), Forgone(nB, unit);
    SideWins(asks, x, w.askFills, nA, pi, -kappa, unit, dq, spent, slackA);
    SideWins(bids, y, w.bidFills, nB, -pi, 1.0, unit, dq, earned, slackB);
    Combine(dq, spent, earned, w.cap, pi, kappa, slackA, slackB, slack);
  }

  // ----- the ways the loop can stop -----

  /** The loop stopped at an uncrossed pair with cap to spend because a level holds only dust. */
  ghost predicate StoppedByDust(asks: Ladder, bids: Ladder, w: Walk) {
    && InRange(asks, bids, w) && Uncrossed(asks, bids, w)
    && w.cap > EPSILON && w.cap / asks[w.ask].price > EPSILON
    && (w.askLeft <= EPSILON || w.bidLeft <= EPSILON)
  }

  /** What the unspent cap could still have earned, at the pair the walk stopped at. */
  ghost function CapSlack(asks: Ladder, bids: Ladder, w: Walk): real {
    if InRange(asks, bids, w) && Uncrossed(asks, bids, w)
    then CapValue(bids[w.bid].price / asks[w.ask].price, w.cap)
    else 0.0
  }

  /** The best price difference the books offer. */
  ghost function Edge(asks: Ladder, bids: Ladder): real
    requires asks != [] && bids != []
  {
    if asks[0].price < bids[0].price then bids[0].price - asks[0].price else 0.0
  }

  lemma QuotientBound(c: real, p: real)
    requires p > 0.0
    ensures c / p <= EPSILON <==> c <= EPSILON * p
  {
    var q := c / p;
    assert q * p == c;
    if q <= EPSILON {
      assert (EPSILON - q) * p >= 0.0;
    } else {
      assert (q - EPSILON) * p > 0.0;
    }
  }

  lemma CapLeft(asks: Ladder, bids: Ladder, w: Walk)
    requires Shaped(asks, bids, w) && !Running(asks, bids, w)
    requires InRange(asks, bids, w) && Uncrossed(asks, bids, w)
    ensures w.cap / asks[w.ask].price <= EPSILON <==> w.cap <= EPSILON * asks[w.ask].price
    ensures w.cap <= EPSILON || w.cap / asks[w.ask].price <= EPSILON || StoppedByDust(asks, bids, w)
  {
    QuotientBound(w.cap, asks[w.ask].price);
  }

  /** Passed levels are filled up to `rho`, and `unit` is what that can have cost per level. */
  ghost predicate Residues(asks: Ladder, bids: Ladder, w: Walk, rho: real, unit: real)
    requires asks != [] && bids != [] && Shaped(asks, bids, w)
  {
    && Allows(rho, Edge(asks, bids), unit)
    && PassedWithin(asks, w.ask, w.askFills, w.lastAsk, w.cap, rho)
    && PassedWithin(bids, w.bid, w.bidFills, w.lastBid, w.cap, rho)
  }

  /** Stops that leave the cap out of account: a side used up, or crossed prices. Any asset price
      between what was bought and what was sold, and between what is left of both, will do. */
  lemma UncappedCertificate(asks: Ladder, bids: Ladder, maxNotional: real, w: Walk,
                            pi: real, rho: real, unit: real)
    requires Tradable(asks, bids) && WalkFacts(asks, bids, maxNotional, w) && Residues(asks, bids, w, rho, unit)
    requires w.base > 0.0 ==> w.cap != 0.0
    requires if w.base == 0.0 then pi == bids[0].price else w.lastAsk <= pi <= w.lastBid
    requires w.ask < |asks| ==> pi <= asks[w.ask].price
    requires w.bid < |bids| ==> bids[w.bid].price <= pi
    ensures Certificate(asks, bids, w, w.ask, w.bid, pi, 1.0, unit)
  {
    StandsBetween(Ask, asks, w.ask, w.askLeft, w.askFills, w.lastAsk, pi, rho);
    StandsBetween(Bid, bids, w.bid, w.bidLeft, w.bidFills, w.lastBid, pi, rho);
    SideAt(Ask, asks, w.ask, w.askFills, pi, rho, Edge(asks, bids), unit);
    SideAt(Bid, bids, w.bid, w.bidFills, pi, rho, Edge(asks, bids), unit);
  }

  /** A level against the ask `a` of a pair `a`, `b`, when money is worth `b / a`. */
  lemma Ratio(a: real, b: real, level: PriceLevel)
    requires 0.0 < a <= b && level.price > 0.0
    ensures b / a >= 1.0
    ensures level.price <= a ==> Margin(level, b, -(b / a)) >= 0.0
    ensures level.price >= a ==> Margin(level, b, -(b / a)) <= 0.0
    ensures Margin(level, b, -(b / a)) <= b - level.price
  {
  }

  lemma PairAskSide(asks: Ladder, i: nat, f: seq<real>, a: real, b: real, rho: real, edge: real, unit: real)
    requires WellFormed(Ask, asks) && Fits(asks, f) && i <= |asks| && asks != []
    requires 0.0 < asks[0].price <= a <= b && b - asks[0].price <= edge && edge >= 0.0
    requires StandsAt(Ask, asks, i, f, a, rho) && Allows(rho, edge, unit)
    ensures BestResponse(asks, f, i, b, -(b / a), unit)
  {
    UnitNonNegative(rho, edge, unit);
    forall k | 0 <= k < i
      ensures WellFilled(asks[k], f[k], b, -(b / a), unit)
    {
      BestIsFirst(Ask, asks, k);
      Ratio(a, b, asks[k]);
      FilledEnough(asks[k], f[k], b, -(b / a), rho, edge, unit);
    }
    forall k | i <= k < |asks|
      ensures NotWorthFilling(asks[k], f[k], b, -(b / a))
    {
      BestIsFirst(Ask, asks, k);
      Ratio(a, b, asks[k]);
    }
  }

  /** Stops at a pair that still pays: money is worth the ratio of the pair's prices. */
  lemma PairCertificate(asks: Ladder, bids: Ladder, maxNotional: real, w: Walk, a: real, b: real,
                        rho: real, unit: real)
    requires Tradable(asks, bids) && WalkFacts(asks, bids, maxNotional, w) && Allows(rho, Edge(asks, bids), unit)
    requires asks[0].price <= a <= b <= bids[0].price
    requires StandsAt(Ask, asks, w.ask, w.askFills, a, rho) && StandsAt(Bid, bids, w.bid, w.bidFills, b, rho)
    ensures Certificate(asks, bids, w, w.ask, w.bid, b, b / a, unit)
  {
    PairAskSide(asks, w.ask, w.askFills, a, b, rho, Edge(asks, bids), unit);
    SideAt(Bid, bids, w.bid, w.bidFills, b, rho, Edge(asks, bids), unit);
    Ratio(a, b, asks[0]);
  }

  /** The cap was used up: the last pair matched. */
  lemma LastPair(asks: Ladder, bids: Ladder, maxNotional: real, w: Walk, rho: real, unit: real)
    requires Tradable(asks, bids) && WalkFacts(asks, bids, maxNotional, w) && Residues(asks, bids, w, rho, unit)
    requires w.base > 0.0 && w.cap == 0.0
    ensures Certificate(asks, bids, w, w.ask, w.bid, w.lastBid, w.lastBid / w.lastAsk, unit)
  {
    PairCertificate(asks, bids, maxNotional, w, w.lastAsk, w.lastBid, rho, unit);
  }

  /** The loop stopped in front of a pair that still pays. */
  lemma CurrentPair(asks: Ladder, bids: Ladder, maxNotional: real, w: Walk, rho: real, unit: real)
    requires Tradable(asks, bids) && WalkFacts(asks, bids, maxNotional, w) && Residues(asks, bids, w, rho, unit)
    requires w.base > 0.0 ==> w.cap != 0.0
    requires InRange(asks, bids, w) && Uncrossed(asks, bids, w)
    ensures var a, b := asks[w.ask].price, bids[w.bid].price; Certificate(asks, bids, w, w.ask, w.bid, b, b / a, unit)
  {
    BestIsFirst(Ask, asks, w.ask);
    BestIsFirst(Bid, bids, w.bid);
    PairCertificate(asks, bids, maxNotional, w, asks[w.ask].price, bids[w.bid].price, rho, unit);
  }

  /** A side was used up, or the prices crossed. */
  lemma NoPair(asks: Ladder, bids: Ladder, maxNotional: real, w: Walk, rho: real, unit: real) returns (pi: real)
    requires Tradable(asks, bids) && WalkFacts(asks, bids, maxNotional, w) && Residues(asks, bids, w, rho, unit)
    requires w.base > 0.0 ==> w.cap != 0.0
    requires !(InRange(asks, bids, w) && Uncrossed(asks, bids, w))
    ensures Certificate(asks, bids, w, w.ask, w.bid, pi, 1.0, unit)
  {
    if w.base == 0.0 || w.ask == |asks| {
      pi := w.lastBid;
    } else if w.bid == |bids| || bids[w.bid].price <= w.lastAsk {
      pi := w.lastAsk;
    } else {
      pi := bids[w.bid].price;
    }
    UncappedCertificate(asks, bids, maxNotional, w, pi, rho, unit);
  }

  /** Some certificate exists for every way the loop can stop. */
  lemma StopCertificate(asks: Ladder, bids: Ladder, maxNotional: real, w: Walk, rho: real, unit: real)
      returns (pi: real, kappa: real)
    requires Tradable(asks, bids) && WalkFacts(asks, bids, maxNotional, w) && Residues(asks, bids, w, rho, unit)
    ensures Certificate(asks, bids, w, w.ask, w.bid, pi, kappa, unit)
    ensures CapSlack(asks, bids, w) == CapValue(kappa, w.cap)
  {
    if w.base > 0.0 && w.cap == 0.0 {
      LastPair(asks, bids, maxNotional, w, rho, unit);
      pi, kappa := w.lastBid, w.lastBid / w.lastAsk;
    } else if InRange(asks, bids, w) && Uncrossed(asks, bids, w) {
      CurrentPair(asks, bids, maxNotional, w, rho, unit);
      pi, kappa := bids[w.bid].price, bids[w.bid].price / asks[w.ask].price;
    } else {
      pi := NoPair(asks, bids, maxNotional, w, rho, unit);
      kappa := 1.0;
    }
  }

  // ----- the main results -----

  /** No feasible plan earns more gross profit than the walk, but for the unspent cap at the pair it
      stopped at and at most `rho` times the best price difference for every level it passed. */
  lemma NothingBeatsTheWalk(asks: Ladder, bids: Ladder, maxNotional: real, x: seq<real>, y: seq<real>,
                            rho: real, unit: real)
    requires Tradable(asks, bids) && Feasible(asks, bids, maxNotional, x, y)
    requires Residues(asks, bids, Final(asks, bids, maxNotional), rho, unit)
    ensures var w := Final(asks, bids, maxNotional);
            Profit(asks, bids, x, y) <=
            GrossProfit(w) + CapSlack(asks, bids, w) + (Forgone(w.ask, unit) + Forgone(w.bid, unit))
  {
    var w := Final(asks, bids, maxNotional);
    FinalInv(asks, bids, maxNotional);
    var pi, kappa := StopCertificate(asks, bids, maxNotional, w, rho, unit);
    CertificateBounds(asks, bids, maxNotional, w, x, y, w.ask, w.bid, pi, kappa, unit, CapSlack(asks, bids, w));
  }

  /** What is left of the cap: none to speak of when the walk stopped by crossing or by using up a
      side; otherwise at most EPSILON, or EPSILON times the ask. */
  ghost predicate NegligibleSlack(asks: Ladder, bids: Ladder, w: Walk) {
    if InRange(asks, bids, w) && Uncrossed(asks, bids, w)
    then w.cap <= EPSILON || w.cap <= EPSILON * asks[w.ask].price
    else CapSlack(asks, bids, w) == 0.0
  }

  /** The reason a walk stopped, read off its exit state: it left a cap worth mentioning only if
      dust stopped it, and then at a level that was dust to begin with. */
  lemma SlackNegligibleUnlessDust(asks: Ladder, bids: Ladder, maxNotional: real)
    requires Tradable(asks, bids)
    ensures var w := Final(asks, bids, maxNotional);
            && (NegligibleSlack(asks, bids, w) <==> !StoppedByDust(asks, bids, w))
            && (StoppedByDust(asks, bids, w) ==>
                  asks[w.ask].quantity <= EPSILON || bids[w.bid].quantity <= EPSILON)
  {
    var w := Final(asks, bids, maxNotional);
    FinalInv(asks, bids, maxNotional);
    if InRange(asks, bids, w) && Uncrossed(asks, bids, w) {
      CapLeft(asks, bids, w);
    }
  }

  /** No level holds only dust. */
  ghost predicate NoDust(l: Ladder) {
    forall k :: 0 <= k < |l| ==> l[k].quantity > EPSILON
  }

  /** For any positive quantities no plan beats the walk by more than the worth of its unspent cap and
      EPSILON times the best price difference for every level it passed. Where dust stops the walk the
      cap it leaves is not bounded by this (`DustStops` says what it loses there); without dust levels
      the cap is negligible, and the walk optimal. */
  lemma GreedyNearlyOptimal(asks: Ladder, bids: Ladder, maxNotional: real, x: seq<real>, y: seq<real>)
    requires Tradable(asks, bids) && Feasible(asks, bids, maxNotional, x, y)
    ensures var w := Final(asks, bids, maxNotional); var unit := EPSILON * Edge(asks, bids);
            && Profit(asks, bids, x, y) <=
               GrossProfit(w) + CapSlack(asks, bids, w) + (Forgone(w.ask, unit) + Forgone(w.bid, unit))
            && (NoDust(asks) && NoDust(bids) ==> NegligibleSlack(asks, bids, w))
  {
    FinalInv(asks, bids, maxNotional);
    NothingBeatsTheWalk(asks, bids, maxNotional, x, y, EPSILON, EPSILON * Edge(asks, bids));
    SlackNegligibleUnlessDust(asks, bids, maxNotional);
  }

  lemma {:induction false} ForgoneTimes(n: nat, unit: real)
    ensures Forgone(n, unit) == n as real * unit
  {
    if n > 0 {
      ForgoneTimes(n - 1, unit);
      var r := n as real;
      assert r * unit == (r - 1.0) * unit + unit;
    }
  }

  lemma LotsAreNotDust(lot: real, l: Ladder)
    requires InLots(lot, l) && Positive(l)
    ensures NoDust(l) && InLotsOrDust(lot, l)
  {
    forall k | 0 <= k < |l|
      ensures l[k].quantity > EPSILON && Multiple(lot, l[k].quantity)
    {
      assert Multiple(lot, l[k].quantity);
      var n: int :| l[k].quantity == Lots(n, lot);
      LotsGrow(n, lot);
      assert n != 0;
    }
  }

  /** When quantities are whole lots or dust, nothing is left of passed levels, and no plan beats the
      walk by more than the worth of its unspent cap. */
  lemma OnlyTheCapIsForgone(asks: Ladder, bids: Ladder, maxNotional: real, lot: real, x: seq<real>, y: seq<real>)
    requires Tradable(asks, bids) && InLotsOrDust(lot, asks) && InLotsOrDust(lot, bids)
    requires Feasible(asks, bids, maxNotional, x, y)
    ensures var w := Final(asks, bids, maxNotional);
            Profit(asks, bids, x, y) <= GrossProfit(w) + CapSlack(asks, bids, w)
  {
    var w := Final(asks, bids, maxNotional);
    FinalLots(asks, bids, maxNotional, lot);
    NothingResidual(asks, bids, lot, w);
    NothingBeatsTheWalk(asks, bids, maxNotional, x, y, 0.0, 0.0);
  }

  /** With lot-sized quantities the walk is optimal outright, but for a negligible unspent cap. */
  lemma GreedyOptimal(asks: Ladder, bids: Ladder, maxNotional: real, lot: real, x: seq<real>, y: seq<real>)
    requires Tradable(asks, bids) && InLots(lot, asks) && InLots(lot, bids)
    requires Feasible(asks, bids, maxNotional, x, y)
    ensures var w := Final(asks, bids, maxNotional);
            && Profit(asks, bids, x, y) <= GrossProfit(w) + CapSlack(asks, bids, w)
            && NegligibleSlack(asks, bids, w)
  {
    LotsAreNotDust(lot, asks);
    LotsAreNotDust(lot, bids);
    OnlyTheCapIsForgone(asks, bids, maxNotional, lot, x, y);
    SlackNegligibleUnlessDust(asks, bids, maxNotional);
  }

  /** The walk is itself one of the plans it is compared with, and attains its gross profit. */
  lemma WalkIsFeasible(asks: Ladder, bids: Ladder, maxNotional: real)
    requires Tradable(asks, bids) && maxNotional >= 0.0
    ensures var w := Final(asks, bids, maxNotional);
            && Feasible(asks, bids, maxNotional, w.askFills, w.bidFills)
            && Profit(asks, bids, w.askFills, w.bidFills) == GrossProfit(w)
            && Sum(w.askFills) == w.base
  {
    FinalInv(asks, bids, maxNotional);
  }

  // ----- the cumulative curves -----

  lemma SameSizeWins(l: Ladder, x: seq<real>, f: seq<real>, n: nat, alpha: real, beta: real, unit: real)
    requires Fits(l, x) && BestResponse(l, f, n, alpha, beta, unit) && Sum(x) == Sum(f)
    ensures GainsAtMost(alpha, beta, 0.0, Value(l, x) - Value(l, f), Forgone(n, unit))
  {
    SideWins(l, x, f, n, alpha, beta, unit, 0.0, Value(l, x) - Value(l, f), Forgone(n, unit));
  }

  /** Up to what the cap cut short, a side is separated by the price it last matched at. */
  lemma StandsAtLast(side: Side, l: Ladder, i: nat, left: real, f: seq<real>, last: real, cap: real, rho: real)
    requires SideInv(side, l, i, left, f, last) && PassedWithin(l, i, f, last, cap, rho)
    ensures StandsAt(side, l, i, f, last, rho)
  {
  }

  lemma NoneCheaper(asks: Ladder, bids: Ladder, maxNotional: real, w: Walk, x: seq<real>, rho: real, unit: real)
    requires Tradable(asks, bids) && WalkInv(asks, bids, maxNotional, w) && Residues(asks, bids, w, rho, unit)
    requires Fits(asks, x) && Sum(x) == w.base
    ensures Value(asks, x) >= w.buy - Forgone(w.ask, unit)
  {
    StandsAtLast(Ask, asks, w.ask, w.askLeft, w.askFills, w.lastAsk, w.cap, rho);
    SideAt(Ask, asks, w.ask, w.askFills, w.lastAsk, rho, Edge(asks, bids), unit);
    SameSizeWins(asks, x, w.askFills, w.ask, w.lastAsk, -1.0, unit);
  }

  lemma NoneDearer(asks: Ladder, bids: Ladder, maxNotional: real, w: Walk, y: seq<real>, rho: real, unit: real)
    requires Tradable(asks, bids) && WalkInv(asks, bids, maxNotional, w) && Residues(asks, bids, w, rho, unit)
    requires Fits(bids, y) && Sum(y) == w.base
    ensures Value(bids, y) <= w.sell + Forgone(w.bid, unit)
  {
    StandsAtLast(Bid, bids, w.bid, w.bidLeft, w.bidFills, w.lastBid, w.cap, rho);
    SideAt(Bid, bids, w.bid, w.bidFills, w.lastBid, rho, Edge(asks, bids), unit);
    SameSizeWins(bids, y, w.bidFills, w.bid, -w.lastBid, 1.0, unit);
  }

  lemma NothingResidual(asks: Ladder, bids: Ladder, lot: real, w: Walk)
    requires asks != [] && bids != [] && Shaped(asks, bids, w) && LotInv(asks, bids, lot, w)
    ensures Residues(asks, bids, w, 0.0, 0.0)
    ensures Forgone(w.ask, 0.0) == 0.0 && Forgone(w.bid, 0.0) == 0.0
  {
    ForgoneTimes(w.ask, 0.0);
    ForgoneTimes(w.bid, 0.0);
  }

  /** In every iteration, when quantities are whole lots or dust: no other way of buying the same quantity is
      cheaper than the walk's, and no other way of selling it earns more. */
  lemma CumulativeCurves(asks: Ladder, bids: Ladder, maxNotional: real, lot: real, n: nat,
                         x: seq<real>, y: seq<real>)
    requires Tradable(asks, bids) && InLotsOrDust(lot, asks) && InLotsOrDust(lot, bids)
    requires var w := Iterate(asks, bids, Start(asks, bids, maxNotional), n);
             Fits(asks, x) && Fits(bids, y) && Sum(x) == w.base == Sum(y)
    ensures var w := Iterate(asks, bids, Start(asks, bids, maxNotional), n);
            Value(asks, x) >= w.buy && Value(bids, y) <= w.sell
  {
    var w := Iterate(asks, bids, Start(asks, bids, maxNotional), n);
    EveryIteration(asks, bids, maxNotional, n);
    NoDustOnLots(asks, bids, maxNotional, lot, n);
    NothingResidual(asks, bids, lot, w);
    NoneCheaper(asks, bids, maxNotional, w, x, 0.0, 0.0);
    NoneDearer(asks, bids, maxNotional, w, y, 0.0, 0.0);
  }
}
