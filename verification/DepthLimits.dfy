/** What the depth limit of a walk can change.

    A walk sees only the first `max_depth_levels` of each side. If it stops with levels of both
    sides left over, a larger limit would have made no difference at all; and with lot-sized
    quantities a larger limit never earns less, but for the negligible unspent cap.
  */
module DepthLimits {
  import opened Ladders
  import opened Walks
  import opened Optimality
  import opened OrderBooks
  import opened Engines

  /** Equal in everything the loop computes. */
  predicate SameTotals(v: Walk, w: Walk) {
    && v.ask == w.ask && v.bid == w.bid && v.askLeft == w.askLeft && v.bidLeft == w.bidLeft && v.cap == w.cap
    && v.base == w.base && v.buy == w.buy && v.sell == w.sell
  }

  lemma {:induction false} SameRun(asks: Ladder, bids: Ladder, asks': Ladder, bids': Ladder, v: Walk, w: Walk)
    requires asks <= asks' && bids <= bids'
    requires Shaped(asks, bids, v) && Shaped(asks', bids', w) && SameTotals(v, w)
    requires InRange(asks, bids, Run(asks, bids, v))
    ensures SameTotals(Run(asks, bids, v), Run(asks', bids', w))
    decreases Remaining(asks, bids, v)
  {
    if Running(asks, bids, v) {
      StepProgress(asks, bids, v);
      StepProgress(asks', bids', w);
      var v', w' := Step(asks, bids, v), Step(asks', bids', w);
      assert v'.ask < |asks| && v'.bid < |bids|;
      SameRun(asks, bids, asks', bids', v', w');
    }
  }

  lemma TopIsPrefix(l: Ladder, k: nat, k': nat)
    requires k <= k'
    ensures Top(l, k) <= Top(l, k')
    ensures l != [] && k > 0 ==> Top(l, k) != [] && Top(l, k)[0] == l[0]
  {
  }

  /** A limit that left levels over on both sides is as good as any larger one. */
  lemma DepthLimitHarmless(asks: Ladder, bids: Ladder, maxNotional: real, k: nat, k': nat)
    requires asks != [] && bids != [] && 0 < k <= k'
    requires InRange(Top(asks, k), Top(bids, k), Final(Top(asks, k), Top(bids, k), maxNotional))
    ensures SameTotals(Final(Top(asks, k), Top(bids, k), maxNotional), Final(Top(asks, k'), Top(bids, k'), maxNotional))
  {
    TopIsPrefix(asks, k, k');
    TopIsPrefix(bids, k, k');
    TopIsPrefix(asks, k', k');
    TopIsPrefix(bids, k', k');
    SameRun(Top(asks, k), Top(bids, k), Top(asks, k'), Top(bids, k'),
            Start(Top(asks, k), Top(bids, k), maxNotional), Start(Top(asks, k'), Top(bids, k'), maxNotional));
  }

  /** Then the opportunity found, or not found, is the same under any larger limit. */
  lemma SameOpportunityDeeper(s: Settings, symbol: string, buyExchange: Exchange, sellExchange: Exchange,
                              buyBook: BookState, sellBook: BookState, deeper: nat)
    requires buyBook.asks != [] && sellBook.bids != [] && 0 < s.maxDepthLevels <= deeper
    requires var asks, bids := Top(buyBook.asks, s.maxDepthLevels), Top(sellBook.bids, s.maxDepthLevels);
             InRange(asks, bids, Final(asks, bids, s.maxNotional))
    ensures Direction(s.(maxDepthLevels := deeper), symbol, buyExchange, sellExchange, buyBook, sellBook) ==
            Direction(s, symbol, buyExchange, sellExchange, buyBook, sellBook)
  {
    DepthLimitHarmless(buyBook.asks, sellBook.bids, s.maxNotional, s.maxDepthLevels, deeper);
  }

  // ----- more depth never earns less -----

  /** A plan on the first levels of a side, on the whole side. */
  function Padded(f: seq<real>, n: nat): seq<real>
    requires |f| <= n
  {
    f + Zeros(n - |f|)
  }

  lemma {:induction false} PaddedTotals(l: Ladder, f: seq<real>)
    requires |f| <= |l|
    ensures |Padded(f, |l|)| == |l|
    ensures Sum(Padded(f, |l|)) == Sum(f)
    ensures Value(l, Padded(f, |l|)) == Value(l[..|f|], f)
    decreases |f|
  {
    var g := Padded(f, |l|);
    if f == [] {
      assert g == Zeros(|l|);
      ZeroTotals(l, |l|);
    } else {
      assert g[1..] == Padded(f[1..], |l[1..]|);
      assert l[..|f|][1..] == l[1..][..|f[1..]|];
      PaddedTotals(l[1..], f[1..]);
    }
  }

  lemma PaddedFits(l: Ladder, f: seq<real>, k: nat)
    requires Positive(l) && Fits(Top(l, k), f)
    ensures |f| <= |l| && l[..|f|] == Top(l, k) && Fits(l, Padded(f, |l|))
  {
  }

  lemma TopInLots(lot: real, l: Ladder, k: nat)
    requires InLots(lot, l)
    ensures InLots(lot, Top(l, k))
  {
  }

  lemma TopTradable(asks: Ladder, bids: Ladder, k: nat)
    requires Tradable(asks, bids) && k > 0
    ensures Tradable(Top(asks, k), Top(bids, k))
  {
  }

  /** What a plan on the first levels earns, a plan on more levels earns too. */
  lemma PlanCarriesOver(asks: Ladder, bids: Ladder, maxNotional: real, k: nat, x: seq<real>, y: seq<real>)
    requires Positive(asks) && Positive(bids) && Feasible(Top(asks, k), Top(bids, k), maxNotional, x, y)
    ensures |x| <= |asks| && |y| <= |bids|
    ensures Feasible(asks, bids, maxNotional, Padded(x, |asks|), Padded(y, |bids|))
    ensures Profit(asks, bids, Padded(x, |asks|), Padded(y, |bids|)) == Profit(Top(asks, k), Top(bids, k), x, y)
  {
    PaddedFits(asks, x, k);
    PaddedFits(bids, y, k);
    PaddedTotals(asks, x);
    PaddedTotals(bids, y);
  }

  lemma MoreDepthNeverEarnsLess(asks: Ladder, bids: Ladder, maxNotional: real, lot: real, k: nat, k': nat)
    requires Tradable(asks, bids) && InLots(lot, asks) && InLots(lot, bids)
    requires maxNotional >= 0.0 && 0 < k <= k'
    ensures var v := Final(Top(asks, k), Top(bids, k), maxNotional);
            var w := Final(Top(asks, k'), Top(bids, k'), maxNotional);
            && GrossProfit(v) <= GrossProfit(w) + CapSlack(Top(asks, k'), Top(bids, k'), w)
            && NegligibleSlack(Top(asks, k'), Top(bids, k'), w)
  {
    var a, b := Top(asks, k'), Top(bids, k');
    TopTradable(asks, bids, k);
    TopTradable(asks, bids, k');
    TopInLots(lot, asks, k');
    TopInLots(lot, bids, k');
    assert Top(a, k) == Top(asks, k) && Top(b, k) == Top(bids, k);
    var v := Final(Top(asks, k), Top(bids, k), maxNotional);
    WalkIsFeasible(Top(asks, k), Top(bids, k), maxNotional);
    PlanCarriesOver(a, b, maxNotional, k, v.askFills, v.bidFills);
    GreedyOptimal(a, b, maxNotional, lot, Padded(v.askFills, |a|), Padded(v.bidFills, |b|));
  }
}
