/** One side of an order book.

    The book keeps each side in an ordered map from price to quantity: bids under `>`, asks under
    `<`. Here a side is the sequence of levels that iterating over that map yields, and the
    comparator is the parameter `side`. The module proves that this sorted form refines the plain
    last-write-wins reading of the level lists that were applied to it, and that the sorted form
    is determined by its quantities alone.
  */
module Ladders {
  datatype PriceLevel = PriceLevel(price: real, quantity: real)

  datatype Side = Bid | Ask

  datatype Option<+T> = None | Some(value: T)

  type Ladder = seq<PriceLevel>

  /** The comparator of the side: whether price `p` is better than (iterated before) price `q`. */
  predicate Before(side: Side, p: real, q: real) {
    match side
    case Bid => p > q
    case Ask => p < q
  }

  ghost predicate Sorted(side: Side, l: Ladder) {
    forall i, j :: 0 <= i < j < |l| ==> Before(side, l[i].price, l[j].price)
  }

  ghost predicate Positive(l: Ladder) {
    forall i :: 0 <= i < |l| ==> l[i].quantity > 0.0
  }

  ghost predicate WellFormed(side: Side, l: Ladder) {
    Sorted(side, l) && Positive(l)
  }

  /** The quantity held at a price, 0 when there is no such level. */
  function QuantityAt(l: Ladder, p: real): real {
    if l == [] then 0.0
    else if l[0].price == p then l[0].quantity
    else QuantityAt(l[1..], p)
  }

  // ----- the two map operations -----

  /** `map[p] = q` */
  function Assign(side: Side, l: Ladder, p: real, q: real): Ladder {
    if l == [] || Before(side, p, l[0].price) then [PriceLevel(p, q)] + l
    else if l[0].price == p then [PriceLevel(p, q)] + l[1..]
    else [l[0]] + Assign(side, l[1..], p, q)
  }

  /** `map.erase(p)` */
  function Erase(l: Ladder, p: real): Ladder {
    if l == [] then []
    else if l[0].price == p then l[1..]
    else [l[0]] + Erase(l[1..], p)
  }

  /** One level of a level list: a quantity that is not positive deletes the price. */
  function ApplyLevel(side: Side, l: Ladder, level: PriceLevel): Ladder {
    if level.quantity <= 0.0 then Erase(l, level.price)
    else Assign(side, l, level.price, level.quantity)
  }

  /** A whole level list, in order. */
  function ApplyLevels(side: Side, l: Ladder, levels: seq<PriceLevel>): Ladder {
    if levels == [] then l
    else
      var n := |levels| - 1;
      ApplyLevel(side, ApplyLevels(side, l, levels[..n]), levels[n])
  }

  // ----- last write wins -----

  /** The last quantity a level list mentions for a price. */
  function LastMention(levels: seq<PriceLevel>, p: real): Option<real> {
    if levels == [] then None
    else
      var n := |levels| - 1;
      if levels[n].price == p then Some(levels[n].quantity) else LastMention(levels[..n], p)
  }

  /** The quantity a mention stands for. */
  function Effective(q: real): real {
    if q <= 0.0 then 0.0 else q
  }

  /** The unsorted reading of a level list laid over quantities `before`. */
  function Overwritten(before: real, mention: Option<real>): real {
    match mention
    case None => before
    case Some(q) => Effective(q)
  }

  lemma {:induction false} TailWellFormed(side: Side, l: Ladder)
    requires WellFormed(side, l) && l != []
    ensures WellFormed(side, l[1..])
    ensures forall p :: !Before(side, l[0].price, p) ==> QuantityAt(l[1..], p) == 0.0
  {
    forall p | !Before(side, l[0].price, p)
      ensures QuantityAt(l[1..], p) == 0.0
    {
      AbsentBelow(side, l[1..], p);
    }
  }

  lemma {:induction false} AbsentBelow(side: Side, l: Ladder, p: real)
    requires forall i :: 0 <= i < |l| ==> l[i].price != p
    ensures QuantityAt(l, p) == 0.0
  {
    if l != [] {
      AbsentBelow(side, l[1..], p);
    }
  }

  /** Quantities of a well-formed side are never negative and are positive exactly at its levels. */
  lemma {:induction false} QuantityAtLevel(side: Side, l: Ladder, i: nat)
    requires WellFormed(side, l) && i < |l|
    ensures QuantityAt(l, l[i].price) == l[i].quantity
  {
    if i > 0 {
      TailWellFormed(side, l);
      QuantityAtLevel(side, l[1..], i - 1);
    }
  }

  lemma {:induction false} LevelOfQuantity(l: Ladder, p: real) returns (i: nat)
    requires QuantityAt(l, p) != 0.0
    ensures i < |l| && l[i].price == p && l[i].quantity == QuantityAt(l, p)
  {
    if l[0].price == p {
      i := 0;
    } else {
      i := LevelOfQuantity(l[1..], p);
      i := i + 1;
    }
  }

  lemma ConsWellFormed(side: Side, head: PriceLevel, l: Ladder)
    requires WellFormed(side, l) && head.quantity > 0.0
    requires l == [] || Before(side, head.price, l[0].price)
    ensures WellFormed(side, [head] + l)
    ensures forall p :: QuantityAt([head] + l, p) == if p == head.price then head.quantity else QuantityAt(l, p)
  {
  }

  lemma {:induction false} AssignCorrect(side: Side, l: Ladder, p: real, q: real)
    requires WellFormed(side, l) && q > 0.0
    ensures WellFormed(side, Assign(side, l, p, q)) && Assign(side, l, p, q) != []
    ensures Assign(side, l, p, q)[0].price == p || (l != [] && Assign(side, l, p, q)[0].price == l[0].price)
    ensures forall x :: QuantityAt(Assign(side, l, p, q), x) == if x == p then q else QuantityAt(l, x)
  {
    if l == [] || Before(side, p, l[0].price) {
      ConsWellFormed(side, PriceLevel(p, q), l);
    } else {
      TailWellFormed(side, l);
      if l[0].price == p {
        ConsWellFormed(side, PriceLevel(p, q), l[1..]);
      } else {
        AssignCorrect(side, l[1..], p, q);
        ConsWellFormed(side, l[0], Assign(side, l[1..], p, q));
      }
    }
  }

  lemma {:induction false} EraseCorrect(side: Side, l: Ladder, p: real)
    requires WellFormed(side, l)
    ensures WellFormed(side, Erase(l, p))
    ensures l != [] && Erase(l, p) != [] ==> !Before(side, Erase(l, p)[0].price, l[0].price)
    ensures forall x :: QuantityAt(Erase(l, p), x) == if x == p then 0.0 else QuantityAt(l, x)
  {
    if l != [] {
      TailWellFormed(side, l);
      if l[0].price != p {
        EraseCorrect(side, l[1..], p);
        ConsWellFormed(side, l[0], Erase(l[1..], p));
      }
    }
  }

  lemma ApplyLevelCorrect(side: Side, l: Ladder, level: PriceLevel)
    requires WellFormed(side, l)
    ensures WellFormed(side, ApplyLevel(side, l, level))
    ensures forall x :: QuantityAt(ApplyLevel(side, l, level), x) ==
                        (if x == level.price then Effective(level.quantity) else QuantityAt(l, x))
  {
    if level.quantity <= 0.0 {
      EraseCorrect(side, l, level.price);
    } else {
      AssignCorrect(side, l, level.price, level.quantity);
    }
  }

  /** The sorted side refines the last-write-wins map: whatever list is applied, the side stays
      strictly sorted with positive quantities, and at every price it holds what the last mention
      says, or what it held before when the list does not mention the price. */
  lemma {:induction false} LastWriteWins(side: Side, l: Ladder, levels: seq<PriceLevel>)
    requires WellFormed(side, l)
    ensures WellFormed(side, ApplyLevels(side, l, levels))
    ensures forall p :: QuantityAt(ApplyLevels(side, l, levels), p) ==
                        Overwritten(QuantityAt(l, p), LastMention(levels, p))
  {
    if levels != [] {
      var n := |levels| - 1;
      LastWriteWins(side, l, levels[..n]);
      ApplyLevelCorrect(side, ApplyLevels(side, l, levels[..n]), levels[n]);
    }
  }

  lemma {:induction false} ApplyLevelsConcat(side: Side, l: Ladder, x: seq<PriceLevel>, y: seq<PriceLevel>)
    ensures ApplyLevels(side, l, x + y) == ApplyLevels(side, ApplyLevels(side, l, x), y)
  {
    if y == [] {
      assert x + y == x;
    } else {
      var n := |y| - 1;
      ApplyLevelsConcat(side, l, x, y[..n]);
      assert (x + y)[..|x + y| - 1] == x + y[..n];
    }
  }

  // ----- canonical form and the best levels -----

  /** A side is determined by its quantities: there is one well-formed ladder per price map. */
  lemma {:induction false} Canonical(side: Side, a: Ladder, b: Ladder)
    requires WellFormed(side, a) && WellFormed(side, b)
    requires forall p :: QuantityAt(a, p) == QuantityAt(b, p)
    ensures a == b
  {
    assert a != [] ==> QuantityAt(a, a[0].price) == a[0].quantity;
    assert b != [] ==> QuantityAt(b, b[0].price) == b[0].quantity;
    if a != [] && b != [] {
      HeadsAgree(side, a, b);
      TailWellFormed(side, a);
      TailWellFormed(side, b);
      forall p ensures QuantityAt(a[1..], p) == QuantityAt(b[1..], p) {
        assert QuantityAt(a, p) == QuantityAt(b, p);
      }
      Canonical(side, a[1..], b[1..]);
    }
  }

  lemma HeadsAgree(side: Side, a: Ladder, b: Ladder)
    requires WellFormed(side, a) && WellFormed(side, b) && a != [] && b != []
    requires QuantityAt(a, a[0].price) == QuantityAt(b, a[0].price)
    requires QuantityAt(a, b[0].price) == QuantityAt(b, b[0].price)
    ensures a[0] == b[0]
  {
    var i := LevelOfQuantity(b, a[0].price);
    var j := LevelOfQuantity(a, b[0].price);
  }

  lemma {:induction false} LastMentionOfLevels(side: Side, l: Ladder, p: real)
    requires WellFormed(side, l)
    ensures Overwritten(0.0, LastMention(l, p)) == QuantityAt(l, p)
  {
    if l != [] {
      var n := |l| - 1;
      LastMentionOfLevels(side, l[..n], p);
      if l[n].price == p {
        QuantityAtLevel(side, l, n);
      } else {
        SkipLast(l, p);
      }
    }
  }

  lemma {:induction false} SkipLast(l: Ladder, p: real)
    requires l != [] && l[|l| - 1].price != p
    ensures QuantityAt(l, p) == QuantityAt(l[..|l| - 1], p)
  {
    if l[0].price != p && |l| > 1 {
      SkipLast(l[1..], p);
      assert l[1..][..|l| - 2] == l[..|l| - 1][1..];
    }
  }

  /** Listing the levels of a side and applying the list to an empty side rebuilds the side. */
  lemma ReloadRoundTrip(side: Side, l: Ladder)
    requires WellFormed(side, l)
    ensures ApplyLevels(side, [], l) == l
  {
    LastWriteWins(side, [], l);
    forall p ensures QuantityAt(ApplyLevels(side, [], l), p) == QuantityAt(l, p) {
      LastMentionOfLevels(side, l, p);
    }
    Canonical(side, ApplyLevels(side, [], l), l);
  }

  /** The first level, if any. */
  function Best(l: Ladder): Option<PriceLevel> {
    if l == [] then None else Some(l[0])
  }

  /** What the best level of a side is: nothing if no price has a quantity; otherwise a price that has
      one, with that quantity, and no better price has any. */
  ghost predicate IsBest(side: Side, l: Ladder, r: Option<PriceLevel>) {
    match r
    case None => forall p :: QuantityAt(l, p) == 0.0
    case Some(level) =>
      && level.quantity > 0.0 && QuantityAt(l, level.price) == level.quantity
      && forall p :: Before(side, p, level.price) ==> QuantityAt(l, p) == 0.0
  }

  lemma HeadIsBest(side: Side, l: Ladder)
    requires WellFormed(side, l)
    ensures IsBest(side, l, Best(l))
  {
    if l != [] {
      TailWellFormed(side, l);
    }
  }

  /** The first `limit` levels, as the size-limited copy of the map yields them. */
  function Top(l: Ladder, limit: nat): Ladder {
    if limit < |l| then l[..limit] else l
  }

  /** `Top` holds exactly the best `limit` levels: a price that has a quantity is missing only
      when `limit` levels, all strictly better, are present. */
  lemma TopIsBest(side: Side, l: Ladder, limit: nat, p: real)
    requires WellFormed(side, l)
    ensures WellFormed(side, Top(l, limit)) && |Top(l, limit)| <= limit
    ensures QuantityAt(Top(l, limit), p) == QuantityAt(l, p) ||
            (QuantityAt(Top(l, limit), p) == 0.0 && |Top(l, limit)| == limit &&
             forall i :: 0 <= i < limit ==> Before(side, Top(l, limit)[i].price, p))
  {
    var t := Top(l, limit);
    if QuantityAt(t, p) != 0.0 {
      var i := LevelOfQuantity(t, p);
      QuantityAtLevel(side, l, i);
    } else if QuantityAt(l, p) != 0.0 {
      var i := LevelOfQuantity(l, p);
      if i < |t| {
        QuantityAtLevel(side, t, i);
      }
    }
  }
}
