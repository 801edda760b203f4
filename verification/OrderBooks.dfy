/** The local order book: two sorted sides, the id of the last applied update, and a flag.

    `BookState` is the value of a book; `AfterUpdate` and `LoadSnapshot` say what the operations of
    the class `OrderBook` do to it. Ids are 64-bit in the class, where the successor wraps; in the
    specification they are plain numbers, and the class is proved to agree with it.
  */
module OrderBooks {
  import opened Ladders

  const TWO_TO_THE_64: nat := 0x1_0000_0000_0000_0000

  type Uint64 = n: int | 0 <= n < TWO_TO_THE_64

  datatype Exchange = Binance | Mexc

  datatype BookUpdate = BookUpdate(
    exchange: Exchange, symbol: string,
    bids: seq<PriceLevel>, asks: seq<PriceLevel>,
    firstUpdateId: Uint64, finalUpdateId: Uint64)
  {
    function Levels(side: Side): seq<PriceLevel> {
      if side == Bid then bids else asks
    }
  }

  datatype BookSnapshot = BookSnapshot(
    exchange: Exchange, symbol: string,
    bids: seq<PriceLevel>, asks: seq<PriceLevel>,
    lastUpdateId: Uint64)
  {
    function Levels(side: Side): seq<PriceLevel> {
      if side == Bid then bids else asks
    }
  }

  datatype ApplyUpdateResult = Applied | IgnoredStale | GapDetected | NotInitialized

  datatype BookState = BookState(bids: Ladder, asks: Ladder, lastUpdateId: Uint64, initialized: bool)
  {
    function Levels(side: Side): Ladder {
      if side == Bid then bids else asks
    }

    ghost predicate Valid() {
      WellFormed(Bid, bids) && WellFormed(Ask, asks)
    }
  }

  const EMPTY_BOOK := BookState([], [], 0, false)

  /** The 64-bit successor, wrapping at the top. */
  function Successor64(n: Uint64): Uint64 {
    (n + 1) % TWO_TO_THE_64
  }

  function LoadSnapshot(s: BookSnapshot): BookState {
    BookState(ApplyLevels(Bid, [], s.bids), ApplyLevels(Ask, [], s.asks), s.lastUpdateId, true)
  }

  function WithUpdate(b: BookState, u: BookUpdate): BookState {
    BookState(ApplyLevels(Bid, b.bids, u.bids), ApplyLevels(Ask, b.asks, u.asks), u.finalUpdateId, b.initialized)
  }

  function Verdict(b: BookState, u: BookUpdate): ApplyUpdateResult {
    if !b.initialized then NotInitialized
    else if u.finalUpdateId <= b.lastUpdateId then IgnoredStale
    else if u.firstUpdateId > b.lastUpdateId + 1 then GapDetected
    else Applied
  }

  function AfterUpdate(b: BookState, u: BookUpdate): BookState {
    if Verdict(b, u) == Applied then WithUpdate(b, u) else b
  }

  lemma ApplyUpdateValid(b: BookState, u: BookUpdate)
    requires b.Valid()
    ensures AfterUpdate(b, u).Valid()
    ensures b.lastUpdateId <= AfterUpdate(b, u).lastUpdateId
    ensures AfterUpdate(b, u).lastUpdateId == b.lastUpdateId <==> AfterUpdate(b, u) == b
  {
    LastWriteWins(Bid, b.bids, u.bids);
    LastWriteWins(Ask, b.asks, u.asks);
  }

  lemma LoadSnapshotValid(s: BookSnapshot)
    ensures LoadSnapshot(s).Valid()
  {
    LastWriteWins(Bid, [], s.bids);
    LastWriteWins(Ask, [], s.asks);
  }

  // ----- batching -----

  /** Two consecutive updates as one: all their levels in order, from the first id to the last. */
  function Merge(u: BookUpdate, v: BookUpdate): BookUpdate {
    u.(bids := u.bids + v.bids, asks := u.asks + v.asks, finalUpdateId := v.finalUpdateId)
  }

  function MergeAll(us: seq<BookUpdate>): BookUpdate
    requires us != []
  {
    if |us| == 1 then us[0] else Merge(us[0], MergeAll(us[1..]))
  }

  function Flatten(groups: seq<seq<BookUpdate>>): seq<BookUpdate> {
    if groups == [] then [] else groups[0] + Flatten(groups[1..])
  }

  function Batches(groups: seq<seq<BookUpdate>>): seq<BookUpdate>
    requires forall i :: 0 <= i < |groups| ==> groups[i] != []
  {
    if groups == [] then [] else [MergeAll(groups[0])] + Batches(groups[1..])
  }

  function ApplyAll(b: BookState, us: seq<BookUpdate>): BookState
    decreases |us|
  {
    if us == [] then b else ApplyAll(AfterUpdate(b, us[0]), us[1..])
  }

  predicate AllApply(b: BookState, us: seq<BookUpdate>)
    decreases |us|
  {
    us == [] || (Verdict(b, us[0]) == Applied && AllApply(AfterUpdate(b, us[0]), us[1..]))
  }

  lemma MergeTwo(b: BookState, u: BookUpdate, v: BookUpdate)
    requires Verdict(b, u) == Applied && Verdict(AfterUpdate(b, u), v) == Applied
    ensures Verdict(b, Merge(u, v)) == Applied
    ensures AfterUpdate(b, Merge(u, v)) == AfterUpdate(AfterUpdate(b, u), v)
  {
    ApplyLevelsConcat(Bid, b.bids, u.bids, v.bids);
    ApplyLevelsConcat(Ask, b.asks, u.asks, v.asks);
  }

  lemma {:induction false} MergeMany(b: BookState, us: seq<BookUpdate>)
    requires us != [] && AllApply(b, us)
    ensures Verdict(b, MergeAll(us)) == Applied
    ensures AfterUpdate(b, MergeAll(us)) == ApplyAll(b, us)
    decreases |us|
  {
    var b' := AfterUpdate(b, us[0]);
    if |us| == 1 {
      assert ApplyAll(b', us[1..]) == b';
    } else {
      MergeMany(b', us[1..]);
      MergeTwo(b, us[0], MergeAll(us[1..]));
    }
  }

  lemma {:induction false} ApplyAllConcat(b: BookState, x: seq<BookUpdate>, y: seq<BookUpdate>)
    ensures ApplyAll(b, x + y) == ApplyAll(ApplyAll(b, x), y)
    ensures AllApply(b, x + y) <==> AllApply(b, x) && AllApply(ApplyAll(b, x), y)
    decreases |x|
  {
    if x == [] {
      assert x + y == y;
    } else {
      assert (x + y)[1..] == x[1..] + y;
      ApplyAllConcat(AfterUpdate(b, x[0]), x[1..], y);
    }
  }

  /** Any regrouping of a feed that applies into merged batches also applies, batch by batch, and
      ends in the same book and the same id. */
  lemma {:induction false} BatchingDoesNotMatter(b: BookState, groups: seq<seq<BookUpdate>>)
    requires forall i :: 0 <= i < |groups| ==> groups[i] != []
    requires AllApply(b, Flatten(groups))
    ensures AllApply(b, Batches(groups))
    ensures ApplyAll(b, Batches(groups)) == ApplyAll(b, Flatten(groups))
    decreases |groups|
  {
    if groups != [] {
      ApplyAllConcat(b, groups[0], Flatten(groups[1..]));
      MergeMany(b, groups[0]);
      BatchingDoesNotMatter(ApplyAll(b, groups[0]), groups[1..]);
      assert Batches(groups)[1..] == Batches(groups[1..]);
    }
  }

  /** Redelivering any update of a feed that applied changes nothing. */
  lemma {:induction false} RedeliveryIsStale(b: BookState, us: seq<BookUpdate>, k: nat)
    requires AllApply(b, us) && k < |us| && b.Valid()
    ensures Verdict(ApplyAll(b, us), us[k]) == IgnoredStale
    ensures us[k].finalUpdateId <= ApplyAll(b, us).lastUpdateId
    decreases |us|
  {
    ApplyUpdateValid(b, us[0]);
    var b' := AfterUpdate(b, us[0]);
    if k > 0 {
      RedeliveryIsStale(b', us[1..], k - 1);
    } else {
      NeverGoesBack(b', us[1..]);
    }
  }

  lemma {:induction false} NeverGoesBack(b: BookState, us: seq<BookUpdate>)
    requires b.Valid()
    ensures ApplyAll(b, us).lastUpdateId >= b.lastUpdateId
    ensures ApplyAll(b, us).initialized == b.initialized
    decreases |us|
  {
    if us != [] {
      ApplyUpdateValid(b, us[0]);
      NeverGoesBack(AfterUpdate(b, us[0]), us[1..]);
    }
  }

  // ----- sequences of operations -----

  /** What can be done to a book. */
  datatype BookOp = Load(snapshot: BookSnapshot) | Update(update: BookUpdate) | Clear

  function AfterOp(b: BookState, op: BookOp): BookState {
    match op
    case Load(s) => LoadSnapshot(s)
    case Update(u) => AfterUpdate(b, u)
    case Clear => EMPTY_BOOK
  }

  /** Any sequence of operations on a new book; updates may be stale, leave a gap or come too early. */
  function AfterOps(ops: seq<BookOp>): BookState {
    if ops == [] then EMPTY_BOOK
    else
      var n := |ops| - 1;
      AfterOp(AfterOps(ops[..n]), ops[n])
  }

  /** All the levels of a side that were applied since the last snapshot, that snapshot's included. */
  function Written(side: Side, ops: seq<BookOp>): seq<PriceLevel> {
    if ops == [] then []
    else
      var n := |ops| - 1;
      var written := Written(side, ops[..n]);
      match ops[n]
      case Load(s) => s.Levels(side)
      case Update(u) => if Verdict(AfterOps(ops[..n]), u) == Applied then written + u.Levels(side) else written
      case Clear => []
  }

  lemma {:induction false} BuiltFromWritten(side: Side, ops: seq<BookOp>)
    ensures AfterOps(ops).Levels(side) == ApplyLevels(side, [], Written(side, ops))
  {
    if ops != [] {
      var n := |ops| - 1;
      BuiltFromWritten(side, ops[..n]);
      if ops[n].Update? {
        ApplyLevelsConcat(side, [], Written(side, ops[..n]), ops[n].update.Levels(side));
      }
    }
  }

  /** Last write wins over any sequence of operations: at every price a side holds what was last
      written there since the last snapshot, and nothing where that is not positive or was not
      written. */
  lemma LastWriteWinsOverall(side: Side, ops: seq<BookOp>)
    ensures var l := AfterOps(ops).Levels(side);
            && WellFormed(side, l)
            && forall p :: QuantityAt(l, p) == Overwritten(0.0, LastMention(Written(side, ops), p))
  {
    BuiltFromWritten(side, ops);
    LastWriteWins(side, [], Written(side, ops));
  }

  // ----- the class -----

  method ApplyLevelList(side: Side, l: Ladder, levels: seq<PriceLevel>) returns (r: Ladder)
    ensures r == ApplyLevels(side, l, levels)
  {
    r := l;
    for i := 0 to |levels|
      invariant r == ApplyLevels(side, l, levels[..i])
    {
      assert levels[..i + 1][..i] == levels[..i];
      if levels[i].quantity <= 0.0 {
        r := Erase(r, levels[i].price);
      } else {
        r := Assign(side, r, levels[i].price, levels[i].quantity);
      }
    }
    assert levels[..|levels|] == levels;
  }

  method FirstLevels(l: Ladder, limit: nat) returns (result: seq<PriceLevel>)
    ensures result == Top(l, limit)
  {
    result := [];
    var count := 0;
    while count < |l|
      invariant 0 <= count <= |l| && count <= limit
      invariant result == l[..count]
    {
      if count >= limit {
        break;
      }
      result := result + [l[count]];
      count := count + 1;
    }
  }

  class OrderBook {
    var bids: Ladder
    var asks: Ladder
    var lastUpdateId: Uint64
    var initialized: bool

    function State(): BookState
      reads this
    {
      BookState(bids, asks, lastUpdateId, initialized)
    }

    ghost predicate Valid()
      reads this
    {
      State().Valid()
    }

    constructor ()
      ensures State() == EMPTY_BOOK && Valid()
    {
      bids, asks, lastUpdateId, initialized := [], [], 0, false;
    }

    /** The copy that storing a book makes. */
    constructor Copy(other: OrderBook)
      ensures State() == other.State()
    {
      bids, asks, lastUpdateId, initialized := other.bids, other.asks, other.lastUpdateId, other.initialized;
    }

    method ApplySnapshot(snapshotBids: seq<PriceLevel>, snapshotAsks: seq<PriceLevel>, snapshotId: Uint64)
      modifies this
      ensures Valid()
      ensures bids == ApplyLevels(Bid, [], snapshotBids) && asks == ApplyLevels(Ask, [], snapshotAsks)
      ensures lastUpdateId == snapshotId && initialized
    {
      bids, asks := [], [];
      bids := ApplyLevelList(Bid, bids, snapshotBids);
      asks := ApplyLevelList(Ask, asks, snapshotAsks);
      lastUpdateId := snapshotId;
      initialized := true;
      LastWriteWins(Bid, [], snapshotBids);
      LastWriteWins(Ask, [], snapshotAsks);
    }

    /** The successor is computed in 64 bits; the result is that of unbounded arithmetic. */
    method ApplyUpdate(u: BookUpdate) returns (result: ApplyUpdateResult)
      requires Valid()
      modifies this
      ensures Valid()
      ensures result == Verdict(old(State()), u)
      ensures State() == AfterUpdate(old(State()), u)
      ensures result == NotInitialized <==> !old(initialized)
      ensures result == IgnoredStale <==> old(initialized) && u.finalUpdateId <= old(lastUpdateId)
      ensures result == Applied <==>
                old(initialized) && u.firstUpdateId <= old(lastUpdateId) + 1 <= u.finalUpdateId
      ensures if result == Applied then lastUpdateId == u.finalUpdateId else State() == old(State())
    {
      ApplyUpdateValid(State(), u);
      if !initialized {
        return NotInitialized;
      }
      if u.finalUpdateId <= lastUpdateId {
        return IgnoredStale;
      }
      if u.firstUpdateId > Successor64(lastUpdateId) {
        return GapDetected;
      }
      bids := ApplyLevelList(Bid, bids, u.bids);
      asks := ApplyLevelList(Ask, asks, u.asks);
      lastUpdateId := u.finalUpdateId;
      return Applied;
    }

    method BestBid() returns (r: Option<PriceLevel>)
      ensures r == Best(bids)
      ensures Valid() ==> IsBest(Bid, bids, r)
    {
      if Valid() {
        HeadIsBest(Bid, bids);
      }
      r := if bids == [] then None else Some(bids[0]);
    }

    method BestAsk() returns (r: Option<PriceLevel>)
      ensures r == Best(asks)
      ensures Valid() ==> IsBest(Ask, asks, r)
    {
      if Valid() {
        HeadIsBest(Ask, asks);
      }
      r := if asks == [] then None else Some(asks[0]);
    }

    method TopBids(limit: nat) returns (r: seq<PriceLevel>)
      ensures r == Top(bids, limit)
    {
      r := FirstLevels(bids, limit);
    }

    method TopAsks(limit: nat) returns (r: seq<PriceLevel>)
      ensures r == Top(asks, limit)
    {
      r := FirstLevels(asks, limit);
    }

    method Clear()
      modifies this
      ensures State() == EMPTY_BOOK && Valid()
      ensures bids == asks == [] && lastUpdateId == 0 && !initialized
    {
      bids, asks := [], [];
      lastUpdateId := 0;
      initialized := false;
    }
  }
}
