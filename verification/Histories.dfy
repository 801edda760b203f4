/** The local book against the exchange's own history.

    The exchange's book over time is a function from version, side and price to quantity, 0 where
    there is no level. An honest update from `U` to `u` gives the quantity at version `u` of every
    price it lists, and no price it leaves out changed over versions `U - 1` to `u`. An honest
    snapshot at version `n` lists the best levels of version `n`, at most `limit` a side. Over every
    run made of honest messages, however they are lost, repeated or reordered, the local book is the
    exchange's book at exactly `lastUpdateId`, as far down as the last snapshot reached.
  */
module Histories {
  import opened Ladders
  import opened OrderBooks
  import opened LocalBookManagers
  import opened ManagerProperties

  type History = (nat, Side, real) -> real

  // ----- honest messages -----

  ghost predicate HonestSide(h: History, side: Side, levels: seq<PriceLevel>, first: nat, final: nat) {
    forall p ::
      match LastMention(levels, p)
      case Some(q) => h(final, side, p) == Effective(q)
      case None => forall v: nat :: first <= v + 1 && v <= final ==> h(v, side, p) == h(final, side, p)
  }

  ghost predicate HonestUpdate(h: History, u: BookUpdate) {
    forall side :: HonestSide(h, side, u.Levels(side), u.firstUpdateId, u.finalUpdateId)
  }

  /** The listed levels are true, and a level is left out only below `limit` better ones. */
  ghost predicate BestOf(h: History, side: Side, version: nat, listed: Ladder, limit: nat) {
    forall p ::
      if QuantityAt(listed, p) != 0.0 then h(version, side, p) == QuantityAt(listed, p)
      else h(version, side, p) != 0.0 ==> |listed| >= limit && AllBefore(side, listed, p)
  }

  ghost predicate AllBefore(side: Side, l: Ladder, p: real) {
    forall i :: 0 <= i < |l| ==> Before(side, l[i].price, p)
  }

  ghost predicate HonestSnapshot(h: History, s: BookSnapshot, limit: nat) {
    forall side :: BestOf(h, side, s.lastUpdateId, ApplyLevels(side, [], s.Levels(side)), limit)
  }

  // ----- how far down a book is known -----

  /** The prices at which a local side is known to be complete. */
  datatype Window = Whole | UpTo(worst: real) | Nothing

  datatype Windows = Windows(bids: Window, asks: Window) {
    function Of(side: Side): Window {
      if side == Bid then bids else asks
    }
  }

  predicate Inside(side: Side, w: Window, p: real) {
    match w
    case Whole => true
    case UpTo(worst) => !Before(side, worst, p)
    case Nothing => false
  }

  /** What a snapshot of at most `limit` levels a side lets one know. */
  function SideWindow(listed: Ladder, limit: nat): Window {
    if |listed| < limit then Whole
    else if listed == [] then Nothing
    else UpTo(listed[|listed| - 1].price)
  }

  function SnapshotWindows(s: BookSnapshot, limit: nat): Windows {
    Windows(SideWindow(ApplyLevels(Bid, [], s.bids), limit), SideWindow(ApplyLevels(Ask, [], s.asks), limit))
  }

  /** Every level of the local side is true, and inside the window none is missing. */
  ghost predicate Covers(h: History, side: Side, version: nat, l: Ladder, w: Window) {
    forall p ::
      QuantityAt(l, p) == h(version, side, p) || (QuantityAt(l, p) == 0.0 && !Inside(side, w, p))
  }

  ghost predicate BookCovers(h: History, b: BookState, ws: Windows) {
    forall side :: Covers(h, side, b.lastUpdateId, b.Levels(side), ws.Of(side))
  }

  ghost predicate Tracks(h: History, m: Manager, ws: Windows) {
    && (m.book.initialized ==> BookCovers(h, m.book, ws))
    && (forall i :: 0 <= i < |m.buffer| ==> HonestUpdate(h, m.buffer[i]))
  }

  // ----- the steps -----

  lemma SnapshotCovers(h: History, s: BookSnapshot, limit: nat)
    requires HonestSnapshot(h, s, limit)
    ensures BookCovers(h, LoadSnapshot(s), SnapshotWindows(s, limit))
  {
    var b, ws := LoadSnapshot(s), SnapshotWindows(s, limit);
    forall side ensures Covers(h, side, b.lastUpdateId, b.Levels(side), ws.Of(side)) {
      var l := b.Levels(side);
      assert l == ApplyLevels(side, [], s.Levels(side)) && ws.Of(side) == SideWindow(l, limit);
      assert BestOf(h, side, s.lastUpdateId, l, limit);
      forall p ensures QuantityAt(l, p) == h(s.lastUpdateId, side, p) ||
                       (QuantityAt(l, p) == 0.0 && !Inside(side, ws.Of(side), p))
      {
        if QuantityAt(l, p) == 0.0 && h(s.lastUpdateId, side, p) != 0.0 {
          assert AllBefore(side, l, p);
        }
      }
    }
  }

  lemma UpdateCovers(h: History, b: BookState, u: BookUpdate, ws: Windows)
    requires b.Valid() && BookCovers(h, b, ws) && HonestUpdate(h, u)
    ensures BookCovers(h, AfterUpdate(b, u), ws)
  {
    if Verdict(b, u) == Applied {
      var b' := AfterUpdate(b, u);
      forall side ensures Covers(h, side, b'.lastUpdateId, b'.Levels(side), ws.Of(side)) {
        LastWriteWins(side, b.Levels(side), u.Levels(side));
        assert b'.Levels(side) == ApplyLevels(side, b.Levels(side), u.Levels(side));
        assert Covers(h, side, b.lastUpdateId, b.Levels(side), ws.Of(side));
        assert HonestSide(h, side, u.Levels(side), u.firstUpdateId, u.finalUpdateId);
      }
    }
  }

  lemma DeliveredTracks(h: History, m: Manager, u: BookUpdate, ws: Windows)
    requires m.Valid() && Tracks(h, m, ws)
    requires m.Owns(u) ==> HonestUpdate(h, u)
    ensures Tracks(h, Delivered(m, u), ws)
  {
    if m.status == Ready && m.Owns(u) {
      UpdateCovers(h, m.book, u, ws);
    }
  }

  lemma {:induction false} ReplayTracks(h: History, m: Manager, us: seq<BookUpdate>, ws: Windows)
    requires m.Valid() && Tracks(h, m, ws)
    requires forall i :: 0 <= i < |us| ==> HonestUpdate(h, us[i])
    ensures Tracks(h, Replay(m, us), ws)
    decreases |us|
  {
    if us != [] {
      DeliveredTracks(h, m, us[0], ws);
      DeliveredValid(m, us[0]);
      ReplayTracks(h, Delivered(m, us[0]), us[1..], ws);
    }
  }

  /** The windows after an event: those of the snapshot when it is one of the manager's. */
  function WindowsAfter(m: Manager, e: Event, ws: Windows, limit: nat): Windows {
    if e.Snapshot? && m.OwnsSnapshot(e.snapshot) then SnapshotWindows(e.snapshot, limit) else ws
  }

  function WindowsOfRun(m: Manager, es: seq<Event>, ws: Windows, limit: nat): Windows
    decreases |es|
  {
    if es == [] then ws else WindowsOfRun(After(m, es[0]), es[1..], WindowsAfter(m, es[0], ws, limit), limit)
  }

  /** Messages addressed to the manager are honest; about the others nothing is assumed. */
  ghost predicate HonestEvent(h: History, m: Manager, e: Event, limit: nat) {
    match e
    case Deliver(u) => m.Owns(u) ==> HonestUpdate(h, u)
    case Snapshot(s) => m.OwnsSnapshot(s) ==> HonestSnapshot(h, s, limit)
    case Reset => true
  }

  lemma AfterTracks(h: History, m: Manager, e: Event, ws: Windows, limit: nat)
    requires m.Valid() && Tracks(h, m, ws) && HonestEvent(h, m, e, limit)
    ensures Tracks(h, After(m, e), WindowsAfter(m, e, ws, limit))
  {
    match e
    case Deliver(u) => DeliveredTracks(h, m, u, ws);
    case Snapshot(s) =>
      if m.OwnsSnapshot(s) {
        SnapshotCovers(h, s, limit);
        LoadSnapshotValid(s);
        ReplayTracks(h, Started(m.(book := LoadSnapshot(s))), m.buffer, SnapshotWindows(s, limit));
      }
    case Reset =>
  }

  lemma {:induction false} RunTracks(h: History, m: Manager, es: seq<Event>, ws: Windows, limit: nat)
    requires m.Valid() && Tracks(h, m, ws)
    requires forall i :: 0 <= i < |es| ==> HonestEvent(h, m, es[i], limit)
    ensures Tracks(h, Run(m, es), WindowsOfRun(m, es, ws, limit))
    decreases |es|
  {
    if es != [] {
      AfterTracks(h, m, es[0], ws, limit);
      AfterValid(m, es[0]);
      RunTracks(h, After(m, es[0]), es[1..], WindowsAfter(m, es[0], ws, limit), limit);
    }
  }

  // ----- the main results -----

  /** After any run from a fresh manager, an initialised (hence any ready) book holds only levels
      of the exchange's book at `lastUpdateId`, and all of them inside the last snapshot's window. */
  lemma DepthLimitedRefinement(h: History, m: Manager, es: seq<Event>, ws: Windows, limit: nat)
    requires m == Fresh(m.exchange, m.symbol, m.maxBufferedUpdates)
    requires forall i :: 0 <= i < |es| ==> HonestEvent(h, m, es[i], limit)
    ensures var m' := Run(m, es);
            && (m'.status != WaitingForSnapshot <==> m'.book.initialized)
            && (m'.book.initialized ==> BookCovers(h, m'.book, WindowsOfRun(m, es, ws, limit)))
  {
    RunTracks(h, m, es, ws, limit);
    RunValid(m, es);
  }

  /** Snapshots of the manager's own book list fewer levels than asked for. */
  ghost predicate FullEvent(m: Manager, e: Event, limit: nat) {
    e.Snapshot? && m.OwnsSnapshot(e.snapshot) ==> SnapshotWindows(e.snapshot, limit) == Windows(Whole, Whole)
  }

  /** With snapshots that list fewer levels than asked for, that is, the whole book, the book is
      the exchange's book at `lastUpdateId`, price by price. */
  lemma HistoryRefinement(h: History, m: Manager, es: seq<Event>, limit: nat)
    requires m == Fresh(m.exchange, m.symbol, m.maxBufferedUpdates)
    requires forall i :: 0 <= i < |es| ==> HonestEvent(h, m, es[i], limit) && FullEvent(m, es[i], limit)
    ensures var b := Run(m, es).book;
            b.initialized ==> forall side, p :: QuantityAt(b.Levels(side), p) == h(b.lastUpdateId, side, p)
  {
    DepthLimitedRefinement(h, m, es, Windows(Whole, Whole), limit);
    WholeWindows(m, es, limit);
    var b := Run(m, es).book;
    if b.initialized {
      forall side, p ensures QuantityAt(b.Levels(side), p) == h(b.lastUpdateId, side, p) {
        assert Covers(h, side, b.lastUpdateId, b.Levels(side), Whole);
      }
    }
  }

  lemma {:induction false} WholeWindows(m: Manager, es: seq<Event>, limit: nat)
    requires m.Valid() && forall i :: 0 <= i < |es| ==> FullEvent(m, es[i], limit)
    ensures WindowsOfRun(m, es, Windows(Whole, Whole), limit) == Windows(Whole, Whole)
    decreases |es|
  {
    if es != [] {
      AfterValid(m, es[0]);
      WholeWindows(After(m, es[0]), es[1..], limit);
    }
  }

  /** A well-formed ladder of the exchange's side at a version. */
  ghost predicate IsSideOf(h: History, side: Side, version: nat, t: Ladder) {
    WellFormed(side, t) && forall p :: QuantityAt(t, p) == h(version, side, p)
  }

  /** Whether the k-th best level of a ladder exists and lies inside the window. */
  predicate ReachesInside(side: Side, w: Window, l: Ladder, k: nat) {
    k == 0 || (k <= |l| && Inside(side, w, l[k - 1].price))
  }

  lemma ReachesEarlier(side: Side, w: Window, l: Ladder, k: nat)
    requires Sorted(side, l) && k > 0 && ReachesInside(side, w, l, k)
    ensures ReachesInside(side, w, l, k - 1)
  {
  }

  lemma {:induction false} PrefixInsideWindow(h: History, side: Side, version: nat, l: Ladder, t: Ladder,
                                              w: Window, k: nat)
    requires WellFormed(side, l) && Covers(h, side, version, l, w) && IsSideOf(h, side, version, t)
    requires ReachesInside(side, w, l, k) || ReachesInside(side, w, t, k)
    ensures k <= |l| && k <= |t| && l[..k] == t[..k]
  {
    if k > 0 {
      if ReachesInside(side, w, l, k) {
        ReachesEarlier(side, w, l, k);
      } else {
        ReachesEarlier(side, w, t, k);
      }
      PrefixInsideWindow(h, side, version, l, t, w, k - 1);
      NextLevel(h, side, version, l, t, w, k - 1);
      assert l[..k] == l[..k - 1] + [l[k - 1]];
      assert t[..k] == t[..k - 1] + [t[k - 1]];
    }
  }

  /** The local best levels are the exchange's, as far as they lie inside the window: if the k-th
      best level of either ladder is inside, the two lists of k best levels are equal. */
  lemma TopInsideWindow(h: History, side: Side, version: nat, l: Ladder, t: Ladder, w: Window, k: nat)
    requires WellFormed(side, l) && Covers(h, side, version, l, w) && IsSideOf(h, side, version, t)
    requires ReachesInside(side, w, l, k) || ReachesInside(side, w, t, k)
    ensures |Top(l, k)| == k && Top(l, k) == Top(t, k)
    ensures k > 0 ==> Best(l) == Best(t)
  {
    PrefixInsideWindow(h, side, version, l, t, w, k);
    assert k > 0 ==> l[0] == l[..k][0] == t[..k][0] == t[0];
  }

  /** The window reaches down to the k-th best of the exchange's levels, or to all of them. */
  predicate SeenTo(side: Side, w: Window, t: Ladder, k: nat) {
    w == Whole || ReachesInside(side, w, t, k) || ReachesInside(side, w, t, |t|)
  }

  /** A window that reaches down to the last of the exchange's levels shows the whole side. */
  lemma AllSeen(h: History, side: Side, version: nat, l: Ladder, t: Ladder, w: Window)
    requires WellFormed(side, l) && Covers(h, side, version, l, w) && IsSideOf(h, side, version, t)
    requires ReachesInside(side, w, t, |t|)
    ensures l == t
  {
    PrefixInsideWindow(h, side, version, l, t, w, |t|);
    assert t[..|t|] == t;
    if |l| > |t| {
      var p := l[|t|].price;
      QuantityAtLevel(side, l, |t|);
      assert QuantityAt(t, p) == h(version, side, p);
      var i := LevelOfQuantity(t, p);
      assert false;
    }
    assert l[..|t|] == l;
  }

  /** A window that reaches that far shows the exchange's k best levels. */
  lemma TopSeen(h: History, side: Side, version: nat, l: Ladder, t: Ladder, w: Window, k: nat)
    requires WellFormed(side, l) && Covers(h, side, version, l, w) && IsSideOf(h, side, version, t)
    requires SeenTo(side, w, t, k)
    ensures Top(l, k) == Top(t, k)
  {
    if w == Whole {
      Canonical(side, l, t);
    } else if ReachesInside(side, w, t, |t|) {
      AllSeen(h, side, version, l, t, w);
    } else {
      TopInsideWindow(h, side, version, l, t, w, k);
    }
  }

  lemma NextLevel(h: History, side: Side, version: nat, l: Ladder, t: Ladder, w: Window, k: nat)
    requires WellFormed(side, l) && Covers(h, side, version, l, w) && IsSideOf(h, side, version, t)
    requires k <= |l| && k <= |t| && l[..k] == t[..k]
    requires (k < |l| && Inside(side, w, l[k].price)) || (k < |t| && Inside(side, w, t[k].price))
    ensures k < |l| && k < |t| && l[k] == t[k]
  {
    if k < |l| && Inside(side, w, l[k].price) {
      QuantityAtLevel(side, l, k);
      var i := LevelBeyond(side, l, t, k);
      if i > k {
        // the exchange's k-th level is better, hence inside, hence local: it was matched before
        QuantityAtLevel(side, t, k);
        var j := LevelBeyond(side, t, l, k);
        assert false;
      }
    } else {
      QuantityAtLevel(side, t, k);
      var j := LevelBeyond(side, t, l, k);
      if j > k {
        // the local k-th level is better and true: it was matched before
        QuantityAtLevel(side, l, k);
        var i := LevelBeyond(side, l, t, k);
        assert false;
      }
    }
  }

  /** Where the k-th level of one ladder sits in another that agrees with it on the first k. */
  lemma LevelBeyond(side: Side, a: Ladder, b: Ladder, k: nat) returns (i: nat)
    requires WellFormed(side, a) && WellFormed(side, b) && k < |a| && k <= |b| && a[..k] == b[..k]
    requires QuantityAt(b, a[k].price) == a[k].quantity
    ensures k <= i < |b| && b[i] == a[k]
  {
    assert forall n :: 0 <= n < k ==> a[n] == a[..k][n] == b[n];
    i := LevelOfQuantity(b, a[k].price);
  }

  /** What an exchange that sends the best `limit` levels of each side sends is an honest snapshot. */
  lemma BestLevelsAreHonest(h: History, s: BookSnapshot, bids: Ladder, asks: Ladder, limit: nat)
    requires IsSideOf(h, Bid, s.lastUpdateId, bids) && IsSideOf(h, Ask, s.lastUpdateId, asks)
    requires s.bids == Top(bids, limit) && s.asks == Top(asks, limit)
    ensures HonestSnapshot(h, s, limit)
    ensures LoadSnapshot(s).bids == Top(bids, limit) && LoadSnapshot(s).asks == Top(asks, limit)
  {
    BestLevelsOfSide(h, Bid, s.lastUpdateId, bids, limit);
    BestLevelsOfSide(h, Ask, s.lastUpdateId, asks, limit);
    forall side ensures BestOf(h, side, s.lastUpdateId, ApplyLevels(side, [], s.Levels(side)), limit) {
      assert side == Bid || side == Ask;
    }
  }

  lemma BestLevelsOfSide(h: History, side: Side, version: nat, t: Ladder, limit: nat)
    requires IsSideOf(h, side, version, t)
    ensures ApplyLevels(side, [], Top(t, limit)) == Top(t, limit)
    ensures BestOf(h, side, version, Top(t, limit), limit)
  {
    ReloadRoundTrip(side, Top(t, limit));
    forall p
      ensures if QuantityAt(Top(t, limit), p) != 0.0 then h(version, side, p) == QuantityAt(Top(t, limit), p)
              else h(version, side, p) != 0.0 ==> |Top(t, limit)| >= limit && AllBefore(side, Top(t, limit), p)
    {
      TopIsBest(side, t, limit, p);
    }
  }
}
