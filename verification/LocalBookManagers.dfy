/** The synchronisation protocol of one local book, for either exchange.

    A manager buffers updates until a snapshot arrives, replays what the snapshot does not cover,
    and from then on follows the live feed until it detects a gap. `Delivered` is the live rule.
    `AfterSnapshot` is the simple form of snapshot synchronisation: load the snapshot into a ready
    manager and deliver the buffered updates to it one by one by that same live rule. The class
    does it with a stale-prefix drop, a bridge check and a drain loop, and is proved to refine the
    simple form. The Binance and the MEXC manager are the two values of `exchange`.
  */
module LocalBookManagers {
  import opened OrderBooks

  datatype Status = WaitingForSnapshot | Ready | NeedResync

  datatype Outcome =
    | Buffered
    | SnapshotApplied
    | SnapshotRejected
    | UpdateApplied
    | UpdateStale
    | Gap
    | NotForSymbol

  datatype Stats = Stats(buffered: nat, applied: nat, stale: nat, gaps: nat)

  datatype Manager = Manager(
    exchange: Exchange, symbol: string, maxBufferedUpdates: nat,
    book: BookState, buffer: seq<BookUpdate>, status: Status, stats: Stats)
  {
    predicate Owns(u: BookUpdate) {
      u.exchange == exchange && u.symbol == symbol
    }

    predicate OwnsSnapshot(s: BookSnapshot) {
      s.exchange == exchange && s.symbol == symbol
    }

    /** What every reachable manager satisfies. */
    ghost predicate Valid() {
      && book.Valid()
      && (status == WaitingForSnapshot <==> !book.initialized)
      && (buffer != [] ==> status == WaitingForSnapshot)
      && |buffer| <= maxBufferedUpdates
      && stats.buffered == |buffer|
      && (forall i :: 0 <= i < |buffer| ==> Owns(buffer[i]))
      && (!book.initialized ==> book == EMPTY_BOOK)
      && (status == NeedResync ==> stats.gaps > 0)
    }
  }

  const NO_STATS := Stats(0, 0, 0, 0)

  function Fresh(exchange: Exchange, symbol: string, maxBufferedUpdates: nat): Manager {
    Manager(exchange, symbol, maxBufferedUpdates, EMPTY_BOOK, [], WaitingForSnapshot, NO_STATS)
  }

  /** The newest `limit` entries of a buffer. */
  function Newest(us: seq<BookUpdate>, limit: nat): seq<BookUpdate> {
    if |us| <= limit then us else us[|us| - limit..]
  }

  /** An update reaching an initialised book. */
  function Live(m: Manager, u: BookUpdate): Manager {
    var m' := m.(book := AfterUpdate(m.book, u));
    match Verdict(m.book, u)
    case Applied => m'.(status := Ready, stats := m.stats.(applied := m.stats.applied + 1))
    case IgnoredStale => m'.(stats := m.stats.(stale := m.stats.stale + 1))
    case GapDetected => m'.(status := NeedResync, stats := m.stats.(gaps := m.stats.gaps + 1))
    case NotInitialized => m'.(status := WaitingForSnapshot)
  }

  function LiveOutcome(m: Manager, u: BookUpdate): Outcome {
    match Verdict(m.book, u)
    case Applied => UpdateApplied
    case IgnoredStale => UpdateStale
    case GapDetected => Gap
    case NotInitialized => SnapshotRejected
  }

  function Delivered(m: Manager, u: BookUpdate): Manager {
    if !m.Owns(u) then m
    else match m.status
      case NeedResync => m
      case WaitingForSnapshot =>
        var buffer := Newest(m.buffer + [u], m.maxBufferedUpdates);
        m.(buffer := buffer, stats := m.stats.(buffered := |buffer|))
      case Ready => Live(m, u)
  }

  function DeliveryOutcome(m: Manager, u: BookUpdate): Outcome {
    if !m.Owns(u) then NotForSymbol
    else match m.status
      case NeedResync => Gap
      case WaitingForSnapshot => Buffered
      case Ready => LiveOutcome(m, u)
  }

  /** Updates delivered one after another. */
  function Replay(m: Manager, us: seq<BookUpdate>): Manager
    decreases |us|
  {
    if us == [] then m else Replay(Delivered(m, us[0]), us[1..])
  }

  /** The manager as a ready one with nothing buffered. */
  function Started(m: Manager): Manager {
    m.(buffer := [], status := Ready, stats := m.stats.(buffered := 0))
  }

  function AfterSnapshot(m: Manager, s: BookSnapshot): Manager {
    if !m.OwnsSnapshot(s) then m
    else Replay(Started(m.(book := LoadSnapshot(s))), m.buffer)
  }

  /** A snapshot is rejected when the first buffered update it does not cover leaves a gap, so
      that nothing was applied on top of it; a gap further on is reported as a gap. */
  function SnapshotOutcome(m: Manager, s: BookSnapshot): Outcome {
    var m' := AfterSnapshot(m, s);
    if !m.OwnsSnapshot(s) then NotForSymbol
    else if m'.status == Ready then SnapshotApplied
    else if m'.book.lastUpdateId == s.lastUpdateId then SnapshotRejected
    else Gap
  }

  function AfterReset(m: Manager): Manager {
    Fresh(m.exchange, m.symbol, m.maxBufferedUpdates)
  }

  lemma {:induction false} ResyncAbsorbs(m: Manager, us: seq<BookUpdate>)
    requires m.status == NeedResync
    ensures Replay(m, us) == m
    decreases |us|
  {
    if us != [] {
      ResyncAbsorbs(m, us[1..]);
    }
  }

  /** One step of the replay, on the first update of a buffer. */
  lemma ReplayOne(m: Manager, us: seq<BookUpdate>)
    requires us != [] && m.status == Ready && m.Owns(us[0])
    ensures Replay(m, us) == Replay(Live(m, us[0]), us[1..])
  {
  }

  /** A replay whose first update leaves a gap. */
  lemma ReplayGap(m: Manager, us: seq<BookUpdate>)
    requires us != [] && m.Owns(us[0]) && Verdict(m.book, us[0]) == GapDetected
    ensures Replay(Started(m), us) ==
            Started(m).(status := NeedResync, stats := m.stats.(buffered := 0, gaps := m.stats.gaps + 1))
  {
    ReplayOne(Started(m), us);
    ResyncAbsorbs(Live(Started(m), us[0]), us[1..]);
  }

  lemma StartedLive(m: Manager, u: BookUpdate)
    requires m.book.initialized && Verdict(m.book, u) != GapDetected
    ensures Started(Live(m, u)) == Live(Started(m), u)
  {
  }

  /** A manager in the middle of draining: past the snapshot, or just about to go past it. */
  ghost predicate Draining(m: Manager, snapshotId: nat) {
    && m.book.Valid() && m.book.initialized
    && m.status != NeedResync && m.stats.buffered == |m.buffer|
    && (forall i :: 0 <= i < |m.buffer| ==> m.Owns(m.buffer[i]))
    && (m.book.lastUpdateId > snapshotId ||
        (m.book.lastUpdateId == snapshotId && m.buffer != [] && Verdict(m.book, m.buffer[0]) == Applied))
  }

  /** The first buffered update delivered live and taken off the buffer. */
  function Drained(m: Manager): Manager
    requires m.buffer != []
  {
    var m' := Live(m, m.buffer[0]);
    m'.(buffer := m.buffer[1..], stats := m'.stats.(buffered := |m.buffer| - 1))
  }

  /** One turn of the drain loop: a gap ends the replay, and anything else leaves a manager that
      goes on draining. */
  lemma DrainStep(m: Manager, snapshotId: nat)
    requires Draining(m, snapshotId) && m.buffer != []
    ensures m.book.lastUpdateId > snapshotId || Verdict(m.book, m.buffer[0]) == Applied
    ensures AfterUpdate(m.book, m.buffer[0]).Valid()
    ensures if Verdict(m.book, m.buffer[0]) == GapDetected
            then Replay(Started(m), m.buffer) == Live(Started(m), m.buffer[0])
            else Draining(Drained(m), snapshotId) &&
                 Replay(Started(Drained(m)), m.buffer[1..]) == Replay(Started(m), m.buffer)
  {
    var u, rest := m.buffer[0], m.buffer[1..];
    ReplayOne(Started(m), m.buffer);
    ApplyUpdateValid(m.book, u);
    if Verdict(m.book, u) == GapDetected {
      ResyncAbsorbs(Live(Started(m), u), rest);
    } else {
      StartedLive(m, u);
      assert Started(Drained(m)) == Started(Live(m, u));
    }
  }

  /** The bridge check on an update that the book does not cover finds exactly the gaps, although the
      next id is computed in 64 bits. */
  lemma BridgeCheck(b: BookState, u: BookUpdate)
    requires b.initialized && u.finalUpdateId > b.lastUpdateId
    ensures u.firstUpdateId > Successor64(b.lastUpdateId) || u.finalUpdateId < Successor64(b.lastUpdateId) <==>
            Verdict(b, u) == GapDetected
    ensures Verdict(b, u) == GapDetected || Verdict(b, u) == Applied
  {
  }

  class LocalBookManager {
    const exchange: Exchange
    const symbol: string
    const maxBufferedUpdates: nat
    const book: OrderBook
    var buffer: seq<BookUpdate>
    var status: Status
    var stats: Stats

    ghost function State(): Manager
      reads this, book
    {
      Manager(exchange, symbol, maxBufferedUpdates, book.State(), buffer, status, stats)
    }

    ghost predicate Valid()
      reads this, book
    {
      State().Valid()
    }

    constructor (exchange: Exchange, symbol: string, maxBufferedUpdates: nat)
      ensures State() == Fresh(exchange, symbol, maxBufferedUpdates)
      ensures Valid() && fresh(book)
      ensures status == WaitingForSnapshot && buffer == [] && stats == Stats(0, 0, 0, 0) && !book.initialized
    {
      this.exchange := exchange;
      this.symbol := symbol;
      this.maxBufferedUpdates := maxBufferedUpdates;
      book := new OrderBook();
      buffer, status, stats := [], WaitingForSnapshot, NO_STATS;
    }

    predicate BelongsToThisBook(u: BookUpdate) {
      u.exchange == exchange && u.symbol == symbol
    }

    method ApplyUpdateToReadyBook(u: BookUpdate) returns (r: Outcome)
      requires book.Valid()
      modifies this, book
      ensures book.Valid()
      ensures State() == Live(old(State()), u)
      ensures r == LiveOutcome(old(State()), u)
      ensures buffer == old(buffer) && stats.buffered == old(stats.buffered)
      ensures match Verdict(old(book.State()), u)
              case Applied =>
                r == UpdateApplied && status == Ready && stats == old(stats).(applied := old(stats).applied + 1)
              case IgnoredStale =>
                r == UpdateStale && status == old(status) && stats == old(stats).(stale := old(stats).stale + 1)
              case GapDetected =>
                r == Gap && status == NeedResync && stats == old(stats).(gaps := old(stats).gaps + 1)
              case NotInitialized =>
                r == SnapshotRejected && status == WaitingForSnapshot && stats == old(stats)
    {
      var result := book.ApplyUpdate(u);
      match result
      case Applied =>
        status := Ready;
        stats := stats.(applied := stats.applied + 1);
        return UpdateApplied;
      case IgnoredStale =>
        stats := stats.(stale := stats.stale + 1);
        return UpdateStale;
      case GapDetected =>
        status := NeedResync;
        stats := stats.(gaps := stats.gaps + 1);
        return Gap;
      case NotInitialized =>
        status := WaitingForSnapshot;
        return SnapshotRejected;
    }

    method OnUpdate(u: BookUpdate) returns (r: Outcome)
      requires Valid()
      modifies this, book
      ensures Valid()
      ensures State() == Delivered(old(State()), u)
      ensures r == DeliveryOutcome(old(State()), u)
    {
      ApplyUpdateValid(book.State(), u);
      if !BelongsToThisBook(u) {
        return NotForSymbol;
      }
      if status == NeedResync {
        return Gap;
      }
      if status == WaitingForSnapshot {
        buffer := buffer + [u];
        stats := stats.(buffered := |buffer|);
        if |buffer| > maxBufferedUpdates {
          buffer := buffer[1..];
          stats := stats.(buffered := |buffer|);
        }
        return Buffered;
      }
      r := ApplyUpdateToReadyBook(u);
    }

    /** The loop that drops the buffered updates the snapshot already covers. */
    method DropStale(snapshotId: Uint64)
      requires book.initialized && book.lastUpdateId == snapshotId
      requires forall i :: 0 <= i < |buffer| ==> State().Owns(buffer[i])
      modifies this`buffer, this`stats
      ensures Replay(Started(State()), buffer) == Replay(Started(old(State())), old(buffer))
      ensures forall i :: 0 <= i < |buffer| ==> buffer[i] in old(buffer)
      ensures stats.gaps == old(stats.gaps) && |buffer| <= old(|buffer|)
      ensures buffer != [] ==> buffer[0].finalUpdateId > snapshotId
    {
      while buffer != [] && buffer[0].finalUpdateId <= snapshotId
        invariant |buffer| <= old(|buffer|) && stats.gaps == old(stats.gaps)
        invariant forall i :: 0 <= i < |buffer| ==> buffer[i] in old(buffer)
        invariant Replay(Started(State()), buffer) == Replay(Started(old(State())), old(buffer))
        decreases |buffer|
      {
        ReplayOne(Started(State()), buffer);
        buffer := buffer[1..];
        stats := stats.(stale := stats.stale + 1);
      }
    }

    /** The loop that applies what is left of the buffer, giving up at the first gap. */
    method Drain(snapshotId: Uint64) returns (r: Outcome)
      requires book.Valid() && book.initialized && book.lastUpdateId == snapshotId
      requires status == WaitingForSnapshot && stats.buffered == |buffer|
      requires forall i :: 0 <= i < |buffer| ==> State().Owns(buffer[i])
      requires buffer != [] && Verdict(book.State(), buffer[0]) == Applied
      modifies this, book
      ensures book.Valid() && book.initialized && book.lastUpdateId > snapshotId
      ensures State() == Replay(Started(old(State())), old(buffer))
      ensures buffer == [] && stats.buffered == 0
      ensures if r == SnapshotApplied then status == Ready else r == Gap && status == NeedResync && stats.gaps > 0
    {
      ghost var goal := Replay(Started(State()), buffer);
      while buffer != []
        invariant Draining(State(), snapshotId)
        invariant Replay(Started(State()), buffer) == goal
        decreases |buffer|
      {
        DrainStep(State(), snapshotId);
        ghost var drained := Drained(State());
        var result := ApplyUpdateToReadyBook(buffer[0]);
        if result == Gap {
          buffer := [];
          stats := stats.(buffered := 0);
          return result;
        }
        buffer := buffer[1..];
        stats := stats.(buffered := |buffer|);
        assert State() == drained;
      }
      status := Ready;
      return SnapshotApplied;
    }

    method ApplySnapshot(s: BookSnapshot) returns (r: Outcome)
      requires Valid()
      modifies this, book
      ensures Valid()
      ensures State() == AfterSnapshot(old(State()), s)
      ensures r == SnapshotOutcome(old(State()), s)
    {
      if !(s.exchange == exchange && s.symbol == symbol) {
        return NotForSymbol;
      }
      book.ApplySnapshot(s.bids, s.asks, s.lastUpdateId);
      DropStale(s.lastUpdateId);
      stats := stats.(buffered := |buffer|);
      if buffer == [] {
        status := Ready;
        return SnapshotApplied;
      }
      var expectedNextUpdateId := Successor64(s.lastUpdateId);
      var firstUpdate := buffer[0];
      BridgeCheck(book.State(), firstUpdate);
      if firstUpdate.firstUpdateId > expectedNextUpdateId || firstUpdate.finalUpdateId < expectedNextUpdateId {
        ReplayGap(State(), buffer);
        status := NeedResync;
        buffer := [];
        stats := stats.(buffered := 0, gaps := stats.gaps + 1);
        return SnapshotRejected;
      }
      r := Drain(s.lastUpdateId);
    }

    method Reset()
      modifies this, book
      ensures Valid()
      ensures State() == AfterReset(old(State()))
      ensures status == WaitingForSnapshot && buffer == [] && stats == Stats(0, 0, 0, 0)
      ensures !book.initialized && book.bids == book.asks == [] && book.lastUpdateId == 0
    {
      book.Clear();
      buffer := [];
      status := WaitingForSnapshot;
      stats := NO_STATS;
    }

    method BufferedUpdates() returns (n: nat)
      ensures n == |State().buffer|
    {
      n := |buffer|;
    }
  }
}
