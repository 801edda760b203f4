/** What the synchronisation protocol promises over whole runs: the reachable states, the fate of
    every update, buffering against live delivery, and when a contiguous feed synchronises.
  */
module ManagerProperties {
  import opened OrderBooks
  import opened LocalBookManagers

  datatype Event = Deliver(update: BookUpdate) | Snapshot(snapshot: BookSnapshot) | Reset

  function After(m: Manager, e: Event): Manager {
    match e
    case Deliver(u) => Delivered(m, u)
    case Snapshot(s) => AfterSnapshot(m, s)
    case Reset => AfterReset(m)
  }

  /** Any sequence of deliveries, snapshots and resets: nothing is assumed about order, loss or
      duplication. */
  function Run(m: Manager, es: seq<Event>): Manager
    decreases |es|
  {
    if es == [] then m else Run(After(m, es[0]), es[1..])
  }

  predicate SameIdentity(a: Manager, b: Manager) {
    a.exchange == b.exchange && a.symbol == b.symbol && a.maxBufferedUpdates == b.maxBufferedUpdates
  }

  // ----- reachable states -----

  lemma DeliveredValid(m: Manager, u: BookUpdate)
    requires m.Valid()
    ensures Delivered(m, u).Valid() && SameIdentity(m, Delivered(m, u))
    ensures m.book.initialized == Delivered(m, u).book.initialized
  {
    ApplyUpdateValid(m.book, u);
  }

  lemma {:induction false} ReplayValid(m: Manager, us: seq<BookUpdate>)
    requires m.Valid()
    ensures Replay(m, us).Valid() && SameIdentity(m, Replay(m, us))
    ensures m.book.initialized == Replay(m, us).book.initialized
    decreases |us|
  {
    if us != [] {
      DeliveredValid(m, us[0]);
      ReplayValid(Delivered(m, us[0]), us[1..]);
    }
  }

  lemma AfterValid(m: Manager, e: Event)
    requires m.Valid()
    ensures After(m, e).Valid() && SameIdentity(m, After(m, e))
  {
    match e
    case Deliver(u) => DeliveredValid(m, u);
    case Snapshot(s) =>
      if m.OwnsSnapshot(s) {
        LoadSnapshotValid(s);
        ReplayValid(Started(m.(book := LoadSnapshot(s))), m.buffer);
      }
    case Reset =>
  }

  lemma {:induction false} RunValid(m: Manager, es: seq<Event>)
    requires m.Valid()
    ensures Run(m, es).Valid() && SameIdentity(m, Run(m, es))
    decreases |es|
  {
    if es != [] {
      AfterValid(m, es[0]);
      RunValid(After(m, es[0]), es[1..]);
    }
  }

  // ----- what the answers mean -----

  /** What a delivery answers, by the two states and the update: whether the update is the manager's own,
      what its ids say, and what has changed. */
  lemma DeliveryMeaning(m: Manager, u: BookUpdate)
    requires m.Valid()
    ensures var m' := Delivered(m, u); var r := DeliveryOutcome(m, u);
            var own := u.exchange == m.exchange && u.symbol == m.symbol; var last := m.book.lastUpdateId;
            && (r == NotForSymbol <==> !own)
            && (r == Buffered <==> own && m.status == WaitingForSnapshot)
            && (r == UpdateApplied <==>
                  own && m.status == Ready && last < u.finalUpdateId && u.firstUpdateId <= last + 1)
            && (r == UpdateStale <==> own && m.status == Ready && u.finalUpdateId <= last)
            && (r == Gap <==> own && m'.status == NeedResync)
            && (r == UpdateApplied <==> m'.stats.applied == m.stats.applied + 1)
            && (r == UpdateApplied <==> m'.book != m.book)
            && (r == UpdateApplied ==> m'.status == Ready && m'.book.lastUpdateId == u.finalUpdateId)
            && (r == UpdateStale <==> m'.stats.stale == m.stats.stale + 1)
            && (r == UpdateStale ==> m'.status == Ready && m'.book == m.book)
            && (m'.stats.gaps == m.stats.gaps + 1 <==> r == Gap && m.status == Ready)
            && (r == NotForSymbol || m.status == NeedResync ==> m' == m)
            && (r == Buffered ==> m'.status == WaitingForSnapshot && m'.book == m.book)
  {
    ApplyUpdateValid(m.book, u);
  }

  /** The first update of `us` that a book at id `n` does not cover. */
  ghost predicate FirstUncovered(us: seq<BookUpdate>, n: nat, i: nat) {
    i < |us| && us[i].finalUpdateId > n && forall k :: 0 <= k < i ==> us[k].finalUpdateId <= n
  }

  lemma {:induction false} NoneUncovered(m: Manager, us: seq<BookUpdate>)
    requires m.status == Ready && m.book.initialized && forall i :: 0 <= i < |us| ==> m.Owns(us[i])
    requires forall i :: 0 <= i < |us| ==> us[i].finalUpdateId <= m.book.lastUpdateId
    ensures Replay(m, us).status == Ready && Replay(m, us).book == m.book
    decreases |us|
  {
    if us != [] {
      NoneUncovered(Live(m, us[0]), us[1..]);
    }
  }

  lemma {:induction false} SkipsCovered(m: Manager, us: seq<BookUpdate>, i: nat) returns (m1: Manager)
    requires m.status == Ready && m.book.initialized && forall k :: 0 <= k < |us| ==> m.Owns(us[k])
    requires FirstUncovered(us, m.book.lastUpdateId, i)
    ensures m1.status == Ready && m1.book == m.book && SameIdentity(m, m1)
    ensures Replay(m, us) == Replay(m1, us[i..])
    decreases |us|
  {
    if i == 0 {
      m1 := m;
      assert us[0..] == us;
    } else {
      assert FirstUncovered(us[1..], m.book.lastUpdateId, i - 1);
      m1 := SkipsCovered(Live(m, us[0]), us[1..], i - 1);
      assert us[1..][i - 1..] == us[i..];
    }
  }

  /** Replaying from the first uncovered update: a gap there leaves the book alone, anything else moves it. */
  lemma ReplayUncovered(m: Manager, us: seq<BookUpdate>, i: nat)
    requires m.Valid() && m.status == Ready && m.buffer == [] && forall k :: 0 <= k < |us| ==> m.Owns(us[k])
    requires FirstUncovered(us, m.book.lastUpdateId, i)
    ensures var m' := Replay(m, us);
            if us[i].firstUpdateId > m.book.lastUpdateId + 1
            then m'.status == NeedResync && m'.book == m.book
            else m'.book.lastUpdateId > m.book.lastUpdateId
  {
    var m1 := SkipsCovered(m, us, i);
    var rest := us[i..];
    assert rest[0] == us[i];
    ReplayOne(m1, rest);
    var m2 := Live(m1, us[i]);
    if us[i].firstUpdateId > m.book.lastUpdateId + 1 {
      ResyncAbsorbs(m2, rest[1..]);
    } else {
      ReplayMovesOn(m2, rest[1..]);
    }
  }

  lemma {:induction false} ReplayMovesOn(m: Manager, us: seq<BookUpdate>)
    requires m.book.initialized
    ensures Replay(m, us).book.lastUpdateId >= m.book.lastUpdateId
    decreases |us|
  {
    if us != [] {
      ReplayMovesOn(Delivered(m, us[0]), us[1..]);
    }
  }

  /** What applying a snapshot answers: it is applied when the manager ends ready; it is rejected, with
      nothing on top of it, exactly when the first buffered update it does not cover starts behind the
      next id; and a gap is one found further on, after the book had moved past the snapshot. */
  lemma SnapshotMeaning(m: Manager, s: BookSnapshot)
    requires m.Valid()
    ensures var m' := AfterSnapshot(m, s); var r := SnapshotOutcome(m, s);
            var own := s.exchange == m.exchange && s.symbol == m.symbol; var n := s.lastUpdateId;
            && (r == NotForSymbol <==> !own)
            && (r == NotForSymbol ==> m' == m)
            && (r == SnapshotApplied <==> own && m'.status == Ready)
            && (r == SnapshotRejected <==>
                  own && exists i: nat :: FirstUncovered(m.buffer, n, i) && m.buffer[i].firstUpdateId > n + 1)
            && (r == SnapshotRejected ==> m'.status == NeedResync && m'.book == LoadSnapshot(s))
            && (r == Gap <==> own && m'.status == NeedResync && m'.book.lastUpdateId > n)
            && (own ==> m'.buffer == [] && m'.book.initialized && m'.book.lastUpdateId >= n)
  {
    if m.OwnsSnapshot(s) {
      var b := m.buffer;
      var m0 := Started(m.(book := LoadSnapshot(s)));
      LoadSnapshotValid(s);
      AfterValid(m, Snapshot(s));
      ReplayMovesOn(m0, b);
      if forall i :: 0 <= i < |b| ==> b[i].finalUpdateId <= s.lastUpdateId {
        NoneUncovered(m0, b);
      } else {
        var i := FindUncovered(b, s.lastUpdateId);
        ReplayUncovered(m0, b, i);
      }
    }
  }

  lemma {:induction false} FindUncovered(us: seq<BookUpdate>, n: nat) returns (i: nat)
    requires exists k :: 0 <= k < |us| && us[k].finalUpdateId > n
    ensures FirstUncovered(us, n, i)
    decreases |us|
  {
    if us[0].finalUpdateId > n {
      i := 0;
    } else {
      var k :| 0 <= k < |us| && us[k].finalUpdateId > n;
      assert us[1..][k - 1] == us[k];
      i := FindUncovered(us[1..], n);
      i := i + 1;
    }
  }

  lemma {:induction false} RunConcat(m: Manager, x: seq<Event>, y: seq<Event>)
    ensures Run(m, x + y) == Run(Run(m, x), y)
    decreases |x|
  {
    if x == [] {
      assert x + y == y;
    } else {
      assert (x + y)[1..] == x[1..] + y;
      RunConcat(After(m, x[0]), x[1..], y);
    }
  }

  /** A reset forgets everything: what happens after it is what would happen to a new manager, one that
      waits for a snapshot with no levels, no id, no buffer and no counts. */
  lemma ResetForgets(m: Manager, before: seq<Event>, after: seq<Event>)
    requires m.Valid()
    ensures Run(m, before + [Reset] + after) ==
            Run(Manager(m.exchange, m.symbol, m.maxBufferedUpdates, BookState([], [], 0, false), [],
                        WaitingForSnapshot, Stats(0, 0, 0, 0)), after)
  {
    RunValid(m, before);
    RunConcat(m, before, [Reset]);
    RunConcat(m, before + [Reset], after);
    assert [Reset][1..] == [];
    assert Run(Run(m, before), [Reset]) == After(Run(m, before), Reset);
  }

  // ----- the fate of every update -----

  /** What became of the own updates received since the last reset, and the entries into NeedResync.
      Each received copy goes to exactly one of the four places, or is still in the buffer. */
  datatype Ledger = Ledger(
    received: multiset<BookUpdate>, applied: multiset<BookUpdate>, stale: multiset<BookUpdate>,
    overflowed: multiset<BookUpdate>, discarded: multiset<BookUpdate>, resyncs: nat)

  /** The updates whose fate is decided. */
  function Settled(l: Ledger): multiset<BookUpdate> {
    l.applied + l.stale + l.overflowed + l.discarded
  }

  const BLANK := Ledger(multiset{}, multiset{}, multiset{}, multiset{}, multiset{}, 0)

  /** Updates that reach a book at id `last` one after another: old ones are stale, the first that
      leaves a gap is discarded with all behind it, and the others are applied. */
  function Classified(last: nat, us: seq<BookUpdate>, l: Ledger): Ledger
    decreases |us|
  {
    if us == [] then l
    else if us[0].finalUpdateId <= last then Classified(last, us[1..], l.(stale := l.stale + multiset{us[0]}))
    else if us[0].firstUpdateId > last + 1 then l.(discarded := l.discarded + multiset(us), resyncs := l.resyncs + 1)
    else Classified(us[0].finalUpdateId, us[1..], l.(applied := l.applied + multiset{us[0]}))
  }

  function LogDelivery(m: Manager, u: BookUpdate, l: Ledger): Ledger {
    if !m.Owns(u) then l
    else
      var l' := l.(received := l.received + multiset{u});
      match m.status
      case NeedResync => l'.(discarded := l.discarded + multiset{u})
      case WaitingForSnapshot =>
        if |m.buffer| < m.maxBufferedUpdates then l'
        else l'.(overflowed := l.overflowed + multiset{(m.buffer + [u])[0]})
      case Ready => Classified(m.book.lastUpdateId, [u], l')
  }

  function Log(m: Manager, e: Event, l: Ledger): Ledger {
    match e
    case Deliver(u) => LogDelivery(m, u, l)
    case Snapshot(s) => if m.OwnsSnapshot(s) then Classified(s.lastUpdateId, m.buffer, l) else l
    case Reset => BLANK
  }

  function LogRun(m: Manager, es: seq<Event>, l: Ledger): Ledger
    decreases |es|
  {
    if es == [] then l else LogRun(After(m, es[0]), es[1..], Log(m, es[0], l))
  }

  /** The counters of a manager agree with a ledger. */
  ghost predicate Counted(m: Manager, l: Ledger) {
    m.stats.applied == |l.applied| && m.stats.stale == |l.stale| && m.stats.gaps == l.resyncs
  }

  /** Every own update received is exactly one of applied, stale, still buffered, overflowed or
      discarded, and the counters are the sizes of what they count. */
  ghost predicate Balanced(m: Manager, l: Ledger) {
    l.received == Settled(l) + multiset(m.buffer) && Counted(m, l)
  }

  /** Classifying updates sorts them into the three places they can go to. */
  lemma {:induction false} ClassifiedKeepsAll(last: nat, us: seq<BookUpdate>, l: Ledger)
    ensures var l' := Classified(last, us, l);
            && Settled(l') == Settled(l) + multiset(us) && l'.received == l.received
            && l.resyncs <= l'.resyncs <= l.resyncs + 1
    decreases |us|
  {
    if us != [] {
      assert us == [us[0]] + us[1..];
      if us[0].finalUpdateId <= last {
        ClassifiedKeepsAll(last, us[1..], l.(stale := l.stale + multiset{us[0]}));
      } else if us[0].firstUpdateId <= last + 1 {
        ClassifiedKeepsAll(us[0].finalUpdateId, us[1..], l.(applied := l.applied + multiset{us[0]}));
      }
    }
  }

  /** A replay does with each update what classifying it says. */
  lemma {:induction false} ReplayClassifies(m: Manager, us: seq<BookUpdate>, l: Ledger)
    requires m.status == Ready && m.book.initialized && m.buffer == [] && Counted(m, l)
    requires forall i :: 0 <= i < |us| ==> m.Owns(us[i])
    ensures var m' := Replay(m, us); var l' := Classified(m.book.lastUpdateId, us, l);
            && m'.buffer == [] && Counted(m', l')
            && m'.status == (if l'.resyncs == l.resyncs then Ready else NeedResync)
    decreases |us|
  {
    if us != [] {
      ReplayOne(m, us);
      var m' := Live(m, us[0]);
      match Verdict(m.book, us[0])
      case GapDetected => ResyncAbsorbs(m', us[1..]);
      case IgnoredStale => ReplayClassifies(m', us[1..], l.(stale := l.stale + multiset{us[0]}));
      case Applied => ReplayClassifies(m', us[1..], l.(applied := l.applied + multiset{us[0]}));
    }
  }

  /** Pushing an update into a buffer loses at most the oldest one. */
  lemma PushKeepsAll(buffer: seq<BookUpdate>, u: BookUpdate, limit: nat)
    requires |buffer| <= limit
    ensures multiset(buffer) + multiset{u} == multiset(Newest(buffer + [u], limit)) +
              if |buffer| < limit then multiset{} else multiset{(buffer + [u])[0]}
  {
    var all := buffer + [u];
    assert multiset(all) == multiset(buffer) + multiset{u};
    if |buffer| == limit {
      assert all == [all[0]] + all[1..] && Newest(all, limit) == all[1..];
    }
  }

  lemma BufferingBalanced(m: Manager, u: BookUpdate, l: Ledger)
    requires m.Valid() && Balanced(m, l) && m.Owns(u) && m.status == WaitingForSnapshot
    ensures Balanced(Delivered(m, u), LogDelivery(m, u, l))
  {
    var l' := LogDelivery(m, u, l);
    PushKeepsAll(m.buffer, u, m.maxBufferedUpdates);
    assert Settled(l') + multiset(Delivered(m, u).buffer) == Settled(l) + (multiset(m.buffer) + multiset{u});
  }

  lemma LiveBalanced(m: Manager, u: BookUpdate, l: Ledger)
    requires m.Valid() && Balanced(m, l) && m.Owns(u) && m.status == Ready
    ensures var l' := LogDelivery(m, u, l);
            && Balanced(Delivered(m, u), l')
            && l'.resyncs == l.resyncs + if Delivered(m, u).status == NeedResync then 1 else 0
  {
    var l' := l.(received := l.received + multiset{u});
    assert Replay(m, [u]) == Delivered(m, u) by {
      assert [u][1..] == [];
    }
    ClassifiedKeepsAll(m.book.lastUpdateId, [u], l');
    ReplayClassifies(m, [u], l');
    assert multiset(m.buffer) == multiset{};
  }

  lemma DeliveryBalanced(m: Manager, u: BookUpdate, l: Ledger)
    requires m.Valid() && Balanced(m, l)
    ensures Balanced(Delivered(m, u), LogDelivery(m, u, l))
    ensures LogDelivery(m, u, l).resyncs ==
            l.resyncs + if m.status != NeedResync && Delivered(m, u).status == NeedResync then 1 else 0
  {
    if m.Owns(u) {
      match m.status
      case Ready => LiveBalanced(m, u, l);
      case WaitingForSnapshot => BufferingBalanced(m, u, l);
      case NeedResync =>
        assert Settled(LogDelivery(m, u, l)) == Settled(l) + multiset{u};
    }
  }

  lemma SnapshotBalanced(m: Manager, s: BookSnapshot, l: Ledger)
    requires m.Valid() && Balanced(m, l) && m.OwnsSnapshot(s)
    ensures var l' := Classified(s.lastUpdateId, m.buffer, l);
            && Balanced(AfterSnapshot(m, s), l')
            && AfterSnapshot(m, s).status == (if l'.resyncs == l.resyncs then Ready else NeedResync)
            && l.resyncs <= l'.resyncs <= l.resyncs + 1
            && (m.status != WaitingForSnapshot ==> l' == l)
  {
    ClassifiedKeepsAll(s.lastUpdateId, m.buffer, l);
    ReplayClassifies(Started(m.(book := LoadSnapshot(s))), m.buffer, l);
    assert multiset(AfterSnapshot(m, s).buffer) == multiset{};
  }

  lemma AfterBalanced(m: Manager, e: Event, l: Ledger)
    requires m.Valid() && Balanced(m, l)
    ensures Balanced(After(m, e), Log(m, e, l))
    ensures Log(m, e, l).resyncs == (if e.Reset? then 0 else
              l.resyncs + if m.status != NeedResync && After(m, e).status == NeedResync then 1 else 0)
  {
    match e
    case Deliver(u) => DeliveryBalanced(m, u, l);
    case Snapshot(s) =>
      if m.OwnsSnapshot(s) {
        SnapshotBalanced(m, s, l);
      }
    case Reset =>
  }

  lemma {:induction false} EveryUpdateAccountedFor(m: Manager, es: seq<Event>, l: Ledger)
    requires m.Valid() && Balanced(m, l)
    ensures Balanced(Run(m, es), LogRun(m, es, l))
    decreases |es|
  {
    if es != [] {
      AfterValid(m, es[0]);
      AfterBalanced(m, es[0], l);
      EveryUpdateAccountedFor(After(m, es[0]), es[1..], Log(m, es[0], l));
    }
  }

  // ----- buffering commutes with the snapshot -----

  function Own(m: Manager, us: seq<BookUpdate>): seq<BookUpdate> {
    if us == [] then []
    else
      var n := |us| - 1;
      Own(m, us[..n]) + if m.Owns(us[n]) then [us[n]] else []
  }

  lemma {:induction false} ReplayConcat(m: Manager, x: seq<BookUpdate>, y: seq<BookUpdate>)
    ensures Replay(m, x + y) == Replay(Replay(m, x), y)
    decreases |x|
  {
    if x == [] {
      assert x + y == y;
    } else {
      assert (x + y)[1..] == x[1..] + y;
      ReplayConcat(Delivered(m, x[0]), x[1..], y);
    }
  }

  lemma {:induction false} WaitingKeepsNewest(m: Manager, us: seq<BookUpdate>)
    requires m == Fresh(m.exchange, m.symbol, m.maxBufferedUpdates)
    ensures var kept := Newest(Own(m, us), m.maxBufferedUpdates);
            Replay(m, us) == m.(buffer := kept, stats := NO_STATS.(buffered := |kept|))
  {
    if us != [] {
      var n := |us| - 1;
      WaitingKeepsNewest(m, us[..n]);
      assert us == us[..n] + [us[n]];
      ReplayConcat(m, us[..n], [us[n]]);
      var before := Replay(m, us[..n]);
      assert Replay(before, [us[n]]) == Delivered(before, us[n]) by {
        assert [us[n]][1..] == [];
      }
    }
  }

  /** A waiting manager holds the newest of its own updates, up to the limit. */
  lemma WaitingBuffers(m: Manager, us: seq<BookUpdate>)
    requires m == Fresh(m.exchange, m.symbol, m.maxBufferedUpdates)
    ensures var kept := Newest(Own(m, us), m.maxBufferedUpdates);
            Replay(m, us) == m.(buffer := kept, stats := NO_STATS.(buffered := |kept|))
    ensures var kept, own, limit := Replay(m, us).buffer, Own(m, us), m.maxBufferedUpdates;
            |kept| == (if |own| <= limit then |own| else limit) && kept == own[|own| - |kept|..]
  {
    WaitingKeepsNewest(m, us);
  }

  /** Buffering first and then applying the snapshot ends in exactly the state that applying the
      snapshot first and then delivering the retained updates live ends in: same book, id, status,
      empty buffer and counters, gaps included. */
  lemma BufferingCommutes(m: Manager, us: seq<BookUpdate>, s: BookSnapshot)
    requires m == Fresh(m.exchange, m.symbol, m.maxBufferedUpdates) && m.OwnsSnapshot(s)
    ensures After(Replay(m, us), Snapshot(s)) ==
            Replay(After(m, Snapshot(s)), Newest(Own(m, us), m.maxBufferedUpdates))
  {
    WaitingBuffers(m, us);
  }

  // ----- contiguous feeds -----

  /** Each update starts right after the previous one ended. */
  ghost predicate Contiguous(us: seq<BookUpdate>) {
    && (forall i :: 0 <= i < |us| ==> us[i].firstUpdateId <= us[i].finalUpdateId)
    && (forall i, j :: 0 <= i < j < |us| && j == i + 1 ==> us[j].firstUpdateId == us[i].finalUpdateId + 1)
  }

  function MaxId(a: nat, b: nat): nat {
    if a < b then b else a
  }

  /** On an initialised ready book, a contiguous feed keeps the manager ready exactly when the feed
      reaches back to the book: it is empty, wholly stale, or starts no later than the next id. */
  lemma {:induction false} ContiguousReplay(m: Manager, us: seq<BookUpdate>)
    requires m.status == Ready && m.book.initialized
    requires Contiguous(us) && forall i :: 0 <= i < |us| ==> m.Owns(us[i])
    ensures var last := m.book.lastUpdateId; var m' := Replay(m, us);
            && (m'.status == Ready <==>
                us == [] || us[|us| - 1].finalUpdateId <= last || us[0].firstUpdateId <= last + 1)
            && (m'.status == Ready && us != [] ==>
                m'.book.lastUpdateId == MaxId(last, us[|us| - 1].finalUpdateId))
            && (m'.status == Ready <==> m'.stats.gaps == m.stats.gaps)
    decreases |us|
  {
    if us != [] {
      ReplayOne(m, us);
      var m' := Live(m, us[0]);
      LastIsGreatest(us);
      if m'.status == NeedResync {
        ResyncAbsorbs(m', us[1..]);
      } else {
        ContiguousReplay(m', us[1..]);
      }
    }
  }

  lemma {:induction false} LastIsGreatest(us: seq<BookUpdate>)
    requires Contiguous(us) && us != []
    ensures us[0].finalUpdateId <= us[|us| - 1].finalUpdateId
    decreases |us|
  {
    if |us| > 1 {
      LastIsGreatest(us[1..]);
    }
  }

  /** No false gaps: for a contiguous buffer, a snapshot at id `n` makes a waiting manager ready
      exactly when the buffer is empty, wholly covered, or starts at or before `n + 1`; it then
      stands at the newer of the two ids. */
  lemma NoFalseGaps(m: Manager, s: BookSnapshot)
    requires m.Valid() && m.status == WaitingForSnapshot && m.OwnsSnapshot(s)
    requires Contiguous(m.buffer)
    ensures var b := m.buffer; var n := s.lastUpdateId; var m' := AfterSnapshot(m, s);
            && (m'.status == Ready <==> b == [] || b[|b| - 1].finalUpdateId <= n || b[0].firstUpdateId <= n + 1)
            && (m'.status == Ready ==>
                  m'.book.lastUpdateId == if b == [] then n else MaxId(n, b[|b| - 1].finalUpdateId))
  {
    ContiguousReplay(Started(m.(book := LoadSnapshot(s))), m.buffer);
  }

  /** `y` goes on where `x` ended. */
  ghost predicate Continues(x: seq<BookUpdate>, y: seq<BookUpdate>) {
    x != [] && y != [] ==> y[0].firstUpdateId == x[|x| - 1].finalUpdateId + 1
  }

  /** Once synchronised, a contiguous feed never leaves Ready: what is delivered after a snapshot
      that synchronised keeps the manager ready if it continues the buffer, or, when nothing was
      buffered, exactly if it reaches back to the snapshot. */
  lemma ContiguousFeedStaysReady(m: Manager, s: BookSnapshot, later: seq<BookUpdate>)
    requires m.Valid() && m.status == WaitingForSnapshot && m.OwnsSnapshot(s)
    requires Contiguous(m.buffer) && Contiguous(later) && Continues(m.buffer, later)
    requires forall i :: 0 <= i < |later| ==> m.Owns(later[i])
    requires AfterSnapshot(m, s).status == Ready
    ensures Replay(AfterSnapshot(m, s), later).status == Ready <==>
            m.buffer != [] || later == [] || later[0].firstUpdateId <= s.lastUpdateId + 1 ||
            later[|later| - 1].finalUpdateId <= s.lastUpdateId
  {
    NoFalseGaps(m, s);
    AfterValid(m, Snapshot(s));
    ContiguousReplay(AfterSnapshot(m, s), later);
  }
}
