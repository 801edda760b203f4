/** What the live scan does with everything it is told, over whole runs.

    The runs of `LiveProtocol` are followed from outside, by their messages and steps alone: which updates
    a book has been told about since its last reset or snapshot, how often the synchroniser has tried each
    book, what a feed has counted. The store, the end of the synchronisation, the reports and the counters
    are then characterised by that.
  */
module LiveDeliveries {
  import opened Ladders
  import opened OrderBooks
  import opened LocalBookManagers
  import opened ManagerProperties
  import opened Histories
  import opened Engines
  import opened LiveProtocol
  import opened LiveSafety
  import opened LiveScans
  import opened ScanReports

  // ----- the books there are -----

  /** Every configured symbol is synchronised on both exchanges, Binance first. */
  lemma SyncOrderMeaning(c: Config)
    ensures |SyncOrder(c)| == 2 * |c.symbols|
    ensures forall i :: 0 <= i < |c.symbols| ==>
              SyncOrder(c)[i] == Key(Binance, c.symbols[i]) &&
              SyncOrder(c)[|c.symbols| + i] == Key(Mexc, c.symbols[i])
    ensures forall key :: key in SyncOrder(c) <==> key.symbol in c.symbols
  {
    var n := |c.symbols|;
    forall key ensures key in SyncOrder(c) <==> key.symbol in c.symbols {
      if key.symbol in c.symbols {
        var i :| 0 <= i < n && c.symbols[i] == key.symbol;
        assert SyncOrder(c)[i] == Key(Binance, key.symbol) && SyncOrder(c)[n + i] == Key(Mexc, key.symbol);
        assert key.exchange == Binance || key.exchange == Mexc;
      }
      if key in SyncOrder(c) {
        var i :| 0 <= i < |SyncOrder(c)| && SyncOrder(c)[i] == key;
        assert key.symbol == c.symbols[if i < n then i else i - n];
      }
    }
  }

  /** The managers at the start: one for every configured symbol on both exchanges, waiting for a
      snapshot, with no levels, no id, no buffer and no counts, and room for 10000 updates. */
  lemma StartingManagers(c: Config)
    ensures forall key :: key in FreshManagers(SyncOrder(c)) <==> key.symbol in c.symbols
    ensures forall key :: key in FreshManagers(SyncOrder(c)) ==>
              FreshManagers(SyncOrder(c))[key] ==
              Manager(key.exchange, key.symbol, 10000, BookState([], [], 0, false), [], WaitingForSnapshot,
                      Stats(0, 0, 0, 0))
    ensures forall w :: Init(c, w) ==> w.managers == FreshManagers(SyncOrder(c))
  {
    SyncOrderMeaning(c);
  }

  // ----- what a book has been told -----

  /** The own updates a book was sent and has to account for, and whether a snapshot was applied to it,
      since its last reset. */
  datatype Told = Told(updates: seq<BookUpdate>, loaded: bool)

  const NOTHING := Told([], false)

  /** The last 10000 of a list of updates. */
  function LastOf(us: seq<BookUpdate>): (r: seq<BookUpdate>) {
    if |us| <= 10000 then us else us[|us| - 10000..]
  }

  /** What an action tells a book: an update is one more; a second or third attempt starts anew; the first
      snapshot after that has to be reconciled with the last 10000 updates, a further one with none. */
  function Tells(c: Config, sync: Sync, a: Action, key: Key, t: Told): Told
    requires (a.Begin? || a.Apply?) && !sync.Done? ==> sync.book < |SyncOrder(c)|
  {
    match a
    case Receive(u) =>
      if u.exchange == key.exchange && u.symbol == key.symbol then t.(updates := t.updates + [u]) else t
    case Begin =>
      if !sync.Done? && sync.attempt > 1 && SyncOrder(c)[sync.book] == key then NOTHING else t
    case Apply =>
      if !sync.Done? && SyncOrder(c)[sync.book] == key then Told(if t.loaded then [] else LastOf(t.updates), true)
      else t
    case _ => t
  }

  ghost function ToldBy(h: Key -> History, c: Config, w: World, actions: seq<Action>, key: Key, t: Told): Told
    requires IsRun(h, c, w, actions)
    decreases |actions|
  {
    if actions == [] then t
    else ToldBy(h, c, Perform(h, c, w, actions[0]), actions[1..], key, Tells(c, w.sync, actions[0], key, t))
  }

  /** None of the updates goes beyond id `n`. */
  predicate NothingMissed(us: seq<BookUpdate>, n: nat) {
    forall i :: 0 <= i < |us| ==> us[i].finalUpdateId <= n
  }

  ghost predicate ToldInv(m: Manager, t: Told) {
    && m.Valid() && m.maxBufferedUpdates == 10000
    && (t.loaded <==> m.book.initialized)
    && (!t.loaded ==> m.buffer == LastOf(t.updates))
    && (t.loaded ==> (m.status == Ready <==> NothingMissed(t.updates, m.book.lastUpdateId)))
  }

  lemma LastOfMore(us: seq<BookUpdate>, u: BookUpdate)
    ensures Newest(LastOf(us) + [u], 10000) == LastOf(us + [u])
  {
  }

  lemma MissedMore(us: seq<BookUpdate>, u: BookUpdate, n: nat)
    ensures NothingMissed(us + [u], n) <==> NothingMissed(us, n) && u.finalUpdateId <= n
  {
    if NothingMissed(us + [u], n) {
      assert (us + [u])[|us|] == u;
      assert forall i :: 0 <= i < |us| ==> (us + [u])[i] == us[i];
    }
  }

  lemma WaitingTold(m: Manager, u: BookUpdate, t: Told)
    requires ToldInv(m, t) && m.Owns(u) && !t.loaded
    ensures ToldInv(Delivered(m, u), t.(updates := t.updates + [u]))
  {
    DeliveredValid(m, u);
    LastOfMore(t.updates, u);
  }

  lemma LoadedTold(m: Manager, u: BookUpdate, t: Told)
    requires ToldInv(m, t) && m.Owns(u) && t.loaded
    ensures ToldInv(Delivered(m, u), t.(updates := t.updates + [u]))
  {
    DeliveredValid(m, u);
    DeliveryMeaning(m, u);
    MissedMore(t.updates, u, Delivered(m, u).book.lastUpdateId);
    assert m.book.lastUpdateId <= u.finalUpdateId && NothingMissed(t.updates, m.book.lastUpdateId) ==>
             NothingMissed(t.updates, u.finalUpdateId);
  }

  lemma DeliveryTold(m: Manager, u: BookUpdate, t: Told)
    requires ToldInv(m, t) && m.Owns(u)
    ensures ToldInv(Delivered(m, u), t.(updates := t.updates + [u]))
  {
    if t.loaded {
      LoadedTold(m, u, t);
    } else {
      WaitingTold(m, u, t);
    }
  }

  lemma {:induction false} ReplayTold(m: Manager, us: seq<BookUpdate>, t: Told)
    requires ToldInv(m, t) && forall i :: 0 <= i < |us| ==> m.Owns(us[i])
    ensures ToldInv(Replay(m, us), Told(t.updates + us, t.loaded))
    decreases |us|
  {
    if us == [] {
      assert t.updates + us == t.updates;
    } else {
      DeliveryTold(m, us[0], t);
      assert t.updates + [us[0]] + us[1..] == t.updates + us;
      ReplayTold(Delivered(m, us[0]), us[1..], t.(updates := t.updates + [us[0]]));
    }
  }

  lemma SnapshotTold(m: Manager, s: BookSnapshot, t: Told)
    requires ToldInv(m, t) && m.OwnsSnapshot(s)
    ensures ToldInv(AfterSnapshot(m, s), Told(if t.loaded then [] else LastOf(t.updates), true))
  {
    LoadSnapshotValid(s);
    var m0 := Started(m.(book := LoadSnapshot(s)));
    ReplayTold(m0, m.buffer, Told([], true));
    assert [] + m.buffer == m.buffer;
  }

  ghost predicate ToldOf(w: World, key: Key, t: Told) {
    key in w.managers && ToldInv(w.managers[key], t)
  }

  lemma ApplyTold(h: Key -> History, c: Config, w: World, key: Key, t: Told)
    requires WorldInv(h, c, w) && w.sync.Applying? && ToldOf(w, key, t)
    ensures Enabled(h, c, w, Apply)
    ensures ToldOf(Perform(h, c, w, Apply), key, Tells(c, w.sync, Apply, key, t))
  {
    if SyncOrder(c)[w.sync.book] == key {
      IdentityOf(h, c, w, key);
      SnapshotTold(w.managers[key], w.sync.snapshot, t);
    }
  }

  lemma ReceiveTold(h: Key -> History, c: Config, w: World, a: Action, key: Key, t: Told)
    requires WorldInv(h, c, w) && a.Receive? && Enabled(h, c, w, a) && ToldOf(w, key, t)
    ensures ToldOf(Perform(h, c, w, a), key, Tells(c, w.sync, a, key, t))
  {
    if Key(a.update.exchange, a.update.symbol) == key {
      IdentityOf(h, c, w, key);
      DeliveryTold(w.managers[key], a.update, t);
    }
  }

  lemma BeginTold(h: Key -> History, c: Config, w: World, key: Key, t: Told)
    requires WorldInv(h, c, w) && w.sync.Starting? && ToldOf(w, key, t)
    ensures Enabled(h, c, w, Begin)
    ensures ToldOf(Perform(h, c, w, Begin), key, Tells(c, w.sync, Begin, key, t))
  {
  }

  lemma PerformTold(h: Key -> History, c: Config, w: World, a: Action, key: Key, t: Told)
    requires WorldInv(h, c, w) && Enabled(h, c, w, a) && ToldOf(w, key, t)
    ensures ToldOf(Perform(h, c, w, a), key, Tells(c, w.sync, a, key, t))
  {
    match a
    case Receive(_) => ReceiveTold(h, c, w, a, key, t);
    case Begin => BeginTold(h, c, w, key, t);
    case Apply => ApplyTold(h, c, w, key, t);
    case _ =>
      assert Perform(h, c, w, a).managers == w.managers;
  }

  lemma {:induction false} ExecuteTold(h: Key -> History, c: Config, w: World, actions: seq<Action>,
                                       key: Key, t: Told)
    requires WorldInv(h, c, w) && IsRun(h, c, w, actions) && ToldOf(w, key, t)
    ensures ToldOf(Execute(h, c, w, actions), key, ToldBy(h, c, w, actions, key, t))
    decreases |actions|
  {
    if actions != [] {
      PerformTold(h, c, w, actions[0], key, t);
      PerformInv(h, c, w, actions[0]);
      ExecuteTold(h, c, Perform(h, c, w, actions[0]), actions[1..], key, Tells(c, w.sync, actions[0], key, t));
    }
  }

  lemma {:induction false} SameKeys(h: Key -> History, c: Config, w: World, actions: seq<Action>)
    requires WorldInv(h, c, w) && IsRun(h, c, w, actions)
    ensures Execute(h, c, w, actions).managers.Keys == w.managers.Keys
    decreases |actions|
  {
    if actions != [] {
      PerformInv(h, c, w, actions[0]);
      SameKeys(h, c, Perform(h, c, w, actions[0]), actions[1..]);
    }
  }

  lemma ConfiguredBooks(h: Key -> History, c: Config, w: World, actions: seq<Action>)
    requires Init(c, w) && IsRun(h, c, w, actions)
    ensures forall key :: key in Execute(h, c, w, actions).managers <==> key.symbol in c.symbols
  {
    InitInv(h, c, w);
    SameKeys(h, c, w, actions);
    SyncOrderMeaning(c);
  }

  lemma InitTold(c: Config, w: World, key: Key)
    requires Init(c, w) && key in w.managers
    ensures ToldOf(w, key, NOTHING)
  {
    FreshTold(key);
  }

  lemma FreshTold(key: Key)
    ensures ToldInv(Fresh(key.exchange, key.symbol, MAX_BUFFERED_UPDATES), NOTHING)
  {
  }

  lemma ToldFromTheStart(h: Key -> History, c: Config, w: World, actions: seq<Action>, key: Key)
    requires Init(c, w) && IsRun(h, c, w, actions) && key in Execute(h, c, w, actions).managers
    ensures ToldInv(Execute(h, c, w, actions).managers[key], ToldBy(h, c, w, actions, key, NOTHING))
  {
    InitInv(h, c, w);
    SameKeys(h, c, w, actions);
    InitTold(c, w, key);
    ExecuteTold(h, c, w, actions, key, NOTHING);
  }

  // ----- the store -----

  /** A book that has been loaded and has missed nothing it was told. */
  predicate UpToDate(b: BookState, t: Told) {
    t.loaded && NothingMissed(t.updates, b.lastUpdateId)
  }

  lemma ReadyMeans(m: Manager, t: Told)
    requires ToldInv(m, t)
    ensures m.status == Ready <==> UpToDate(m.book, t)
  {
  }

  /** A copy of the store holds exactly the ready books. */
  lemma CopyHolds(h: Key -> History, c: Config, w: World)
    requires WorldInv(h, c, w) && w.sync.Done? && w.store.None?
    ensures Enabled(h, c, w, CopyStore)
    ensures var store := Perform(h, c, w, CopyStore).store;
            && store.Some?
            && (forall key :: key in store.value <==> key in w.managers && w.managers[key].status == Ready)
            && (forall key :: key in store.value ==> store.value[key].book == w.managers[key].book)
  {
  }

  /** In every run the scanner's copy of the store holds exactly the books of configured symbols that have
      been loaded and have missed nothing they were told since: neither of the updates a snapshot had to
      be reconciled with, nor of those received after it, does one go beyond the book. */
  lemma StoreMissesNothing(h: Key -> History, c: Config, w: World, actions: seq<Action>)
    requires Init(c, w) && IsRun(h, c, w, actions)
    requires Execute(h, c, w, actions).sync.Done? && Execute(h, c, w, actions).store.None?
    ensures var w1 := Execute(h, c, w, actions);
            && WorldInv(h, c, w1) && Enabled(h, c, w1, CopyStore)
            && var store := Perform(h, c, w1, CopyStore).store;
            && store.Some?
            && (forall key :: key in w1.managers <==> key.symbol in c.symbols)
            && (forall key :: key in store.value <==>
                  (key in w1.managers &&
                   UpToDate(w1.managers[key].book, ToldBy(h, c, w, actions, key, NOTHING))))
            && (forall key :: key in store.value ==>
                  key in w1.managers && store.value[key].book == w1.managers[key].book)
  {
    InitInv(h, c, w);
    ExecuteInv(h, c, w, actions);
    var w1 := Execute(h, c, w, actions);
    ConfiguredBooks(h, c, w, actions);
    CopyHolds(h, c, w1);
    forall key | key in w1.managers
      ensures w1.managers[key].status == Ready <==>
              UpToDate(w1.managers[key].book, ToldBy(h, c, w, actions, key, NOTHING))
    {
      ToldFromTheStart(h, c, w, actions, key);
      ReadyMeans(w1.managers[key], ToldBy(h, c, w, actions, key, NOTHING));
    }
  }

  // ----- the scan of the store -----

  /** A scan adds to the reports each opportunity as often as there are positions in the configured symbols
      at which the two stored books offer it, the best net spread first, and then drops the store. */
  lemma ScanAddsOffers(h: Key -> History, c: Config, w: World, books: map<Key, BookState>) returns (r: seq<Opportunity>)
    requires WorldInv(h, c, w) && w.store.Some?
    requires books.Keys == w.store.value.Keys && forall key :: key in books ==> books[key] == w.store.value[key].book
    ensures Enabled(h, c, w, ScanStore)
    ensures var w' := Perform(h, c, w, ScanStore);
            && w'.reports == w.reports + r && w'.store == None
            && w'.managers == w.managers && w'.sync == w.sync
    ensures forall i, j :: 0 <= i < j < |r| ==> r[i].netSpreadBps >= r[j].netSpreadBps
    ensures forall o :: multiset(r)[o] == |OffersAt(c, books, c.symbols, o)|
  {
    assert Books(w.store.value) == books;
    r := ScanResult(c, books);
    StoreScanMeaning(c, books);
  }

  // ----- the synchroniser -----

  /** How often each position of the order has been begun, and which have been synchronised. */
  datatype Tried = Tried(begun: multiset<nat>, synced: set<nat>)

  ghost function Tries(h: Key -> History, c: Config, w: World, a: Action, t: Tried): Tried
    requires AtBook(c, w) && w.windows.Keys == w.managers.Keys && Enabled(h, c, w, a)
  {
    match a
    case Begin => t.(begun := t.begun + multiset{w.sync.book})
    case Apply =>
      var m := Perform(h, c, w, a).managers;
      var key := SyncOrder(c)[w.sync.book];
      if key in m && m[key].status == Ready then t.(synced := t.synced + {w.sync.book}) else t
    case _ => t
  }

  ghost function TriedBy(h: Key -> History, c: Config, w: World, actions: seq<Action>, t: Tried): Tried
    requires IsRun(h, c, w, actions)
    decreases |actions|
  {
    if actions == [] then t
    else TriedBy(h, c, Perform(h, c, w, actions[0]), actions[1..], Tries(h, c, w, actions[0], t))
  }

  /** A position that is over with: synchronised, or tried three times. */
  ghost predicate Settled(t: Tried, b: nat) {
    t.begun[b] <= 3 && (b in t.synced || t.begun[b] == 3)
  }

  ghost predicate Untried(t: Tried, b: nat) {
    t.begun[b] == 0 && b !in t.synced
  }

  ghost predicate TriedInv(c: Config, sync: Sync, t: Tried) {
    if sync.Done? then forall b: nat :: if b < |SyncOrder(c)| then Settled(t, b) else Untried(t, b)
    else
      && (forall b: nat :: b < sync.book ==> Settled(t, b))
      && (forall b: nat :: b > sync.book ==> Untried(t, b))
      && sync.book !in t.synced && 1 <= sync.attempt <= 3
      && t.begun[sync.book] == if sync.Starting? then sync.attempt - 1 else sync.attempt
  }

  lemma BeginTried(c: Config, sync: Sync, t: Tried)
    requires TriedInv(c, sync, t) && sync.Starting?
    ensures TriedInv(c, Waiting(sync.book, sync.attempt), t.(begun := t.begun + multiset{sync.book}))
  {
    var t' := t.(begun := t.begun + multiset{sync.book});
    forall b: nat | b < sync.book ensures Settled(t', b) {
      assert Settled(t, b);
    }
    forall b: nat | b > sync.book ensures Untried(t', b) {
      assert Untried(t, b);
    }
  }

  /** A position that is over with is left for the next. */
  lemma LeaveTried(c: Config, sync: Sync, t: Tried, t': Tried)
    requires TriedInv(c, sync, t) && !sync.Done? && sync.book < |SyncOrder(c)|
    requires Settled(t', sync.book) && t'.begun == t.begun
    requires forall b: nat :: b != sync.book ==> (b in t'.synced <==> b in t.synced)
    ensures TriedInv(c, StartAt(c, sync.book + 1), t')
  {
    forall b: nat | b < sync.book ensures Settled(t', b) {
      assert Settled(t, b);
    }
    forall b: nat | b > sync.book ensures Untried(t', b) {
      assert Untried(t, b);
    }
    assert Untried(t', sync.book + 1);
  }

  lemma FailTried(c: Config, sync: Sync, t: Tried)
    requires TriedInv(c, sync, t) && !sync.Done? && !sync.Starting? && sync.book < |SyncOrder(c)|
    ensures TriedInv(c, NextAttempt(c, sync.book, sync.attempt), t)
  {
    if sync.attempt == 3 {
      LeaveTried(c, sync, t, t);
    }
  }

  lemma ApplyTried(h: Key -> History, c: Config, w: World, t: Tried)
    requires WorldInv(h, c, w) && w.sync.Applying? && TriedInv(c, w.sync, t)
    ensures Enabled(h, c, w, Apply)
    ensures TriedInv(c, Perform(h, c, w, Apply).sync, Tries(h, c, w, Apply, t))
  {
    var key := SyncOrder(c)[w.sync.book];
    if WithSnapshot(w.managers, key, w.sync.snapshot)[key].status == Ready {
      LeaveTried(c, w.sync, t, t.(synced := t.synced + {w.sync.book}));
    } else {
      FailTried(c, w.sync, t);
    }
  }

  lemma PerformTried(h: Key -> History, c: Config, w: World, a: Action, t: Tried)
    requires WorldInv(h, c, w) && Enabled(h, c, w, a) && TriedInv(c, w.sync, t)
    ensures TriedInv(c, Perform(h, c, w, a).sync, Tries(h, c, w, a, t))
  {
    match a
    case Begin => BeginTried(c, w.sync, t);
    case WaitFailed => FailTried(c, w.sync, t);
    case FetchFailed => FailTried(c, w.sync, t);
    case Apply => ApplyTried(h, c, w, t);
    case _ =>
  }

  lemma {:induction false} ExecuteTried(h: Key -> History, c: Config, w: World, actions: seq<Action>, t: Tried)
    requires WorldInv(h, c, w) && IsRun(h, c, w, actions) && TriedInv(c, w.sync, t)
    ensures TriedInv(c, Execute(h, c, w, actions).sync, TriedBy(h, c, w, actions, t))
    decreases |actions|
  {
    if actions != [] {
      PerformTried(h, c, w, actions[0], t);
      PerformInv(h, c, w, actions[0]);
      ExecuteTried(h, c, Perform(h, c, w, actions[0]), actions[1..], Tries(h, c, w, actions[0], t));
    }
  }

  lemma TriedAt(c: Config, sync: Sync, t: Tried, b: nat)
    requires TriedInv(c, sync, t) && b < |SyncOrder(c)|
    ensures t.begun[b] <= 3 && (sync.Done? ==> b in t.synced || t.begun[b] == 3)
  {
    assert Settled(t, b) || Untried(t, b) || (!sync.Done? && sync.book == b);
  }

  lemma NothingTried(c: Config)
    ensures TriedInv(c, StartAt(c, 0), Tried(multiset{}, {}))
  {
  }

  /** In every run each configured symbol is tried on each exchange at most three times; when the
      synchroniser is done, each has been synchronised or tried exactly three times, on both exchanges. */
  lemma EveryBookTried(h: Key -> History, c: Config, w: World, actions: seq<Action>)
    requires Init(c, w) && IsRun(h, c, w, actions)
    ensures |SyncOrder(c)| == 2 * |c.symbols|
    ensures var t := TriedBy(h, c, w, actions, Tried(multiset{}, {}));
            && (forall key :: key in SyncOrder(c) <==> key.symbol in c.symbols)
            && forall b: nat :: b < |SyncOrder(c)| ==>
                 && t.begun[b] <= 3
                 && (Execute(h, c, w, actions).sync.Done? ==> b in t.synced || t.begun[b] == 3)
  {
    InitInv(h, c, w);
    SyncOrderMeaning(c);
    NothingTried(c);
    var start := Tried(multiset{}, {});
    ExecuteTried(h, c, w, actions, start);
    var sync, t := Execute(h, c, w, actions).sync, TriedBy(h, c, w, actions, start);
    forall b: nat | b < |SyncOrder(c)|
      ensures t.begun[b] <= 3 && (sync.Done? ==> b in t.synced || t.begun[b] == 3)
    {
      TriedAt(c, sync, t, b);
    }
  }

  /** The synchroniser is never stuck: whatever it is at, a step of its own may be taken; a scan follows a
      copy, and a copy may be taken once it is done. */
  lemma NeverStuck(h: Key -> History, c: Config, w: World)
    requires WorldInv(h, c, w)
    ensures match w.sync
            case Starting(_, _) => Enabled(h, c, w, Begin)
            case Waiting(b, _) =>
              && Enabled(h, c, w, WaitFailed)
              && (Enabled(h, c, w, BufferSeen) <==> w.managers[SyncOrder(c)[b]].buffer != [])
            case Fetching(_, _) => Enabled(h, c, w, FetchFailed)
            case Applying(_, _, _) => Enabled(h, c, w, Apply)
            case Done => if w.store.None? then Enabled(h, c, w, CopyStore) else Enabled(h, c, w, ScanStore)
  {
  }

  predicate IsSyncStep(a: Action) {
    a.Begin? || a.BufferSeen? || a.WaitFailed? || a.Fetched? || a.FetchFailed? || a.Apply?
  }

  function SyncSteps(actions: seq<Action>): nat {
    if actions == [] then 0 else (if IsSyncStep(actions[0]) then 1 else 0) + SyncSteps(actions[1..])
  }

  /** Four steps an attempt, three attempts a position, are left at most. */
  function StepsLeft(c: Config, sync: Sync): int {
    match sync
    case Starting(b, n) => 12 * (|SyncOrder(c)| - b - 1) + 4 * (3 - n) + 4
    case Waiting(b, n) => 12 * (|SyncOrder(c)| - b - 1) + 4 * (3 - n) + 3
    case Fetching(b, n) => 12 * (|SyncOrder(c)| - b - 1) + 4 * (3 - n) + 2
    case Applying(b, n, _) => 12 * (|SyncOrder(c)| - b - 1) + 4 * (3 - n) + 1
    case Done => 0
  }

  ghost predicate InAttempt(sync: Sync) {
    sync.Done? || 1 <= sync.attempt <= 3
  }

  lemma StepTakesOne(h: Key -> History, c: Config, w: World, a: Action)
    requires WorldInv(h, c, w) && Enabled(h, c, w, a) && InAttempt(w.sync)
    ensures var sync := Perform(h, c, w, a).sync;
            && InAttempt(sync)
            && StepsLeft(c, sync) + (if IsSyncStep(a) then 1 else 0) <= StepsLeft(c, w.sync)
  {
  }

  lemma {:induction false} StepsTake(h: Key -> History, c: Config, w: World, actions: seq<Action>)
    requires WorldInv(h, c, w) && IsRun(h, c, w, actions) && InAttempt(w.sync)
    ensures SyncSteps(actions) <= StepsLeft(c, w.sync)
    decreases |actions|
  {
    if actions == [] {
    } else {
      PerformInv(h, c, w, actions[0]);
      StepTakesOne(h, c, w, actions[0]);
      StepsTake(h, c, Perform(h, c, w, actions[0]), actions[1..]);
    }
  }

  lemma StepsAtTheStart(c: Config)
    ensures InAttempt(StartAt(c, 0)) && StepsLeft(c, StartAt(c, 0)) <= 24 * |c.symbols|
  {
    SyncOrderMeaning(c);
  }

  /** Synchronisation ends: no run has more than twelve of its steps for each symbol on each exchange. */
  lemma SynchronisationEnds(h: Key -> History, c: Config, w: World, actions: seq<Action>)
    requires Init(c, w) && IsRun(h, c, w, actions)
    ensures SyncSteps(actions) <= 24 * |c.symbols|
  {
    InitInv(h, c, w);
    StepsAtTheStart(c);
    StepsTake(h, c, w, actions);
  }

  // ----- what a feed counts -----

  /** A message of a feed, and the managers it met. */
  datatype Message = Message(managers: map<Key, Manager>, update: Option<BookUpdate>)

  ghost function CountsOf(ms: seq<Message>): FeedStats {
    if ms == [] then NO_MESSAGES
    else
      var n := |ms| - 1;
      FeedAfter(CountsOf(ms[..n]), ms[n].managers, ms[n].update)
  }

  ghost predicate Routed(m: Message) {
    m.update.Some? && Key(m.update.value.exchange, m.update.value.symbol) in m.managers
  }

  /** The update finds its book in need of a resync, or puts it there: it goes beyond the book, and starts
      behind the next id. */
  ghost predicate FindsGap(m: Message) {
    && Routed(m)
    && var u := m.update.value;
    && var own := m.managers[Key(u.exchange, u.symbol)];
    && (own.status == NeedResync ||
        (own.status == Ready && u.finalUpdateId > own.book.lastUpdateId && u.firstUpdateId > own.book.lastUpdateId + 1))
  }

  ghost function ParsedAt(ms: seq<Message>): set<int> {
    set i | 0 <= i < |ms| && ms[i].update.Some?
  }

  ghost function IgnoredAt(ms: seq<Message>): set<int> {
    set i | 0 <= i < |ms| && !Routed(ms[i])
  }

  ghost function GapsAt(ms: seq<Message>): set<int> {
    set i | 0 <= i < |ms| && FindsGap(ms[i])
  }

  ghost function Places(ms: seq<Message>, p: Message -> bool): set<int> {
    set i | 0 <= i < |ms| && p(ms[i])
  }

  lemma OneMorePlace(ms: seq<Message>, p: Message -> bool)
    requires ms != []
    ensures var n := |ms| - 1; |Places(ms, p)| == |Places(ms[..n], p)| + if p(ms[n]) then 1 else 0
  {
    var n := |ms| - 1;
    var before, after := Places(ms[..n], p), Places(ms, p);
    assert after == if p(ms[n]) then before + {n} else before;
  }

  /** One message adds to the counts what three properties of it say. */
  ghost predicate StepsBy(m: Message, f: FeedStats, p: Message -> bool, q: Message -> bool, r: Message -> bool) {
    FeedAfter(f, m.managers, m.update) ==
    FeedStats(f.raw + 1, f.parsed + if p(m) then 1 else 0, f.ignored + if q(m) then 1 else 0,
              f.gaps + if r(m) then 1 else 0)
  }

  lemma {:induction false} FeedCountsBy(ms: seq<Message>, p: Message -> bool, q: Message -> bool, r: Message -> bool)
    requires forall i, f :: 0 <= i < |ms| ==> StepsBy(ms[i], f, p, q, r)
    ensures CountsOf(ms) == FeedStats(|ms|, |Places(ms, p)|, |Places(ms, q)|, |Places(ms, r)|)
  {
    if ms != [] {
      var n := |ms| - 1;
      FeedCountsBy(ms[..n], p, q, r);
      assert StepsBy(ms[n], CountsOf(ms[..n]), p, q, r);
      OneMorePlace(ms, p);
      OneMorePlace(ms, q);
      OneMorePlace(ms, r);
    }
  }

  lemma FeedStep(m: Message, f: FeedStats)
    requires ValidStates(m.managers)
    ensures FeedAfter(f, m.managers, m.update) ==
            FeedStats(f.raw + 1, f.parsed + if m.update.Some? then 1 else 0,
                      f.ignored + if Routed(m) then 0 else 1, f.gaps + if FindsGap(m) then 1 else 0)
  {
    if Routed(m) {
      var u := m.update.value;
      var key := Key(u.exchange, u.symbol);
      assert ValidEntry(key, m.managers[key]);
      DeliveryMeaning(m.managers[key], u);
    }
  }

  /** A feed counts its messages, those that hold an update, those without a book to go to, and those that
      find their book in need of a resync or put it there. */
  lemma FeedCounts(ms: seq<Message>)
    requires forall i :: 0 <= i < |ms| ==> ValidStates(ms[i].managers)
    ensures CountsOf(ms) == FeedStats(|ms|, |ParsedAt(ms)|, |IgnoredAt(ms)|, |GapsAt(ms)|)
  {
    var p, q, r := (m: Message) => m.update.Some?, (m: Message) => !Routed(m), (m: Message) => FindsGap(m);
    forall i, f | 0 <= i < |ms|
      ensures StepsBy(ms[i], f, p, q, r)
    {
      FeedStep(ms[i], f);
    }
    FeedCountsBy(ms, p, q, r);
    assert Places(ms, p) == ParsedAt(ms) && Places(ms, q) == IgnoredAt(ms) && Places(ms, r) == GapsAt(ms);
  }
}
