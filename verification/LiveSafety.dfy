/** Safety of the live scan over all interleavings, and when a synchronisation attempt succeeds. */
module LiveSafety {
  import opened Ladders
  import opened OrderBooks
  import opened LocalBookManagers
  import opened ManagerProperties
  import opened Histories
  import opened Sorting
  import opened Engines
  import opened LiveProtocol

  // ----- one manager -----

  lemma DeliveredNotAhead(m: Manager, u: BookUpdate, reached: nat)
    requires NothingAhead(m, reached) && (m.Owns(u) ==> u.finalUpdateId <= reached)
    ensures NothingAhead(Delivered(m, u), reached)
  {
  }

  lemma {:induction false} ReplayNotAhead(m: Manager, us: seq<BookUpdate>, reached: nat)
    requires NothingAhead(m, reached) && forall i :: 0 <= i < |us| ==> us[i].finalUpdateId <= reached
    ensures NothingAhead(Replay(m, us), reached)
    decreases |us|
  {
    if us != [] {
      DeliveredNotAhead(m, us[0], reached);
      ReplayNotAhead(Delivered(m, us[0]), us[1..], reached);
    }
  }

  lemma ManagerDelivery(h: History, key: Key, m: Manager, ws: Windows, reached: nat, u: BookUpdate)
    requires ManagerInv(h, key, m, ws, reached)
    requires m.Owns(u) ==> HonestUpdate(h, u) && u.finalUpdateId <= reached
    ensures ManagerInv(h, key, Delivered(m, u), ws, reached)
  {
    DeliveredValid(m, u);
    DeliveredTracks(h, m, u, ws);
    DeliveredNotAhead(m, u, reached);
  }

  lemma ManagerSnapshot(h: History, key: Key, m: Manager, ws: Windows, reached: nat, s: BookSnapshot, limit: nat)
    requires ManagerInv(h, key, m, ws, reached)
    requires m.OwnsSnapshot(s) && HonestSnapshot(h, s, limit) && s.lastUpdateId <= reached
    ensures ManagerInv(h, key, AfterSnapshot(m, s), WindowsAfter(m, Snapshot(s), ws, limit), reached)
  {
    AfterValid(m, Snapshot(s));
    AfterTracks(h, m, Snapshot(s), ws, limit);
    ReplayNotAhead(Started(m.(book := LoadSnapshot(s))), m.buffer, reached);
  }

  // ----- one report -----

  lemma TopLevelsTrue(h: History, side: Side, b: BookState, ws: Windows, limit: nat)
    requires b.Valid() && BookCovers(h, b, ws)
    ensures TrueLevels(h, side, b.lastUpdateId, Top(b.Levels(side), limit))
  {
    var l := b.Levels(side);
    assert Covers(h, side, b.lastUpdateId, l, ws.Of(side));
    forall i | 0 <= i < |l|
      ensures h(b.lastUpdateId, side, l[i].price) == l[i].quantity
    {
      QuantityAtLevel(side, l, i);
      assert QuantityAt(l, l[i].price) != 0.0;
    }
  }

  /** What one direction finds between two copied books was there to be taken. */
  lemma DirectionGenuine(h: Key -> History, c: Config, reached: map<Key, nat>, symbol: string,
                         buyExchange: Exchange, sellExchange: Exchange, buyCopy: Copy, sellCopy: Copy)
    requires var buy, sell := Key(buyExchange, symbol), Key(sellExchange, symbol);
             && buyExchange != sellExchange && buy in reached && sell in reached
             && CopyInv(h(buy), buyCopy, reached[buy]) && CopyInv(h(sell), sellCopy, reached[sell])
    requires Direction(MakeSettings(c), symbol, buyExchange, sellExchange, buyCopy.book, sellCopy.book).Some?
    ensures Genuine(h, c, reached,
                    Direction(MakeSettings(c), symbol, buyExchange, sellExchange, buyCopy.book, sellCopy.book).value)
  {
    var s := MakeSettings(c);
    var buy, sell := Key(buyExchange, symbol), Key(sellExchange, symbol);
    var o := Direction(s, symbol, buyExchange, sellExchange, buyCopy.book, sellCopy.book).value;
    var asks := Top(buyCopy.book.asks, s.maxDepthLevels);
    var bids := Top(sellCopy.book.bids, s.maxDepthLevels);
    TopLevelsTrue(h(buy), Ask, buyCopy.book, buyCopy.windows, s.maxDepthLevels);
    TopLevelsTrue(h(sell), Bid, sellCopy.book, sellCopy.windows, s.maxDepthLevels);
    OpportunityMeaning(s, symbol, buyExchange, sellExchange, asks, bids);
    var x, y :| CarriedOutBy(o, asks, bids, s.maxNotional, x, y);
    assert TakenFrom(h, c, reached, o, buyCopy.book.lastUpdateId, sellCopy.book.lastUpdateId, asks, bids, x, y);
  }

  lemma ScanOneGenuine(h: Key -> History, c: Config, reached: map<Key, nat>, store: map<Key, Copy>,
                       symbol: string, o: Opportunity)
    requires StoreInv(h, reached, store) && o in ScanOne(c, Books(store), symbol)
    ensures Genuine(h, c, reached, o)
  {
    var b, m := Key(Binance, symbol), Key(Mexc, symbol);
    var s := MakeSettings(c);
    assert CopyInv(h(b), store[b], reached[b]) && CopyInv(h(m), store[m], reached[m]);
    ScanMembers(s, symbol, store[b].book, store[m].book, o);
    if Direction(s, symbol, Binance, Mexc, store[b].book, store[m].book) == Some(o) {
      DirectionGenuine(h, c, reached, symbol, Binance, Mexc, store[b], store[m]);
    } else {
      DirectionGenuine(h, c, reached, symbol, Mexc, Binance, store[m], store[b]);
    }
  }

  lemma {:induction false} ScanEachGenuine(h: Key -> History, c: Config, reached: map<Key, nat>, store: map<Key, Copy>,
                                           symbols: seq<string>, o: Opportunity)
    requires StoreInv(h, reached, store) && o in ScanEach(c, Books(store), symbols)
    ensures Genuine(h, c, reached, o)
  {
    var n := |symbols| - 1;
    if o in ScanEach(c, Books(store), symbols[..n]) {
      ScanEachGenuine(h, c, reached, store, symbols[..n], o);
    } else {
      ScanOneGenuine(h, c, reached, store, symbols[n], o);
    }
  }

  lemma ScanGenuine(h: Key -> History, c: Config, reached: map<Key, nat>, store: map<Key, Copy>)
    requires StoreInv(h, reached, store)
    ensures forall o :: o in ScanResult(c, Books(store)) ==> Genuine(h, c, reached, o)
  {
    forall o | o in ScanResult(c, Books(store))
      ensures Genuine(h, c, reached, o)
    {
      SortKeepsElements(ScanEach(c, Books(store), c.symbols), NetSpread());
      ScanEachGenuine(h, c, reached, store, c.symbols, o);
    }
  }

  /** A genuine opportunity stays genuine as the exchanges move on. */
  lemma GenuineLater(h: Key -> History, c: Config, reached: map<Key, nat>, later: map<Key, nat>, o: Opportunity)
    requires Genuine(h, c, reached, o)
    requires NoEarlier(reached, later)
    ensures Genuine(h, c, later, o)
  {
    var vb, vs, asks, bids, x, y :| TakenFrom(h, c, reached, o, vb, vs, asks, bids, x, y);
    assert TakenFrom(h, c, later, o, vb, vs, asks, bids, x, y);
  }

  // ----- every step -----

  lemma FreshInv(h: History, key: Key, ws: Windows, reached: nat)
    ensures ManagerInv(h, key, Fresh(key.exchange, key.symbol, MAX_BUFFERED_UPDATES), ws, reached)
  {
  }

  lemma InitOrder(c: Config, w: World)
    requires Init(c, w)
    ensures OrderInv(c, w.managers) && AtBook(c, w)
  {
    assert forall i :: 0 <= i < |SyncOrder(c)| ==> SyncOrder(c)[i] in w.managers;
  }

  lemma InitManagers(h: Key -> History, c: Config, w: World)
    requires Init(c, w)
    ensures ManagersInv(h, w.managers, w.windows, w.reached)
  {
    forall key | key in w.managers
      ensures ManagerInv(h(key), key, w.managers[key], w.windows[key], w.reached[key])
    {
      FreshInv(h(key), key, w.windows[key], w.reached[key]);
    }
  }

  lemma InitInv(h: Key -> History, c: Config, w: World)
    requires Init(c, w)
    ensures WorldInv(h, c, w)
  {
    InitOrder(c, w);
    InitManagers(h, c, w);
  }

  ghost predicate NoEarlier(reached: map<Key, nat>, later: map<Key, nat>) {
    reached.Keys == later.Keys && forall key :: key in reached ==> reached[key] <= later[key]
  }

  lemma PublishInv(h: Key -> History, c: Config, w: World, a: Action)
    requires WorldInv(h, c, w) && a.Publish? && Enabled(h, c, w, a)
    ensures WorldInv(h, c, Perform(h, c, w, a))
  {
    var later := w.reached[a.key := a.version];
    assert NoEarlier(w.reached, later);
    ManagersLater(h, w.managers, w.windows, w.reached, later);
    ReportsLater(h, c, w.reached, later, w.reports);
    if w.store.Some? {
      StoreLater(h, w.reached, later, w.store.value);
    }
  }

  lemma ManagersLater(h: Key -> History, managers: map<Key, Manager>, windows: map<Key, Windows>,
                      reached: map<Key, nat>, later: map<Key, nat>)
    requires ManagersInv(h, managers, windows, reached) && NoEarlier(reached, later)
    ensures ManagersInv(h, managers, windows, later)
  {
    forall key | key in managers
      ensures ManagerInv(h(key), key, managers[key], windows[key], later[key])
    {
      assert ManagerInv(h(key), key, managers[key], windows[key], reached[key]);
    }
  }

  lemma ReportsLater(h: Key -> History, c: Config, reached: map<Key, nat>, later: map<Key, nat>,
                     reports: seq<Opportunity>)
    requires ReportsInv(h, c, reached, reports) && NoEarlier(reached, later)
    ensures ReportsInv(h, c, later, reports)
  {
    forall i | 0 <= i < |reports|
      ensures Genuine(h, c, later, reports[i])
    {
      assert Genuine(h, c, reached, reports[i]);
      GenuineLater(h, c, reached, later, reports[i]);
    }
  }

  lemma StoreLater(h: Key -> History, reached: map<Key, nat>, later: map<Key, nat>, store: map<Key, Copy>)
    requires StoreInv(h, reached, store) && NoEarlier(reached, later)
    ensures StoreInv(h, later, store)
  {
    forall key | key in store
      ensures CopyInv(h(key), store[key], later[key])
    {
      assert CopyInv(h(key), store[key], reached[key]);
    }
  }

  /** Replacing one manager by another that meets the invariant. */
  lemma OneManager(h: Key -> History, managers: map<Key, Manager>, windows: map<Key, Windows>, reached: map<Key, nat>,
                   key: Key, m: Manager, ws: Windows)
    requires ManagersInv(h, managers, windows, reached) && key in managers
    requires ManagerInv(h(key), key, m, ws, reached[key])
    ensures ManagersInv(h, managers[key := m], windows[key := ws], reached)
  {
  }

  lemma ReceiveInv(h: Key -> History, c: Config, w: World, a: Action)
    requires WorldInv(h, c, w) && a.Receive? && Enabled(h, c, w, a)
    ensures WorldInv(h, c, Perform(h, c, w, a))
  {
    var key := Key(a.update.exchange, a.update.symbol);
    if key in w.managers {
      assert ManagerInv(h(key), key, w.managers[key], w.windows[key], w.reached[key]);
      ManagerDelivery(h(key), key, w.managers[key], w.windows[key], w.reached[key], a.update);
      OneManager(h, w.managers, w.windows, w.reached, key, Delivered(w.managers[key], a.update), w.windows[key]);
      assert w.windows[key := w.windows[key]] == w.windows;
    }
  }

  lemma BeginInv(h: Key -> History, c: Config, w: World, a: Action)
    requires WorldInv(h, c, w) && a.Begin? && Enabled(h, c, w, a)
    ensures WorldInv(h, c, Perform(h, c, w, a))
  {
    var key := SyncOrder(c)[w.sync.book];
    assert ManagerInv(h(key), key, w.managers[key], w.windows[key], w.reached[key]);
    OneManager(h, w.managers, w.windows, w.reached, key, AfterReset(w.managers[key]), w.windows[key]);
    assert w.windows[key := w.windows[key]] == w.windows;
  }

  lemma SyncInv(h: Key -> History, c: Config, w: World, a: Action)
    requires WorldInv(h, c, w) && Enabled(h, c, w, a)
    requires a.BufferSeen? || a.WaitFailed? || a.Fetched? || a.FetchFailed?
    ensures WorldInv(h, c, Perform(h, c, w, a))
  {
  }

  lemma ApplyInv(h: Key -> History, c: Config, w: World, a: Action)
    requires WorldInv(h, c, w) && a.Apply? && Enabled(h, c, w, a)
    ensures WorldInv(h, c, Perform(h, c, w, a))
  {
    var key, s := SyncOrder(c)[w.sync.book], w.sync.snapshot;
    var m, ws := w.managers[key], w.windows[key];
    assert ManagerInv(h(key), key, m, ws, w.reached[key]);
    ManagerSnapshot(h(key), key, m, ws, w.reached[key], s, c.bookSnapshotLimit);
    OneManager(h, w.managers, w.windows, w.reached, key, AfterSnapshot(m, s),
               WindowsAfter(m, Snapshot(s), ws, c.bookSnapshotLimit));
  }

  lemma CopyStoreInv(h: Key -> History, c: Config, w: World, a: Action)
    requires WorldInv(h, c, w) && a.CopyStore? && Enabled(h, c, w, a)
    ensures WorldInv(h, c, Perform(h, c, w, a))
  {
    var store := Perform(h, c, w, a).store.value;
    forall key | key in store
      ensures CopyInv(h(key), store[key], w.reached[key])
    {
      assert ManagerInv(h(key), key, w.managers[key], w.windows[key], w.reached[key]);
    }
  }

  lemma ScanStoreInv(h: Key -> History, c: Config, w: World, a: Action)
    requires WorldInv(h, c, w) && a.ScanStore? && Enabled(h, c, w, a)
    ensures WorldInv(h, c, Perform(h, c, w, a))
  {
    ScanGenuine(h, c, w.reached, w.store.value);
    var found := ScanResult(c, Books(w.store.value));
    var reports := w.reports + found;
    forall i | 0 <= i < |reports|
      ensures Genuine(h, c, w.reached, reports[i])
    {
      if i < |w.reports| {
        assert Genuine(h, c, w.reached, w.reports[i]);
      } else {
        assert reports[i] == found[i - |w.reports|] && found[i - |w.reports|] in found;
      }
    }
  }

  lemma PerformInv(h: Key -> History, c: Config, w: World, a: Action)
    requires WorldInv(h, c, w) && Enabled(h, c, w, a)
    ensures WorldInv(h, c, Perform(h, c, w, a))
  {
    match a
    case Publish(_, _) => PublishInv(h, c, w, a);
    case Receive(_) => ReceiveInv(h, c, w, a);
    case Apply => ApplyInv(h, c, w, a);
    case Begin => BeginInv(h, c, w, a);
    case CopyStore => CopyStoreInv(h, c, w, a);
    case ScanStore => ScanStoreInv(h, c, w, a);
    case _ => SyncInv(h, c, w, a);
  }

  // ----- every run -----

  /** Each action may happen where it does; the runs are all interleavings. */
  ghost predicate IsRun(h: Key -> History, c: Config, w: World, actions: seq<Action>)
    decreases |actions|
  {
    actions == [] ||
    (AtBook(c, w) && w.windows.Keys == w.managers.Keys && Enabled(h, c, w, actions[0]) &&
     IsRun(h, c, Perform(h, c, w, actions[0]), actions[1..]))
  }

  ghost function Execute(h: Key -> History, c: Config, w: World, actions: seq<Action>): World
    requires IsRun(h, c, w, actions)
    decreases |actions|
  {
    if actions == [] then w else Execute(h, c, Perform(h, c, w, actions[0]), actions[1..])
  }

  lemma {:induction false} ExecuteInv(h: Key -> History, c: Config, w: World, actions: seq<Action>)
    requires WorldInv(h, c, w) && IsRun(h, c, w, actions)
    ensures WorldInv(h, c, Execute(h, c, w, actions))
    decreases |actions|
  {
    if actions != [] {
      PerformInv(h, c, w, actions[0]);
      ExecuteInv(h, c, Perform(h, c, w, actions[0]), actions[1..]);
    }
  }

  /** End to end, over all interleavings: every book in a scanned store is the exchange's book at a
      version already reached, as far down as its snapshot went, and every opportunity ever reported
      is carried out by fills of levels that the two exchanges really had. */
  lemma EndToEndSafety(h: Key -> History, c: Config, w: World, actions: seq<Action>)
    requires Init(c, w) && IsRun(h, c, w, actions)
    ensures var w' := Execute(h, c, w, actions);
            && (w'.store.Some? ==> forall key :: key in w'.store.value ==>
                  var copy := w'.store.value[key];
                  && key in w'.reached && copy.book.lastUpdateId <= w'.reached[key]
                  && BookCovers(h(key), copy.book, copy.windows))
            && (forall o :: o in w'.reports ==> Genuine(h, c, w'.reached, o))
  {
    InitInv(h, c, w);
    ExecuteInv(h, c, w, actions);
    var w' := Execute(h, c, w, actions);
    if w'.store.Some? {
      forall key | key in w'.store.value
        ensures CopyInv(h(key), w'.store.value[key], w'.reached[key])
      {
      }
    }
    forall o | o in w'.reports
      ensures Genuine(h, c, w'.reached, o)
    {
      var i :| 0 <= i < |w'.reports| && w'.reports[i] == o;
    }
  }

  /** A book that holds exactly what the exchange had at its id. */
  ghost predicate TrueBook(h: History, b: BookState) {
    forall side :: IsSideOf(h, side, b.lastUpdateId, b.Levels(side))
  }

  lemma CopySeesTop(h: History, side: Side, copy: Copy, reached: nat, b: BookState, k: nat)
    requires CopyInv(h, copy, reached) && TrueBook(h, b) && b.lastUpdateId == copy.book.lastUpdateId
    requires SeenTo(side, copy.windows.Of(side), b.Levels(side), k)
    ensures Top(copy.book.Levels(side), k) == Top(b.Levels(side), k)
  {
    assert Covers(h, side, b.lastUpdateId, copy.book.Levels(side), copy.windows.Of(side));
    TopSeen(h, side, b.lastUpdateId, copy.book.Levels(side), b.Levels(side), copy.windows.Of(side), k);
  }

  /** Nothing is missed either: in every run, where the snapshots of the two sides walked reach as deep
      as the walk looks, what one direction finds between two stored books, or that it finds nothing, is
      what it would find between the exchanges' own books at those versions. */
  lemma EndToEndExact(h: Key -> History, c: Config, w: World, actions: seq<Action>, symbol: string,
                      buyExchange: Exchange, sellExchange: Exchange, buyBook: BookState, sellBook: BookState)
    requires Init(c, w) && IsRun(h, c, w, actions) && Execute(h, c, w, actions).store.Some?
    requires TrueBook(h(Key(buyExchange, symbol)), buyBook) && TrueBook(h(Key(sellExchange, symbol)), sellBook)
    requires var store := Execute(h, c, w, actions).store.value;
             var buy, sell := Key(buyExchange, symbol), Key(sellExchange, symbol);
             && buy in store && store[buy].book.lastUpdateId == buyBook.lastUpdateId
             && sell in store && store[sell].book.lastUpdateId == sellBook.lastUpdateId
             && SeenTo(Ask, store[buy].windows.asks, buyBook.asks, MakeSettings(c).maxDepthLevels)
             && SeenTo(Bid, store[sell].windows.bids, sellBook.bids, MakeSettings(c).maxDepthLevels)
    ensures var store := Execute(h, c, w, actions).store.value;
            var s := MakeSettings(c);
            Direction(s, symbol, buyExchange, sellExchange,
                      store[Key(buyExchange, symbol)].book, store[Key(sellExchange, symbol)].book) ==
            Direction(s, symbol, buyExchange, sellExchange, buyBook, sellBook)
  {
    var buy, sell, s := Key(buyExchange, symbol), Key(sellExchange, symbol), MakeSettings(c);
    InitInv(h, c, w);
    ExecuteInv(h, c, w, actions);
    var w' := Execute(h, c, w, actions);
    var store := w'.store.value;
    assert CopyInv(h(buy), store[buy], w'.reached[buy]) && CopyInv(h(sell), store[sell], w'.reached[sell]);
    CopySeesTop(h(buy), Ask, store[buy], w'.reached[buy], buyBook, s.maxDepthLevels);
    CopySeesTop(h(sell), Bid, store[sell], w'.reached[sell], sellBook, s.maxDepthLevels);
  }

  /** A copy shows as much of a true book as a walk looks at, on both sides. */
  ghost predicate Shows(h: History, copy: Copy, b: BookState, k: nat) {
    && TrueBook(h, b) && b.initialized && b.lastUpdateId == copy.book.lastUpdateId
    && SeenTo(Ask, copy.windows.asks, b.asks, k) && SeenTo(Bid, copy.windows.bids, b.bids, k)
  }

  /** What a scan sees of a true book in its copy is all it would see of the book itself. */
  ghost predicate SameTops(a: BookState, b: BookState, k: nat) {
    a.initialized == b.initialized && Top(a.asks, k) == Top(b.asks, k) && Top(a.bids, k) == Top(b.bids, k)
  }

  lemma ShowsTops(h: History, copy: Copy, reached: nat, b: BookState, k: nat)
    requires CopyInv(h, copy, reached) && Shows(h, copy, b, k)
    ensures SameTops(copy.book, b, k)
  {
    CopySeesTop(h, Ask, copy, reached, b, k);
    CopySeesTop(h, Bid, copy, reached, b, k);
  }

  /** The books of a symbol that is a pair in the store. */
  predicate InPair(c: Config, keys: set<Key>, symbol: string) {
    symbol in c.symbols && Key(Binance, symbol) in keys && Key(Mexc, symbol) in keys
  }

  /** Both copies of every pair in the store show their true books. */
  ghost predicate ShowsPairs(h: Key -> History, c: Config, store: map<Key, Copy>, books: map<Key, BookState>) {
    && books.Keys == store.Keys
    && forall symbol :: InPair(c, store.Keys, symbol) ==>
         var b, m, k := Key(Binance, symbol), Key(Mexc, symbol), MakeSettings(c).maxDepthLevels;
         Shows(h(b), store[b], books[b], k) && Shows(h(m), store[m], books[m], k)
  }

  lemma ScanOneExact(h: Key -> History, c: Config, reached: map<Key, nat>, store: map<Key, Copy>,
                     books: map<Key, BookState>, symbol: string)
    requires StoreInv(h, reached, store) && ShowsPairs(h, c, store, books) && symbol in c.symbols
    ensures ScanOne(c, Books(store), symbol) == ScanOne(c, books, symbol)
  {
    var b, m, k := Key(Binance, symbol), Key(Mexc, symbol), MakeSettings(c).maxDepthLevels;
    if InPair(c, store.Keys, symbol) {
      assert CopyInv(h(b), store[b], reached[b]) && CopyInv(h(m), store[m], reached[m]);
      ShowsTops(h(b), store[b], reached[b], books[b], k);
      ShowsTops(h(m), store[m], reached[m], books[m], k);
    }
  }

  lemma {:induction false} ScanEachExact(h: Key -> History, c: Config, reached: map<Key, nat>,
                                         store: map<Key, Copy>, books: map<Key, BookState>, symbols: seq<string>)
    requires StoreInv(h, reached, store) && ShowsPairs(h, c, store, books)
    requires forall i :: 0 <= i < |symbols| ==> symbols[i] in c.symbols
    ensures ScanEach(c, Books(store), symbols) == ScanEach(c, books, symbols)
  {
    if symbols != [] {
      var n := |symbols| - 1;
      ScanEachExact(h, c, reached, store, books, symbols[..n]);
      ScanOneExact(h, c, reached, store, books, symbols[n]);
    }
  }

  /** The same of a whole scan: in every run, where the snapshots of every pair in the store reach as
      deep as the walk looks, scanning the store reports exactly what scanning the exchanges' own books
      at those versions would report. */
  lemma ScanIsExact(h: Key -> History, c: Config, w: World, actions: seq<Action>, books: map<Key, BookState>)
    requires Init(c, w) && IsRun(h, c, w, actions) && Execute(h, c, w, actions).store.Some?
    requires ShowsPairs(h, c, Execute(h, c, w, actions).store.value, books)
    ensures ScanResult(c, Books(Execute(h, c, w, actions).store.value)) == ScanResult(c, books)
  {
    InitInv(h, c, w);
    ExecuteInv(h, c, w, actions);
    var w' := Execute(h, c, w, actions);
    ScanEachExact(h, c, w'.reached, w'.store.value, books, c.symbols);
  }

  // ----- waiting before fetching -----

  /** The own updates of a book that a run delivers. */
  function DeliveredTo(key: Key, actions: seq<Action>): seq<BookUpdate> {
    if actions == [] then []
    else
      (if actions[0].Receive? && Key(actions[0].update.exchange, actions[0].update.symbol) == key
       then [actions[0].update] else []) + DeliveredTo(key, actions[1..])
  }

  /** The synchroniser does nothing but get its snapshot. */
  predicate OnlyFetching(actions: seq<Action>) {
    forall i :: 0 <= i < |actions| ==> actions[i].Publish? || actions[i].Receive? || actions[i].Fetched?
  }

  ghost predicate Awaiting(w: World, key: Key, buffer: seq<BookUpdate>, limit: nat) {
    && key in w.managers && w.managers[key].status == WaitingForSnapshot
    && w.managers[key].exchange == key.exchange && w.managers[key].symbol == key.symbol
    && w.managers[key].buffer == buffer && w.managers[key].maxBufferedUpdates == limit
  }

  /** The request is still under way, or its answer has arrived. */
  predicate SameRequest(before: Sync, after: Sync) {
    && (before.Fetching? ==> after == before || (after.Applying? && after.book == before.book))
    && (before.Applying? ==> after == before)
  }

  lemma BufferGrowsOne(h: Key -> History, c: Config, w: World, a: Action, key: Key, buffer: seq<BookUpdate>, limit: nat)
    requires AtBook(c, w) && w.windows.Keys == w.managers.Keys && Enabled(h, c, w, a) && OnlyFetching([a])
    requires Awaiting(w, key, buffer, limit) && |buffer + DeliveredTo(key, [a])| <= limit
    ensures Awaiting(Perform(h, c, w, a), key, buffer + DeliveredTo(key, [a]), limit)
    ensures SameRequest(w.sync, Perform(h, c, w, a).sync)
  {
  }

  /** The state after the first action of such a run. */
  lemma FirstOf(h: Key -> History, c: Config, w: World, actions: seq<Action>,
                key: Key, buffer: seq<BookUpdate>, limit: nat) returns (next: World)
    requires actions != [] && IsRun(h, c, w, actions) && OnlyFetching(actions)
    requires Awaiting(w, key, buffer, limit) && |buffer + DeliveredTo(key, [actions[0]])| <= limit
    ensures IsRun(h, c, next, actions[1..]) && OnlyFetching(actions[1..])
    ensures Execute(h, c, next, actions[1..]) == Execute(h, c, w, actions)
    ensures Awaiting(next, key, buffer + DeliveredTo(key, [actions[0]]), limit)
    ensures SameRequest(w.sync, next.sync)
  {
    assert OnlyFetching([actions[0]]);
    BufferGrowsOne(h, c, w, actions[0], key, buffer, limit);
    next := Perform(h, c, w, actions[0]);
  }

  lemma {:induction false} BufferGrows(h: Key -> History, c: Config, w: World, actions: seq<Action>,
                                       key: Key, buffer: seq<BookUpdate>, limit: nat)
    requires IsRun(h, c, w, actions) && OnlyFetching(actions)
    requires w.sync.Fetching? || w.sync.Applying?
    requires Awaiting(w, key, buffer, limit) && |buffer + DeliveredTo(key, actions)| <= limit
    ensures Awaiting(Execute(h, c, w, actions), key, buffer + DeliveredTo(key, actions), limit)
    ensures SameRequest(w.sync, Execute(h, c, w, actions).sync)
    decreases |actions|
  {
    if actions == [] {
      assert buffer + DeliveredTo(key, actions) == buffer;
    } else {
      var buffer' := buffer + DeliveredTo(key, [actions[0]]);
      DeliveredToParts(key, buffer, actions);
      var next := FirstOf(h, c, w, actions, key, buffer, limit);
      BufferGrows(h, c, next, actions[1..], key, buffer', limit);
    }
  }

  /** What a run adds to a buffer, its first action apart. */
  lemma DeliveredToParts(key: Key, buffer: seq<BookUpdate>, actions: seq<Action>)
    requires actions != []
    ensures buffer + DeliveredTo(key, actions) ==
            (buffer + DeliveredTo(key, [actions[0]])) + DeliveredTo(key, actions[1..])
  {
    assert DeliveredTo(key, actions) == DeliveredTo(key, [actions[0]]) + DeliveredTo(key, actions[1..]);
  }

  /** Applying the fetched snapshot may happen now, leaves the book ready at the newest id of the snapshot
      and the buffered updates, and sends the synchroniser on to the next book. */
  ghost predicate ApplySynchronises(h: Key -> History, c: Config, w: World, key: Key, buffer: seq<BookUpdate>) {
    && WorldInv(h, c, w) && w.sync.Applying? && Enabled(h, c, w, Apply) && buffer != []
    && var w' := Perform(h, c, w, Apply);
    && w'.sync == StartAt(c, w.sync.book + 1)
    && key in w'.managers && w'.managers[key].status == Ready
    && w'.managers[key].book.lastUpdateId ==
       MaxId(w.sync.snapshot.lastUpdateId, buffer[|buffer| - 1].finalUpdateId)
  }

  /** Applying a snapshot that reaches back to a contiguous buffer synchronises the book. */
  lemma ApplySucceeds(h: Key -> History, c: Config, w: World, key: Key, buffer: seq<BookUpdate>, limit: nat)
    requires WorldInv(h, c, w) && w.sync.Applying? && key == SyncOrder(c)[w.sync.book]
    requires Awaiting(w, key, buffer, limit) && buffer != [] && Contiguous(buffer)
    requires buffer[0].firstUpdateId <= w.sync.snapshot.lastUpdateId + 1
    ensures ApplySynchronises(h, c, w, key, buffer)
  {
    assert ManagerInv(h(key), key, w.managers[key], w.windows[key], w.reached[key]);
    NoFalseGaps(w.managers[key], w.sync.snapshot);
  }

  /** What is buffered has been reached. */
  lemma BufferReached(h: Key -> History, c: Config, w: World, key: Key)
    requires WorldInv(h, c, w) && key in w.managers && w.managers[key].buffer != []
    ensures w.managers[key].buffer[0].finalUpdateId <= w.reached[key]
  {
    assert ManagerInv(h(key), key, w.managers[key], w.windows[key], w.reached[key]);
  }

  /** The conditions under which waiting before fetching is enough: the request starts with updates
      buffered, the feed is lossless and does not overflow the buffer, and the snapshot is no older than
      the first buffered update, or than what the exchange had reached when the request started. */
  ghost predicate GoodAttempt(c: Config, w: World, actions: seq<Action>, key: Key, snapshot: BookSnapshot)
    requires key in w.managers && key in w.reached
  {
    var m := w.managers[key];
    var all := m.buffer + DeliveredTo(key, actions);
    && m.status == WaitingForSnapshot && m.buffer != []
    && Contiguous(all) && |all| <= m.maxBufferedUpdates
    && (m.buffer[0].firstUpdateId <= snapshot.lastUpdateId + 1 || w.reached[key] <= snapshot.lastUpdateId)
  }

  /** What has become of the buffer, and of the request, when the snapshot is there. */
  lemma AttemptArrives(h: Key -> History, c: Config, w: World, actions: seq<Action>, key: Key, limit: nat)
    requires WorldInv(h, c, w) && w.sync.Fetching? && IsRun(h, c, w, actions) && OnlyFetching(actions)
    requires key in w.managers && w.managers[key].status == WaitingForSnapshot
    requires limit == w.managers[key].maxBufferedUpdates
    requires |w.managers[key].buffer + DeliveredTo(key, actions)| <= limit
    ensures var w1 := Execute(h, c, w, actions);
            && WorldInv(h, c, w1) && SameRequest(w.sync, w1.sync)
            && Awaiting(w1, key, w.managers[key].buffer + DeliveredTo(key, actions), limit)
  {
    IdentityOf(h, c, w, key);
    BufferGrows(h, c, w, actions, key, w.managers[key].buffer, limit);
    ExecuteInv(h, c, w, actions);
  }

  /** In a good attempt the updates buffered by the end reach back to the snapshot. */
  lemma ReachesBack(h: Key -> History, c: Config, w: World, actions: seq<Action>, key: Key, snapshot: BookSnapshot)
    requires WorldInv(h, c, w) && key in w.managers && key in w.reached
    requires GoodAttempt(c, w, actions, key, snapshot)
    ensures var all := w.managers[key].buffer + DeliveredTo(key, actions);
            all != [] && all[0].firstUpdateId <= snapshot.lastUpdateId + 1
  {
    var buffer := w.managers[key].buffer;
    var all := buffer + DeliveredTo(key, actions);
    BufferReached(h, c, w, key);
    assert all[0] == buffer[0] && all[0].firstUpdateId <= all[0].finalUpdateId;
  }

  /** Waiting for a buffered update before fetching makes the attempt succeed: whatever is delivered
      before the snapshot is applied, applying it leaves the book ready at the newest id received, and
      the synchroniser moves on to the next book. */
  lemma WaitThenFetchSucceeds(h: Key -> History, c: Config, w: World, actions: seq<Action>)
    requires WorldInv(h, c, w) && w.sync.Fetching? && IsRun(h, c, w, actions) && OnlyFetching(actions)
    requires Execute(h, c, w, actions).sync.Applying?
    requires GoodAttempt(c, w, actions, SyncOrder(c)[w.sync.book], Execute(h, c, w, actions).sync.snapshot)
    ensures var key := SyncOrder(c)[w.sync.book];
            var w1 := Execute(h, c, w, actions);
            var all := w.managers[key].buffer + DeliveredTo(key, actions);
            w1.sync.book == w.sync.book && ApplySynchronises(h, c, w1, key, all)
  {
    var key := SyncOrder(c)[w.sync.book];
    var limit := w.managers[key].maxBufferedUpdates;
    var all := w.managers[key].buffer + DeliveredTo(key, actions);
    AttemptArrives(h, c, w, actions, key, limit);
    var w1 := Execute(h, c, w, actions);
    ReachesBack(h, c, w, actions, key, w1.sync.snapshot);
    ApplySucceeds(h, c, w1, key, all, limit);
  }

  lemma IdentityOf(h: Key -> History, c: Config, w: World, key: Key)
    requires WorldInv(h, c, w) && key in w.managers
    ensures w.managers[key].exchange == key.exchange && w.managers[key].symbol == key.symbol
  {
    assert ManagerInv(h(key), key, w.managers[key], w.windows[key], w.reached[key]);
  }
}
