/** The live scan's own objects: one manager per exchange and symbol, the sections that run under the
    mutex, the copy of the ready books, and the scan of a copy. Each section is proved to be the step
    of `LiveProtocol` that stands for it.
  */
module LiveScans {
  import opened Ladders
  import opened OrderBooks
  import opened LocalBookManagers
  import opened Sorting
  import opened Engines
  import opened LiveProtocol

  /** What a feed counts: messages, messages that hold an update, messages without effect, and
      messages after which the book needs a resync. */
  datatype FeedStats = FeedStats(raw: nat, parsed: nat, ignored: nat, gaps: nat)

  const NO_MESSAGES := FeedStats(0, 0, 0, 0)

  ghost function States(managers: map<Key, LocalBookManager>): map<Key, Manager>
    reads set key | key in managers :: managers[key]
    reads set key | key in managers :: managers[key].book
  {
    map key | key in managers :: managers[key].State()
  }

  ghost predicate ValidEntry(key: Key, m: Manager) {
    m.Valid() && m.exchange == key.exchange && m.symbol == key.symbol
  }

  ghost predicate ValidStates(managers: map<Key, Manager>) {
    forall key {:trigger ValidEntry(key, managers[key])} :: key in managers ==> ValidEntry(key, managers[key])
  }

  lemma OneEntry(managers: map<Key, Manager>, key: Key, m: Manager)
    requires ValidStates(managers) && ValidEntry(key, m)
    ensures ValidStates(managers[key := m])
  {
  }

  /** No two entries share an object. */
  ghost predicate Separate(managers: map<Key, LocalBookManager>) {
    forall k, l {:trigger Apart(managers[k], managers[l])} ::
      k in managers && l in managers && k != l ==> Apart(managers[k], managers[l])
  }

  ghost predicate Apart(a: LocalBookManager, b: LocalBookManager) {
    a != b && a.book != b.book
  }

  lemma SameButOne(before: map<Key, Manager>, after: map<Key, Manager>, key: Key)
    requires key in before && after.Keys == before.Keys
    requires forall k :: k in before && k != key ==> after[k] == before[k]
    ensures after == before[key := after[key]]
  {
  }

  ghost function StoreStates(store: map<Key, OrderBook>): map<Key, BookState>
    reads set key | key in store :: store[key]
  {
    map key | key in store :: store[key].State()
  }

  ghost function FeedAfter(f: FeedStats, managers: map<Key, Manager>, update: Option<BookUpdate>): FeedStats {
    match update
    case None => f.(raw := f.raw + 1, ignored := f.ignored + 1)
    case Some(u) =>
      var key := Key(u.exchange, u.symbol);
      var f' := f.(raw := f.raw + 1, parsed := f.parsed + 1);
      if key !in managers then f'.(ignored := f'.ignored + 1)
      else if Delivered(managers[key], u).status == NeedResync then f'.(gaps := f'.gaps + 1)
      else f'
  }

  ghost function TopSpreadOf(c: Config, store: map<Key, BookState>, symbol: string): seq<TopOfBookSpread> {
    var b, m := Key(Binance, symbol), Key(Mexc, symbol);
    if IsPair(store, symbol)
    then match ComputeTopOfBookSpread(symbol, store[b], store[m], c)
         case Some(t) => [t]
         case None => []
    else []
  }

  ghost function TopSpreads(c: Config, store: map<Key, BookState>, symbols: seq<string>): seq<TopOfBookSpread> {
    if symbols == [] then []
    else
      var n := |symbols| - 1;
      TopSpreads(c, store, symbols[..n]) + TopSpreadOf(c, store, symbols[n])
  }

  /** Whether a symbol has an initialised book on both exchanges. */
  predicate IsPair(store: map<Key, BookState>, symbol: string) {
    var b, m := Key(Binance, symbol), Key(Mexc, symbol);
    b in store && m in store && store[b].initialized && store[m].initialized
  }

  function Pairs(store: map<Key, BookState>, symbols: seq<string>): nat {
    if symbols == [] then 0
    else
      var n := |symbols| - 1;
      Pairs(store, symbols[..n]) + if IsPair(store, symbols[n]) then 1 else 0
  }

  lemma OneMoreSymbol(c: Config, store: map<Key, BookState>, symbols: seq<string>, i: nat)
    requires i < |symbols|
    ensures ScanEach(c, store, symbols[..i + 1]) == ScanEach(c, store, symbols[..i]) + ScanOne(c, store, symbols[i])
    ensures TopSpreads(c, store, symbols[..i + 1]) ==
            TopSpreads(c, store, symbols[..i]) + TopSpreadOf(c, store, symbols[i])
    ensures Pairs(store, symbols[..i + 1]) == Pairs(store, symbols[..i]) + if IsPair(store, symbols[i]) then 1 else 0
  {
    assert symbols[..i + 1][..i] == symbols[..i] && symbols[..i + 1][i] == symbols[i];
  }

  function TopNetSpread(): TopOfBookSpread -> real {
    (t: TopOfBookSpread) => t.netSpreadBps
  }

  function FreshManagers(order: seq<Key>): map<Key, Manager> {
    map key | key in order :: Fresh(key.exchange, key.symbol, MAX_BUFFERED_UPDATES)
  }

  lemma FreshManagersValid(order: seq<Key>)
    ensures ValidStates(FreshManagers(order))
  {
  }

  /** One new manager per key; a repeated key keeps its first manager. */
  method NewManagers(order: seq<Key>) returns (ms: map<Key, LocalBookManager>)
    ensures Separate(ms)
    ensures States(ms) == FreshManagers(order)
    ensures forall key :: key in ms ==> fresh(ms[key]) && fresh(ms[key].book)
  {
    ms := map[];
    for i := 0 to |order|
      invariant forall k :: k in ms <==> k in order[..i]
      invariant Separate(ms)
      invariant forall k :: k in ms ==> fresh(ms[k]) && fresh(ms[k].book)
      invariant forall k :: k in ms ==> ms[k].State() == Fresh(k.exchange, k.symbol, MAX_BUFFERED_UPDATES)
    {
      var key := order[i];
      assert order[..i + 1] == order[..i] + [key];
      if key !in ms {
        var m := new LocalBookManager(key.exchange, key.symbol, MAX_BUFFERED_UPDATES);
        ghost var ms0 := ms;
        ms := ms[key := m];
        forall k, l | k in ms && l in ms && k != l
          ensures Apart(ms[k], ms[l])
        {
          assert k != key && l != key ==> Apart(ms0[k], ms0[l]);
        }
      }
    }
    assert order[..|order|] == order;
  }

  class LiveScan {
    const config: Config
    const engine: ArbitrageEngine
    const managers: map<Key, LocalBookManager>
    var binanceFeed: FeedStats
    var mexcFeed: FeedStats

    ghost predicate Valid()
      reads set key | key in managers :: managers[key]
      reads set key | key in managers :: managers[key].book
    {
      ValidStates(States(managers)) && Separate(managers) && engine.settings == MakeSettings(config)
    }

    constructor (config: Config)
      ensures Valid()
      ensures this.config == config
      ensures States(managers) == FreshManagers(SyncOrder(config))
      ensures binanceFeed == mexcFeed == NO_MESSAGES
    {
      this.config := config;
      engine := new ArbitrageEngine(MakeSettings(config));
      binanceFeed, mexcFeed := NO_MESSAGES, NO_MESSAGES;
      var ms := NewManagers(SyncOrder(config));
      managers := ms;
      new;
      FreshManagersValid(SyncOrder(config));
    }

    /** The delivery of an update to its manager. */
    method Deliver(key: Key, u: BookUpdate) returns (needResync: bool)
      requires Valid() && key in managers && key == Key(u.exchange, u.symbol)
      modifies managers[key], managers[key].book
      ensures Valid()
      ensures States(managers) == WithDelivery(old(States(managers)), u)
      ensures needResync <==> Delivered(old(States(managers))[key], u).status == NeedResync
    {
      ghost var before := States(managers);
      assert ValidEntry(key, before[key]);
      var manager := managers[key];
      var outcome := manager.OnUpdate(u);
      ghost var after := States(managers);
      forall k | k in before && k != key
        ensures after[k] == before[k]
      {
        assert Apart(managers[k], managers[key]);
      }
      SameButOne(before, after, key);
      OneEntry(before, key, after[key]);
      needResync := manager.status == NeedResync;
    }

    /** Counting and routing one parsed update. */
    method Route(f: FeedStats, u: BookUpdate) returns (f': FeedStats)
      requires Valid()
      modifies set key | key in managers :: managers[key]
      modifies set key | key in managers :: managers[key].book
      ensures Valid()
      ensures States(managers) == WithDelivery(old(States(managers)), u)
      ensures f' == FeedAfter(f, old(States(managers)), Some(u))
    {
      f' := f.(raw := f.raw + 1, parsed := f.parsed + 1);
      var key := Key(u.exchange, u.symbol);
      if key !in managers {
        f' := f'.(ignored := f'.ignored + 1);
        return;
      }
      var needResync := Deliver(key, u);
      if needResync {
        f' := f'.(gaps := f'.gaps + 1);
      }
    }

    /** What a feed handler does under the mutex with one message. */
    method HandleMessage(exchange: Exchange, update: Option<BookUpdate>)
      requires Valid() && (update.Some? ==> update.value.exchange == exchange)
      modifies this
      modifies set key | key in managers :: managers[key]
      modifies set key | key in managers :: managers[key].book
      ensures Valid()
      ensures States(managers) ==
              if update.None? then old(States(managers)) else WithDelivery(old(States(managers)), update.value)
      ensures binanceFeed ==
              if exchange == Binance then FeedAfter(old(binanceFeed), old(States(managers)), update)
              else old(binanceFeed)
      ensures mexcFeed ==
              if exchange == Mexc then FeedAfter(old(mexcFeed), old(States(managers)), update)
              else old(mexcFeed)
    {
      var feed := if exchange == Binance then binanceFeed else mexcFeed;
      if update.None? {
        feed := feed.(raw := feed.raw + 1, ignored := feed.ignored + 1);
      } else {
        feed := Route(feed, update.value);
      }
      ghost var after := States(managers);
      if exchange == Binance {
        binanceFeed := feed;
      } else {
        mexcFeed := feed;
      }
      assert States(managers) == after;
    }

    /** The start of a synchronisation attempt, under the mutex. */
    method BeginAttempt(key: Key, attempt: nat)
      requires Valid() && key in managers
      modifies managers[key], managers[key].book
      ensures Valid()
      ensures States(managers) == if attempt > 1 then WithReset(old(States(managers)), key) else old(States(managers))
    {
      if attempt > 1 {
        ghost var before := States(managers);
        assert ValidEntry(key, before[key]);
        managers[key].Reset();
        ghost var after := States(managers);
        forall k | k in before && k != key
          ensures after[k] == before[k]
        {
          assert Apart(managers[k], managers[key]);
        }
        SameButOne(before, after, key);
        OneEntry(before, key, after[key]);
      }
    }

    /** One look, under the mutex, at whether the wait for a buffered update is over. */
    method BufferSeen(key: Key) returns (seen: bool)
      requires Valid()
      ensures seen <==> key in States(managers) && States(managers)[key].buffer != []
    {
      seen := false;
      if key in managers {
        var n := managers[key].BufferedUpdates();
        seen := n > 0;
      }
    }

    /** Applying a fetched snapshot under the mutex; the result ends the attempts. */
    method ApplyFetched(key: Key, snapshot: BookSnapshot) returns (synced: bool)
      requires Valid() && key in managers
      modifies managers[key], managers[key].book
      ensures Valid()
      ensures States(managers) == WithSnapshot(old(States(managers)), key, snapshot)
      ensures synced <==> States(managers)[key].status == Ready
    {
      ghost var before := States(managers);
      assert ValidEntry(key, before[key]);
      var outcome := managers[key].ApplySnapshot(snapshot);
      ghost var after := States(managers);
      forall k | k in before && k != key
        ensures after[k] == before[k]
      {
        assert Apart(managers[k], managers[key]);
      }
      SameButOne(before, after, key);
      OneEntry(before, key, after[key]);
      synced := managers[key].status == Ready;
    }

    /** The copy of all ready books, taken under the mutex. The copies are new objects, so that later
        deliveries do not reach them. */
    method BuildLiveStore() returns (store: map<Key, OrderBook>)
      requires Valid()
      ensures forall key :: key in store ==> fresh(store[key])
      ensures StoreStates(store) == ReadyBooks(States(managers))
    {
      store := map[];
      var todo := managers.Keys;
      while todo != {}
        invariant todo <= managers.Keys
        invariant forall key :: key in store ==> fresh(store[key])
        invariant forall key :: key in store <==> key in managers && key !in todo && managers[key].status == Ready
        invariant forall key :: key in store ==> store[key].State() == managers[key].book.State()
        decreases |todo|
      {
        var key :| key in todo;
        if managers[key].status == Ready {
          var copy := new OrderBook.Copy(managers[key].book);
          store := store[key := copy];
        }
        todo := todo - {key};
      }
    }

    /** What one scan looks at for one symbol. */
    method ScanPair(store: map<Key, OrderBook>, symbol: string)
        returns (ready: bool, spreads: seq<TopOfBookSpread>, found: seq<Opportunity>)
      requires engine.settings == MakeSettings(config)
      ensures found == ScanOne(config, StoreStates(store), symbol)
      ensures spreads == TopSpreadOf(config, StoreStates(store), symbol)
      ensures ready <==> IsPair(StoreStates(store), symbol)
    {
      ready, spreads, found := false, [], [];
      var b, m := Key(Binance, symbol), Key(Mexc, symbol);
      if b in store && m in store && store[b].initialized && store[m].initialized {
        ready := true;
        var spread := ComputeTopOfBookSpread(symbol, store[b].State(), store[m].State(), config);
        if spread.Some? {
          spreads := [spread.value];
        }
        found := engine.ScanSymbol(symbol, store[b], store[m]);
      }
    }

    /** One scan of a copy: ready pairs, top-of-book spreads and opportunities, best first. */
    method ScanLiveStoreOnce(store: map<Key, OrderBook>)
        returns (readyPairs: nat, spreads: seq<TopOfBookSpread>, opportunities: seq<Opportunity>)
      requires engine.settings == MakeSettings(config)
      ensures opportunities == ScanResult(config, StoreStates(store))
      ensures spreads == Sort(TopSpreads(config, StoreStates(store), config.symbols), TopNetSpread())
      ensures readyPairs == Pairs(StoreStates(store), config.symbols)
    {
      readyPairs, spreads, opportunities := 0, [], [];
      var symbols := config.symbols;
      ghost var states := StoreStates(store);
      for i := 0 to |symbols|
        invariant StoreStates(store) == states
        invariant opportunities == ScanEach(config, states, symbols[..i])
        invariant spreads == TopSpreads(config, states, symbols[..i])
        invariant readyPairs == Pairs(states, symbols[..i])
      {
        OneMoreSymbol(config, states, symbols, i);
        var ready, spread, found := ScanPair(store, symbols[i]);
        readyPairs := readyPairs + if ready then 1 else 0;
        spreads := spreads + spread;
        opportunities := opportunities + found;
      }
      assert symbols[..|symbols|] == symbols;
      spreads := Sort(spreads, TopNetSpread());
      opportunities := Sort(opportunities, NetSpread());
    }
  }
}
