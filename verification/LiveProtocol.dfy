/** The live scan as a protocol: exchanges, feed threads, one synchroniser and one scanner, taking
    atomic steps in any order.

    A feed handler delivers one update to its manager under the mutex. The synchroniser goes through
    the books one after another; for each it makes up to three attempts to wait for a buffered update,
    fetch a snapshot and apply it, resetting the manager before the second and third. When it is done
    the scanner copies all ready books under the mutex and evaluates the copy outside it. Time-outs and
    failed requests are steps that may be taken at any time the wait or the request is under way.

    `reached` is how far each exchange's history has come and `windows` how far down each local book is
    known to be complete; the program has neither.
  */
module LiveProtocol {
  import opened Ladders
  import opened OrderBooks
  import opened LocalBookManagers
  import opened ManagerProperties
  import opened Histories
  import opened Sorting
  import opened Engines

  datatype Key = Key(exchange: Exchange, symbol: string)

  const MAX_BUFFERED_UPDATES := 10000
  const MAX_SYNC_ATTEMPTS := 3

  /** Where the synchroniser is: at which book, in which attempt. */
  datatype Sync =
    | Starting(book: nat, attempt: nat)
    | Waiting(book: nat, attempt: nat)
    | Fetching(book: nat, attempt: nat)
    | Applying(book: nat, attempt: nat, snapshot: BookSnapshot)
    | Done

  /** A book in the scanner's copy of the store. */
  datatype Copy = Copy(book: BookState, windows: Windows)

  datatype World = World(
    reached: map<Key, nat>, managers: map<Key, Manager>, windows: map<Key, Windows>,
    sync: Sync, store: Option<map<Key, Copy>>, reports: seq<Opportunity>)

  datatype Action =
    | Publish(key: Key, version: nat)
    | Receive(update: BookUpdate)
    | Begin
    | BufferSeen
    | WaitFailed
    | Fetched(snapshot: BookSnapshot)
    | FetchFailed
    | Apply
    | CopyStore
    | ScanStore

  // ----- the books to synchronise -----

  function Keys(exchange: Exchange, symbols: seq<string>): seq<Key> {
    seq(|symbols|, i requires 0 <= i < |symbols| => Key(exchange, symbols[i]))
  }

  function SyncOrder(c: Config): seq<Key> {
    Keys(Binance, c.symbols) + Keys(Mexc, c.symbols)
  }

  function StartAt(c: Config, book: nat): Sync {
    if book < |SyncOrder(c)| then Starting(book, 1) else Done
  }

  function NextAttempt(c: Config, book: nat, attempt: nat): Sync {
    if attempt < MAX_SYNC_ATTEMPTS then Starting(book, attempt + 1) else StartAt(c, book + 1)
  }

  // ----- the steps on the managers -----

  function WithDelivery(managers: map<Key, Manager>, u: BookUpdate): map<Key, Manager> {
    var key := Key(u.exchange, u.symbol);
    if key in managers then managers[key := Delivered(managers[key], u)] else managers
  }

  function WithReset(managers: map<Key, Manager>, key: Key): map<Key, Manager>
    requires key in managers
  {
    managers[key := AfterReset(managers[key])]
  }

  function WithSnapshot(managers: map<Key, Manager>, key: Key, s: BookSnapshot): map<Key, Manager>
    requires key in managers
  {
    managers[key := AfterSnapshot(managers[key], s)]
  }

  /** The store: copies of the ready books. */
  function ReadyBooks(managers: map<Key, Manager>): map<Key, BookState> {
    map key | key in managers && managers[key].status == Ready :: managers[key].book
  }

  // ----- the scan of a store -----

  ghost function ScanOne(c: Config, store: map<Key, BookState>, symbol: string): seq<Opportunity> {
    var b, m := Key(Binance, symbol), Key(Mexc, symbol);
    if b in store && m in store then Scan(MakeSettings(c), symbol, store[b], store[m]) else []
  }

  ghost function ScanEach(c: Config, store: map<Key, BookState>, symbols: seq<string>): seq<Opportunity> {
    if symbols == [] then []
    else
      var n := |symbols| - 1;
      ScanEach(c, store, symbols[..n]) + ScanOne(c, store, symbols[n])
  }

  /** Everything one scan reports, best net spread first. */
  ghost function ScanResult(c: Config, store: map<Key, BookState>): seq<Opportunity> {
    Sort(ScanEach(c, store, c.symbols), NetSpread())
  }

  function Books(store: map<Key, Copy>): map<Key, BookState> {
    map key | key in store :: store[key].book
  }

  // ----- the protocol -----

  ghost predicate Init(c: Config, w: World) {
    && w.managers.Keys == (set key | key in SyncOrder(c)) == w.reached.Keys == w.windows.Keys
    && (forall key :: key in w.managers ==> w.managers[key] == Fresh(key.exchange, key.symbol, MAX_BUFFERED_UPDATES))
    && w.sync == StartAt(c, 0) && w.store == None && w.reports == []
  }

  /** What may happen in a state. Messages of an exchange are honest about its history and speak of no
      version it has not reached; that is all that is assumed of them. */
  ghost predicate Enabled(h: Key -> History, c: Config, w: World, a: Action) {
    match a
    case Publish(key, version) => key in w.reached && w.reached[key] <= version
    case Receive(u) =>
      var key := Key(u.exchange, u.symbol);
      key in w.managers && key in w.reached ==> HonestUpdate(h(key), u) && u.finalUpdateId <= w.reached[key]
    case Begin => w.sync.Starting?
    case BufferSeen => w.sync.Waiting? && w.sync.book < |SyncOrder(c)| && SyncOrder(c)[w.sync.book] in w.managers &&
                       w.managers[SyncOrder(c)[w.sync.book]].buffer != []
    case WaitFailed => w.sync.Waiting?
    case Fetched(s) =>
      w.sync.Fetching? && w.sync.book < |SyncOrder(c)| &&
      var key := SyncOrder(c)[w.sync.book];
      && key in w.reached && Key(s.exchange, s.symbol) == key
      && HonestSnapshot(h(key), s, c.bookSnapshotLimit) && s.lastUpdateId <= w.reached[key]
    case FetchFailed => w.sync.Fetching?
    case Apply => w.sync.Applying?
    case CopyStore => w.sync.Done? && w.store.None?
    case ScanStore => w.store.Some?
  }

  /** The synchroniser's book, when it is at one. */
  ghost predicate AtBook(c: Config, w: World) {
    w.sync.Done? || (w.sync.book < |SyncOrder(c)| && SyncOrder(c)[w.sync.book] in w.managers)
  }

  ghost function Perform(h: Key -> History, c: Config, w: World, a: Action): World
    requires AtBook(c, w) && w.windows.Keys == w.managers.Keys && Enabled(h, c, w, a)
  {
    match a
    case Publish(key, version) => w.(reached := w.reached[key := version])
    case Receive(u) => w.(managers := WithDelivery(w.managers, u))
    case Begin =>
      var waiting := w.(sync := Waiting(w.sync.book, w.sync.attempt));
      if w.sync.attempt > 1 then waiting.(managers := WithReset(w.managers, SyncOrder(c)[w.sync.book])) else waiting
    case BufferSeen => w.(sync := Fetching(w.sync.book, w.sync.attempt))
    case WaitFailed => w.(sync := NextAttempt(c, w.sync.book, w.sync.attempt))
    case Fetched(s) => w.(sync := Applying(w.sync.book, w.sync.attempt, s))
    case FetchFailed => w.(sync := NextAttempt(c, w.sync.book, w.sync.attempt))
    case Apply =>
      var key, s := SyncOrder(c)[w.sync.book], w.sync.snapshot;
      var managers := WithSnapshot(w.managers, key, s);
      w.(managers := managers,
         windows := w.windows[key := WindowsAfter(w.managers[key], Snapshot(s), w.windows[key], c.bookSnapshotLimit)],
         sync := if managers[key].status == Ready then StartAt(c, w.sync.book + 1)
                 else NextAttempt(c, w.sync.book, w.sync.attempt))
    case CopyStore =>
      var books := ReadyBooks(w.managers);
      w.(store := Some(map key | key in books :: Copy(books[key], w.windows[key])))
    case ScanStore =>
      w.(store := None, reports := w.reports + ScanResult(c, Books(w.store.value)))
  }

  // ----- the invariant -----

  ghost predicate ManagerInv(h: History, key: Key, m: Manager, ws: Windows, reached: nat) {
    && m.Valid() && m.exchange == key.exchange && m.symbol == key.symbol
    && Tracks(h, m, ws)
    && NothingAhead(m, reached)
  }

  ghost predicate NothingAhead(m: Manager, reached: nat) {
    && (m.book.initialized ==> m.book.lastUpdateId <= reached)
    && (forall i :: 0 <= i < |m.buffer| ==> m.buffer[i].finalUpdateId <= reached)
  }

  ghost predicate CopyInv(h: History, copy: Copy, reached: nat) {
    && copy.book.Valid() && copy.book.initialized && copy.book.lastUpdateId <= reached
    && BookCovers(h, copy.book, copy.windows)
  }

  ghost predicate SnapshotInv(h: Key -> History, c: Config, w: World)
    requires AtBook(c, w) && w.reached.Keys == w.managers.Keys
  {
    w.sync.Applying? ==>
      var key, s := SyncOrder(c)[w.sync.book], w.sync.snapshot;
      && Key(s.exchange, s.symbol) == key && HonestSnapshot(h(key), s, c.bookSnapshotLimit)
      && s.lastUpdateId <= w.reached[key]
  }

  /** Levels that a side of an exchange's book really had at a version. */
  ghost predicate TrueLevels(h: History, side: Side, version: nat, l: Ladder) {
    WellFormed(side, l) && forall i :: 0 <= i < |l| ==> h(version, side, l[i].price) == l[i].quantity
  }

  /** The opportunity was there to be taken: fills `x` of asks that the buying exchange had at version
      `vb`, and `y` of bids that the selling exchange had at version `vs`, carry it out within the cap,
      and it passes the filters. Both versions had been reached. */
  ghost predicate TakenFrom(h: Key -> History, c: Config, reached: map<Key, nat>, o: Opportunity,
                            vb: nat, vs: nat, asks: Ladder, bids: Ladder, x: seq<real>, y: seq<real>) {
    var buy, sell := Key(o.buyExchange, o.symbol), Key(o.sellExchange, o.symbol);
    && buy in reached && sell in reached && vb <= reached[buy] && vs <= reached[sell]
    && o.buyExchange != o.sellExchange
    && TrueLevels(h(buy), Ask, vb, asks) && TrueLevels(h(sell), Bid, vs, bids)
    && CarriedOutBy(o, asks, bids, c.maxNotional, x, y)
    && Figures(o, MakeSettings(c))
    && o.buyNotional >= c.minNotional && o.netSpreadBps >= c.minNetSpreadBps as real && o.grossProfit > 0.0
  }

  ghost predicate Genuine(h: Key -> History, c: Config, reached: map<Key, nat>, o: Opportunity) {
    exists vb, vs, asks, bids, x, y :: TakenFrom(h, c, reached, o, vb, vs, asks, bids, x, y)
  }

  ghost predicate ManagersInv(h: Key -> History, managers: map<Key, Manager>, windows: map<Key, Windows>,
                              reached: map<Key, nat>)
  {
    && reached.Keys == managers.Keys == windows.Keys
    && forall key {:trigger ManagerInv(h(key), key, managers[key], windows[key], reached[key])} ::
         key in managers ==> ManagerInv(h(key), key, managers[key], windows[key], reached[key])
  }

  ghost predicate StoreInv(h: Key -> History, reached: map<Key, nat>, store: map<Key, Copy>) {
    && store.Keys <= reached.Keys
    && forall key {:trigger CopyInv(h(key), store[key], reached[key])} ::
         key in store ==> CopyInv(h(key), store[key], reached[key])
  }

  ghost predicate ReportsInv(h: Key -> History, c: Config, reached: map<Key, nat>, reports: seq<Opportunity>) {
    forall i {:trigger Genuine(h, c, reached, reports[i])} ::
      0 <= i < |reports| ==> Genuine(h, c, reached, reports[i])
  }

  ghost predicate OrderInv(c: Config, managers: map<Key, Manager>) {
    forall i :: 0 <= i < |SyncOrder(c)| ==> SyncOrder(c)[i] in managers
  }

  ghost predicate WorldInv(h: Key -> History, c: Config, w: World) {
    && ManagersInv(h, w.managers, w.windows, w.reached)
    && OrderInv(c, w.managers)
    && AtBook(c, w)
    && SnapshotInv(h, c, w)
    && (w.store.Some? ==> StoreInv(h, w.reached, w.store.value))
    && ReportsInv(h, c, w.reached, w.reports)
  }
}
