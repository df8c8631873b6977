/** The two-level executor cache of tensorflow/stream_executor/executor_cache.cc: a map from ordinal to
    entry under one mutex, and in every entry a list of configurations under a mutex of its own.  Any
    number of threads call GetOrCreate and Get, and DestroyAllExecutors may come at any time; the model
    interleaves their atomic steps. */
module ExecutorCache {
  import opened Common

  type Thread = nat
  type Executor = nat

  /** A configuration.  Device options compare by their flags only; the tags do not take part. */
  datatype Config = Config(ordinal: int, plugin: int, flags: int, tags: string)

  /** What the plain map that the cache implements is keyed by. */
  datatype Key = Key(ordinal: int, plugin: int, flags: int)

  function KeyOf(c: Config): Key { Key(c.ordinal, c.plugin, c.flags) }

  datatype Item = Item(config: Config, executor: Executor)

  /** GetOrCreate builds what it does not find; Get does not. */
  datatype Call = Call(creates: bool, config: Config)

  datatype Outcome = Found(executor: Executor) | NotFound | BuildFailed

  datatype Phase =
    | FindEntry(call: Call)      // under the map mutex: entry = &cache_[ordinal]
    | LockEntry(call: Call)      // acquire the mutex of the entry
    | Scan(call: Call)           // look through the configurations
    | Build(call: Call)          // run the factory and append its executor
    | UnlockEntry(call: Call, outcome: Outcome)
    | Returned(call: Call, outcome: Outcome)

  datatype State = State(
    cache: map<int, seq<Item>>,        // the entries
    locks: map<int, Thread>,           // who holds the mutex of an entry
    threads: map<Thread, Phase>,
    promised: set<(Key, Executor)>,    // what successful calls have returned and nobody has destroyed
    destroying: Option<set<int>>,      // DestroyAll holds the map mutex and has these entries left
    stale: set<Thread>,                // the threads whose entry was destroyed before they locked it
    misused: bool)                     // a destroyed entry was touched

  function Initial(): State { State(map[], map[], map[], {}, None, {}, false) }

  /** The scan of an entry: the first item with a matching configuration. */
  function FindIn(items: seq<Item>, c: Config): Option<Executor> {
    if items == [] then None
    else if items[0].config.plugin == c.plugin && items[0].config.flags == c.flags then Some(items[0].executor)
    else FindIn(items[1..], c)
  }

  /** The loop that scans the configurations of an entry. */
  method ScanConfigurations(items: seq<Item>, c: Config) returns (r: Option<Executor>)
    ensures r == FindIn(items, c)
    ensures r.None? <==>
            forall i :: 0 <= i < |items| ==> items[i].config.plugin != c.plugin || items[i].config.flags != c.flags
  {
    FindFinds(items, c);
    for i := 0 to |items|
      invariant FindIn(items, c) == FindIn(items[i..], c)
    {
      if items[i].config.plugin == c.plugin && items[i].config.flags == c.flags {
        return Some(items[i].executor);
      }
      assert items[i..][1..] == items[i + 1..];
    }
    r := None;
  }

  function Items(s: State, ordinal: int): seq<Item> {
    if ordinal in s.cache then s.cache[ordinal] else []
  }

  /** The cache as a plain map: the executor stored for a configuration. */
  function Lookup(s: State, c: Config): Option<Executor> { FindIn(Items(s, c.ordinal), c) }

  predicate CanStep(s: State, t: Thread) {
    && t in s.threads && !s.threads[t].Returned?
    && (s.threads[t].FindEntry? ==> s.destroying.None?)
    && (s.threads[t].LockEntry? && t !in s.stale ==> s.threads[t].call.config.ordinal !in s.locks)
  }

  function Promise(s: State, c: Config, e: Executor): set<(Key, Executor)> { s.promised + {(KeyOf(c), e)} }

  /** One step; `built` is what the factory returns. */
  function Step(s: State, t: Thread, built: Option<Executor>): State
    requires CanStep(s, t)
  {
    var phase := s.threads[t];
    var call := phase.call;
    var o := call.config.ordinal;
    match phase
    case FindEntry(_) => s.(cache := s.cache[o := Items(s, o)], threads := s.threads[t := LockEntry(call)])
    case LockEntry(_) =>
      // nothing is known of a thread that locks a mutex that is gone; here it stops
      if t in s.stale then s.(misused := true, threads := s.threads[t := Returned(call, NotFound)])
      else s.(locks := s.locks[o := t], threads := s.threads[t := Scan(call)])
    case Scan(_) =>
      var found := FindIn(Items(s, o), call.config);
      if found.Some? then
        s.(promised := Promise(s, call.config, found.value),
           threads := s.threads[t := UnlockEntry(call, Found(found.value))])
      else s.(threads := s.threads[t := if call.creates then Build(call) else UnlockEntry(call, NotFound)])
    case Build(_) =>
      if built.None? then s.(threads := s.threads[t := UnlockEntry(call, BuildFailed)])
      else
        s.(cache := s.cache[o := Items(s, o) + [Item(call.config, built.value)]],
           promised := Promise(s, call.config, built.value),
           threads := s.threads[t := UnlockEntry(call, Found(built.value))])
    case UnlockEntry(_, outcome) => s.(locks := s.locks - {o}, threads := s.threads[t := Returned(call, outcome)])
  }

  predicate CanBegin(s: State, t: Thread) {
    t in s.threads ==> s.threads[t].Returned?
  }

  function Begin(s: State, t: Thread, call: Call): State {
    s.(threads := s.threads[t := FindEntry(call)])
  }

  /** DestroyAllExecutors takes the map mutex. */
  function TakeMap(s: State): State
    requires s.destroying.None?
  {
    s.(destroying := Some(s.cache.Keys))
  }

  predicate CanFree(s: State, o: int) {
    s.destroying.Some? && o in s.destroying.value && o !in s.locks
  }

  ghost function Waiting(s: State, o: int): set<Thread> {
    set t | t in s.threads && s.threads[t].LockEntry? && s.threads[t].call.config.ordinal == o
  }

  /** An entry is destroyed: its destructor waits for the mutex of the entry, and with the entry goes the
      mutex that others may be about to lock. */
  ghost function FreeEntry(s: State, o: int): State
    requires CanFree(s, o)
  {
    s.(cache := s.cache - {o},
       destroying := Some(s.destroying.value - {o}),
       promised := (set p | p in s.promised && p.0.ordinal != o),
       stale := s.stale + Waiting(s, o))
  }

  predicate CanReleaseMap(s: State) { s.destroying == Some({}) }

  function ReleaseMap(s: State): State { s.(destroying := None) }

  /** A step of a call. */
  ghost predicate CallStep(s: State, s': State) {
    || (exists t, call :: CanBegin(s, t) && s' == Begin(s, t, call))
    || (exists t, built :: CanStep(s, t) && s' == Step(s, t, built))
  }

  /** A step of a call, or of a DestroyAll that has begun. */
  ghost predicate OngoingStep(s: State, s': State) {
    || CallStep(s, s')
    || (exists o :: CanFree(s, o) && s' == FreeEntry(s, o))
    || (CanReleaseMap(s) && s' == ReleaseMap(s))
  }

  ghost predicate Successor(s: State, s': State) {
    OngoingStep(s, s') || (s.destroying.None? && s' == TakeMap(s))
  }

  ghost predicate IsRun(run: seq<State>) {
    && |run| > 0 && run[0] == Initial()
    && forall i :: 0 <= i < |run| - 1 ==> Successor(run[i], run[i + 1])
  }

  /** No call has found its entry without having locked it yet. */
  ghost predicate NoneWaiting(s: State) {
    forall t :: t in s.threads ==> !s.threads[t].LockEntry?
  }

  /** DestroyAll begins only when no call is about to lock its entry. */
  ghost predicate Considerate(run: seq<State>) {
    forall i :: 0 <= i < |run| - 1 && run[i].destroying.None? && run[i + 1].destroying.Some? ==> NoneWaiting(run[i])
  }

  // ---------------------------------------------------------------------------------------
  // What every step keeps
  // ---------------------------------------------------------------------------------------

  predicate Holding(p: Phase) { p.Scan? || p.Build? || p.UnlockEntry? }

  /** The mutex of an entry is held by exactly the thread that works inside it. */
  ghost predicate LocksExact(s: State) {
    && (forall t :: t in s.threads && Holding(s.threads[t]) ==>
          s.threads[t].call.config.ordinal in s.locks && s.locks[s.threads[t].call.config.ordinal] == t)
    && (forall o :: o in s.locks ==>
          s.locks[o] in s.threads && Holding(s.threads[s.locks[o]]) && s.threads[s.locks[o]].call.config.ordinal == o)
  }

  /** No entry holds two matching configurations, and everything in it belongs there. */
  ghost predicate EntryDistinct(o: int, items: seq<Item>) {
    && (forall i :: 0 <= i < |items| ==> items[i].config.ordinal == o)
    && forall i, j :: 0 <= i < j < |items| ==> KeyOf(items[i].config) != KeyOf(items[j].config)
  }

  /** Whoever uses an entry finds it there; while entries are destroyed, nobody is about to lock one. */
  ghost predicate EntriesThere(s: State) {
    && (forall t :: t in s.threads && (s.threads[t].LockEntry? || Holding(s.threads[t])) ==>
          s.threads[t].call.config.ordinal in s.cache)
    && (s.destroying.Some? ==> s.destroying.value == s.cache.Keys && NoneWaiting(s))
    && s.stale == {} && !s.misused
  }

  /** What a call must report while nobody else can change its entry: the executor that the map holds, or why it
      holds none. */
  ghost predicate Reports(s: State, call: Call, outcome: Outcome) {
    match Lookup(s, call.config)
    case Some(e) => outcome == Found(e)
    case None => outcome == if call.creates then BuildFailed else NotFound
  }

  ghost predicate Invariant(s: State) {
    && LocksExact(s) && EntriesThere(s)
    && (forall o :: o in s.cache ==> EntryDistinct(o, s.cache[o]))
    // a thread that is about to build has scanned the entry in vain, and nobody could change it since
    && (forall t :: t in s.threads && s.threads[t].Build? ==>
          s.threads[t].call.creates && Lookup(s, s.threads[t].call.config).None?)
    // a thread that is about to unlock reports what the map holds
    && (forall t :: t in s.threads && s.threads[t].UnlockEntry? ==> Reports(s, s.threads[t].call, s.threads[t].outcome))
    // what was returned is still what a matching lookup finds
    && (forall c, e :: (KeyOf(c), e) in s.promised ==> Lookup(s, c) == Some(e))
  }

  lemma {:induction false} FindAppend(items: seq<Item>, item: Item, c: Config)
    ensures FindIn(items + [item], c) ==
            if FindIn(items, c).Some? then FindIn(items, c)
            else if item.config.plugin == c.plugin && item.config.flags == c.flags then Some(item.executor)
            else None
  {
    if items == [] {
      assert items + [item] == [item];
    } else {
      assert (items + [item])[1..] == items[1..] + [item];
      FindAppend(items[1..], item, c);
    }
  }

  lemma {:induction false} FindFinds(items: seq<Item>, c: Config)
    ensures FindIn(items, c).None? <==>
            forall i :: 0 <= i < |items| ==> items[i].config.plugin != c.plugin || items[i].config.flags != c.flags
  {
    if items != [] {
      FindFinds(items[1..], c);
      assert forall i :: 0 < i < |items| ==> items[i] == items[1..][i - 1];
    }
  }

  lemma SameKeySameLookup(s: State, c: Config, d: Config)
    requires KeyOf(c) == KeyOf(d)
    ensures Lookup(s, c) == Lookup(s, d)
  {
    SameKeyFind(Items(s, c.ordinal), c, d);
  }

  lemma {:induction false} SameKeyFind(items: seq<Item>, c: Config, d: Config)
    requires KeyOf(c) == KeyOf(d)
    ensures FindIn(items, c) == FindIn(items, d)
  {
    if items != [] { SameKeyFind(items[1..], c, d); }
  }

  /** Every step acts on the plain map as it should: only a successful build changes it, at one key that
      was absent; a scan reports what the map holds. */
  lemma StepActsLikeMap(s: State, t: Thread, built: Option<Executor>, c: Config)
    requires Invariant(s) && CanStep(s, t)
    ensures
      var phase, s' := s.threads[t], Step(s, t, built);
      Lookup(s', c) ==
        if phase.Build? && built.Some? && KeyOf(c) == KeyOf(phase.call.config) then built else Lookup(s, c)
    ensures s.threads[t].Build? ==> Lookup(s, s.threads[t].call.config).None?
    ensures s.threads[t].Scan? && Lookup(s, s.threads[t].call.config).Some? ==>
              Step(s, t, built).threads[t]
              == UnlockEntry(s.threads[t].call, Found(Lookup(s, s.threads[t].call.config).value))
    ensures s.threads[t].Scan? && Lookup(s, s.threads[t].call.config).None? ==>
              Step(s, t, built).threads[t] == (if s.threads[t].call.creates then Build(s.threads[t].call)
                                               else UnlockEntry(s.threads[t].call, NotFound))
  {
    var call := s.threads[t].call;
    if s.threads[t].Build? && built.Some? && c.ordinal == call.config.ordinal {
      FindAppend(Items(s, c.ordinal), Item(call.config, built.value), c);
      if KeyOf(c) == KeyOf(call.config) { SameKeySameLookup(s, c, call.config); }
    }
  }

  lemma StepKeepsLocks(s: State, t: Thread, built: Option<Executor>)
    requires LocksExact(s) && CanStep(s, t)
    ensures LocksExact(Step(s, t, built))
  {
    var s' := Step(s, t, built);
    var o := s.threads[t].call.config.ordinal;
    forall u | u in s'.threads && Holding(s'.threads[u])
      ensures s'.threads[u].call.config.ordinal in s'.locks && s'.locks[s'.threads[u].call.config.ordinal] == u
    {
      if u != t { assert s'.threads[u] == s.threads[u]; }
    }
    forall p | p in s'.locks
      ensures s'.locks[p] in s'.threads && Holding(s'.threads[s'.locks[p]])
              && s'.threads[s'.locks[p]].call.config.ordinal == p
    {
      if p != o { assert s'.locks[p] == s.locks[p] && s'.locks[p] != t; }
    }
  }

  /** Inside an entry there is one thread at a time. */
  lemma OneInside(s: State, t: Thread, u: Thread)
    requires LocksExact(s) && t in s.threads && u in s.threads && t != u
    requires Holding(s.threads[t]) && Holding(s.threads[u])
    ensures s.threads[t].call.config.ordinal != s.threads[u].call.config.ordinal
  {
  }

  lemma StepKeepsEntries(s: State, t: Thread, built: Option<Executor>)
    requires Invariant(s) && CanStep(s, t)
    ensures forall o :: o in Step(s, t, built).cache ==> EntryDistinct(o, Step(s, t, built).cache[o])
  {
    var s' := Step(s, t, built);
    var config := s.threads[t].call.config;
    forall o | o in s'.cache ensures EntryDistinct(o, s'.cache[o]) {
      if s.threads[t].Build? && built.Some? && o == config.ordinal {
        FindFinds(Items(s, o), config);
        assert EntryDistinct(o, Items(s, o));
      }
    }
  }

  /** A step does not change what the map holds for a thread that is inside another entry or waits for it. */
  lemma OthersSearch(s: State, t: Thread, built: Option<Executor>, u: Thread)
    requires Invariant(s) && CanStep(s, t) && u in s.threads && u != t && Holding(s.threads[u])
    ensures Step(s, t, built).threads[u] == s.threads[u]
    ensures Lookup(Step(s, t, built), s.threads[u].call.config) == Lookup(s, s.threads[u].call.config)
  {
    StepActsLikeMap(s, t, built, s.threads[u].call.config);
    if s.threads[t].Build? { OneInside(s, t, u); }
  }

  lemma StepKeepsReports(s: State, t: Thread, built: Option<Executor>)
    requires Invariant(s) && CanStep(s, t)
    ensures
      var s' := Step(s, t, built);
      forall u :: u in s'.threads && s'.threads[u].UnlockEntry? ==>
        Reports(s', s'.threads[u].call, s'.threads[u].outcome)
  {
    var s' := Step(s, t, built);
    forall u | u in s'.threads && s'.threads[u].UnlockEntry?
      ensures Reports(s', s'.threads[u].call, s'.threads[u].outcome)
    {
      if u != t { OthersSearch(s, t, built, u); } else { StepActsLikeMap(s, t, built, s.threads[t].call.config); }
    }
  }

  lemma StepKeepsSearches(s: State, t: Thread, built: Option<Executor>)
    requires Invariant(s) && CanStep(s, t)
    ensures
      var s' := Step(s, t, built);
      && (forall u :: u in s'.threads && s'.threads[u].Build? ==>
            s'.threads[u].call.creates && Lookup(s', s'.threads[u].call.config).None?)
      && (forall c, e :: (KeyOf(c), e) in s'.promised ==> Lookup(s', c) == Some(e))
  {
    var s', config := Step(s, t, built), s.threads[t].call.config;
    forall u | u in s'.threads && s'.threads[u].Build?
      ensures s'.threads[u].call.creates && Lookup(s', s'.threads[u].call.config).None?
    {
      if u != t { OthersSearch(s, t, built, u); } else { StepActsLikeMap(s, t, built, config); }
    }
    forall c, e | (KeyOf(c), e) in s'.promised ensures Lookup(s', c) == Some(e) {
      StepActsLikeMap(s, t, built, c);
      if KeyOf(c) == KeyOf(config) { SameKeySameLookup(s, c, config); }
    }
  }

  lemma StepKeepsThere(s: State, t: Thread, built: Option<Executor>)
    requires Invariant(s) && CanStep(s, t)
    ensures EntriesThere(Step(s, t, built))
  {
    var s' := Step(s, t, built);
    forall u | u in s'.threads && (s'.threads[u].LockEntry? || Holding(s'.threads[u]))
      ensures s'.threads[u].call.config.ordinal in s'.cache
    {
      if u != t { assert s'.threads[u] == s.threads[u]; }
    }
  }

  lemma StepKeeps(s: State, t: Thread, built: Option<Executor>)
    requires Invariant(s) && CanStep(s, t)
    ensures Invariant(Step(s, t, built))
  {
    StepKeepsLocks(s, t, built);
    StepKeepsThere(s, t, built);
    StepKeepsReports(s, t, built);
    StepKeepsEntries(s, t, built);
    StepKeepsSearches(s, t, built);
  }

  lemma BeginKeeps(s: State, t: Thread, call: Call)
    requires Invariant(s) && CanBegin(s, t)
    ensures Invariant(Begin(s, t, call))
  {
    var s' := Begin(s, t, call);
    assert forall c :: Lookup(s', c) == Lookup(s, c);
    assert forall o :: o in s.locks ==> s.locks[o] != t;
  }

  // ---------------------------------------------------------------------------------------
  // Over every run
  // ---------------------------------------------------------------------------------------

  lemma CallStepKeeps(s: State, s': State)
    requires Invariant(s) && CallStep(s, s')
    ensures Invariant(s') && s.promised <= s'.promised
  {
    if t, call :| CanBegin(s, t) && s' == Begin(s, t, call) {
      BeginKeeps(s, t, call);
    } else {
      var t, built :| CanStep(s, t) && s' == Step(s, t, built);
      StepKeeps(s, t, built);
      StepPromises(s, t, built);
    }
  }

  lemma StepPromises(s: State, t: Thread, built: Option<Executor>)
    requires CanStep(s, t)
    ensures s.promised <= Step(s, t, built).promised
  {
  }

  lemma TakeMapKeeps(s: State)
    requires Invariant(s) && s.destroying.None? && NoneWaiting(s)
    ensures Invariant(TakeMap(s))
  {
    assert forall c :: Lookup(TakeMap(s), c) == Lookup(s, c);
  }

  lemma FreeKeeps(s: State, o: int)
    requires Invariant(s) && CanFree(s, o)
    ensures Invariant(FreeEntry(s, o))
  {
    var s' := FreeEntry(s, o);
    assert Waiting(s, o) == {};
    forall c: Config | c.ordinal != o ensures Lookup(s', c) == Lookup(s, c) {}
    assert s'.cache.Keys == s.cache.Keys - {o};
  }

  lemma ReleaseKeeps(s: State)
    requires Invariant(s) && CanReleaseMap(s)
    ensures Invariant(ReleaseMap(s))
  {
    assert forall c :: Lookup(ReleaseMap(s), c) == Lookup(s, c);
  }

  lemma OngoingKeeps(s: State, s': State)
    requires Invariant(s) && OngoingStep(s, s')
    ensures Invariant(s')
  {
    if CallStep(s, s') {
      CallStepKeeps(s, s');
    } else if o :| CanFree(s, o) && s' == FreeEntry(s, o) {
      FreeKeeps(s, o);
    } else {
      ReleaseKeeps(s);
    }
  }

  /** In every interleaving, no entry holds two matching configurations and nobody touches a destroyed entry, if
      DestroyAll begins only when no call is about to lock its entry. */
  lemma {:induction false} RunKeeps(run: seq<State>, i: nat)
    requires IsRun(run) && Considerate(run) && i < |run|
    ensures Invariant(run[i])
  {
    if i > 0 {
      RunKeeps(run, i - 1);
      assert Successor(run[i - 1], run[i - 1 + 1]);
      if OngoingStep(run[i - 1], run[i]) {
        OngoingKeeps(run[i - 1], run[i]);
      } else {
        TakeMapKeeps(run[i - 1]);
      }
    }
  }

  lemma {:induction false} PromiseKept(run: seq<State>, i: nat, j: nat)
    requires IsRun(run) && Considerate(run) && i <= j < |run|
    requires forall k :: i <= k < j ==> CallStep(run[k], run[k + 1])
    ensures run[i].promised <= run[j].promised
    decreases j
  {
    if i < j {
      PromiseKept(run, i, j - 1);
      RunKeeps(run, j - 1);
      assert CallStep(run[j - 1], run[j - 1 + 1]);
      CallStepKeeps(run[j - 1], run[j]);
    }
  }

  /** Between a step of thread t at i that found or built executor e and state j, nobody destroyed
      executors. */
  ghost predicate FoundAt(run: seq<State>, i: nat, j: nat, t: Thread, built: Option<Executor>, e: Executor) {
    && IsRun(run) && Considerate(run) && i < j < |run|
    && CanStep(run[i], t) && run[i + 1] == Step(run[i], t, built) && !run[i].threads[t].UnlockEntry?
    && run[i + 1].threads[t] == UnlockEntry(run[i].threads[t].call, Found(e))
    && forall k :: i + 1 <= k < j ==> CallStep(run[k], run[k + 1])
  }

  /** Once a call has found or built an executor, the map holds it for every matching configuration, until the
      executors are destroyed. */
  lemma SameExecutorForEver(run: seq<State>, i: nat, j: nat, t: Thread, built: Option<Executor>, e: Executor,
                            c: Config)
    requires FoundAt(run, i, j, t, built, e) && KeyOf(c) == KeyOf(run[i].threads[t].call.config)
    ensures Lookup(run[j], c) == Some(e)
  {
    assert (KeyOf(c), e) in run[i + 1].promised;
    PromiseKept(run, i + 1, j);
    RunKeeps(run, j);
  }

  /** A matching call that is past its scan has the executor. */
  ghost predicate HasExecutor(s: State, u: Thread, key: Key, e: Executor) {
    u in s.threads && KeyOf(s.threads[u].call.config) == key ==>
      !s.threads[u].Build? && (s.threads[u].UnlockEntry? ==> s.threads[u].outcome == Found(e))
  }

  /** From state i on, where executor e is promised and matching calls past their scan have it, nobody
      destroys executors until state j. */
  ghost predicate Since(run: seq<State>, i: nat, j: nat, c: Config, e: Executor) {
    && IsRun(run) && Considerate(run) && i <= j < |run|
    && (KeyOf(c), e) in run[i].promised && (forall u :: HasExecutor(run[i], u, KeyOf(c), e))
    && forall k :: i <= k < j ==> CallStep(run[k], run[k + 1])
  }

  lemma SinceFound(run: seq<State>, i: nat, j: nat, t: Thread, built: Option<Executor>, e: Executor)
    requires FoundAt(run, i, j, t, built, e)
    ensures Since(run, i + 1, j, run[i].threads[t].call.config, e)
  {
    RunKeeps(run, i + 1);
    var s, key := run[i + 1], KeyOf(run[i].threads[t].call.config);
    forall u ensures HasExecutor(s, u, key, e) { OnlyOneInside(s, t, u, e); }
  }

  /** Every matching call that leaves its scan after another one has found or built executor e leaves with e. */
  lemma {:induction false} LaterCallsHaveIt(run: seq<State>, i: nat, j: nat, c: Config, e: Executor, u: Thread)
    requires Since(run, i, j, c, e)
    ensures HasExecutor(run[j], u, KeyOf(c), e)
    decreases j
  {
    if i < j {
      SinceBefore(run, i, j, c, e);
      LaterCallsHaveIt(run, i, j - 1, c, e, u);
      KeepsExecutor(run[j - 1], run[j], c, e, u);
    }
  }

  lemma SinceBefore(run: seq<State>, i: nat, j: nat, c: Config, e: Executor)
    requires Since(run, i, j, c, e) && i < j
    ensures Since(run, i, j - 1, c, e) && CallStep(run[j - 1], run[j]) && Lookup(run[j - 1], c) == Some(e)
  {
    PromiseKept(run, i, j - 1);
    RunKeeps(run, j - 1);
    assert CallStep(run[j - 1], run[j - 1 + 1]);
  }

  lemma OnlyOneInside(s: State, t: Thread, u: Thread, e: Executor)
    requires LocksExact(s) && t in s.threads && s.threads[t].UnlockEntry? && s.threads[t].outcome == Found(e)
    ensures HasExecutor(s, u, KeyOf(s.threads[t].call.config), e)
  {
    if u != t && u in s.threads && Holding(s.threads[u]) { OneInside(s, t, u); }
  }

  lemma KeepsExecutor(s: State, s': State, c: Config, e: Executor, u: Thread)
    requires CallStep(s, s') && Lookup(s, c) == Some(e) && HasExecutor(s, u, KeyOf(c), e)
    ensures HasExecutor(s', u, KeyOf(c), e)
  {
    if t, call :| CanBegin(s, t) && s' == Begin(s, t, call) {
    } else {
      var t, built :| CanStep(s, t) && s' == Step(s, t, built);
      StepHasExecutor(s, t, built, c, e, u);
    }
  }

  lemma StepHasExecutor(s: State, t: Thread, built: Option<Executor>, c: Config, e: Executor, u: Thread)
    requires CanStep(s, t) && Lookup(s, c) == Some(e) && HasExecutor(s, u, KeyOf(c), e)
    ensures HasExecutor(Step(s, t, built), u, KeyOf(c), e)
  {
    if t == u && KeyOf(s.threads[u].call.config) == KeyOf(c) { SameKeySameLookup(s, s.threads[u].call.config, c); }
  }

  /** Over every run: once a call has found or built an executor, every matching call that returns later, until
      the executors are destroyed, returns the same one. */
  lemma LaterCallsReturnIt(run: seq<State>, i: nat, j: nat, t: Thread, built: Option<Executor>, e: Executor,
                           u: Thread, built': Option<Executor>)
    requires FoundAt(run, i, j, t, built, e) && CanStep(run[j], u)
    requires KeyOf(run[j].threads[u].call.config) == KeyOf(run[i].threads[t].call.config)
    ensures
      var next := Step(run[j], u, built').threads[u];
      next.UnlockEntry? || next.Returned? ==> next.outcome == Found(e)
  {
    RunKeeps(run, j);
    SinceFound(run, i, j, t, built, e);
    LaterCallsHaveIt(run, i + 1, j, run[i].threads[t].call.config, e, u);
    SameExecutorForEver(run, i, j, t, built, e, run[j].threads[u].call.config);
  }

  // ---------------------------------------------------------------------------------------
  // What calls return
  // ---------------------------------------------------------------------------------------

  /** Thread t settles what its call returns: it finds an executor that was there, it is a Get and finds none, or
      it runs the factory for a configuration that was absent, and the map then holds what the factory made. */
  ghost predicate Settles(s: State, s': State, t: Thread, call: Call, outcome: Outcome) {
    var before, after := Lookup(s, call.config), Lookup(s', call.config);
    && CanStep(s, t) && s.threads[t].call == call
    && (match outcome
        case Found(e) => after == Some(e)
                         && (before == Some(e) || (before.None? && call.creates && s' == Step(s, t, Some(e))))
        case NotFound => !call.creates && before.None? && after.None?
        case BuildFailed => call.creates && before.None? && after.None? && s' == Step(s, t, None))
  }

  /** The outcome of the call that thread t is finishing or has finished. */
  ghost predicate Ends(s: State, t: Thread, call: Call, outcome: Outcome) {
    t in s.threads && (s.threads[t] == UnlockEntry(call, outcome) || s.threads[t] == Returned(call, outcome))
  }

  lemma StepSettles(s: State, t: Thread, built: Option<Executor>, call: Call, outcome: Outcome)
    requires Invariant(s) && CanStep(s, t) && Ends(Step(s, t, built), t, call, outcome)
    ensures Ends(s, t, call, outcome) || Settles(s, Step(s, t, built), t, call, outcome)
  {
    StepActsLikeMap(s, t, built, s.threads[t].call.config);
  }

  lemma SuccessorSettles(s: State, s': State, t: Thread, call: Call, outcome: Outcome)
    requires Invariant(s) && Successor(s, s') && Ends(s', t, call, outcome)
    ensures Ends(s, t, call, outcome) || Settles(s, s', t, call, outcome)
  {
    if u, built :| CanStep(s, u) && s' == Step(s, u, built) {
      if u == t { StepSettles(s, t, built, call, outcome); } else { OthersStand(s, u, built, t); }
    } else {
      OnlyCallsEnd(s, s', t, call, outcome);
    }
  }

  lemma OthersStand(s: State, u: Thread, built: Option<Executor>, t: Thread)
    requires CanStep(s, u) && u != t
    ensures t in Step(s, u, built).threads <==> t in s.threads
    ensures t in s.threads ==> Step(s, u, built).threads[t] == s.threads[t]
  {
  }

  /** Beginning a call and destroying entries end no call. */
  lemma OnlyCallsEnd(s: State, s': State, t: Thread, call: Call, outcome: Outcome)
    requires Successor(s, s') && !(exists u, built :: CanStep(s, u) && s' == Step(s, u, built))
    requires Ends(s', t, call, outcome)
    ensures Ends(s, t, call, outcome)
  {
  }

  lemma StateBefore(run: seq<State>, i: nat)
    requires IsRun(run) && Considerate(run) && i < |run| && run[i].threads != map[]
    ensures i > 0 && Invariant(run[i - 1]) && Successor(run[i - 1], run[i])
  {
    RunKeeps(run, i - 1);
    assert Successor(run[i - 1], run[i - 1 + 1]);
  }

  /** Over every run, with DestroyAll at any considerate time: what a call returns was settled by a step of its
      own, from what the map held then and what the factory made. */
  lemma OutcomeIsSettled(run: seq<State>, i: nat, t: Thread, call: Call, outcome: Outcome)
    requires IsRun(run) && Considerate(run) && i < |run| && Ends(run[i], t, call, outcome)
    ensures SettledBefore(run, i, t, call, outcome)
  {
    var ends := (j: nat) => j < |run| && Ends(run[j], t, call, outcome);
    var settles := (k: nat) => SettlesAt(run, k, t, call, outcome);
    forall j: nat | j <= i && ends(j) ensures j > 0 && (ends(j - 1) || settles(j - 1)) {
      EndsOrSettles(run, j, t, call, outcome);
    }
    var k := Cause(i, ends, settles);
    assert SettlesAt(run, k, t, call, outcome);
  }

  /** What holds at i, and did not hold at the start, was brought about at some point before. */
  lemma {:induction false} Cause(i: nat, holds: nat -> bool, causes: nat -> bool) returns (k: nat)
    requires holds(i) && forall j: nat :: j <= i && holds(j) ==> j > 0 && (holds(j - 1) || causes(j - 1))
    ensures k < i && causes(k)
  {
    if causes(i - 1) { k := i - 1; } else { k := Cause(i - 1, holds, causes); }
  }

  lemma EndsOrSettles(run: seq<State>, i: nat, t: Thread, call: Call, outcome: Outcome)
    requires IsRun(run) && Considerate(run) && i < |run| && Ends(run[i], t, call, outcome)
    ensures i > 0 && (Ends(run[i - 1], t, call, outcome) || SettlesAt(run, i - 1, t, call, outcome))
  {
    StateBefore(run, i);
    SuccessorSettles(run[i - 1], run[i], t, call, outcome);
  }

  ghost predicate SettlesAt(run: seq<State>, k: nat, t: Thread, call: Call, outcome: Outcome) {
    k + 1 < |run| && Settles(run[k], run[k + 1], t, call, outcome)
  }

  ghost predicate SettledBefore(run: seq<State>, i: nat, t: Thread, call: Call, outcome: Outcome) {
    exists k :: 0 <= k < i && SettlesAt(run, k, t, call, outcome)
  }

  /** Until its entry is unlocked, a call's outcome is exactly what the map holds: no other thread can change it
      between the decision and the unlock. */
  lemma OutcomeIsCurrent(run: seq<State>, i: nat, t: Thread, e: Executor)
    requires IsRun(run) && Considerate(run) && i < |run|
    requires t in run[i].threads && run[i].threads[t].UnlockEntry?
    ensures run[i].threads[t].outcome == Found(e) <==> Lookup(run[i], run[i].threads[t].call.config) == Some(e)
    ensures Step(run[i], t, None).threads[t] == Returned(run[i].threads[t].call, run[i].threads[t].outcome)
  {
    RunKeeps(run, i);
  }

  /** The number of steps that a call has left at most; every step leaves fewer, so every call returns. */
  function Left(p: Phase): nat {
    match p
    case FindEntry(_) => 5 case LockEntry(_) => 4 case Scan(_) => 3 case Build(_) => 2
    case UnlockEntry(_, _) => 1 case Returned(_, _) => 0
  }

  lemma StepsLead(s: State, t: Thread, built: Option<Executor>)
    requires CanStep(s, t)
    ensures Left(Step(s, t, built).threads[t]) < Left(s.threads[t])
    ensures Step(s, t, built).threads[t].call == s.threads[t].call
  {
  }

  // ---------------------------------------------------------------------------------------
  // When destroying is safe
  // ---------------------------------------------------------------------------------------

  /** States that follow one another without another DestroyAll. */
  ghost predicate Continues(run: seq<State>, s: State) {
    && |run| > 0 && run[0] == s
    && forall i :: 0 <= i < |run| - 1 ==> OngoingStep(run[i], run[i + 1])
  }

  ghost predicate Misuses(run: seq<State>, s: State) {
    Continues(run, s) && run[|run| - 1].misused
  }

  ghost predicate LeadsToMisuse(s: State) { exists run :: Misuses(run, s) }

  lemma MisuseBefore(s: State, s': State)
    requires OngoingStep(s, s') && LeadsToMisuse(s')
    ensures LeadsToMisuse(s)
  {
    var run :| Misuses(run, s');
    var longer := [s] + run;
    forall i | 0 <= i < |longer| - 1 ensures OngoingStep(longer[i], longer[i + 1]) {
      if i > 0 { assert OngoingStep(run[i - 1], run[i - 1 + 1]); }
    }
    assert Misuses(longer, s);
  }

  /** The number of steps after which the holder of an entry has unlocked it. */
  function StepsInside(p: Phase): nat { if p.Scan? then 3 else if p.Build? then 2 else if p.UnlockEntry? then 1 else 0 }

  lemma FreedUnderWaiter(s: State, a: Thread, o: int)
    requires CanFree(s, o) && a in Waiting(s, o)
    ensures LeadsToMisuse(s)
  {
    var freed := FreeEntry(s, o);
    var touched := Step(freed, a, None);
    assert Misuses([touched], touched);
    assert OngoingStep(freed, touched);
    MisuseBefore(freed, touched);
    assert OngoingStep(s, freed);
    MisuseBefore(s, freed);
  }

  /** Once DestroyAll has the map mutex, the entry that a call is about to lock can go first: as soon as its
      present holder, if any, has left it. */
  lemma {:induction false} DestroyedUnderWaiter(s: State, a: Thread, o: int)
    requires LocksExact(s) && s.destroying.Some? && o in s.destroying.value && a in Waiting(s, o)
    ensures LeadsToMisuse(s)
    decreases if o in s.locks then StepsInside(s.threads[s.locks[o]]) else 0
  {
    if o in s.locks {
      var t := s.locks[o];
      var s' := Step(s, t, None);
      assert OngoingStep(s, s');
      StepKeepsLocks(s, t, None);
      if o in s'.locks { assert s'.locks[o] == t; }
      DestroyedUnderWaiter(s', a, o);
      MisuseBefore(s, s');
    } else {
      FreedUnderWaiter(s, a, o);
    }
  }

  lemma {:induction false} ContinuationKeeps(run: seq<State>, s: State, i: nat)
    requires Continues(run, s) && Invariant(s) && i < |run|
    ensures Invariant(run[i])
  {
    if i > 0 {
      ContinuationKeeps(run, s, i - 1);
      assert OngoingStep(run[i - 1], run[i - 1 + 1]);
      OngoingKeeps(run[i - 1], run[i]);
    }
  }

  /** In every reachable state in which DestroyAll may begin: nothing that can follow touches a destroyed entry,
      exactly if no call has found its entry without having locked it.  Calls that hold an entry, and calls that
      have not looked for one yet, do no harm. */
  lemma SafeToDestroyExactly(run: seq<State>)
    requires IsRun(run) && Considerate(run) && run[|run| - 1].destroying.None?
    ensures
      var s := run[|run| - 1];
      !LeadsToMisuse(TakeMap(s)) <==> NoneWaiting(s)
  {
    var s := run[|run| - 1];
    RunKeeps(run, |run| - 1);
    if NoneWaiting(s) {
      TakeMapKeeps(s);
      forall more | Continues(more, TakeMap(s)) ensures !Misuses(more, TakeMap(s)) {
        ContinuationKeeps(more, TakeMap(s), |more| - 1);
      }
    } else {
      var a :| a in s.threads && s.threads[a].LockEntry?;
      assert a in Waiting(TakeMap(s), s.threads[a].call.config.ordinal);
      DestroyedUnderWaiter(TakeMap(s), a, s.threads[a].call.config.ordinal);
    }
  }

  /** When DestroyAll gives back the map mutex, no entry is left and nothing is found any more. */
  lemma DestroyAllDestroys(run: seq<State>, i: nat, c: Config)
    requires IsRun(run) && Considerate(run) && i + 1 < |run|
    requires run[i].destroying.Some? && run[i + 1].destroying.None?
    ensures run[i + 1].cache == map[] && Lookup(run[i + 1], c).None? && run[i + 1].promised == {}
  {
    RunKeeps(run, i);
    RunKeeps(run, i + 1);
    var s, s' := run[i], run[i + 1];
    assert Successor(run[i], run[i + 1]);
    assert s'.cache.Keys == {};
    forall p: (Key, Executor) ensures p !in s'.promised { NothingPromised(s', p.0, p.1); }
  }

  lemma NothingPromised(s: State, key: Key, e: Executor)
    requires Invariant(s) && s.cache == map[]
    ensures (key, e) !in s.promised
  {
    var c := Config(key.ordinal, key.plugin, key.flags, "");
    assert KeyOf(c) == key && Lookup(s, c).None?;
    assert (KeyOf(c), e) in s.promised ==> Lookup(s, c) == Some(e);
  }

  /** The shortest such run: a call has found its entry when DestroyAll takes the map. */
  lemma DestroyedTooEarly(t: Thread, call: Call) returns (run: seq<State>)
    ensures IsRun(run) && |run| == 6 && run[5].misused
  {
    var s1 := Begin(Initial(), t, call);
    var s2 := Step(s1, t, None);
    var s3 := TakeMap(s2);
    var s4 := FreeEntry(s3, call.config.ordinal);
    var s5 := Step(s4, t, None);
    run := [Initial(), s1, s2, s3, s4, s5];
    assert Successor(Initial(), s1) && Successor(s1, s2) && Successor(s2, s3);
    assert CanFree(s3, call.config.ordinal) && Successor(s3, s4) && Successor(s4, s5);
  }

  // ---------------------------------------------------------------------------------------
  // Progress
  // ---------------------------------------------------------------------------------------

  ghost predicate CanDestroy(s: State) {
    CanReleaseMap(s) || exists o :: CanFree(s, o)
  }

  lemma Member<T>(entries: set<T>) returns (o: T)
    requires entries != {}
    ensures o in entries
  {
    o :| o in entries;
  }

  /** As long as some call is in progress, some thread or DestroyAll can step: the mutexes cannot deadlock. */
  lemma NoDeadlock(s: State, t: Thread)
    requires Invariant(s) && t in s.threads && !s.threads[t].Returned?
    ensures CanDestroy(s) || exists u :: CanStep(s, u)
  {
    if s.threads[t].FindEntry? && s.destroying.Some? {
      if s.destroying.value != {} {
        var o := Member(s.destroying.value);
        if o in s.locks { assert CanStep(s, s.locks[o]); } else { assert CanFree(s, o); }
      }
    } else if s.threads[t].LockEntry? && s.threads[t].call.config.ordinal in s.locks {
      assert CanStep(s, s.locks[s.threads[t].call.config.ordinal]);
    } else {
      assert CanStep(s, t);
    }
  }
}
