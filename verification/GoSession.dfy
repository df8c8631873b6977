/** The locking protocol of tensorflow/go/session.go as atomic steps of any number of goroutines.

Run, PartialRun.Run and NewPartialRun take the same steps: lock, check the pointer, add to the wait
group, unlock, call into C, leave the wait group.  Close keeps the lock while it waits.
*/
module GoSession {

  type Goroutine = nat

  /** What a goroutine does next. */
  datatype Next =
    | RunLock        // s.mu.Lock()
    | RunCheck       // if s.c == nil
    | RunReject      // s.mu.Unlock(), return the error
    | RunAdd         // s.wg.Add(1)
    | RunUnlock      // s.mu.Unlock()
    | RunCall        // enter C.TF_SessionRun, TF_SessionPRun or TF_SessionPRunSetup with s.c
    | RunReturn      // come back from C
    | RunDone        // s.wg.Done()
    | CloseLock      // s.mu.Lock()
    | CloseWait      // s.wg.Wait()
    | CloseCheck     // if s.c == nil
    | CloseC         // C.TF_CloseSession(s.c)
    | CloseDelete    // C.TF_DeleteSession(s.c)
    | CloseClear     // s.c = nil
    | CloseUnlock    // s.mu.Unlock()
    | Finished

  datatype Mutex = Free | Held(owner: Goroutine)

  type Calls = map<Goroutine, Next>

  /** A goroutine that never began a call has nothing left to do. */
  function At(calls: Calls, g: Goroutine): Next {
    if g in calls then calls[g] else Finished
  }

  datatype State = State(
    mu: Mutex,
    wg: int,                   // the counter of the wait group
    pointer: bool,             // s.c is not nil
    alive: bool,               // the C session exists
    deletions: nat,            // how often the C session was deleted
    calls: Calls)              // what every goroutine does next

  function Initial(): State {
    State(Free, 0, true, true, 0, map[])
  }

  /** Between Add and Done. */
  predicate Counted(n: Next) {
    n.RunUnlock? || n.RunCall? || n.RunReturn? || n.RunDone?
  }

  /** Close, from the end of the wait to the unlock. */
  predicate PastWait(n: Next) {
    n.CloseCheck? || n.CloseC? || n.CloseDelete? || n.CloseClear? || n.CloseUnlock?
  }

  /** The pointer was found set, and nothing has cleared it since. */
  predicate NeedsSession(n: Next) {
    n.RunAdd? || n.CloseC? || n.CloseDelete? || Counted(n)
  }

  predicate HoldsMutex(n: Next) {
    || n.RunCheck? || n.RunReject? || n.RunAdd? || n.RunUnlock? || n.CloseWait? || PastWait(n)
  }

  /** Only two things block: a mutex that is held, and a wait group that is not zero. */
  predicate CanStep(s: State, g: Goroutine) {
    var n := At(s.calls, g);
    && !n.Finished?
    && (n.RunLock? || n.CloseLock? ==> s.mu.Free?)
    && (n.CloseWait? ==> s.wg == 0)
  }

  /** What a goroutine does after its step; `ok` is the status that TF_CloseSession reports. */
  function Then(s: State, n: Next, ok: bool): Next {
    match n
    case RunLock => RunCheck
    case RunCheck => if s.pointer then RunAdd else RunReject
    case RunReject => Finished
    case RunAdd => RunUnlock
    case RunUnlock => RunCall
    case RunCall => RunReturn
    case RunReturn => RunDone
    case RunDone => Finished
    case CloseLock => CloseWait
    case CloseWait => CloseCheck
    case CloseCheck => if s.pointer then CloseC else CloseUnlock
    case CloseC => if ok then CloseDelete else CloseUnlock
    case CloseDelete => CloseClear
    case CloseClear => CloseUnlock
    case CloseUnlock => Finished
    case Finished => Finished
  }

  /** One step of a goroutine. */
  function Step(s: State, g: Goroutine, ok: bool): State
    requires CanStep(s, g)
  {
    var n := At(s.calls, g);
    State(
      if n.RunLock? || n.CloseLock? then Held(g)
      else if n.RunReject? || n.RunUnlock? || n.CloseUnlock? then Free
      else s.mu,
      if n.RunAdd? then s.wg + 1 else if n.RunDone? then s.wg - 1 else s.wg,
      s.pointer && !n.CloseClear?,
      s.alive && !n.CloseDelete?,
      if n.CloseDelete? then s.deletions + 1 else s.deletions,
      s.calls[g := Then(s, n, ok)])
  }

  /** A goroutine that is not inside a call begins one. */
  predicate Begins(s: State, g: Goroutine, first: Next) {
    At(s.calls, g).Finished? && (first.RunLock? || first.CloseLock?)
  }

  ghost predicate Successor(s: State, s': State) {
    || (exists g, first :: Begins(s, g, first) && s' == s.(calls := s.calls[g := first]))
    || (exists g, ok :: CanStep(s, g) && s' == Step(s, g, ok))
  }

  /** A run: any interleaving of any number of calls. */
  ghost predicate IsRun(run: seq<State>) {
    && |run| > 0 && run[0] == Initial()
    && forall i :: 0 <= i < |run| - 1 ==> Successor(run[i], run[i + 1])
  }

  // ---------------------------------------------------------------------------------------
  // What every step keeps
  // ---------------------------------------------------------------------------------------

  ghost function Outstanding(calls: Calls): set<Goroutine> {
    set g | g in calls && Counted(calls[g])
  }

  /** The mutex is held by exactly the goroutine that is between Lock and Unlock. */
  ghost predicate MutexExact(mu: Mutex, calls: Calls) {
    forall g :: HoldsMutex(At(calls, g)) <==> mu == Held(g)
  }

  /** Close got past the wait only if no run is outstanding. */
  ghost predicate WaitExact(wg: int, calls: Calls) {
    forall g :: PastWait(At(calls, g)) ==> wg == 0
  }

  /** The pointer is cleared by the goroutine that deleted, before it unlocks; whoever still relies on
      having found it set finds the session alive. */
  ghost predicate LifeExact(mu: Mutex, pointer: bool, alive: bool, calls: Calls) {
    && (alive ==> pointer)
    && (!alive && pointer ==> mu.Held? && At(calls, mu.owner).CloseClear?)
    && (forall g :: NeedsSession(At(calls, g)) ==> alive)
    && (forall g :: At(calls, g).CloseClear? ==> !alive)
  }

  ghost predicate Invariant(s: State) {
    && MutexExact(s.mu, s.calls) && WaitExact(s.wg, s.calls) && LifeExact(s.mu, s.pointer, s.alive, s.calls)
    // the wait group counts the outstanding runs
    && s.wg == |Outstanding(s.calls)|
    // the session is deleted at most once
    && s.deletions == (if s.alive then 0 else 1)
  }

  lemma OutstandingUpdate(calls: Calls, g: Goroutine, n: Next)
    ensures |Outstanding(calls[g := n])| == |Outstanding(calls)|
            + (if Counted(n) then 1 else 0) - (if Counted(At(calls, g)) then 1 else 0)
  {
    var others := Outstanding(calls) - {g};
    assert g in Outstanding(calls) <==> Counted(At(calls, g));
    assert Outstanding(calls) == if Counted(At(calls, g)) then others + {g} else others;
    OthersKept(calls, g, n);
  }

  lemma OthersKept(calls: Calls, g: Goroutine, n: Next)
    ensures Outstanding(calls[g := n]) ==
            if Counted(n) then (Outstanding(calls) - {g}) + {g} else Outstanding(calls) - {g}
  {
    forall h
      ensures h in Outstanding(calls[g := n]) <==> if h == g then Counted(n) else h in Outstanding(calls)
    {
    }
  }

  lemma AtUpdate(calls: Calls, g: Goroutine, n: Next, h: Goroutine)
    ensures At(calls[g := n], h) == if h == g then n else At(calls, h)
  {
  }

  /** The ways in which a step may touch the mutex: take it or keep it, give it back, leave it alone. */
  lemma MutexUpdate(mu: Mutex, calls: Calls, g: Goroutine, n: Next, mu': Mutex)
    requires MutexExact(mu, calls)
    requires if HoldsMutex(n) then mu' == Held(g) && (mu.Free? || mu == Held(g))
             else mu' == if mu == Held(g) then Free else mu
    ensures MutexExact(mu', calls[g := n])
  {
    forall h ensures HoldsMutex(At(calls[g := n], h)) <==> mu' == Held(h) {
      AtUpdate(calls, g, n, h);
      assert HoldsMutex(At(calls, h)) <==> mu == Held(h);
    }
  }

  lemma BeginKeeps(s: State, g: Goroutine, first: Next)
    requires Invariant(s) && Begins(s, g, first)
    ensures Invariant(s.(calls := s.calls[g := first]))
  {
    OutstandingUpdate(s.calls, g, first);
    assert HoldsMutex(At(s.calls, g)) <==> s.mu == Held(g);
    MutexUpdate(s.mu, s.calls, g, first, s.mu);
    var calls := s.calls[g := first];
    forall h
      ensures PastWait(At(calls, h)) ==> s.wg == 0
      ensures NeedsSession(At(calls, h)) ==> s.alive
      ensures At(calls, h).CloseClear? ==> !s.alive
    {
      AtUpdate(s.calls, g, first, h);
    }
    if s.mu.Held? { AtUpdate(s.calls, g, first, s.mu.owner); }
  }

  lemma StepKeepsMutex(s: State, g: Goroutine, ok: bool)
    requires MutexExact(s.mu, s.calls) && s.wg == |Outstanding(s.calls)| && CanStep(s, g)
    ensures var s' := Step(s, g, ok);
            MutexExact(s'.mu, s'.calls) && s'.wg == |Outstanding(s'.calls)|
  {
    var n := At(s.calls, g);
    var n' := Then(s, n, ok);
    assert HoldsMutex(n) <==> s.mu == Held(g);
    MutexUpdate(s.mu, s.calls, g, n', Step(s, g, ok).mu);
    OutstandingUpdate(s.calls, g, n');
  }

  /** Beside a goroutine that got past the wait, nobody relies on the session. */
  lemma OnlyCloser(s: State, g: Goroutine, h: Goroutine)
    requires Invariant(s) && PastWait(At(s.calls, g)) && h != g
    ensures !NeedsSession(At(s.calls, h)) && !HoldsMutex(At(s.calls, h)) && !At(s.calls, h).RunReturn?
  {
    assert s.mu == Held(g) && s.mu != Held(h);
    assert h !in Outstanding(s.calls);
  }

  lemma StepKeepsLife(s: State, g: Goroutine, ok: bool)
    requires Invariant(s) && CanStep(s, g)
    ensures var s' := Step(s, g, ok);
            WaitExact(s'.wg, s'.calls) && LifeExact(s'.mu, s'.pointer, s'.alive, s'.calls)
  {
    var s', n := Step(s, g, ok), At(s.calls, g);
    assert HoldsMutex(n) <==> s.mu == Held(g);
    assert NeedsSession(n) ==> s.alive;
    assert n.CloseClear? ==> !s.alive;
    assert PastWait(n) ==> s.wg == 0;
    forall h
      ensures PastWait(At(s'.calls, h)) ==> s'.wg == 0
      ensures NeedsSession(At(s'.calls, h)) ==> s'.alive
      ensures At(s'.calls, h).CloseClear? ==> !s'.alive
    {
      AtUpdate(s.calls, g, Then(s, n, ok), h);
      if h != g {
        assert HoldsMutex(At(s.calls, h)) <==> s.mu == Held(h);
        if PastWait(n) { OnlyCloser(s, g, h); }
        if PastWait(At(s.calls, h)) { OnlyCloser(s, h, g); }
      }
    }
    if s'.mu.Held? { AtUpdate(s.calls, g, Then(s, n, ok), s'.mu.owner); }
  }

  /** Every step of every goroutine keeps the invariant. */
  lemma StepKeeps(s: State, g: Goroutine, ok: bool)
    requires Invariant(s) && CanStep(s, g)
    ensures Invariant(Step(s, g, ok))
  {
    StepKeepsMutex(s, g, ok);
    StepKeepsLife(s, g, ok);
  }

  // ---------------------------------------------------------------------------------------
  // Safety over every run
  // ---------------------------------------------------------------------------------------

  lemma InitialInvariant()
    ensures Invariant(Initial())
  {
    assert Outstanding(map[]) == {};
  }

  /** In every interleaving the invariant holds, and the session is deleted at most once. */
  lemma {:induction false} RunIsSafe(run: seq<State>, i: nat)
    requires IsRun(run) && i < |run|
    ensures Invariant(run[i])
    ensures run[i].deletions <= 1
  {
    if i == 0 {
      InitialInvariant();
    } else {
      var s, s' := run[i - 1], run[i];
      RunIsSafe(run, i - 1);
      assert Successor(s, s');
      if g, first :| Begins(s, g, first) && s' == s.(calls := s.calls[g := first]) {
        BeginKeeps(s, g, first);
      } else {
        var g, ok :| CanStep(s, g) && s' == Step(s, g, ok);
        StepKeeps(s, g, ok);
      }
    }
  }

  /** In every interleaving, whoever is about to call into C, or is inside, finds the session there; nobody is
      inside when it is deleted. */
  lemma CallsFindSession(run: seq<State>, i: nat, g: Goroutine, h: Goroutine)
    requires IsRun(run) && i < |run|
    ensures
      var n := At(run[i].calls, g);
      && (n.RunCall? || n.RunReturn? || n.CloseC? || n.CloseDelete? ==> run[i].pointer && run[i].alive)
      && (n.CloseDelete? ==> !At(run[i].calls, h).RunReturn?)
  {
    RunIsSafe(run, i);
    if At(run[i].calls, g).CloseDelete? && h != g { OnlyCloser(run[i], g, h); }
  }

  /** Close deletes the session only after every run that was counted has left. */
  lemma DeletionIsQuiet(s: State, g: Goroutine)
    requires Invariant(s) && At(s.calls, g).CloseDelete?
    ensures s.alive && s.deletions == 0 && s.mu == Held(g) && Outstanding(s.calls) == {}
  {
    assert PastWait(At(s.calls, g));
  }

  // ---------------------------------------------------------------------------------------
  // Progress
  // ---------------------------------------------------------------------------------------

  /** A Close that waits keeps the mutex, but no outstanding run needs it any more. */
  lemma WaitingCloseLetsRunsStep(s: State, g: Goroutine, h: Goroutine)
    requires Invariant(s) && At(s.calls, g).CloseWait? && h in Outstanding(s.calls)
    ensures CanStep(s, h)
  {
    assert s.mu == Held(g);
    assert HoldsMutex(At(s.calls, h)) <==> s.mu == Held(h);
  }

  /** As long as some call is unfinished, somebody can step. */
  lemma NoDeadlock(s: State, g: Goroutine) returns (h: Goroutine)
    requires Invariant(s) && !At(s.calls, g).Finished?
    ensures CanStep(s, h)
  {
    if CanStep(s, g) { return g; }
    if s.mu.Held? && !At(s.calls, s.mu.owner).CloseWait? {
      h := s.mu.owner;
      assert HoldsMutex(At(s.calls, h));
    } else {
      var closer := if s.mu.Held? then s.mu.owner else g;
      assert HoldsMutex(At(s.calls, g)) <==> s.mu == Held(g);
      if s.wg == 0 {
        h := closer;
        assert HoldsMutex(At(s.calls, h)) <==> s.mu == Held(h);
      } else {
        assert Outstanding(s.calls) != {};
        h :| h in Outstanding(s.calls);
        WaitingCloseLetsRunsStep(s, closer, h);
      }
    }
  }

  /** The number of steps that a goroutine has left at most. */
  function Left(n: Next): nat {
    match n
    case RunLock => 7 case RunCheck => 6 case RunReject => 1 case RunAdd => 5 case RunUnlock => 4
    case RunCall => 3 case RunReturn => 2 case RunDone => 1
    case CloseLock => 7 case CloseWait => 6 case CloseCheck => 5 case CloseC => 4 case CloseDelete => 3
    case CloseClear => 2 case CloseUnlock => 1 case Finished => 0
  }

  ghost function Work(calls: Calls): nat
    decreases |calls|
  {
    if calls == map[] then 0
    else
      var g :| g in calls;
      Left(calls[g]) + Work(calls - {g})
  }

  lemma {:induction false} WorkSplits(calls: Calls, g: Goroutine)
    requires g in calls
    ensures Work(calls) == Left(calls[g]) + Work(calls - {g})
    decreases |calls|
  {
    var h :| h in calls && Work(calls) == Left(calls[h]) + Work(calls - {h});
    if h != g {
      WorkSplits(calls - {h}, g);
      WorkSplits(calls - {g}, h);
      assert calls - {h} - {g} == calls - {g} - {h};
    }
  }

  /** Every step leaves less to do. */
  lemma StepIsProgress(s: State, g: Goroutine, ok: bool)
    requires CanStep(s, g)
    ensures Work(Step(s, g, ok).calls) < Work(s.calls)
  {
    var calls := Step(s, g, ok).calls;
    WorkSplits(s.calls, g);
    WorkSplits(calls, g);
    assert calls - {g} == s.calls - {g};
  }

  ghost predicate Stuck(s: State) { forall g :: !CanStep(s, g) }

  ghost predicate AllFinished(s: State) { forall g :: At(s.calls, g).Finished? }

  /** Nobody can step only when every call, every Close included, has returned. */
  lemma StuckMeansFinished(s: State)
    requires Invariant(s)
    ensures Stuck(s) <==> AllFinished(s)
  {
    if Stuck(s) {
      forall g ensures At(s.calls, g).Finished? {
        if !At(s.calls, g).Finished? {
          var h := NoDeadlock(s, g);
        }
      }
    }
  }

  ghost predicate Steps(s: State, s': State) {
    exists g, ok :: CanStep(s, g) && s' == Step(s, g, ok)
  }

  ghost predicate Schedule(run: seq<State>) {
    |run| > 0 && forall i :: 0 <= i < |run| - 1 ==> Steps(run[i], run[i + 1])
  }

  /** From any reachable state, letting the goroutines run in any order ends after boundedly many steps. */
  lemma {:induction false} ScheduleEnds(run: seq<State>)
    requires Schedule(run) && Invariant(run[0])
    ensures Invariant(run[|run| - 1])
    ensures |run| - 1 + Work(run[|run| - 1].calls) <= Work(run[0].calls)
  {
    var n := |run| - 1;
    if n > 0 {
      var s, s' := run[n - 1], run[n];
      assert Steps(run[n - 1], run[n - 1 + 1]);
      ScheduleEnds(run[..n]);
      var g, ok :| CanStep(s, g) && s' == Step(s, g, ok);
      StepKeeps(s, g, ok);
      StepIsProgress(s, g, ok);
    }
  }

  // ---------------------------------------------------------------------------------------
  // A waiting Close is not starved
  // ---------------------------------------------------------------------------------------

  /** The calls that a waiting Close waits for. */
  ghost function Awaited(calls: Calls): Calls {
    map h | h in calls && Counted(calls[h]) :: calls[h]
  }

  /** Goroutine g waits in Close all the time; the others take any steps and begin any calls. */
  ghost predicate WaitsThroughout(run: seq<State>, g: Goroutine) {
    && |run| > 0
    && (forall i :: 0 <= i < |run| - 1 ==> Successor(run[i], run[i + 1]))
    && forall i :: 0 <= i < |run| ==> At(run[i].calls, g).CloseWait?
  }

  /** How many of the transitions are steps of calls, rather than beginnings. */
  ghost function StepsTaken(run: seq<State>): nat {
    if |run| <= 1 then 0
    else
      var n := |run| - 1;
      StepsTaken(run[..n]) + (if Steps(run[n - 1], run[n]) then 1 else 0)
  }

  /** While g waits, only calls that it waits for can step. */
  lemma OnlyAwaitedStep(s: State, g: Goroutine, h: Goroutine)
    requires Invariant(s) && At(s.calls, g).CloseWait? && CanStep(s, h) && h != g
    ensures h in Awaited(s.calls) && !s.calls[h].RunUnlock?
  {
    assert s.mu == Held(g) && s.mu != Held(h);
    assert HoldsMutex(At(s.calls, h)) <==> s.mu == Held(h);
  }

  /** Such a step leaves less to wait for, and nobody new to wait for. */
  lemma AwaitedStep(s: State, g: Goroutine, h: Goroutine, ok: bool)
    requires Invariant(s) && At(s.calls, g).CloseWait? && CanStep(s, h) && h != g
    ensures
      var s' := Step(s, h, ok);
      Outstanding(s'.calls) <= Outstanding(s.calls) && Work(Awaited(s'.calls)) < Work(Awaited(s.calls))
  {
    OnlyAwaitedStep(s, g, h);
    var n := Then(s, s.calls[h], ok);
    var before, after := Awaited(s.calls), Awaited(s.calls[h := n]);
    WorkSplits(before, h);
    assert after - {h} == before - {h};
    if Counted(n) {
      WorkSplits(after, h);
    } else {
      assert after == after - {h};
    }
  }

  lemma AwaitedBegin(s: State, h: Goroutine, first: Next)
    requires Begins(s, h, first)
    ensures Outstanding(s.calls[h := first]) == Outstanding(s.calls)
    ensures Awaited(s.calls[h := first]) == Awaited(s.calls)
  {
  }

  lemma AwaitedTransition(s: State, s': State, g: Goroutine)
    requires Invariant(s) && Successor(s, s') && At(s.calls, g).CloseWait? && At(s'.calls, g).CloseWait?
    ensures Invariant(s') && Outstanding(s'.calls) <= Outstanding(s.calls)
    ensures Work(Awaited(s'.calls)) + (if Steps(s, s') then 1 else 0) <= Work(Awaited(s.calls))
  {
    if Steps(s, s') {
      var h, ok :| CanStep(s, h) && s' == Step(s, h, ok);
      StepKeeps(s, h, ok);
      AwaitedStep(s, g, h, ok);
    } else {
      var h, first :| Begins(s, h, first) && s' == s.(calls := s.calls[h := first]);
      BeginKeeps(s, h, first);
      AwaitedBegin(s, h, first);
    }
  }

  lemma {:induction false} AwaitedRun(run: seq<State>, g: Goroutine)
    requires WaitsThroughout(run, g) && Invariant(run[0])
    ensures
      var last := run[|run| - 1];
      && Invariant(last) && Outstanding(last.calls) <= Outstanding(run[0].calls)
      && StepsTaken(run) + Work(Awaited(last.calls)) <= Work(Awaited(run[0].calls))
  {
    var n := |run| - 1;
    if n > 0 {
      AwaitedRun(run[..n], g);
      assert Successor(run[n - 1], run[n - 1 + 1]);
      AwaitedTransition(run[n - 1], run[n], g);
    }
  }

  lemma {:induction false} WorkBound(calls: Calls)
    requires forall h :: h in calls ==> Left(calls[h]) <= 3
    ensures Work(calls) <= 3 * |calls|
    decreases |calls|
  {
    if calls != map[] {
      var h :| h in calls && Work(calls) == Left(calls[h]) + Work(calls - {h});
      assert (calls - {h}).Keys == calls.Keys - {h};
      WorkBound(calls - {h});
    }
  }

  /** However many calls begin while Close waits, the runs it waits for only become fewer, the others take at most
      three steps for each of them, and as long as one is left, it can step; when none is left, Close can. */
  lemma CloseIsNotStarved(run: seq<State>, g: Goroutine)
    requires WaitsThroughout(run, g) && Invariant(run[0])
    ensures
      var last := run[|run| - 1];
      && Outstanding(last.calls) <= Outstanding(run[0].calls)
      && StepsTaken(run) <= 3 * |Outstanding(run[0].calls)|
      && (forall h :: h in Outstanding(last.calls) ==> CanStep(last, h))
      && (Outstanding(last.calls) == {} <==> CanStep(last, g))
  {
    var s, last := run[0], run[|run| - 1];
    AwaitedRun(run, g);
    assert Awaited(s.calls).Keys == Outstanding(s.calls);
    forall h | h in Awaited(s.calls) ensures Left(s.calls[h]) <= 3 {
      assert s.mu == Held(g) && h != g && s.mu != Held(h);
      assert HoldsMutex(At(s.calls, h)) <==> s.mu == Held(h);
    }
    WorkBound(Awaited(s.calls));
    forall h | h in Outstanding(last.calls) ensures CanStep(last, h) { WaitingCloseLetsRunsStep(last, g, h); }
  }

  // ---------------------------------------------------------------------------------------
  // What Close does, and what calls then get
  // ---------------------------------------------------------------------------------------

  /** The session is gone for good. */
  predicate Gone(s: State) { !s.pointer && !s.alive && s.deletions == 1 }

  /** Goroutine g hears from TF_CloseSession that the session is closed. */
  ghost predicate Succeeds(s: State, s': State, g: Goroutine) {
    At(s.calls, g).CloseC? && s' == Step(s, g, true)
  }

  ghost predicate SucceedsAt(run: seq<State>, k: nat, g: Goroutine) {
    k + 1 < |run| && Succeeds(run[k], run[k + 1], g)
  }

  ghost predicate SucceededBefore(run: seq<State>, i: nat) {
    exists k, g :: 0 <= k < i && SucceedsAt(run, k, g)
  }

  /** Somebody is about to delete the session or to clear the pointer. */
  ghost predicate Deleting(s: State) {
    exists g :: At(s.calls, g).CloseDelete? || At(s.calls, g).CloseClear?
  }

  lemma GoneStays(s: State, s': State)
    requires Invariant(s) && Successor(s, s') && Gone(s)
    ensures Gone(s')
  {
    if g, first :| Begins(s, g, first) && s' == s.(calls := s.calls[g := first]) {
      BeginKeeps(s, g, first);
    } else {
      var g, ok :| CanStep(s, g) && s' == Step(s, g, ok);
      StepKeeps(s, g, ok);
    }
  }

  /** A session that is neither gone nor being deleted can be used. */
  lemma OpenOrGone(s: State)
    requires Invariant(s) && !Deleting(s)
    ensures if s.pointer then s.alive && s.deletions == 0 else Gone(s)
  {
    if s.mu.Held? { assert !At(s.calls, s.mu.owner).CloseClear?; }
  }

  lemma AfterSuccess(s: State, s': State, g: Goroutine)
    requires Invariant(s) && Succeeds(s, s', g)
    ensures At(s'.calls, g).CloseDelete?
  {
  }

  /** From a success on, its goroutine deletes the session and clears the pointer, or that has been done. */
  lemma DeletingGoesOn(s: State, s': State, g: Goroutine)
    requires Invariant(s) && Successor(s, s')
    requires At(s.calls, g).CloseDelete? || At(s.calls, g).CloseClear? || Gone(s)
    ensures At(s'.calls, g).CloseDelete? || At(s'.calls, g).CloseClear? || Gone(s')
  {
    if Gone(s) {
      GoneStays(s, s');
    } else if h, first :| Begins(s, h, first) && s' == s.(calls := s.calls[h := first]) {
      AtUpdate(s.calls, h, first, g);
    } else {
      var h, ok :| CanStep(s, h) && s' == Step(s, h, ok);
      AtUpdate(s.calls, h, Then(s, At(s.calls, h), ok), g);
    }
  }

  lemma {:induction false} SuccessLeadsToGone(run: seq<State>, k: nat, i: nat, g: Goroutine)
    requires IsRun(run) && k < i < |run| && SucceedsAt(run, k, g)
    ensures At(run[i].calls, g).CloseDelete? || At(run[i].calls, g).CloseClear? || Gone(run[i])
    decreases i
  {
    RunIsSafe(run, i - 1);
    if i == k + 1 {
      AfterSuccess(run[k], run[i], g);
    } else {
      SuccessLeadsToGone(run, k, i - 1, g);
      assert Successor(run[i - 1], run[i - 1 + 1]);
      DeletingGoesOn(run[i - 1], run[i], g);
    }
  }

  /** Only a success makes anybody delete the session or clear the pointer. */
  lemma OnlySuccessDeletes(s: State, s': State)
    requires Successor(s, s') && (Deleting(s') || !s'.pointer)
    ensures Deleting(s) || !s.pointer || exists g :: Succeeds(s, s', g)
  {
    if h, first :| Begins(s, h, first) && s' == s.(calls := s.calls[h := first]) {
      if g :| At(s'.calls, g).CloseDelete? || At(s'.calls, g).CloseClear? { AtUpdate(s.calls, h, first, g); }
    } else {
      var h, ok :| CanStep(s, h) && s' == Step(s, h, ok);
      if g :| At(s'.calls, g).CloseDelete? || At(s'.calls, g).CloseClear? {
        AtUpdate(s.calls, h, Then(s, At(s.calls, h), ok), g);
        if h == g && At(s.calls, g).CloseC? { assert Succeeds(s, s', g); }
      } else {
        assert !s.pointer || At(s.calls, h).CloseClear?;
      }
    }
  }

  lemma {:induction false} DeletedBySuccess(run: seq<State>, i: nat)
    requires IsRun(run) && i < |run| && (Deleting(run[i]) || !run[i].pointer)
    ensures SucceededBefore(run, i)
  {
    if i > 0 {
      var s, s' := run[i - 1], run[i];
      assert Successor(run[i - 1], run[i - 1 + 1]);
      OnlySuccessDeletes(s, s');
      if Deleting(s) || !s.pointer {
        DeletedBySuccess(run, i - 1);
        var k, g :| 0 <= k < i - 1 && SucceedsAt(run, k, g);
      } else {
        var g :| Succeeds(s, s', g);
        assert SucceedsAt(run, i - 1, g);
      }
    } else {
      assert forall g :: At(run[0].calls, g).Finished?;
    }
  }

  /** Over every run: whenever nobody is in the middle of deleting it, the session is gone if TF_CloseSession has
      reported success to some Close, and otherwise it is open and can be used; Closes that failed leave no
      trace. */
  lemma GoneExactly(run: seq<State>, i: nat)
    requires IsRun(run) && i < |run| && !Deleting(run[i])
    ensures Gone(run[i]) <==> SucceededBefore(run, i)
    ensures !Gone(run[i]) <==> run[i].pointer && run[i].alive && run[i].deletions == 0
  {
    RunIsSafe(run, i);
    OpenOrGone(run[i]);
    if Gone(run[i]) { DeletedBySuccess(run, i); }
    if SucceededBefore(run, i) {
      var k, g :| 0 <= k < i && SucceedsAt(run, k, g);
      SuccessLeadsToGone(run, k, i, g);
    }
  }

  /** Goroutine g is in the middle of one call from state i up to state j. */
  ghost predicate DuringCall(run: seq<State>, i: nat, j: nat, g: Goroutine) {
    && IsRun(run) && i <= j < |run|
    && forall k :: i <= k < j ==> !At(run[k].calls, g).Finished?
  }

  /** From one state to the next, a goroutine in the middle of a call stands still or takes its own step. */
  ghost predicate Advances(s: State, s': State, g: Goroutine, ok: bool) {
    CanStep(s, g) && s' == Step(s, g, ok)
  }

  lemma OwnStep(s: State, s': State, g: Goroutine)
    requires Successor(s, s') && !At(s.calls, g).Finished?
    ensures At(s'.calls, g) == At(s.calls, g) || exists ok :: Advances(s, s', g, ok)
  {
    if h, first :| Begins(s, h, first) && s' == s.(calls := s.calls[h := first]) {
      AtUpdate(s.calls, h, first, g);
    } else {
      var h, ok :| CanStep(s, h) && s' == Step(s, h, ok);
      AtUpdate(s.calls, h, Then(s, At(s.calls, h), ok), g);
      if h == g { assert Advances(s, s', g, ok); }
    }
  }

  /** While a goroutine holds the mutex and stands still, nobody clears the pointer. */
  lemma MutexKeepsPointer(s: State, s': State, g: Goroutine)
    requires Invariant(s) && Successor(s, s') && HoldsMutex(At(s.calls, g)) && At(s'.calls, g) == At(s.calls, g)
    ensures s'.pointer == s.pointer
  {
    if h, first :| Begins(s, h, first) && s' == s.(calls := s.calls[h := first]) {
    } else {
      var h, ok :| CanStep(s, h) && s' == Step(s, h, ok);
      AtUpdate(s.calls, h, Then(s, At(s.calls, h), ok), g);
      assert s.mu == Held(g);
      assert HoldsMutex(At(s.calls, h)) <==> s.mu == Held(h);
    }
  }

  /** The goroutine was seen at a place of its call. */
  ghost predicate Passes(run: seq<State>, i: nat, j: nat, g: Goroutine, n: Next) {
    exists k :: i <= k <= j && k < |run| && At(run[k].calls, g) == n
  }

  lemma PassesOn(run: seq<State>, i: nat, j: nat, g: Goroutine, n: Next)
    requires i < j < |run|
    ensures Passes(run, i, j - 1, g, n) || At(run[j].calls, g) == n ==> Passes(run, i, j, g, n)
    ensures At(run[j - 1].calls, g) == n ==> Passes(run, i, j, g, n)
  {
  }

  /** The way of a run that found the pointer set. */
  predicate BeforeC(n: Next) { n.RunCheck? || n.RunAdd? || n.RunUnlock? || n.RunCall? }
  predicate AfterC(n: Next) { n.RunReturn? || n.RunDone? || n.Finished? }

  lemma ServedNext(s: State, s': State, g: Goroutine)
    requires Invariant(s) && Successor(s, s') && !At(s.calls, g).Finished?
    requires BeforeC(At(s.calls, g)) || AfterC(At(s.calls, g))
    requires At(s.calls, g).RunCheck? ==> s.pointer
    ensures
      var n, n' := At(s.calls, g), At(s'.calls, g);
      && (n'.RunCheck? ==> s'.pointer)
      && if AfterC(n) then AfterC(n') else BeforeC(n') || (n.RunCall? && n'.RunReturn?)
  {
    OwnStep(s, s', g);
    if At(s'.calls, g) == At(s.calls, g) && At(s.calls, g).RunCheck? { MutexKeepsPointer(s, s', g); }
  }

  lemma {:induction false} RunIsServed(run: seq<State>, i: nat, j: nat, g: Goroutine)
    requires DuringCall(run, i, j, g) && At(run[i].calls, g).RunCheck? && run[i].pointer
    ensures
      var n := At(run[j].calls, g);
      && (n.RunCheck? ==> run[j].pointer) && (BeforeC(n) || AfterC(n))
      && (AfterC(n) ==> Passes(run, i, j, g, RunCall) && Passes(run, i, j, g, RunReturn))
    decreases j
  {
    if i < j {
      RunIsServed(run, i, j - 1, g);
      RunIsSafe(run, j - 1);
      assert Successor(run[j - 1], run[j - 1 + 1]);
      ServedNext(run[j - 1], run[j], g);
      PassesOn(run, i, j, g, RunCall);
      PassesOn(run, i, j, g, RunReturn);
    }
  }

  /** A run that takes the lock while the pointer is set - that is, before any Close has succeeded - enters C and
      comes back from it before it returns. */
  lemma OpenSessionServes(run: seq<State>, i: nat, j: nat, g: Goroutine)
    requires DuringCall(run, i, j, g) && At(run[i].calls, g).RunCheck? && run[i].pointer
    requires At(run[j].calls, g).Finished?
    ensures Passes(run, i, j, g, RunCall) && Passes(run, i, j, g, RunReturn)
  {
    RunIsServed(run, i, j, g);
  }

  lemma {:induction false} GoneFromThenOn(run: seq<State>, i: nat, j: nat)
    requires IsRun(run) && i <= j < |run| && Gone(run[i])
    ensures Gone(run[j])
    decreases j
  {
    if i < j {
      GoneFromThenOn(run, i, j - 1);
      RunIsSafe(run, j - 1);
      assert Successor(run[j - 1], run[j - 1 + 1]);
      GoneStays(run[j - 1], run[j]);
    }
  }

  /** Once the session is gone, nobody is inside C or on the way there, and no Close deletes anything. */
  lemma GoneMeansQuiet(run: seq<State>, i: nat, j: nat, g: Goroutine)
    requires IsRun(run) && i <= j < |run| && Gone(run[i])
    ensures Gone(run[j]) && !NeedsSession(At(run[j].calls, g))
  {
    GoneFromThenOn(run, i, j);
    RunIsSafe(run, j);
  }

  predicate Waits(n: Next) { n.RunLock? || n.RunCheck? }
  predicate Refused(n: Next) { n.RunReject? || n.Finished? }

  lemma RefusedNext(s: State, s': State, g: Goroutine)
    requires Successor(s, s') && !s.pointer && !At(s.calls, g).Finished?
    requires Waits(At(s.calls, g)) || Refused(At(s.calls, g))
    ensures
      var n, n' := At(s.calls, g), At(s'.calls, g);
      if Refused(n) then Refused(n') else Waits(n') || n'.RunReject?
  {
    OwnStep(s, s', g);
  }

  lemma {:induction false} RunIsRefused(run: seq<State>, i: nat, j: nat, g: Goroutine)
    requires DuringCall(run, i, j, g) && Gone(run[i]) && Waits(At(run[i].calls, g))
    ensures
      var n := At(run[j].calls, g);
      Waits(n) || (Refused(n) && Passes(run, i, j, g, RunReject))
    decreases j
  {
    if i < j {
      RunIsRefused(run, i, j - 1, g);
      GoneFromThenOn(run, i, j - 1);
      assert Successor(run[j - 1], run[j - 1 + 1]);
      RefusedNext(run[j - 1], run[j], g);
      PassesOn(run, i, j, g, RunReject);
    }
  }

  /** A run that waits for the lock, or has just got it, when the session is gone returns through the error. */
  lemma GoneSessionRefuses(run: seq<State>, i: nat, j: nat, g: Goroutine)
    requires DuringCall(run, i, j, g) && Gone(run[i]) && Waits(At(run[i].calls, g))
    requires At(run[j].calls, g).Finished?
    ensures Passes(run, i, j, g, RunReject)
  {
    RunIsRefused(run, i, j, g);
  }

  /** Goroutine g asks TF_CloseSession and hears the answer. */
  ghost predicate AsksAt(run: seq<State>, k: nat, g: Goroutine, ok: bool) {
    k + 1 < |run| && At(run[k].calls, g).CloseC? && Advances(run[k], run[k + 1], g, ok)
  }

  ghost predicate Asked(run: seq<State>, i: nat, j: nat, g: Goroutine) {
    exists k, ok :: i <= k < j && AsksAt(run, k, g, ok)
  }

  predicate BeforeAsking(n: Next) { n.CloseWait? || n.CloseCheck? || n.CloseC? }

  lemma AskingNext(s: State, s': State, g: Goroutine)
    requires Invariant(s) && Successor(s, s') && BeforeAsking(At(s.calls, g)) && (At(s.calls, g).CloseC? || s.pointer)
    ensures
      var n, n' := At(s.calls, g), At(s'.calls, g);
      || (BeforeAsking(n') && (n'.CloseC? || s'.pointer))
      || (n.CloseC? && exists ok :: Advances(s, s', g, ok))
  {
    OwnStep(s, s', g);
    if At(s'.calls, g) == At(s.calls, g) { MutexKeepsPointer(s, s', g); }
  }

  lemma {:induction false} CloseAsks(run: seq<State>, i: nat, j: nat, g: Goroutine)
    requires DuringCall(run, i, j, g) && At(run[i].calls, g).CloseWait? && run[i].pointer
    ensures
      var n := At(run[j].calls, g);
      Asked(run, i, j, g) || (BeforeAsking(n) && (n.CloseC? || run[j].pointer))
    decreases j
  {
    if i < j {
      CloseAsks(run, i, j - 1, g);
      if Asked(run, i, j - 1, g) {
        var k, ok :| i <= k < j - 1 && AsksAt(run, k, g, ok);
      } else {
        var s, s' := run[j - 1], run[j];
        RunIsSafe(run, j - 1);
        assert Successor(run[j - 1], run[j - 1 + 1]);
        AskingNext(s, s', g);
        if At(s.calls, g).CloseC? && !(BeforeAsking(At(s'.calls, g)) && (At(s'.calls, g).CloseC? || s'.pointer)) {
          var ok :| Advances(s, s', g, ok);
          assert AsksAt(run, j - 1, g, ok);
        }
      }
    }
  }

  /** A Close that heard that TF_CloseSession failed has only the mutex left to give back: from then on it does not
      touch the session. */
  lemma {:induction false} FailedCloseLeavesIt(run: seq<State>, k: nat, j: nat, g: Goroutine)
    requires AsksAt(run, k, g, false) && k < j && DuringCall(run, k + 1, j, g)
    ensures run[k + 1].pointer && run[k + 1].alive
    ensures At(run[j].calls, g).CloseUnlock? || At(run[j].calls, g).Finished?
    decreases j
  {
    RunIsSafe(run, k);
    if k + 1 < j {
      FailedCloseLeavesIt(run, k, j - 1, g);
      assert Successor(run[j - 1], run[j - 1 + 1]);
      OwnStep(run[j - 1], run[j], g);
    }
  }

  /** A Close that takes the lock while the pointer is set asks TF_CloseSession.  If the answer is success, the
      session is gone when Close returns. */
  lemma CloseCloses(run: seq<State>, i: nat, j: nat, g: Goroutine) returns (k: nat, ok: bool)
    requires DuringCall(run, i, j, g) && At(run[i].calls, g).CloseWait? && run[i].pointer
    requires At(run[j].calls, g).Finished?
    ensures i <= k < j && AsksAt(run, k, g, ok)
    ensures ok ==> Gone(run[j])
  {
    CloseAsks(run, i, j, g);
    k, ok :| i <= k < j && AsksAt(run, k, g, ok);
    RunIsSafe(run, k);
    if ok {
      assert SucceedsAt(run, k, g);
      SuccessLeadsToGone(run, k, j, g);
    }
  }

  /** A run of the protocol: one goroutine closes the session, and a call that another one begins afterwards is
      refused. */
  lemma ClosedThenRefused(g: Goroutine, h: Goroutine) returns (run: seq<State>)
    requires g != h
    ensures IsRun(run) && Gone(run[|run| - 1]) && At(run[|run| - 1].calls, h).RunReject?
  {
    run := CloseAlone(g);
    var s0 := run[|run| - 1];
    var s1 := s0.(calls := s0.calls[h := RunLock]);
    assert Begins(s0, h, RunLock) && Successor(s0, s1);
    var s2 := Step(s1, h, true);
    var s3 := Step(s2, h, true);
    assert Successor(s1, s2) && Successor(s2, s3);
    run := run + [s1, s2, s3];
  }

  lemma CloseAlone(g: Goroutine) returns (run: seq<State>)
    ensures IsRun(run) && CloserAlone(run[|run| - 1], g) && At(run[|run| - 1].calls, g).Finished?
  {
    run := [Initial(), Initial().(calls := map[g := CloseLock])];
    assert Begins(run[0], g, CloseLock);
    while !At(run[|run| - 1].calls, g).Finished?
      invariant |run| >= 2 && IsRun(run)
      invariant var s := run[|run| - 1]; CloserAlone(s, g)
      decreases Left(At(run[|run| - 1].calls, g))
    {
      var s := run[|run| - 1];
      assert Steps(s, Step(s, g, true));
      run := run + [Step(s, g, true)];
    }
  }

  /** Only g has begun a call, and it is on its way through a Close that succeeds. */
  ghost predicate CloserAlone(s: State, g: Goroutine) {
    var n := At(s.calls, g);
    && s.calls.Keys == {g} && s.wg == 0
    && (n.CloseLock? || n.CloseWait? || PastWait(n) || n.Finished?)
    && (s.mu == if n.CloseLock? || n.Finished? then Free else Held(g))
    && (n.CloseUnlock? || n.Finished? ==> Gone(s))
    && (n.CloseClear? ==> s.pointer && !s.alive && s.deletions == 1)
    && (!n.CloseUnlock? && !n.Finished? && !n.CloseClear? ==> s.pointer && s.alive && s.deletions == 0)
  }
}
