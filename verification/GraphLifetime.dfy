/** The shared lifetime of a graph and its sessions, tensorflow/c/c_api.cc: a graph is freed by whoever
    brings the session count to zero and the deletion request together.  A critical section under the
    graph's mutex is one atomic step; the delete that may follow it is another. */
module GraphLifetime {

  type Client = nat

  /** What a client thread does next. */
  datatype Next =
    | CreateSession    // NewSession(opt->options, &session)
    | CountSession     // lock; num_sessions += 1; unlock
    | UncountSession   // lock; num_sessions -= 1; del = delete_requested && num_sessions == 0; unlock
    | RequestDelete    // lock; delete_requested = true; del = num_sessions == 0; unlock
    | FreeGraph        // if (del) delete graph
    | Finished

  type Calls = map<Client, Next>

  function At(calls: Calls, c: Client): Next {
    if c in calls then calls[c] else Finished
  }

  datatype State = State(
    numSessions: int,
    deleteRequested: bool,
    frees: nat,            // how often the graph was freed
    open: nat,             // sessions that were returned to a client and whose deletion has not begun
    asked: bool,           // a client has called TF_DeleteGraph
    calls: Calls)

  function Initial(): State {
    State(0, false, 0, 0, false, map[])
  }

  /** One step; `ok` is whether the runtime could create the session. */
  function Step(s: State, c: Client, ok: bool): State
    requires !At(s.calls, c).Finished?
  {
    match At(s.calls, c)
    case CreateSession => s.(calls := s.calls[c := if ok then CountSession else Finished])
    case CountSession =>
      s.(numSessions := s.numSessions + 1, open := s.open + 1,
         calls := s.calls[c := Finished])
    case UncountSession =>
      var del := s.deleteRequested && s.numSessions - 1 == 0;
      s.(numSessions := s.numSessions - 1,
         calls := s.calls[c := if del then FreeGraph else Finished])
    case RequestDelete =>
      var del := s.numSessions == 0;
      s.(deleteRequested := true,
         calls := s.calls[c := if del then FreeGraph else Finished])
    case FreeGraph =>
      s.(frees := s.frees + 1,
         calls := s.calls[c := Finished])
  }

  /** A thread whose next step locks the graph's mutex, or frees the graph, touches the graph. */
  predicate Touches(n: Next) { !n.CreateSession? && !n.Finished? }

  /** The graph was freed and somebody is about to touch it, or it is about to be freed while sessions count it. */
  ghost predicate Misused(s: State) {
    || (s.frees > 0 && exists c :: Touches(At(s.calls, c)))
    || (s.numSessions != 0 && exists c :: At(s.calls, c).FreeGraph?)
  }

  predicate Opening(n: Next) { n.CreateSession? || n.CountSession? }

  ghost predicate NoneOpening(calls: Calls) {
    forall c :: c in calls ==> !Opening(calls[c])
  }

  /** What clients may call: sessions are opened only before deletion is asked for, every open session is
      deleted once, and deletion is asked for once. */
  predicate MayBegin(s: State, c: Client, first: Next) {
    && At(s.calls, c).Finished?
    && match first
       case CreateSession => !s.asked
       case UncountSession => s.open > 0
       case RequestDelete => !s.asked
       case _ => false
  }

  function Begin(s: State, c: Client, first: Next): State {
    s.(open := if first.UncountSession? && s.open > 0 then s.open - 1 else s.open,
       asked := s.asked || first.RequestDelete?,
       calls := s.calls[c := first])
  }

  ghost predicate Successor(s: State, s': State) {
    || (exists c, first :: MayBegin(s, c, first) && s' == Begin(s, c, first))
    || (exists c, ok :: !At(s.calls, c).Finished? && s' == Step(s, c, ok))
  }

  /** States that follow one another, from any state on. */
  ghost predicate Continues(run: seq<State>, s: State) {
    && |run| > 0 && run[0] == s
    && forall i :: 0 <= i < |run| - 1 ==> Successor(run[i], run[i + 1])
  }

  ghost predicate IsRun(run: seq<State>) { Continues(run, Initial()) }

  /** Deletion is asked for only when no session is just being opened. */
  ghost predicate Considerate(run: seq<State>) {
    forall i :: 0 <= i < |run| - 1 && !run[i].asked && run[i + 1].asked ==> NoneOpening(run[i].calls)
  }

  // ---------------------------------------------------------------------------------------
  // What every step keeps
  // ---------------------------------------------------------------------------------------

  ghost function Doing(calls: Calls, n: Next): set<Client> {
    set c | c in calls && calls[c] == n
  }

  lemma DoingUpdate(calls: Calls, c: Client, next: Next, n: Next)
    requires !n.Finished?
    ensures |Doing(calls[c := next], n)|
            == |Doing(calls, n)| + (if next == n then 1 else 0) - (if At(calls, c) == n then 1 else 0)
  {
    var others := Doing(calls, n) - {c};
    assert Doing(calls, n) == if At(calls, c) == n then others + {c} else others;
    assert Doing(calls[c := next], n) == if next == n then others + {c} else others by {
      forall d ensures d in Doing(calls[c := next], n) <==> if d == c then next == n else d in Doing(calls, n) {
      }
    }
  }

  /** Nobody needs the graph any more. */
  predicate Orphaned(s: State) { s.deleteRequested && s.numSessions == 0 }

  /** What holds whether or not a session is being opened when deletion is asked for. */
  ghost predicate Counted(s: State) {
    // the count is that of the sessions that clients hold or are about to give up
    && s.numSessions == s.open + |Doing(s.calls, UncountSession)|
    // deletion is asked for and requested once
    && |Doing(s.calls, RequestDelete)| == (if s.asked && !s.deleteRequested then 1 else 0)
    && (s.deleteRequested ==> s.asked)
    // before that, nothing is freed
    && (!s.deleteRequested ==> s.frees == |Doing(s.calls, FreeGraph)| == 0)
  }

  ghost predicate Invariant(s: State) {
    && Counted(s)
    // the graph is freed, or about to be, exactly when nobody needs it
    && s.frees + |Doing(s.calls, FreeGraph)| == (if Orphaned(s) then 1 else 0)
    // once deletion was asked for, nobody is opening a session
    && (s.asked ==> NoneOpening(s.calls))
  }

  lemma AllUpdates(calls: Calls, c: Client, next: Next)
    ensures forall n :: n in {UncountSession, RequestDelete, FreeGraph} ==>
              |Doing(calls[c := next], n)|
              == |Doing(calls, n)| + (if next == n then 1 else 0) - (if At(calls, c) == n then 1 else 0)
    ensures NoneOpening(calls) && !Opening(next) ==> NoneOpening(calls[c := next])
  {
    DoingUpdate(calls, c, next, UncountSession);
    DoingUpdate(calls, c, next, RequestDelete);
    DoingUpdate(calls, c, next, FreeGraph);
  }

  lemma DoingPositive(s: State, c: Client)
    requires c in s.calls
    ensures |Doing(s.calls, s.calls[c])| > 0
  {
    assert c in Doing(s.calls, s.calls[c]);
  }

  lemma BeginKeeps(s: State, c: Client, first: Next)
    requires MayBegin(s, c, first)
    ensures Counted(s) ==> Counted(Begin(s, c, first))
    ensures Invariant(s) && (first.RequestDelete? ==> NoneOpening(s.calls)) ==> Invariant(Begin(s, c, first))
  {
    AllUpdates(s.calls, c, first);
  }

  lemma StepKeeps(s: State, c: Client, ok: bool)
    requires !At(s.calls, c).Finished?
    ensures Counted(s) ==> Counted(Step(s, c, ok))
    ensures Invariant(s) ==> Invariant(Step(s, c, ok))
  {
    DoingPositive(s, c);
    AllUpdates(s.calls, c, At(Step(s, c, ok).calls, c));
  }

  lemma SuccessorKeeps(s: State, s': State)
    requires Successor(s, s')
    ensures Counted(s) ==> Counted(s')
    ensures Invariant(s) && (!s.asked && s'.asked ==> NoneOpening(s.calls)) ==> Invariant(s')
    ensures s.asked ==> s'.asked
  {
    if c, first :| MayBegin(s, c, first) && s' == Begin(s, c, first) {
      BeginKeeps(s, c, first);
    } else {
      var c, ok :| !At(s.calls, c).Finished? && s' == Step(s, c, ok);
      StepKeeps(s, c, ok);
    }
  }

  // ---------------------------------------------------------------------------------------
  // Over every run
  // ---------------------------------------------------------------------------------------

  lemma {:induction false} ContinuationKeeps(run: seq<State>, s: State, i: nat)
    requires Continues(run, s) && i < |run|
    ensures Counted(s) ==> Counted(run[i])
    ensures Invariant(s) && Considerate(run) ==> Invariant(run[i])
    ensures s.asked ==> run[i].asked
  {
    if i > 0 {
      ContinuationKeeps(run, s, i - 1);
      assert Successor(run[i - 1], run[i - 1 + 1]);
      SuccessorKeeps(run[i - 1], run[i]);
    }
  }

  lemma InitialHolds()
    ensures Invariant(Initial())
  {
    assert Doing(map[], UncountSession) == {} == Doing(map[], RequestDelete);
    assert Doing(map[], FreeGraph) == {};
  }

  lemma RunKeeps(run: seq<State>, i: nat)
    requires IsRun(run) && i < |run|
    ensures Counted(run[i]) && (Considerate(run) ==> Invariant(run[i]))
  {
    InitialHolds();
    ContinuationKeeps(run, Initial(), i);
  }

  /** In every considerate interleaving the graph is freed at most once, nobody touches it afterwards, and no
      session counts it then. */
  lemma FreedOnce(run: seq<State>, i: nat)
    requires IsRun(run) && Considerate(run) && i < |run|
    ensures !Misused(run[i]) && run[i].frees <= 1
    ensures run[i].frees == 1 ==> Orphaned(run[i]) && run[i].open == 0
  {
    RunKeeps(run, i);
    NotMisused(run[i]);
  }

  lemma NotMisused(s: State)
    requires Invariant(s)
    ensures !Misused(s)
  {
    forall c | !At(s.calls, c).Finished?
      ensures !(s.frees > 0 && Touches(At(s.calls, c))) && !(s.numSessions != 0 && At(s.calls, c).FreeGraph?)
    {
      DoingPositive(s, c);
    }
  }

  /** Once the graph is freed, no call is in progress and none may begin: nothing can touch it any more. */
  lemma FreedIsFinal(run: seq<State>, i: nat, c: Client, first: Next)
    requires IsRun(run) && Considerate(run) && i < |run| && run[i].frees > 0
    ensures At(run[i].calls, c).Finished? && !MayBegin(run[i], c, first)
  {
    RunKeeps(run, i);
    if !At(run[i].calls, c).Finished? { DoingPositive(run[i], c); }
  }

  /** A step makes its thread free the graph exactly when it is the step that brings the request and the
      count of zero together; no other step does. */
  lemma FreedByTheLastStep(s: State, c: Client, ok: bool)
    requires Invariant(s) && !At(s.calls, c).Finished?
    ensures At(Step(s, c, ok).calls, c).FreeGraph? <==> !Orphaned(s) && Orphaned(Step(s, c, ok))
  {
    DoingPositive(s, c);
  }

  /** When all calls have returned, the graph is gone exactly if deletion was requested and no session is
      left: nothing leaks. */
  lemma NothingLeaks(run: seq<State>, i: nat)
    requires IsRun(run) && Considerate(run) && i < |run|
    requires forall c :: c in run[i].calls ==> run[i].calls[c].Finished?
    ensures run[i].frees == 1 <==> run[i].deleteRequested && run[i].open == 0
  {
    RunKeeps(run, i);
    assert Doing(run[i].calls, FreeGraph) == {} == Doing(run[i].calls, UncountSession);
  }

  // ---------------------------------------------------------------------------------------
  // When asking for deletion is safe
  // ---------------------------------------------------------------------------------------

  /** A state can be followed by others that end in misuse of the graph. */
  ghost predicate LeadsToMisuse(s: State) {
    exists run :: Misuses(run, s)
  }

  ghost predicate Misuses(run: seq<State>, s: State) {
    Continues(run, s) && Misused(run[|run| - 1])
  }

  lemma MisuseBefore(s: State, s': State)
    requires Successor(s, s') && LeadsToMisuse(s')
    ensures LeadsToMisuse(s)
  {
    var run :| Misuses(run, s');
    var longer := [s] + run;
    forall i | 0 <= i < |longer| - 1 ensures Successor(longer[i], longer[i + 1]) {
      if i > 0 { assert Successor(run[i - 1], run[i - 1 + 1]); }
    }
    assert Misuses(longer, s);
  }

  lemma MisuseBeforeStep(s: State, c: Client)
    requires !At(s.calls, c).Finished? && LeadsToMisuse(Step(s, c, true))
    ensures LeadsToMisuse(s)
  {
    assert Successor(s, Step(s, c, true));
    MisuseBefore(s, Step(s, c, true));
  }

  /** Someone who is opening a session when the graph is gone goes on to count it there. */
  lemma OpenerMisuses(s: State, a: Client)
    requires Opening(At(s.calls, a)) && s.frees > 0
    ensures LeadsToMisuse(s)
  {
    if At(s.calls, a).CreateSession? {
      var s' := Step(s, a, true);
      assert Touches(At(s'.calls, a));
      assert Misuses([s'], s');
      MisuseBeforeStep(s, a);
    } else {
      assert Touches(At(s.calls, a));
      assert Misuses([s], s);
    }
  }

  /** The thread that is to free the graph does so while somebody is opening a session. */
  lemma FreedTooEarly(s: State, a: Client, c: Client)
    requires Opening(At(s.calls, a)) && At(s.calls, c).FreeGraph?
    ensures LeadsToMisuse(s)
  {
    OpenerMisuses(Step(s, c, true), a);
    MisuseBeforeStep(s, c);
  }

  /** After the request, with somebody opening a session and b idle, deleting the sessions one by one frees
      the graph under the opener. */
  lemma {:induction false} DrainedTooEarly(s: State, a: Client, b: Client)
    requires Counted(s) && s.deleteRequested && s.numSessions > 0
    requires Opening(At(s.calls, a)) && At(s.calls, b).Finished?
    ensures LeadsToMisuse(s)
    decreases s.numSessions
  {
    if c :| c in s.calls && s.calls[c].UncountSession? {
      UncountedTooEarly(s, a, b, c);
    } else {
      assert Doing(s.calls, UncountSession) == {};
      var s' := Begin(s, b, UncountSession);
      assert MayBegin(s, b, UncountSession) && Successor(s, s');
      BeginKeeps(s, b, UncountSession);
      UncountedTooEarly(s', a, b, b);
      MisuseBefore(s, s');
    }
  }

  lemma {:induction false} UncountedTooEarly(s: State, a: Client, b: Client, c: Client)
    requires Counted(s) && s.deleteRequested && s.numSessions > 0
    requires Opening(At(s.calls, a)) && At(s.calls, c).UncountSession? && (b == c || At(s.calls, b).Finished?)
    ensures LeadsToMisuse(s)
    decreases s.numSessions, 0
  {
    var s' := Step(s, c, true);
    StepKeeps(s, c, true);
    if s'.numSessions == 0 { FreedTooEarly(s', a, c); } else { DrainedTooEarly(s', a, b); }
    MisuseBeforeStep(s, c);
  }

  /** A session that is being opened when deletion is asked for can end up counting itself in a graph that is
      gone, however many sessions there are. */
  lemma OpeningIsUnsafe(s: State, a: Client, b: Client)
    requires Counted(s) && MayBegin(s, b, RequestDelete) && Opening(At(s.calls, a))
    ensures LeadsToMisuse(Begin(s, b, RequestDelete))
  {
    var s1 := Begin(s, b, RequestDelete);
    var s2 := Step(s1, b, true);
    BeginKeeps(s, b, RequestDelete);
    StepKeeps(s1, b, true);
    if s2.numSessions == 0 { FreedTooEarly(s2, a, b); } else { DrainedTooEarly(s2, a, b); }
    MisuseBeforeStep(s1, b);
  }

  /** In every reachable state in which deletion may be asked for: nothing that can follow misuses the graph,
      exactly if no client is opening a session. */
  lemma SafeToAskExactly(run: seq<State>, b: Client)
    requires IsRun(run) && MayBegin(run[|run| - 1], b, RequestDelete)
    ensures
      var s := run[|run| - 1];
      !LeadsToMisuse(Begin(s, b, RequestDelete)) <==> NoneOpening(s.calls)
  {
    var n := |run| - 1;
    var s := run[n];
    RunKeeps(run, n);
    if NoneOpening(s.calls) {
      NotAskedBefore(run);
      RunKeeps(run, n);
      var s' := Begin(s, b, RequestDelete);
      BeginKeeps(s, b, RequestDelete);
      forall more | Continues(more, s') ensures !Misuses(more, s') {
        AskedMeansConsiderate(more, s');
        ContinuationKeeps(more, s', |more| - 1);
        NotMisused(more[|more| - 1]);
      }
    } else {
      var a :| a in s.calls && Opening(s.calls[a]);
      OpeningIsUnsafe(s, a, b);
    }
  }

  /** A run in which deletion was never asked for is considerate. */
  lemma NotAskedBefore(run: seq<State>)
    requires IsRun(run) && !run[|run| - 1].asked
    ensures Considerate(run)
  {
    forall i | 0 <= i < |run| ensures !run[i].asked { AskedStays(run, Initial(), i, |run| - 1); }
  }

  lemma {:induction false} AskedStays(run: seq<State>, s: State, i: nat, j: nat)
    requires Continues(run, s) && i <= j < |run|
    ensures run[i].asked ==> run[j].asked
  {
    if i < j {
      AskedStays(run, s, i, j - 1);
      assert Successor(run[j - 1], run[j - 1 + 1]);
      SuccessorKeeps(run[j - 1], run[j]);
    }
  }

  lemma AskedMeansConsiderate(run: seq<State>, s: State)
    requires Continues(run, s) && s.asked
    ensures Considerate(run)
  {
    forall i | 0 <= i < |run| ensures run[i].asked { AskedStays(run, s, 0, i); }
  }

  /** The shortest such run: one client has created its session and has not counted it yet, another one asks
      for deletion and frees the graph. */
  lemma LateSessionMisuses(a: Client, b: Client) returns (run: seq<State>)
    requires a != b
    ensures IsRun(run) && |run| == 6 && Misused(run[5]) && run[5].frees == 1
    ensures At(run[5].calls, a).CountSession?
  {
    var s1 := Begin(Initial(), a, CreateSession);
    var s2 := Step(s1, a, true);
    var s3 := Begin(s2, b, RequestDelete);
    var s4 := Step(s3, b, true);
    var s5 := Step(s4, b, true);
    run := [Initial(), s1, s2, s3, s4, s5];
    assert MayBegin(Initial(), a, CreateSession) && Successor(Initial(), s1);
    assert Successor(s1, s2);
    assert MayBegin(s2, b, RequestDelete) && Successor(s2, s3);
    assert Successor(s3, s4) && Successor(s4, s5);
    assert Touches(At(s5.calls, a));
  }
}
