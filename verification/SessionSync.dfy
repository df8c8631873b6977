/** Incremental synchronisation of a graph with its sessions, tensorflow/c/c_api.cc: operations get
    consecutive ids, a failed operation leaves a hole, and a session is sent only the ids it has not
    accepted yet. */
module SessionSync {
  import opened Common

  datatype Node = Node(name: string)

  /** The id table grows only at its end; a removed node leaves None.  The first two ids belong to the
      source and sink nodes, which are not operations. */
  datatype Graph = Graph(nodes: seq<Option<Node>>, nameMap: map<string, nat>)

  const FIRST_OP: nat := 2

  function NewGraph(): Graph {
    Graph([Some(Node("_SOURCE")), Some(Node("_SINK"))], map[])
  }

  predicate IsLiveOp(nodes: seq<Option<Node>>, id: int) {
    FIRST_OP <= id < |nodes| && nodes[id].Some?
  }

  /** The live operations with ids in a range, in order: what a full copy would send. */
  function LiveOps(nodes: seq<Option<Node>>, lo: nat, hi: nat): (ids: seq<nat>)
    requires lo <= hi <= |nodes|
    decreases hi
  {
    if lo == hi then []
    else LiveOps(nodes, lo, hi - 1) + (if IsLiveOp(nodes, hi - 1) then [hi - 1] else [])
  }

  /** TF_FinishOperation: a taken name is refused; building the node may fail before an id is given out;
      shape inference may fail after, and then the node is removed again and its id is never reused. */
  function FinishOperation(g: Graph, name: string, builds: bool, infers: bool): Graph {
    if name in g.nameMap then g
    else if !builds then g
    else if !infers then g.(nodes := g.nodes + [None])
    else Graph(g.nodes + [Some(Node(name))], g.nameMap[name := |g.nodes|])
  }

  /** What a session was about to send when it released the graph's mutex. */
  datatype Pending = Pending(upTo: nat, batch: seq<nat>)

  datatype Session = Session(lastNumGraphNodes: nat, accepted: seq<nat>, pending: Option<Pending>)

  type SessionId = nat

  datatype State = State(graph: Graph, sessions: map<SessionId, Session>)

  /** The collecting loop of ExtendSessionGraphHelper. */
  method NodesToSend(nodes: seq<Option<Node>>, lastNumGraphNodes: nat) returns (batch: seq<nat>)
    requires lastNumGraphNodes <= |nodes|
    ensures batch == LiveOps(nodes, lastNumGraphNodes, |nodes|)
  {
    batch := [];
    for id := lastNumGraphNodes to |nodes|
      invariant batch == LiveOps(nodes, lastNumGraphNodes, id)
    {
      if nodes[id].Some? && id > 1 {
        batch := batch + [id];
      }
    }
  }

  /** The atomic steps.  Extend works in two: the ids are collected under the mutexes of the session and
      the graph, then the graph is released and the runtime accepts or refuses the batch. */
  datatype Action =
    | AddOp(name: string, builds: bool, infers: bool)
    | OpenSession(id: SessionId)
    | Collect(id: SessionId)
    | Commit(id: SessionId, ok: bool)

  ghost predicate Enabled(s: State, a: Action) {
    match a
    case AddOp(_, _, _) => true
    case OpenSession(id) => id !in s.sessions
    case Collect(id) => id in s.sessions && s.sessions[id].pending.None?
                        && s.sessions[id].lastNumGraphNodes < |s.graph.nodes|
    case Commit(id, _) => id in s.sessions && s.sessions[id].pending.Some?
  }

  ghost function Step(s: State, a: Action): State
    requires Enabled(s, a)
  {
    match a
    case AddOp(name, builds, infers) => s.(graph := FinishOperation(s.graph, name, builds, infers))
    case OpenSession(id) => s.(sessions := s.sessions[id := Session(0, [], None)])
    case Collect(id) =>
      var session, n := s.sessions[id], |s.graph.nodes|;
      var batch := LiveOps(s.graph.nodes, session.lastNumGraphNodes, n);
      s.(sessions := s.sessions[id := session.(pending := Some(Pending(n, batch)))])
    case Commit(id, ok) =>
      var session := s.sessions[id];
      var p := session.pending.value;
      s.(sessions := s.sessions[id := if ok then Session(p.upTo, session.accepted + p.batch, None)
                                      else session.(pending := None)])
  }

  /** The states that a sequence of actions goes through. */
  ghost predicate IsRun(run: seq<State>, actions: seq<Action>) {
    && |run| == |actions| + 1 && run[0] == State(NewGraph(), map[])
    && forall i :: 0 <= i < |actions| ==> Enabled(run[i], actions[i]) && run[i + 1] == Step(run[i], actions[i])
  }

  // ---------------------------------------------------------------------------------------
  // What every step keeps
  // ---------------------------------------------------------------------------------------

  lemma {:induction false} LiveOpsOfPrefix(nodes: seq<Option<Node>>, more: seq<Option<Node>>, lo: nat, hi: nat)
    requires lo <= hi <= |nodes|
    ensures LiveOps(nodes + more, lo, hi) == LiveOps(nodes, lo, hi)
    decreases hi
  {
    if lo < hi { LiveOpsOfPrefix(nodes, more, lo, hi - 1); }
  }

  /** Two consecutive batches are one big one. */
  lemma {:induction false} LiveOpsSplit(nodes: seq<Option<Node>>, lo: nat, mid: nat, hi: nat)
    requires lo <= mid <= hi <= |nodes|
    ensures LiveOps(nodes, lo, mid) + LiveOps(nodes, mid, hi) == LiveOps(nodes, lo, hi)
    decreases hi
  {
    if mid < hi { LiveOpsSplit(nodes, lo, mid, hi - 1); }
  }

  /** A session has accepted exactly what a full copy of the graph up to its mark would have sent, and what
      it is about to send is exactly the rest. */
  ghost predicate Synced(nodes: seq<Option<Node>>, session: Session) {
    && session.lastNumGraphNodes <= |nodes|
    && session.accepted == LiveOps(nodes, 0, session.lastNumGraphNodes)
    && (session.pending.Some? ==>
          var p := session.pending.value;
          session.lastNumGraphNodes <= p.upTo <= |nodes|
          && p.batch == LiveOps(nodes, session.lastNumGraphNodes, p.upTo))
  }

  /** The name map lists the live operations, each under its name. */
  ghost predicate NamesExact(g: Graph) {
    && (forall id :: IsLiveOp(g.nodes, id) ==>
          g.nodes[id].value.name in g.nameMap && g.nameMap[g.nodes[id].value.name] == id)
    && (forall name :: name in g.nameMap ==>
          IsLiveOp(g.nodes, g.nameMap[name]) && g.nodes[g.nameMap[name]].value.name == name)
  }

  ghost predicate Invariant(s: State) {
    && |s.graph.nodes| >= FIRST_OP && NamesExact(s.graph)
    && forall id :: id in s.sessions ==> Synced(s.graph.nodes, s.sessions[id])
  }

  lemma SyncedGrows(nodes: seq<Option<Node>>, more: seq<Option<Node>>, session: Session)
    requires Synced(nodes, session)
    ensures Synced(nodes + more, session)
  {
    LiveOpsOfPrefix(nodes, more, 0, session.lastNumGraphNodes);
    if session.pending.Some? {
      LiveOpsOfPrefix(nodes, more, session.lastNumGraphNodes, session.pending.value.upTo);
    }
  }

  lemma FinishKeeps(g: Graph, name: string, builds: bool, infers: bool)
    requires |g.nodes| >= FIRST_OP && NamesExact(g)
    ensures NamesExact(FinishOperation(g, name, builds, infers))
    ensures g.nodes <= FinishOperation(g, name, builds, infers).nodes
  {
    var g' := FinishOperation(g, name, builds, infers);
    forall id | IsLiveOp(g'.nodes, id)
      ensures g'.nodes[id].value.name in g'.nameMap && g'.nameMap[g'.nodes[id].value.name] == id
    {
      if id < |g.nodes| { assert IsLiveOp(g.nodes, id); }
    }
    forall n | n in g'.nameMap ensures IsLiveOp(g'.nodes, g'.nameMap[n]) && g'.nodes[g'.nameMap[n]].value.name == n {
      if n in g.nameMap && g'.nameMap[n] == g.nameMap[n] { assert IsLiveOp(g.nodes, g.nameMap[n]); }
    }
  }

  lemma StepKeeps(s: State, a: Action)
    requires Invariant(s) && Enabled(s, a)
    ensures Invariant(Step(s, a))
  {
    match a
    case AddOp(name, builds, infers) =>
      FinishKeeps(s.graph, name, builds, infers);
      var nodes, nodes' := s.graph.nodes, Step(s, a).graph.nodes;
      forall id | id in s.sessions ensures Synced(nodes', s.sessions[id]) {
        assert nodes' == nodes + nodes'[|nodes|..];
        SyncedGrows(nodes, nodes'[|nodes|..], s.sessions[id]);
      }
    case OpenSession(_) =>
    case Collect(_) =>
    case Commit(id, _) =>
      var session := s.sessions[id];
      LiveOpsSplit(s.graph.nodes, 0, session.lastNumGraphNodes, session.pending.value.upTo);
  }

  // ---------------------------------------------------------------------------------------
  // Over every run
  // ---------------------------------------------------------------------------------------

  lemma {:induction false} RunKeeps(run: seq<State>, actions: seq<Action>, i: nat)
    requires IsRun(run, actions) && i < |run|
    ensures Invariant(run[i])
  {
    if i > 0 {
      RunKeeps(run, actions, i - 1);
      StepKeeps(run[i - 1], actions[i - 1]);
    }
  }

  ghost predicate Increasing(ids: seq<nat>) {
    forall i, j :: 0 <= i < j < |ids| ==> ids[i] < ids[j]
  }

  /** A full copy sends exactly the live operations of its range, each once and in order. */
  lemma {:induction false} LiveOpsMember(nodes: seq<Option<Node>>, lo: nat, hi: nat, id: int)
    requires lo <= hi <= |nodes|
    ensures id in LiveOps(nodes, lo, hi) <==> lo <= id < hi && IsLiveOp(nodes, id)
    decreases hi
  {
    if lo < hi { LiveOpsMember(nodes, lo, hi - 1, id); }
  }

  lemma {:induction false} LiveOpsIncreasing(nodes: seq<Option<Node>>, lo: nat, hi: nat)
    requires lo <= hi <= |nodes|
    ensures Increasing(LiveOps(nodes, lo, hi))
    decreases hi
  {
    if lo < hi {
      var shorter := LiveOps(nodes, lo, hi - 1);
      LiveOpsIncreasing(nodes, lo, hi - 1);
      forall i | 0 <= i < |shorter| ensures shorter[i] < hi - 1 {
        LiveOpsMember(nodes, lo, hi - 1, shorter[i]);
      }
    }
  }

  /** After any mix of growth, failed additions and accepted or refused Extends: a session has accepted
      exactly the live operations below its mark, each once and in order. */
  lemma SentExactlyOnce(run: seq<State>, actions: seq<Action>, i: nat, id: SessionId)
    requires IsRun(run, actions) && i < |run| && id in run[i].sessions
    ensures
      var session, nodes := run[i].sessions[id], run[i].graph.nodes;
      && Increasing(session.accepted)
      && (forall n: int :: n in session.accepted <==> n < session.lastNumGraphNodes && IsLiveOp(nodes, n))
  {
    RunKeeps(run, actions, i);
    var nodes, mark := run[i].graph.nodes, run[i].sessions[id].lastNumGraphNodes;
    LiveOpsIncreasing(nodes, 0, mark);
    forall n: int ensures n in LiveOps(nodes, 0, mark) <==> 0 <= n < mark && IsLiveOp(nodes, n) {
      LiveOpsMember(nodes, 0, mark, n);
    }
  }

  /** No two operations that a session was sent have the same name. */
  lemma SentNamesDistinct(run: seq<State>, actions: seq<Action>, i: nat, id: SessionId, m: nat, n: nat)
    requires IsRun(run, actions) && i < |run| && id in run[i].sessions
    requires m in run[i].sessions[id].accepted && n in run[i].sessions[id].accepted && m != n
    ensures IsLiveOp(run[i].graph.nodes, m) && IsLiveOp(run[i].graph.nodes, n)
    ensures run[i].graph.nodes[m].value.name != run[i].graph.nodes[n].value.name
  {
    RunKeeps(run, actions, i);
    SentExactlyOnce(run, actions, i, id);
  }

  /** Between steps i and j a session has collected its ids and has not had an answer. */
  ghost predicate Waits(run: seq<State>, actions: seq<Action>, i: nat, j: nat, id: SessionId) {
    && IsRun(run, actions) && i < j < |run| && actions[i] == Collect(id)
    && forall k :: i < k < j ==> !(actions[k].Commit? && actions[k].id == id)
  }

  /** Whatever happens in between, the graph only grows and the collected batch stays what it was. */
  lemma {:induction false} BatchStays(run: seq<State>, actions: seq<Action>, i: nat, j: nat, id: SessionId)
    requires Waits(run, actions, i, j, id)
    ensures run[i].graph.nodes <= run[j].graph.nodes
    ensures id in run[j].sessions && run[j].sessions[id].pending.Some?
    ensures run[j].sessions[id].pending.value.upTo == |run[i].graph.nodes|
    decreases j
  {
    var s, a := run[j - 1], actions[j - 1];
    RunKeeps(run, actions, j - 1);
    assert Enabled(s, a) && run[j - 1 + 1] == Step(s, a);
    GraphGrows(s, a);
    if j - 1 > i {
      BatchStays(run, actions, i, j - 1, id);
      OthersLeaveIt(s, a, id);
    }
  }

  lemma GraphGrows(s: State, a: Action)
    requires Invariant(s) && Enabled(s, a)
    ensures s.graph.nodes <= Step(s, a).graph.nodes
  {
    if a.AddOp? { FinishKeeps(s.graph, a.name, a.builds, a.infers); }
  }

  lemma OthersLeaveIt(s: State, a: Action, id: SessionId)
    requires Enabled(s, a) && id in s.sessions && s.sessions[id].pending.Some? && !(a.Commit? && a.id == id)
    ensures id in Step(s, a).sessions && Step(s, a).sessions[id] == s.sessions[id]
  {
  }

  /** An accepted Extend leaves the session with exactly what a full copy would have sent at the moment when the
      ids were collected, however much the graph grew and other sessions did in the meantime. */
  lemma ExtendCompletes(run: seq<State>, actions: seq<Action>, i: nat, j: nat, id: SessionId)
    requires Waits(run, actions, i, j, id) && j < |actions| && actions[j] == Commit(id, true)
    ensures id in run[j + 1].sessions
    ensures
      var session, nodes := run[j + 1].sessions[id], run[i].graph.nodes;
      session.lastNumGraphNodes == |nodes| && session.accepted == LiveOps(nodes, 0, |nodes|)
  {
    BatchStays(run, actions, i, j, id);
    RunKeeps(run, actions, j);
    RunKeeps(run, actions, j + 1);
    var nodes, more := run[i].graph.nodes, run[j].graph.nodes;
    assert more == nodes + more[|nodes|..];
    LiveOpsOfPrefix(nodes, more[|nodes|..], 0, |nodes|);
    assert run[j + 1] == Step(run[j], actions[j]);
  }

  // ---------------------------------------------------------------------------------------
  // What the actions add up to
  // ---------------------------------------------------------------------------------------

  /** An operation of that name was added successfully before step i. */
  ghost predicate AddedBefore(actions: seq<Action>, i: nat, name: string) {
    exists k :: 0 <= k < i && k < |actions| && actions[k] == AddOp(name, true, true)
  }

  /** A name is taken exactly if an operation of that name was added successfully. */
  lemma {:induction false} TakenExactly(run: seq<State>, actions: seq<Action>, i: nat, name: string)
    requires IsRun(run, actions) && i < |run|
    ensures name in run[i].graph.nameMap <==> AddedBefore(actions, i, name)
  {
    if i > 0 {
      TakenExactly(run, actions, i - 1, name);
      assert Enabled(run[i - 1], actions[i - 1]) && run[i - 1 + 1] == Step(run[i - 1], actions[i - 1]);
      if AddedBefore(actions, i, name) {
        var k :| 0 <= k < i && k < |actions| && actions[k] == AddOp(name, true, true);
        if k < i - 1 { assert AddedBefore(actions, i - 1, name); }
      }
    }
  }

  /** The action gives out an id: a node is built under a name that is free. */
  ghost predicate GivesId(actions: seq<Action>, k: nat) {
    k < |actions| && actions[k].AddOp? && actions[k].builds && !AddedBefore(actions, k, actions[k].name)
  }

  ghost function IdsGiven(actions: seq<Action>, i: nat): nat {
    if i == 0 then 0 else IdsGiven(actions, i - 1) + (if GivesId(actions, i - 1) then 1 else 0)
  }

  /** Beside the two of the source and the sink, there are as many ids as nodes that were built, those that were
      removed again included. */
  lemma {:induction false} IdsCounted(run: seq<State>, actions: seq<Action>, i: nat)
    requires IsRun(run, actions) && i < |run|
    ensures |run[i].graph.nodes| == FIRST_OP + IdsGiven(actions, i)
  {
    if i > 0 {
      IdsCounted(run, actions, i - 1);
      assert Enabled(run[i - 1], actions[i - 1]) && run[i - 1 + 1] == Step(run[i - 1], actions[i - 1]);
      if actions[i - 1].AddOp? { TakenExactly(run, actions, i - 1, actions[i - 1].name); }
    }
  }

  /** An operation that was added before a session collected its ids has been accepted by the session, under its
      name, when its Extend has. */
  lemma AddedIsSent(run: seq<State>, actions: seq<Action>, k: nat, i: nat, j: nat, id: SessionId, name: string)
      returns (n: nat)
    requires Waits(run, actions, i, j, id) && j < |actions| && actions[j] == Commit(id, true)
    requires k < i && actions[k] == AddOp(name, true, true)
    ensures id in run[j + 1].sessions && n in run[j + 1].sessions[id].accepted
    ensures IsLiveOp(run[j + 1].graph.nodes, n) && run[j + 1].graph.nodes[n].value.name == name
  {
    assert AddedBefore(actions, i, name);
    TakenExactly(run, actions, i, name);
    RunKeeps(run, actions, i);
    n := run[i].graph.nameMap[name];
    ExtendCompletes(run, actions, i, j, id);
    LiveOpsMember(run[i].graph.nodes, 0, |run[i].graph.nodes|, n);
    BatchStays(run, actions, i, j, id);
    RunKeeps(run, actions, j);
    GraphGrows(run[j], actions[j]);
    assert run[j + 1] == Step(run[j], actions[j]);
  }

  /** A session exists exactly if it was opened. */
  lemma {:induction false} OpenedExactly(run: seq<State>, actions: seq<Action>, i: nat, id: SessionId)
    requires IsRun(run, actions) && i < |run|
    ensures id in run[i].sessions <==> exists k :: 0 <= k < i && k < |actions| && actions[k] == OpenSession(id)
  {
    if i > 0 {
      OpenedExactly(run, actions, i - 1, id);
      assert Enabled(run[i - 1], actions[i - 1]) && run[i - 1 + 1] == Step(run[i - 1], actions[i - 1]);
      if id in run[i].sessions && id !in run[i - 1].sessions { assert actions[i - 1] == OpenSession(id); }
    }
  }

  /** A refused Extend leaves the session as it was before the ids were collected, so that it can try again. */
  lemma RefusedLeavesIt(run: seq<State>, actions: seq<Action>, i: nat, j: nat, id: SessionId)
    requires Waits(run, actions, i, j, id) && j < |actions| && actions[j] == Commit(id, false)
    ensures id in run[i].sessions && id in run[j + 1].sessions && run[j + 1].sessions[id] == run[i].sessions[id]
  {
    StillWaiting(run, actions, i, j, id);
    assert run[j + 1] == Step(run[j], actions[j]);
  }

  lemma {:induction false} StillWaiting(run: seq<State>, actions: seq<Action>, i: nat, j: nat, id: SessionId)
    requires Waits(run, actions, i, j, id)
    ensures id in run[i].sessions && run[i].sessions[id].pending.None?
    ensures id in run[j].sessions && run[j].sessions[id].pending.Some?
    ensures run[j].sessions[id].(pending := None) == run[i].sessions[id]
    decreases j
  {
    var s, a := run[j - 1], actions[j - 1];
    assert Enabled(s, a) && run[j - 1 + 1] == Step(s, a);
    if j - 1 > i {
      StillWaiting(run, actions, i, j - 1, id);
      OthersLeaveIt(s, a, id);
    }
  }

  /** An idle session can extend exactly if it is behind, and one Extend that is accepted leaves it with
      everything. */
  lemma CanCatchUp(run: seq<State>, actions: seq<Action>, i: nat, id: SessionId)
    requires IsRun(run, actions) && i < |run| && id in run[i].sessions && run[i].sessions[id].pending.None?
    ensures Enabled(run[i], Collect(id)) <==> run[i].sessions[id].lastNumGraphNodes < |run[i].graph.nodes|
    ensures
      var s, n := run[i], |run[i].graph.nodes|;
      s.sessions[id].lastNumGraphNodes < n ==>
      var s1 := Step(s, Collect(id));
      Enabled(s1, Commit(id, true)) &&
      Step(s1, Commit(id, true)).sessions[id] == Session(n, LiveOps(s.graph.nodes, 0, n), None)
  {
    RunKeeps(run, actions, i);
    LiveOpsSplit(run[i].graph.nodes, 0, run[i].sessions[id].lastNumGraphNodes, |run[i].graph.nodes|);
  }
}
