/** The ladder of gomoku/ladder/ladder.cc and the supervisor of gomoku/ladder/supervisor.cc: games are sent
    to workers as asynchronous calls, a bounded number at a time, and their results are counted. */
module Tournament {
  import opened Metrics
  import Gomoku
  import Draw

  // ---------------------------------------------------------------------------------------
  // The ladder
  // ---------------------------------------------------------------------------------------

  datatype ActorStats = ActorStats(won: nat, games: nat)

  type Stats = map<string, ActorStats>

  /** A completed game: who played, and the score of the recording. */
  datatype Game = Game(first: string, second: string, score: real)
  {
    function Winner(): string { if score >= 0.5 then first else second }
    function Loser(): string { if score >= 0.5 then second else first }
  }

  /** unordered_map::operator[] makes missing statistics zero. */
  function Get(stats: Stats, name: string): ActorStats {
    if name in stats then stats[name] else ActorStats(0, 0)
  }

  function Wins(history: seq<Game>, name: string): nat {
    if history == [] then 0
    else
      var n := |history| - 1;
      Wins(history[..n], name) + (if history[n].Winner() == name then 1 else 0)
  }

  /** How often an actor took part; an actor that meets itself takes part twice. */
  function Plays(history: seq<Game>, name: string): nat {
    if history == [] then 0
    else
      var n := |history| - 1;
      Plays(history[..n], name)
      + (if history[n].first == name then 1 else 0) + (if history[n].second == name then 1 else 0)
  }

  /** The games that count as won: those in which the actor was first and the score was at least one half, or
      second and it was less. */
  ghost function WonIn(history: seq<Game>, name: string): set<nat> {
    set i: nat | i < |history| && name == if history[i].score >= 0.5 then history[i].first else history[i].second
  }

  lemma {:induction false} WinsCountsGames(history: seq<Game>, name: string)
    ensures Wins(history, name) == |WonIn(history, name)|
  {
    if history == [] {
      assert WonIn(history, name) == {};
    } else {
      var n := |history| - 1;
      WinsCountsGames(history[..n], name);
      OneMoreWin(history, name);
      OneMorePlace(WonIn(history[..n], name), n);
    }
  }

  lemma OneMoreWin(history: seq<Game>, name: string)
    requires history != []
    ensures
      var n := |history| - 1;
      && n !in WonIn(history[..n], name)
      && WonIn(history, name) == WonIn(history[..n], name) + (if history[n].Winner() == name then {n} else {})
  {
  }

  ghost function FirstIn(history: seq<Game>, name: string): set<nat> {
    set i: nat | i < |history| && history[i].first == name
  }

  ghost function SecondIn(history: seq<Game>, name: string): set<nat> {
    set i: nat | i < |history| && history[i].second == name
  }

  /** An actor's games are those in which it was first and those in which it was second. */
  lemma {:induction false} PlaysCountsGames(history: seq<Game>, name: string)
    ensures Plays(history, name) == |FirstIn(history, name)| + |SecondIn(history, name)|
  {
    if history == [] {
      assert FirstIn(history, name) == {} == SecondIn(history, name);
    } else {
      var n := |history| - 1;
      var before := history[..n];
      PlaysCountsGames(before, name);
      OneMoreGame(history, name);
      OneMorePlace(FirstIn(before, name), n);
      OneMorePlace(SecondIn(before, name), n);
    }
  }

  lemma OneMoreGame(history: seq<Game>, name: string)
    requires history != []
    ensures
      var n := |history| - 1;
      var before := history[..n];
      && n !in FirstIn(before, name) && n !in SecondIn(before, name)
      && FirstIn(history, name) == FirstIn(before, name) + (if history[n].first == name then {n} else {})
      && SecondIn(history, name) == SecondIn(before, name) + (if history[n].second == name then {n} else {})
  {
  }

  lemma OneMorePlace(places: set<nat>, n: nat)
    requires n !in places
    ensures |places + {n}| == |places| + 1 && places + {} == places
  {
  }

  function WonOf(s: ActorStats): int { s.won }
  function GamesOf(s: ActorStats): int { s.games }

  /** A field of the statistics, added up over all actors. */
  ghost function Total(field: ActorStats -> int, stats: Stats): int
    decreases |stats|
  {
    if stats == map[] then 0
    else
      var name :| name in stats;
      field(stats[name]) + Total(field, stats - {name})
  }

  lemma {:induction false} TotalSplits(field: ActorStats -> int, stats: Stats, name: string)
    requires name in stats
    ensures Total(field, stats) == field(stats[name]) + Total(field, stats - {name})
    decreases |stats|
  {
    var other :| other in stats && Total(field, stats) == field(stats[other]) + Total(field, stats - {other});
    if other != name {
      TotalSplits(field, stats - {other}, name);
      TotalSplits(field, stats - {name}, other);
      assert stats - {other} - {name} == stats - {name} - {other};
    }
  }

  lemma TotalUpdate(field: ActorStats -> int, stats: Stats, name: string, s: ActorStats)
    requires field(ActorStats(0, 0)) == 0
    ensures Total(field, stats[name := s]) == Total(field, stats) - field(Get(stats, name)) + field(s)
  {
    TotalSplits(field, stats[name := s], name);
    if name in stats {
      TotalSplits(field, stats, name);
      assert stats[name := s] - {name} == stats - {name};
    } else {
      assert stats[name := s] - {name} == stats;
    }
  }

  /** The second actor is drawn among the others: a draw at or above the first is shifted by one. */
  function Partner(first: nat, draw: nat): nat { if draw >= first then draw + 1 else draw }

  /** Every ordered pair of different actors comes from exactly one pair of draws, so uniform draws give a
      uniform choice among the pairs. */
  lemma DrawsAreDistinctPairs(n: nat, first: nat, second: nat, draw: nat)
    requires first < n && draw <= n - 2
    ensures Partner(first, draw) < n && Partner(first, draw) != first
    ensures second < n && second != first ==>
              (Partner(first, draw) == second <==> draw == if second > first then second - 1 else second)
  {
  }

  /** Two names that stand at different places of the list of actors. */
  ghost predicate Paired(actors: seq<string>, first: string, second: string) {
    exists i, j :: 0 <= i < |actors| && 0 <= j < |actors| && i != j && actors[i] == first && actors[j] == second
  }

  class BasicLadder {
    const actors: seq<string>
    var stats: Stats

    /** The games that were reported; Valid() ties the statistics to them. */
    ghost var history: seq<Game>

    ghost predicate Valid()
      reads this
    {
      && (forall name :: Get(stats, name) == ActorStats(Wins(history, name), Plays(history, name)))
      && Total(WonOf, stats) == |history| && Total(GamesOf, stats) == 2 * |history|
    }

    constructor (actors: seq<string>)
      ensures Valid() && history == [] && this.actors == actors
    {
      this.actors := actors;
      stats, history := map[], [];
    }

    /** The draws are arbitrary; the ranges of the distributions need two actors. */
    method PrepareGameRequest(firstDraw: nat, secondDraw: nat) returns (first: nat, second: nat)
      requires firstDraw < |actors| && secondDraw <= |actors| - 2
      ensures first == firstDraw < |actors| && second == Partner(firstDraw, secondDraw) < |actors| && first != second
    {
      first, second := firstDraw, secondDraw;
      if second >= first { second := second + 1; }
    }

    method GameCompleted(g: Game)
      requires Valid()
      modifies this
      ensures Valid() && history == old(history) + [g]
    {
      var winner, loser := g.Winner(), g.Loser();
      Credit(winner, 1);
      Credit(loser, 0);
      history := history + [g];
      assert history[..|history| - 1] == old(history);
    }

    /** The statistics count the games in which an actor took part, and those that it won by their scores. */
    lemma StatsCountGames(name: string)
      requires Valid()
      ensures Get(stats, name).games == |FirstIn(history, name)| + |SecondIn(history, name)|
      ensures Get(stats, name).won == |WonIn(history, name)|
    {
      WinsCountsGames(history, name);
      PlaysCountsGames(history, name);
    }

    /** The statistics of an actor count its victories exactly if it was second in no drawn game. */
    lemma StatsCountVictories(w: nat, h: nat, games: seq<Played>, name: string)
      requires Valid() && history == Reported(w, h, games)
      requires forall i :: 0 <= i < |games| ==> games[i].Refereed(w, h)
      ensures Get(stats, name).won == Victories(w, h, games, name) + DrawsAsSecond(w, h, games, name)
      ensures Get(stats, name).won == Victories(w, h, games, name) <==>
              forall i :: 0 <= i < |games| ==> !games[i].DrawnAgainst(w, h, name)
    {
      WinsAreVictoriesAndDraws(w, h, games, name);
      NoDraws(w, h, games, name);
    }

    /** Adds to the wins of an actor and counts a game for it. */
    method Credit(name: string, wins: nat)
      modifies this`stats
      ensures forall n :: Get(stats, n) ==
                var s := Get(old(stats), n); if n == name then ActorStats(s.won + wins, s.games + 1) else s
      ensures Total(WonOf, stats) == Total(WonOf, old(stats)) + wins
      ensures Total(GamesOf, stats) == Total(GamesOf, old(stats)) + 1
    {
      var s := Get(stats, name);
      var s' := ActorStats(s.won + wins, s.games + 1);
      TotalUpdate(WonOf, stats, name, s');
      TotalUpdate(GamesOf, stats, name, s');
      stats := stats[name := s'];
    }
  }

  // ---------------------------------------------------------------------------------------
  // What the statistics say about the games
  // ---------------------------------------------------------------------------------------

  /** A game as it was played: the actors and the moves. */
  datatype Played = Played(first: string, second: string, moves: seq<Gomoku.Pos>)
  {
    ghost function Last(w: nat, h: nat): Gomoku.Position { Gomoku.Replay(w, h, moves) }

    /** What the referee guarantees of a game. */
    ghost predicate Refereed(w: nat, h: nat) {
      w > 0 && h > 0 && |moves| > 0 && Gomoku.Legal(w, h, moves) && Gomoku.QuietSoFar(w, h, moves)
    }

    /** The actor owns the five. */
    ghost predicate WonBy(w: nat, h: nat, name: string) {
      || (first == name && Gomoku.HasFive(Last(w, h), Gomoku.First))
      || (second == name && Gomoku.HasFive(Last(w, h), Gomoku.Second))
    }

    ghost predicate DrawnAgainst(w: nat, h: nat, name: string) {
      second == name && !Gomoku.Decided(Last(w, h))
    }

    /** What is reported to the ladder, with the score of the referee. */
    ghost function Report(w: nat, h: nat): Game {
      Game(first, second, if Gomoku.HasFive(Last(w, h), Gomoku.First) then 1.0 else 0.0)
    }
  }

  ghost function Reported(w: nat, h: nat, games: seq<Played>): seq<Game> {
    seq(|games|, i requires 0 <= i < |games| => games[i].Report(w, h))
  }

  ghost function Victories(w: nat, h: nat, games: seq<Played>, name: string): nat {
    if games == [] then 0
    else
      var n := |games| - 1;
      Victories(w, h, games[..n], name) + (if games[n].WonBy(w, h, name) then 1 else 0)
  }

  /** The drawn games in which the actor was second. */
  ghost function DrawsAsSecond(w: nat, h: nat, games: seq<Played>, name: string): nat {
    if games == [] then 0
    else
      var n := |games| - 1;
      DrawsAsSecond(w, h, games[..n], name) + (if games[n].DrawnAgainst(w, h, name) then 1 else 0)
  }

  lemma {:induction false} NoDraws(w: nat, h: nat, games: seq<Played>, name: string)
    ensures DrawsAsSecond(w, h, games, name) == 0 <==>
            forall i :: 0 <= i < |games| ==> !games[i].DrawnAgainst(w, h, name)
  {
    if games != [] {
      var n := |games| - 1;
      NoDraws(w, h, games[..n], name);
      assert forall i :: 0 <= i < n ==> games[i] == games[..n][i];
    }
  }

  /** A refereed game credits an actor exactly when it owns the five or was second in a draw, never both. */
  lemma CreditOfGame(w: nat, h: nat, g: Played, name: string)
    requires g.Refereed(w, h)
    ensures g.Report(w, h).Winner() == name <==> g.WonBy(w, h, name) || g.DrawnAgainst(w, h, name)
    ensures !(g.WonBy(w, h, name) && g.DrawnAgainst(w, h, name))
  {
    Gomoku.WholeGame(w, h, g.moves);
  }

  /** For every history of refereed games, the wins of an actor are its victories and, besides, the drawn
      games in which it was second. */
  lemma {:induction false} WinsAreVictoriesAndDraws(w: nat, h: nat, games: seq<Played>, name: string)
    requires forall i :: 0 <= i < |games| ==> games[i].Refereed(w, h)
    ensures Wins(Reported(w, h, games), name)
            == Victories(w, h, games, name) + DrawsAsSecond(w, h, games, name)
  {
    if games != [] {
      var n := |games| - 1;
      var before := games[..n];
      WinsAreVictoriesAndDraws(w, h, before, name);
      CreditOfGame(w, h, games[n], name);
      assert Reported(w, h, games)[..n] == Reported(w, h, before);
    }
  }

  /** A history in which the wins are not victories: one drawn game on the board of 19 by 19. */
  lemma DrawCountsAsWin(first: string, second: string)
    ensures
      var size, games := Draw.SIZE, [Played(first, second, Draw.DrawnGame())];
      && games[0].Refereed(size, size)
      && Wins(Reported(size, size, games), second) == 1 && Victories(size, size, games, second) == 0
  {
    var size, g := Draw.SIZE, Played(first, second, Draw.DrawnGame());
    Draw.DrawnGameIsDrawn();
    assert !g.WonBy(size, size, second) && g.DrawnAgainst(size, size, second);
    assert [g][..0] == [];
    WinsAreVictoriesAndDraws(size, size, [g], second);
  }

  // ---------------------------------------------------------------------------------------
  // The supervisor
  // ---------------------------------------------------------------------------------------

  /** An outstanding call: the worker it was sent to and who plays. */
  datatype Call = Call(worker: nat, first: string, second: string)

  /** How many calls a worker has to answer. */
  function CallsOf(calls: seq<Call>, worker: nat): nat {
    if calls == [] then 0 else (if calls[0].worker == worker then 1 else 0) + CallsOf(calls[1..], worker)
  }

  lemma {:induction false} CallsConcat(a: seq<Call>, b: seq<Call>, worker: nat)
    ensures CallsOf(a + b, worker) == CallsOf(a, worker) + CallsOf(b, worker)
  {
    if a == [] {
      assert a + b == b;
    } else {
      assert (a + b)[1..] == a[1..] + b;
      CallsConcat(a[1..], b, worker);
    }
  }

  lemma CallAdded(calls: seq<Call>, c: Call, worker: nat)
    ensures CallsOf(calls + [c], worker) == CallsOf(calls, worker) + (if c.worker == worker then 1 else 0)
  {
    CallsConcat(calls, [c], worker);
    assert [c][1..] == [];
  }

  lemma CallRemoved(calls: seq<Call>, k: nat, worker: nat)
    requires k < |calls|
    ensures CallsOf(calls[..k] + calls[k + 1..], worker)
            == CallsOf(calls, worker) - (if calls[k].worker == worker then 1 else 0)
  {
    var c := calls[k];
    assert calls == calls[..k] + ([c] + calls[k + 1..]);
    CallsConcat(calls[..k], [c] + calls[k + 1..], worker);
    CallsConcat([c], calls[k + 1..], worker);
    assert [c][1..] == [];
    CallsConcat(calls[..k], calls[k + 1..], worker);
  }

  /** What the completion queue hands out: one of the outstanding calls, and how it ended.  `ok` comes from
      the queue, `status` from the call. */
  datatype Completion = Completion(pick: nat, ok: bool, status: bool, score: real, metrics: seq<Metric>)
  {
    predicate Succeeded() { ok && status }
  }

  /** The completions that are reported to the ladder and the collector. */
  function Reports(script: seq<Completion>): seq<Completion> {
    if script == [] then []
    else
      var n := |script| - 1;
      Reports(script[..n]) + (if script[n].Succeeded() then [script[n]] else [])
  }

  function Failures(script: seq<Completion>): nat {
    if script == [] then 0
    else
      var n := |script| - 1;
      Failures(script[..n]) + (if script[n].Succeeded() then 0 else 1)
  }

  function Trees(reports: seq<Completion>): seq<seq<Metric>> {
    seq(|reports|, i requires 0 <= i < |reports| => reports[i].metrics)
  }

  /** What a run of reports does to the ladder's games and to the collected metrics. */
  ghost predicate Recorded(reports: seq<Completion>, history: seq<Game>, games: seq<Game>,
                           metrics: Collected, collected: Collected)
  {
    && collected == AppendAll(ConcatMetrics, metrics, Trees(reports))
    && |games| == |history| + |reports| && history <= games
    && forall i :: 0 <= i < |reports| ==> games[|history| + i].score == reports[i].score
  }

  lemma RecordedStep(reports: seq<Completion>, c: Completion, history: seq<Game>, games: seq<Game>,
                     metrics: Collected, collected: Collected, g: Game)
    requires Recorded(reports, history, games, metrics, collected) && g.score == c.score
    ensures Recorded(reports + [c], history, games + [g],
                     metrics, CollectAll(ConcatMetrics, collected, Visits(c.metrics, "")))
  {
    AppendOne(ConcatMetrics, metrics, Trees(reports), c.metrics);
    assert Trees(reports + [c]) == Trees(reports) + [c.metrics];
  }

  /** The number of games sent out: one for every slot and one for every success, as long as games are left. */
  function Started(slots: nat, numGames: int, successes: nat): int {
    if numGames <= 0 then 0 else if numGames <= slots + successes then numGames else slots + successes
  }

  /** After n completions games are missing and a call is outstanding. */
  predicate Running(slots: nat, numGames: int, script: seq<Completion>, n: nat)
    requires n <= |script|
  {
    var successes := |Reports(script[..n])|;
    successes < numGames && n < Started(slots, numGames, successes)
  }

  /** The RPC loop takes n completions of the script: it runs up to there, and no further. */
  ghost predicate Takes(slots: nat, numGames: int, script: seq<Completion>, n: nat) {
    RunsUpTo(slots, numGames, script, n) && (n == |script| || !Running(slots, numGames, script, n))
  }

  ghost predicate RunsUpTo(slots: nat, numGames: int, script: seq<Completion>, n: nat) {
    n <= |script| && forall k :: 0 <= k < n ==> Running(slots, numGames, script, k)
  }

  lemma RunsFurther(slots: nat, numGames: int, script: seq<Completion>, n: nat)
    requires n < |script| && RunsUpTo(slots, numGames, script, n) && Running(slots, numGames, script, n)
    ensures RunsUpTo(slots, numGames, script, n + 1)
  {
  }

  lemma ScriptStep(script: seq<Completion>, n: nat)
    requires n < |script|
    ensures Reports(script[..n + 1]) == Reports(script[..n]) + if script[n].Succeeded() then [script[n]] else []
    ensures Failures(script[..n + 1]) == Failures(script[..n]) + if script[n].Succeeded() then 0 else 1
  {
    assert script[..n + 1][..n] == script[..n];
  }

  lemma {:induction false} ReportsAndFailures(script: seq<Completion>, n: nat)
    requires n <= |script|
    ensures |Reports(script[..n])| + Failures(script[..n]) == n
  {
    if n > 0 {
      ReportsAndFailures(script, n - 1);
      ScriptStep(script, n - 1);
    }
  }

  lemma {:induction false} FailuresGrow(script: seq<Completion>, m: nat, n: nat)
    requires m <= n <= |script|
    ensures Failures(script[..m]) <= Failures(script[..n])
  {
    if m < n {
      FailuresGrow(script, m, n - 1);
      ScriptStep(script, n - 1);
    }
  }

  lemma {:induction false} NoFailures(script: seq<Completion>, n: nat)
    requires n <= |script|
    ensures Failures(script[..n]) == 0 <==> forall i :: 0 <= i < n ==> script[i].Succeeded()
  {
    if n > 0 {
      NoFailures(script, n - 1);
      ScriptStep(script, n - 1);
    }
  }

  /** The loop runs as long as fewer completions than games came back and not every slot is lost. */
  lemma RunningExactly(slots: nat, numGames: int, script: seq<Completion>, n: nat)
    requires n <= |script|
    ensures Running(slots, numGames, script, n) <==> n < numGames && Failures(script[..n]) < slots
  {
    ReportsAndFailures(script, n);
  }

  /** How far Play gets on a script that is long enough: it takes one completion per game, unless every slot
      is lost before; then it stops at the failure that loses the last one.  Either way nothing is left in
      flight. */
  lemma PlayTakes(slots: nat, numGames: int, script: seq<Completion>, n: nat)
    requires Takes(slots, numGames, script, n) && 0 < numGames <= |script|
    ensures n <= numGames && n == Started(slots, numGames, |Reports(script[..n])|)
    ensures |Reports(script[..n])| == n - Failures(script[..n])
    ensures Failures(script[..numGames]) < slots ==> n == numGames
    ensures slots <= Failures(script[..numGames]) ==>
              Failures(script[..n]) == slots && (n > 0 ==> Failures(script[..n - 1]) < slots)
  {
    ReportsAndFailures(script, n);
    RunningExactly(slots, numGames, script, n);
    if n > 0 {
      assert Running(slots, numGames, script, n - 1);
      RunningExactly(slots, numGames, script, n - 1);
      ScriptStep(script, n - 1);
    }
    FailuresGrow(script, n, numGames);
  }

  /** Play completes the games exactly if there is a slot and none of the first numGames completions
      fails; otherwise it waits for ever for a call that nobody sent. */
  lemma CompletesExactly(slots: nat, numGames: int, script: seq<Completion>, n: nat)
    requires Takes(slots, numGames, script, n) && 0 < numGames <= |script|
    ensures |Reports(script[..n])| == numGames <==>
            slots > 0 && forall i :: 0 <= i < numGames ==> script[i].Succeeded()
  {
    PlayTakes(slots, numGames, script, n);
    NoFailures(script, numGames);
    FailuresGrow(script, 0, n);
  }

  lemma {:induction false} SingleFailure(script: seq<Completion>, f: nat, n: nat)
    requires f < |script| && n <= |script|
    requires forall i :: 0 <= i < |script| ==> (script[i].Succeeded() <==> i != f)
    ensures Failures(script[..n]) == if n <= f then 0 else 1
  {
    if n > 0 {
      SingleFailure(script, f, n - 1);
      ScriptStep(script, n - 1);
    }
  }

  /** One failed call is never made up for.  With a single slot it ends the tournament on the spot; with
      more, all other games are completed and one is missing for ever. */
  lemma OneFailure(slots: nat, numGames: int, script: seq<Completion>, f: nat, n: nat)
    requires slots > 0 && f < numGames <= |script| && Takes(slots, numGames, script, n)
    requires forall i :: 0 <= i < |script| ==> (script[i].Succeeded() <==> i != f)
    ensures |Reports(script[..n])| == if slots == 1 then f else numGames - 1
  {
    PlayTakes(slots, numGames, script, n);
    SingleFailure(script, f, n);
    SingleFailure(script, f, numGames);
    if n > 0 { SingleFailure(script, f, n - 1); }
  }

  /** One execution of Supervisor::Play. */
  class Supervisor {
    const ladder: BasicLadder
    const collector: MetricCollector
    const workers: nat
    const concurrentGames: int
    const numGames: int
    var gamesStarted: int
    var gamesCompleted: int
    var inFlight: seq<Call>

    /** Calls that came back with an error; they are not sent again. */
    ghost var failed: nat

    /** The games that the ladder already knew. */
    ghost const before: nat

    ghost predicate Accounts()
      reads this, ladder
    {
      AccountsBut(0)
    }

    /** So many calls have come back and are not accounted for yet. */
    ghost predicate AccountsBut(open: nat)
      reads this, ladder
    {
      && ladder.Valid() && |ladder.actors| >= 2
      && |ladder.history| == before + gamesCompleted
      && gamesStarted == gamesCompleted + failed + |inFlight| + open
      && 0 <= gamesCompleted && (gamesStarted == 0 || gamesStarted <= numGames)
      && (forall i :: 0 <= i < |inFlight| ==> Proper(inFlight[i]))
      && (forall i :: before <= i < |ladder.history| ==>
            Paired(ladder.actors, ladder.history[i].first, ladder.history[i].second))
      && forall w :: CallsOf(inFlight, w) <= PerWorker()
    }

    /** A call goes to a worker and is about two different actors of the ladder. */
    ghost predicate Proper(c: Call)
      reads this
    {
      c.worker < workers && Paired(ladder.actors, c.first, c.second)
    }

    ghost function PerWorker(): nat { if concurrentGames > 0 then concurrentGames else 0 }

    /** The number of calls that may be outstanding at a time. */
    ghost function Slots(): nat { workers * PerWorker() }

    /** Between completions, every slot has been used and every success has been replaced, as long as games
        were left. */
    ghost predicate Valid()
      reads this, ladder
    {
      Accounts() && gamesStarted == Started(Slots(), numGames, gamesCompleted)
    }

    constructor (ladder: BasicLadder, collector: MetricCollector, workers: nat, concurrentGames: int, numGames: int)
      requires ladder.Valid() && |ladder.actors| >= 2
      ensures Accounts() && this.ladder == ladder && this.collector == collector && this.workers == workers
      ensures this.concurrentGames == concurrentGames && this.numGames == numGames
      ensures gamesStarted == 0 && failed == 0 && inFlight == []
    {
      this.ladder, this.collector, this.workers := ladder, collector, workers;
      this.concurrentGames, this.numGames := concurrentGames, numGames;
      gamesStarted, gamesCompleted, failed, inFlight := 0, 0, 0, [];
      before := |ladder.history|;
    }

    /** Sends one game to a worker; the actors are drawn at random. */
    method PlayGame(worker: nat)
      requires Accounts() && worker < workers && gamesStarted < numGames
      requires CallsOf(inFlight, worker) < concurrentGames
      modifies this`inFlight, this`gamesStarted
      ensures Accounts() && gamesStarted == old(gamesStarted) + 1
      ensures |inFlight| == |old(inFlight)| + 1 && old(inFlight) <= inFlight
      ensures inFlight[|inFlight| - 1].worker == worker
      ensures forall w :: CallsOf(inFlight, w) == CallsOf(old(inFlight), w) + (if w == worker then 1 else 0)
    {
      var firstDraw: nat :| firstDraw < |ladder.actors|;
      var secondDraw: nat :| secondDraw <= |ladder.actors| - 2;
      var first, second := ladder.PrepareGameRequest(firstDraw, secondDraw);
      var call := Call(worker, ladder.actors[first], ladder.actors[second]);
      assert Proper(call);
      forall w ensures CallsOf(inFlight + [call], w) == CallsOf(inFlight, w) + (if w == worker then 1 else 0) {
        CallAdded(inFlight, call, w);
      }
      inFlight := inFlight + [call];
      gamesStarted := gamesStarted + 1;
    }

    /** The initial wave for one worker. */
    method FillWorker(worker: nat)
      requires Accounts() && worker < workers && failed == 0 && gamesCompleted == 0
      requires CallsOf(inFlight, worker) == 0
      modifies this`inFlight, this`gamesStarted
      ensures Accounts()
      ensures forall w :: w != worker ==> CallsOf(inFlight, w) == CallsOf(old(inFlight), w)
      ensures gamesStarted == Started(old(gamesStarted) + PerWorker(), numGames, 0)
    {
      var i := 0;
      while i < concurrentGames && gamesStarted < numGames
        invariant 0 <= i <= PerWorker()
        invariant Accounts() && CallsOf(inFlight, worker) == i && gamesStarted == old(gamesStarted) + i
        invariant forall w :: w != worker ==> CallsOf(inFlight, w) == CallsOf(old(inFlight), w)
      {
        PlayGame(worker);
        i := i + 1;
      }
    }

    /** Sending the initial wave of game requests. */
    method InitialWave()
      requires Accounts() && gamesStarted == 0 && failed == 0 && inFlight == []
      modifies this`inFlight, this`gamesStarted
      ensures Valid() && gamesCompleted == 0
    {
      for w := 0 to workers
        invariant Accounts()
        invariant forall u :: u >= w ==> CallsOf(inFlight, u) == 0
        invariant gamesStarted == Started(w * PerWorker(), numGames, 0)
      {
        assert (w + 1) * PerWorker() == w * PerWorker() + PerWorker();
        FillWorker(w);
      }
    }

    /** The body of the RPC loop for the completion of call k: only a success is counted, reported and
        replaced by a new game on the same worker. */
    method OnCompletion(k: nat, c: Completion)
      requires Valid() && k < |inFlight| && gamesCompleted < numGames && ladder as object != collector
      modifies this`inFlight, this`gamesStarted, this`gamesCompleted, this`failed, ladder, collector
      ensures Valid()
      ensures !c.Succeeded() ==>
                failed == old(failed) + 1 && gamesCompleted == old(gamesCompleted)
                && ladder.history == old(ladder.history) && collector.metrics == old(collector.metrics)
      ensures c.Succeeded() ==>
                failed == old(failed) && gamesCompleted == old(gamesCompleted) + 1
                && ladder.history
                   == old(ladder.history) + [Game(old(inFlight)[k].first, old(inFlight)[k].second, c.score)]
                && collector.metrics == CollectAll(ConcatMetrics, old(collector.metrics), Visits(c.metrics, ""))
    {
      var call := inFlight[k];
      RemoveCall(k);
      if !c.ok {
        failed := failed + 1;
        return;
      }
      if !c.status {
        failed := failed + 1;
        return;
      }
      OnSuccess(call, c);
    }

    method OnSuccess(call: Call, c: Completion)
      requires AccountsBut(1) && gamesStarted == Started(Slots(), numGames, gamesCompleted)
      requires Proper(call) && CallsOf(inFlight, call.worker) < concurrentGames
      requires gamesCompleted < numGames && ladder as object != collector
      modifies this`inFlight, this`gamesStarted, this`gamesCompleted, ladder, collector
      ensures Valid() && gamesCompleted == old(gamesCompleted) + 1
      ensures ladder.history == old(ladder.history) + [Game(call.first, call.second, c.score)]
      ensures collector.metrics == CollectAll(ConcatMetrics, old(collector.metrics), Visits(c.metrics, ""))
    {
      collector.Append(c.metrics);
      ladder.GameCompleted(Game(call.first, call.second, c.score));
      gamesCompleted := gamesCompleted + 1;
      if gamesStarted < numGames {
        PlayGame(call.worker);
      }
    }

    method RemoveCall(k: nat)
      requires k < |inFlight|
      modifies this`inFlight
      ensures inFlight == old(inFlight)[..k] + old(inFlight)[k + 1..]
      ensures forall w ::
                CallsOf(inFlight, w) == CallsOf(old(inFlight), w) - (if w == old(inFlight)[k].worker then 1 else 0)
    {
      forall w
        ensures CallsOf(inFlight[..k] + inFlight[k + 1..], w)
                == CallsOf(inFlight, w) - (if w == inFlight[k].worker then 1 else 0)
      {
        CallRemoved(inFlight, k, w);
      }
      inFlight := inFlight[..k] + inFlight[k + 1..];
    }

    /** After n completions of a script, the counters, the ladder and the collector are what its successes
        and failures say. */
    ghost predicate After(script: seq<Completion>, n: nat, history: seq<Game>, metrics: Collected)
      requires n <= |script|
      reads this, ladder, collector
    {
      && Valid()
      && gamesCompleted == |Reports(script[..n])| && failed == Failures(script[..n])
      && Recorded(Reports(script[..n]), history, ladder.history, metrics, collector.metrics)
    }

    /** One round of the RPC loop. */
    method Round(script: seq<Completion>, n: nat, ghost history: seq<Game>, ghost metrics: Collected)
      requires n < |script| && After(script, n, history, metrics) && ladder as object != collector
      requires gamesCompleted < numGames && |inFlight| > 0
      modifies this`inFlight, this`gamesStarted, this`gamesCompleted, this`failed, ladder, collector
      ensures After(script, n + 1, history, metrics)
    {
      ScriptStep(script, n);
      ghost var reports, games, collected := Reports(script[..n]), ladder.history, collector.metrics;
      OnCompletion(script[n].pick % |inFlight|, script[n]);
      if script[n].Succeeded() {
        RecordedStep(reports, script[n], history, games, metrics, collected, ladder.history[|games|]);
      } else {
        assert reports + [] == reports;
      }
    }

    /** After n completions there are as many calls in flight as were sent and have not come back. */
    lemma InFlightAfter(script: seq<Completion>, n: nat, history: seq<Game>, metrics: Collected)
      requires n <= |script| && After(script, n, history, metrics)
      ensures |inFlight| == Started(Slots(), numGames, gamesCompleted) - n
      ensures Running(Slots(), numGames, script, n) <==> gamesCompleted < numGames && |inFlight| > 0
    {
      ReportsAndFailures(script, n);
    }

    /** The RPC loop: it stops when all games are complete, when it waits for a call that nobody sent, or when
        the script ends. */
    method RpcLoop(script: seq<Completion>, ghost history: seq<Game>, ghost metrics: Collected) returns (taken: nat)
      requires After(script, 0, history, metrics) && ladder as object != collector
      modifies this`inFlight, this`gamesStarted, this`gamesCompleted, this`failed, ladder, collector
      ensures Takes(Slots(), numGames, script, taken) && After(script, taken, history, metrics)
    {
      taken := 0;
      while gamesCompleted < numGames && |inFlight| > 0 && taken < |script|
        invariant RunsUpTo(Slots(), numGames, script, taken) && After(script, taken, history, metrics)
        decreases |script| - taken
      {
        InFlightAfter(script, taken, history, metrics);
        RunsFurther(Slots(), numGames, script, taken);
        Round(script, taken, history, metrics);
        taken := taken + 1;
      }
      InFlightAfter(script, taken, history, metrics);
    }

    /** The whole of Play on a script of completions; which call comes back next, and how, is up to the
        script. */
    method Play(script: seq<Completion>) returns (taken: nat)
      requires Accounts() && gamesStarted == 0 && failed == 0 && inFlight == [] && ladder as object != collector
      modifies this`inFlight, this`gamesStarted, this`gamesCompleted, this`failed, ladder, collector
      ensures Takes(Slots(), numGames, script, taken)
      ensures After(script, taken, old(ladder.history), old(collector.metrics))
      ensures |inFlight| == Started(Slots(), numGames, gamesCompleted) - taken
      // all games are completed exactly if there is a slot and the first numGames completions succeed
      ensures 0 < numGames <= |script| ==>
                (gamesCompleted == numGames <==>
                 Slots() > 0 && forall i :: 0 <= i < numGames ==> script[i].Succeeded())
      // otherwise Play waits in vain: no call is outstanding, and none is when it returns
      ensures 0 < numGames <= |script| ==> inFlight == []
    {
      ghost var history, metrics := ladder.history, collector.metrics;
      InitialWave();
      assert script[..0] == [];
      taken := RpcLoop(script, history, metrics);
      InFlightAfter(script, taken, history, metrics);
      if 0 < numGames <= |script| {
        PlayTakes(Slots(), numGames, script, taken);
        CompletesExactly(Slots(), numGames, script, taken);
      }
    }

    /** Without failures, with a worker and a positive concurrency, some call is in flight until all games
        are complete. */
    lemma BusyUntilDone()
      requires Valid() && gamesCompleted < numGames && failed == 0 && workers > 0 && concurrentGames > 0
      ensures inFlight != []
    {
      assert Slots() >= concurrentGames;
    }
  }
}
