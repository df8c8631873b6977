/** The referee of gomoku/ladder/worker_impl.cc: one game between two actors, each of which keeps a
    board of its own that must stay in step with the referee's. */
module Referee {
  import opened Gomoku
  import opened BoardModel

  /** An actor as the referee sees it.  The contract of ChooseMove, an empty field of the actor's own
      board, is all that the referee relies on; the body is the actor of gomoku/actors/random_actor.cc. */
  class Actor {
    const board: Board

    /** How often the actor was asked for a move. */
    ghost var asked: nat

    constructor (w: nat, h: nat)
      requires w > 0 && h > 0
      ensures fresh(board) && fresh(board.fields) && board.Valid()
      ensures board.width == w && board.height == h && asked == 0
    {
      board := new Board(w, h);
      asked := 0;
    }

    method GameStarted()
      requires board.Valid()
      modifies board, board.fields
      ensures board.Valid() && board.view == Start(board.width, board.height)
    {
      board.Reset();
    }

    method ObserveMove(move: Pos)
      requires board.Valid() && Inside(board.width, board.height, move)
      requires board.StoneAt(move) == NoPlayer
      modifies board, board.fields
      ensures board.Valid() && board.view == old(board.view).Apply(move)
    {
      board.ApplyMove(move);
    }

    /** The random draws are arbitrary. */
    method ChooseMove() returns (move: Pos)
      requires board.Valid() && board.movesMade < board.width * board.height
      modifies this`asked
      ensures Inside(board.width, board.height, move) && board.view.At(move) == NoPlayer
      ensures asked == old(asked) + 1
    {
      asked := asked + 1;
      var xOffset: nat :| xOffset < board.width;
      var yOffset: nat :| yOffset < board.height;
      FullExactlyWhenCounted(board.view);
      var r := board.SampleLegalMove(xOffset, yOffset);
      move := r.value;
    }
  }

  /** The win check said no after every move so far, the last one included. */
  ghost predicate Quiet(w: nat, h: nat, moves: seq<Pos>) {
    forall k :: 0 < k <= |moves| ==> !FiveThrough(Replay(w, h, moves[..k]), moves[k - 1], Mover(k - 1))
  }

  /** The last move won or filled the board. */
  ghost predicate Ended(w: nat, h: nat, moves: seq<Pos>) {
    && |moves| > 0
    && (|| |moves| == w * h
        || FiveThrough(Replay(w, h, moves), moves[|moves| - 1], Mover(|moves| - 1)))
  }

  lemma LegalExtends(w: nat, h: nat, moves: seq<Pos>, m: Pos)
    requires w > 0 && h > 0 && Legal(w, h, moves) && Replay(w, h, moves).CanApply(m)
    ensures Legal(w, h, moves + [m])
    ensures Replay(w, h, moves + [m]) == Replay(w, h, moves).Apply(m)
    ensures |Replay(w, h, moves + [m]).stones| == |moves| + 1 <= w * h
  {
    ReplayShowsMoves(w, h, moves);
    assert (moves + [m])[..|moves|] == moves;
    forall k | 0 <= k < |moves| ensures moves[k] != m {
      assert Replay(w, h, moves).At(moves[k]) == Mover(k);
    }
    ReplayWellFormed(w, h, moves + [m]);
    FullExactlyWhenCounted(Replay(w, h, moves + [m]));
  }

  lemma QuietExtends(w: nat, h: nat, moves: seq<Pos>, m: Pos)
    requires Quiet(w, h, moves)
    ensures QuietSoFar(w, h, moves + [m])
    ensures !FiveThrough(Replay(w, h, moves + [m]), m, Mover(|moves|)) ==> Quiet(w, h, moves + [m])
  {
    var all := moves + [m];
    forall k | 0 < k <= |moves|
      ensures !FiveThrough(Replay(w, h, all[..k]), all[k - 1], Mover(k - 1))
    {
      assert all[..k] == moves[..k] && all[k - 1] == moves[k - 1];
    }
    assert all[..|all|] == all;
  }

  /** What one more move does to a game that is not over. */
  lemma MoveExtends(w: nat, h: nat, moves: seq<Pos>, m: Pos)
    requires w > 0 && h > 0 && Legal(w, h, moves) && Quiet(w, h, moves) && Replay(w, h, moves).CanApply(m)
    ensures Legal(w, h, moves + [m]) && QuietSoFar(w, h, moves + [m])
    ensures Replay(w, h, moves + [m]) == Replay(w, h, moves).Apply(m)
    ensures |Replay(w, h, moves + [m]).stones| == |moves| + 1 <= w * h
    ensures !FiveThrough(Replay(w, h, moves + [m]), m, Mover(|moves|)) ==> Quiet(w, h, moves + [m])
  {
    LegalExtends(w, h, moves, m);
    QuietExtends(w, h, moves, m);
  }

  /** The three boards are separate objects and show the same position. */
  ghost predicate InStep(board: Board, first: Actor, second: Actor, s: Position)
    reads board, board.fields, first.board, first.board.fields, second.board, second.board.fields
  {
    && first != second && board != first.board && board != second.board && first.board != second.board
    && board.fields != first.board.fields && board.fields != second.board.fields
    && first.board.fields != second.board.fields
    && board.Valid() && first.board.Valid() && second.board.Valid()
    && board.view == first.board.view == second.board.view == s
  }

  /** Creates the actors, tells them that the game starts, and sets up the referee's board. */
  method Prepare(w: nat, h: nat) returns (board: Board, first: Actor, second: Actor)
    requires w > 0 && h > 0
    ensures InStep(board, first, second, Start(w, h))
    ensures fresh(board) && fresh(first.board) && fresh(second.board) && fresh(first) && fresh(second)
    ensures first.asked == second.asked == 0
    ensures fresh(board.fields) && fresh(first.board.fields) && fresh(second.board.fields)
  {
    first := Join(w, h);
    second := Join(w, h);
    board := new Board(w, h);
  }

  /** An actor is created and told that the game starts. */
  method Join(w: nat, h: nat) returns (actor: Actor)
    requires w > 0 && h > 0
    ensures fresh(actor) && fresh(actor.board) && fresh(actor.board.fields)
    ensures actor.board.Valid() && actor.board.view == Start(w, h) && actor.asked == 0
  {
    actor := new Actor(w, h);
    actor.GameStarted();
  }

  /** The player to move chooses a move. */
  method Choose(board: Board, first: Actor, second: Actor, ghost s: Position) returns (move: Pos)
    requires InStep(board, first, second, s) && |s.stones| < s.w * s.h
    modifies first`asked, second`asked
    ensures s.CanApply(move) && InStep(board, first, second, s)
    ensures first.asked == old(first.asked) + (if s.turn == First then 1 else 0)
    ensures second.asked == old(second.asked) + (if s.turn == First then 0 else 1)
  {
    if board.current == First {
      move := first.ChooseMove();
    } else {
      move := second.ChooseMove();
    }
  }

  /** One round: the player to move chooses, then the referee and both actors apply the move. */
  method PlayMove(board: Board, first: Actor, second: Actor, ghost s: Position) returns (move: Pos)
    requires InStep(board, first, second, s) && |s.stones| < s.w * s.h
    modifies first`asked, second`asked, board, board.fields
    modifies first.board, first.board.fields, second.board, second.board.fields
    ensures s.CanApply(move) && InStep(board, first, second, s.Apply(move))
    ensures first.asked == old(first.asked) + (if s.turn == First then 1 else 0)
    ensures second.asked == old(second.asked) + (if s.turn == First then 0 else 1)
  {
    move := Choose(board, first, second, s);
    board.StoneAtShows(move);
    first.board.StoneAtShows(move);
    second.board.StoneAtShows(move);
    board.ApplyMove(move);
    first.ObserveMove(move);
    second.ObserveMove(move);
  }

  /** The condition under which the do-while loop stops. */
  method GameOver(board: Board, move: Pos) returns (r: bool)
    requires board.Valid() && Inside(board.width, board.height, move)
    ensures r <==> FiveThrough(board.view, move, Opponent(board.view.turn))
                   || |board.view.stones| == board.view.w * board.view.h
  {
    r := board.DidWin(move);
    if !r {
      r := board.NoMovePossible();
      FullExactlyWhenCounted(board.view);
    }
  }

  /** What holds of a recording between the rounds: it is one of a game that went on, or has just ended. */
  ghost predicate Recorded(w: nat, h: nat, recording: seq<Pos>, over: bool) {
    && Legal(w, h, recording) && QuietSoFar(w, h, recording) && |recording| <= w * h
    && if over then Ended(w, h, recording) else Quiet(w, h, recording) && |recording| < w * h
  }

  lemma RecordedStep(w: nat, h: nat, recording: seq<Pos>, move: Pos, over: bool)
    requires w > 0 && h > 0 && Recorded(w, h, recording, false) && Replay(w, h, recording).CanApply(move)
    requires
      var s := Replay(w, h, recording + [move]);
      over <==> FiveThrough(s, move, Mover(|recording|)) || |s.stones| == w * h
    ensures Recorded(w, h, recording + [move], over)
  {
    MoveExtends(w, h, recording, move);
  }

  /** The body of the do-while loop, with its condition. */
  method PlayRound(w: nat, h: nat, board: Board, first: Actor, second: Actor, recording: seq<Pos>)
      returns (longer: seq<Pos>, over: bool)
    requires w > 0 && h > 0 && InStep(board, first, second, Replay(w, h, recording))
    requires Recorded(w, h, recording, false)
    modifies first`asked, second`asked, board, board.fields
    modifies first.board, first.board.fields, second.board, second.board.fields
    ensures |longer| == |recording| + 1 && recording <= longer
    ensures InStep(board, first, second, Replay(w, h, longer)) && Recorded(w, h, longer, over)
    ensures first.asked == old(first.asked) + (if |recording| % 2 == 0 then 1 else 0)
    ensures second.asked == old(second.asked) + (if |recording| % 2 == 0 then 0 else 1)
  {
    ghost var s := Replay(w, h, recording);
    ReplayWellFormed(w, h, recording);
    var move := PlayMove(board, first, second, s);
    MoveExtends(w, h, recording, move);
    longer := recording + [move];
    over := GameOver(board, move);
    RecordedStep(w, h, recording, move, over);
  }

  /** The do-while loop: ends with the first move that wins or fills the board. */
  method PlayOut(w: nat, h: nat, board: Board, first: Actor, second: Actor) returns (recording: seq<Pos>)
    requires w > 0 && h > 0 && InStep(board, first, second, Start(w, h)) && first.asked == second.asked == 0
    modifies first`asked, second`asked, board, board.fields
    modifies first.board, first.board.fields, second.board, second.board.fields
    ensures Recorded(w, h, recording, true) && InStep(board, first, second, Replay(w, h, recording))
    ensures first.asked == (|recording| + 1) / 2 && second.asked == |recording| / 2
  {
    recording := [];
    var over := false;
    while !over
      invariant InStep(board, first, second, Replay(w, h, recording)) && Recorded(w, h, recording, over)
      invariant first.asked == (|recording| + 1) / 2 && second.asked == |recording| / 2
      decreases w * h - |recording|
    {
      recording, over := PlayRound(w, h, board, first, second, recording);
    }
  }

  method FinalScore(w: nat, h: nat, board: Board, recording: seq<Pos>) returns (score: real)
    requires w > 0 && h > 0 && board.Valid() && board.view == Replay(w, h, recording)
    requires |recording| > 0 && Legal(w, h, recording) && QuietSoFar(w, h, recording)
    ensures score == if HasFive(board.view, First) then 1.0 else 0.0
    ensures forall k :: 0 <= k < |recording| ==> !Decided(Replay(w, h, recording[..k]))
    ensures Decided(board.view) <==> FiveThrough(board.view, recording[|recording| - 1], Mover(|recording| - 1))
  {
    WholeGame(w, h, recording);
    var won := board.DidWin(recording[|recording| - 1]);
    if won {
      var winner := Opponent(board.current);
      score := if winner == First then 1.0 else 0.0;
    } else {
      score := 0.0;
    }
  }

  method PlayGame(w: nat, h: nat) returns (recording: seq<Pos>, score: real, board: Board, first: Actor, second: Actor)
    requires w > 0 && h > 0
    // the recorded moves are legal, and they replay to the final board, which all three boards show
    ensures Legal(w, h, recording) && 0 < |recording| <= w * h
    ensures InStep(board, first, second, Replay(w, h, recording))
    // the players take turns, the first one beginning
    ensures first.asked == (|recording| + 1) / 2 && second.asked == |recording| / 2
    // the game stops at the first five or on the full board, not earlier and not later
    ensures forall k :: 0 <= k < |recording| ==> !Decided(Replay(w, h, recording[..k]))
    ensures Decided(Replay(w, h, recording)) || |recording| == w * h
    // the score tells whether the first player won
    ensures score == if HasFive(Replay(w, h, recording), First) then 1.0 else 0.0
  {
    board, first, second := Prepare(w, h);
    recording := PlayOut(w, h, board, first, second);
    score := FinalScore(w, h, board, recording);
  }
}
