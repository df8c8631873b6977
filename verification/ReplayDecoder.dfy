/** The replay decoder of gomoku/networks/replay_ops_kernel.cc: count the rows, allocate the tensors,
    then re-simulate every game and fill one row per position. */
module ReplayDecoder {
  import opened Gomoku
  import opened BoardModel
  import opened Draw

  datatype Recording = Recording(moves: seq<Pos>, score: real)

  ghost predicate AllLegal(w: nat, h: nat, recs: seq<Recording>) {
    forall r :: 0 <= r < |recs| ==> Legal(w, h, recs[r].moves)
  }

  // ---------------------------------------------------------------------------------------
  // What a row holds, and where it sits
  // ---------------------------------------------------------------------------------------

  /** One row of the output: the score, and the features of every field. */
  datatype Row = Row(score: real, cells: seq<seq<seq<real>>>)

  /** The features are visited in the order of their names: stone_me, stone_none, stone_opp. */
  function FeatureOwner(j: nat, turn: Player): Player
    requires turn != NoPlayer
  {
    if j == 0 then turn else if j == 1 then NoPlayer else Opponent(turn)
  }

  function FeatureValue(s: Position, j: nat, p: Pos): real
    requires s.turn != NoPlayer
  {
    if s.At(p) == FeatureOwner(j, s.turn) then 1.0 else 0.0
  }

  /** The row of a position in a game with the given score, seen by the player to move. */
  function RowOf(s: Position, score: real): Row
    requires s.turn != NoPlayer
  {
    Row(if s.turn == First then score else 1.0 - score,
        seq(s.w, x => seq(s.h, y => seq(3, j requires j >= 0 => FeatureValue(s, j, Pos(x, y))))))
  }

  /** The rows of the first n positions of a game. */
  function GameRows(w: nat, h: nat, rec: Recording, n: nat): (rows: seq<Row>)
    requires n <= |rec.moves| + 1
    ensures |rows| == n
  {
    if n == 0 then []
    else GameRows(w, h, rec, n - 1) + [RowOf(Replay(w, h, rec.moves[..n - 1]), rec.score)]
  }

  /** The rows of a whole game. */
  function WholeGameRows(w: nat, h: nat): Recording -> seq<Row> {
    (rec: Recording) => GameRows(w, h, rec, |rec.moves| + 1)
  }

  /** Blocks of rows, one after the other. */
  function RowBlocks(rows: Recording -> seq<Row>, recs: seq<Recording>): seq<Row> {
    if recs == [] then [] else RowBlocks(rows, recs[..|recs| - 1]) + rows(recs[|recs| - 1])
  }

  /** The rows of all games. */
  function AllRows(w: nat, h: nat, recs: seq<Recording>): seq<Row> {
    RowBlocks(WholeGameRows(w, h), recs)
  }

  /** The first row of recording r: one row per position of every earlier recording. */
  function FirstRow(recs: seq<Recording>, r: nat): nat
    requires r <= |recs|
  {
    if r == 0 then 0 else FirstRow(recs, r - 1) + |recs[r - 1].moves| + 1
  }

  lemma {:induction false} GameRowAt(w: nat, h: nat, rec: Recording, n: nat, k: nat)
    requires k < n <= |rec.moves| + 1
    ensures GameRows(w, h, rec, n)[k] == RowOf(Replay(w, h, rec.moves[..k]), rec.score)
  {
    if k < n - 1 { GameRowAt(w, h, rec, n - 1, k); }
  }

  lemma {:induction false} FirstRowOfPrefix(recs: seq<Recording>, n: nat, r: nat)
    requires r <= n <= |recs|
    ensures FirstRow(recs[..n], r) == FirstRow(recs, r)
  {
    if r > 0 { FirstRowOfPrefix(recs, n, r - 1); }
  }

  ghost predicate OneRowPerPosition(rows: Recording -> seq<Row>) {
    forall rec :: |rows(rec)| == |rec.moves| + 1
  }

  lemma {:induction false} AllRowsCount(rows: Recording -> seq<Row>, recs: seq<Recording>)
    requires OneRowPerPosition(rows)
    ensures |RowBlocks(rows, recs)| == FirstRow(recs, |recs|)
    decreases |recs|
  {
    if recs != [] {
      var n := |recs| - 1;
      AllRowsCount(rows, recs[..n]);
      FirstRowOfPrefix(recs, n, n);
    }
  }

  lemma {:induction false} AllRowsAt(rows: Recording -> seq<Row>, recs: seq<Recording>, r: nat, k: nat)
    requires OneRowPerPosition(rows) && r < |recs| && k <= |recs[r].moves|
    ensures FirstRow(recs, r) + k < |RowBlocks(rows, recs)|
    ensures RowBlocks(rows, recs)[FirstRow(recs, r) + k] == rows(recs[r])[k]
    decreases |recs|
  {
    var n := |recs| - 1;
    AllRowsCount(rows, recs[..n]);
    FirstRowOfPrefix(recs, n, n);
    FirstRowOfPrefix(recs, n, r);
    if r < n { AllRowsAt(rows, recs[..n], r, k); }
  }

  /** The row of recording r after k moves sits at the prefix sum of (moves + 1), plus k; it shows the
      board after those k moves, and the recorded score for even k and one minus it for odd k. */
  lemma RowPlacement(w: nat, h: nat, recs: seq<Recording>, r: nat, k: nat)
    requires r < |recs| && k <= |recs[r].moves|
    ensures |AllRows(w, h, recs)| == FirstRow(recs, |recs|)
    ensures FirstRow(recs, r) + k < |AllRows(w, h, recs)|
    ensures
      var row, s := AllRows(w, h, recs)[FirstRow(recs, r) + k], Replay(w, h, recs[r].moves[..k]);
      && row == RowOf(s, recs[r].score)
      && row.score == (if k % 2 == 0 then recs[r].score else 1.0 - recs[r].score)
  {
    AllRowsCount(WholeGameRows(w, h), recs);
    AllRowsAt(WholeGameRows(w, h), recs, r, k);
    GameRowAt(w, h, recs[r], |recs[r].moves| + 1, k);
  }

  /** Field p was taken by one of the first k moves, made by the player whose turn it is after them, or not. */
  ghost predicate TakenBy(moves: seq<Pos>, k: nat, p: Pos, byMover: bool) {
    exists j :: 0 <= j < k && j < |moves| && moves[j] == p && (j % 2 == k % 2 <==> byMover)
  }

  function Bool01(b: bool): real { if b then 1.0 else 0.0 }

  /** What a row shows, in terms of the moves alone: its first feature marks the fields that the player to move
      has taken, the third those of the opponent, and the second the fields that nobody has taken. */
  lemma RowShowsMoves(w: nat, h: nat, recs: seq<Recording>, r: nat, k: nat, p: Pos)
    requires r < |recs| && Legal(w, h, recs[r].moves) && k <= |recs[r].moves| && Inside(w, h, p)
    ensures FirstRow(recs, r) + k < |AllRows(w, h, recs)|
    ensures
      var cells, moves := AllRows(w, h, recs)[FirstRow(recs, r) + k].cells, recs[r].moves;
      && |cells| == w && |cells[p.x]| == h
      && cells[p.x][p.y] == [Bool01(TakenBy(moves, k, p, true)), Bool01(p !in moves[..k]),
                             Bool01(TakenBy(moves, k, p, false))]
  {
    RowPlacement(w, h, recs, r, k);
    OwnersFromMoves(w, h, recs[r].moves, k, p);
    var s := Replay(w, h, recs[r].moves[..k]);
    assert RowOf(s, recs[r].score).cells[p.x][p.y]
           == [FeatureValue(s, 0, p), FeatureValue(s, 1, p), FeatureValue(s, 2, p)];
  }

  /** Who owns a field after the first k moves. */
  lemma OwnersFromMoves(w: nat, h: nat, moves: seq<Pos>, k: nat, p: Pos)
    requires Legal(w, h, moves) && k <= |moves|
    ensures
      var s := Replay(w, h, moves[..k]);
      && s.turn != NoPlayer
      && (s.At(p) == s.turn <==> TakenBy(moves, k, p, true))
      && (s.At(p) == Opponent(s.turn) <==> TakenBy(moves, k, p, false))
      && (s.At(p) == NoPlayer <==> p !in moves[..k])
  {
    var before := moves[..k];
    LegalPrefix(w, h, moves, k);
    ReplayShowsMoves(w, h, before);
    if p in before {
      var j :| 0 <= j < k && before[j] == p;
      assert moves[j] == p && Replay(w, h, before).At(before[j]) == Mover(j);
      assert TakenBy(moves, k, p, j % 2 == k % 2);
      forall i | 0 <= i < k && moves[i] == p ensures i == j {}
    }
  }

  lemma {:induction false} FirstRowGrows(recs: seq<Recording>, q: nat, r: nat)
    requires q < r <= |recs|
    ensures FirstRow(recs, q) + |recs[q].moves| + 1 <= FirstRow(recs, r)
  {
    if q < r - 1 { FirstRowGrows(recs, q, r - 1); }
  }

  /** No two positions share a row. */
  lemma RowsDistinct(recs: seq<Recording>, r: nat, k: nat, r': nat, k': nat)
    requires r < |recs| && k <= |recs[r].moves| && r' < |recs| && k' <= |recs[r'].moves|
    requires FirstRow(recs, r) + k == FirstRow(recs, r') + k'
    ensures r == r' && k == k'
  {
    if r < r' { FirstRowGrows(recs, r, r'); }
    if r' < r { FirstRowGrows(recs, r', r); }
  }

  /** Every row below the precounted total belongs to a position. */
  lemma {:induction false} RowsCovered(recs: seq<Recording>, n: nat, row: nat) returns (r: nat, k: nat)
    requires n <= |recs| && row < FirstRow(recs, n)
    ensures r < n && k <= |recs[r].moves| && row == FirstRow(recs, r) + k
  {
    if row < FirstRow(recs, n - 1) {
      r, k := RowsCovered(recs, n - 1, row);
    } else {
      r, k := n - 1, row - FirstRow(recs, n - 1);
    }
  }

  // ---------------------------------------------------------------------------------------
  // The output tensors
  // ---------------------------------------------------------------------------------------

  function BlankRow(w: nat, h: nat): (row: Row)
    ensures row.score == 0.0 && |row.cells| == w
    ensures forall x :: 0 <= x < w ==> |row.cells[x]| == h
    ensures forall x, y :: 0 <= x < w && 0 <= y < h ==> row.cells[x][y] == [0.0, 0.0, 0.0]
  {
    Row(0.0, seq(w, _ => seq(h, _ => [0.0, 0.0, 0.0])))
  }

  class Output {
    const width: nat
    const height: nat
    const features: array4<real>
    const scores: array<real>

    /** The rows that the two tensors hold; Valid() ties them to the elements. */
    ghost var rows: seq<Row>

    ghost predicate Valid()
      reads this, features, scores
    {
      && features.Length0 == scores.Length == |rows|
      && features.Length1 == width && features.Length2 == height && features.Length3 == 3
      && forall i :: 0 <= i < |rows| ==> Holds(i, rows[i])
    }

    ghost predicate Holds(i: nat, row: Row)
      requires i < features.Length0 == scores.Length
      requires features.Length1 == width && features.Length2 == height && features.Length3 == 3
      reads features, scores
    {
      && scores[i] == row.score && |row.cells| == width
      && (forall x :: 0 <= x < width ==> |row.cells[x]| == height)
      && (forall x, y :: 0 <= x < width && 0 <= y < height ==> |row.cells[x][y]| == 3)
      && forall x, y, j :: 0 <= x < width && 0 <= y < height && 0 <= j < 3 ==>
           features[i, x, y, j] == row.cells[x][y][j]
    }

    constructor (samples: nat, w: nat, h: nat)
      ensures Valid() && fresh(features) && fresh(scores) && |rows| == samples && width == w && height == h
    {
      width, height := w, h;
      features := new real[samples, w, h, 3]((_, _, _, _) => 0.0);
      scores := new real[samples](_ => 0.0);
      rows := seq(samples, _ => BlankRow(w, h));
      new;
      forall i | 0 <= i < samples ensures Holds(i, rows[i]) {
        assert rows[i] == BlankRow(w, h);
      }
    }

    twostate predicate OnlyFeatureChanged(row: int, feature: int)
      reads features
    {
      forall r, x, y, f :: 0 <= r < features.Length0 && 0 <= x < features.Length1 &&
                           0 <= y < features.Length2 && 0 <= f < features.Length3 && (r != row || f != feature)
                           ==> features[r, x, y, f] == old(features[r, x, y, f])
    }

    /** Board::Iter over the fields for one feature. */
    method WriteFeature(board: Board, i: nat, j: nat)
      requires board.Valid() && board.width == width && board.height == height
      requires i < features.Length0 && j < features.Length3
      requires features.Length1 == width && features.Length2 == height
      modifies features
      ensures forall x, y :: 0 <= x < width && 0 <= y < height ==>
                features[i, x, y, j] == FeatureValue(board.view, j, Pos(x, y))
      ensures OnlyFeatureChanged(i, j)
    {
      var owner := FeatureOwner(j, board.current);
      for x := 0 to width
        invariant forall x', y' :: 0 <= x' < x && 0 <= y' < height ==>
                    features[i, x', y', j] == FeatureValue(board.view, j, Pos(x', y'))
        invariant OnlyFeatureChanged(i, j)
      {
        for y := 0 to height
          invariant forall x', y' :: 0 <= x' < x && 0 <= y' < height ==>
                      features[i, x', y', j] == FeatureValue(board.view, j, Pos(x', y'))
          invariant forall y' :: 0 <= y' < y ==> features[i, x, y', j] == FeatureValue(board.view, j, Pos(x, y'))
          invariant OnlyFeatureChanged(i, j)
        {
          board.StoneAtShows(Pos(x, y));
          features[i, x, y, j] := if board.StoneAt(Pos(x, y)) == owner then 1.0 else 0.0;
        }
      }
    }

    method WriteOutput(board: Board, score: real, i: nat)
      requires Valid() && board.Valid() && board.width == width && board.height == height
      requires i < |rows|
      modifies this, features, scores
      ensures Valid() && rows == old(rows)[i := RowOf(board.view, score)]
    {
      for j := 0 to 3
        modifies features
        invariant forall x, y, f :: 0 <= x < width && 0 <= y < height && 0 <= f < j ==>
                    features[i, x, y, f] == FeatureValue(board.view, f, Pos(x, y))
        invariant forall r :: 0 <= r < |rows| && r != i ==> Holds(r, rows[r])
      {
        WriteFeature(board, i, j);
      }
      scores[i] := if board.current == First then score else 1.0 - score;
      rows := rows[i := RowOf(board.view, score)];
    }
  }

  // ---------------------------------------------------------------------------------------
  // The two passes
  // ---------------------------------------------------------------------------------------

  method CountSamples(recs: seq<Recording>) returns (samples: nat)
    ensures samples == FirstRow(recs, |recs|)
  {
    samples := 0;
    for i := 0 to |recs|
      invariant samples == FirstRow(recs, i)
    {
      samples := samples + |recs[i].moves| + 1;
    }
  }

  method Advance(board: Board, w: nat, h: nat, moves: seq<Pos>, k: nat)
    requires Legal(w, h, moves) && k < |moves|
    requires board.Valid() && board.view == Replay(w, h, moves[..k])
    modifies board, board.fields
    ensures board.Valid() && board.view == Replay(w, h, moves[..k + 1])
  {
    NextMoveAccepted(w, h, moves, k);
    board.StoneAtShows(moves[k]);
    board.ApplyMove(moves[k]);
    assert moves[..k + 1][..k] == moves[..k];
  }

  /** The rows of a game stand in a sequence of rows, from row lo on. */
  ghost predicate GameAt(w: nat, h: nat, rec: Recording, rows: seq<Row>, lo: nat) {
    && lo + |rec.moves| + 1 <= |rows|
    && forall k :: 0 <= k <= |rec.moves| ==> rows[lo + k] == RowOf(Replay(w, h, rec.moves[..k]), rec.score)
  }

  /** The first i rows are written as they should be. */
  ghost predicate Written(out: Output, rows: seq<Row>, i: nat)
    reads out, out.features, out.scores
  {
    out.Valid() && i <= |out.rows| == |rows| && forall r :: 0 <= r < i ==> out.rows[r] == rows[r]
  }

  /** The board shows the position after the first k moves. */
  ghost predicate Shows(board: Board, w: nat, h: nat, moves: seq<Pos>, k: nat)
    reads board, board.fields
  {
    board.Valid() && k <= |moves| && board.view == Replay(w, h, moves[..k])
  }

  /** Writes one more row of those that are to be written. */
  method WriteNext(out: Output, board: Board, score: real, i: nat, ghost rows: seq<Row>)
    requires board.Valid() && board.width == out.width && board.height == out.height
    requires Written(out, rows, i) && i < |rows| && rows[i] == RowOf(board.view, score)
    modifies out, out.features, out.scores
    ensures Written(out, rows, i + 1)
  {
    out.WriteOutput(board, score, i);
  }

  /** Replays move k and writes the position it leads to. */
  method WriteMove(out: Output, board: Board, rec: Recording, k: nat, i: nat, ghost lo: nat, ghost rows: seq<Row>)
    requires Legal(out.width, out.height, rec.moves) && GameAt(out.width, out.height, rec, rows, lo)
    requires k < |rec.moves| && i == lo + k + 1
    requires Shows(board, out.width, out.height, rec.moves, k) && Written(out, rows, i)
    modifies board, board.fields, out, out.features, out.scores
    ensures Shows(board, out.width, out.height, rec.moves, k + 1) && Written(out, rows, i + 1)
  {
    RowInGame(out.width, out.height, rec, rows, lo, k + 1);
    Advance(board, out.width, out.height, rec.moves, k);
    WriteNext(out, board, rec.score, i, rows);
  }

  /** The loop over the moves of one game; the row of the empty board is already there. */
  method WriteMoves(out: Output, board: Board, rec: Recording, lo: nat, ghost rows: seq<Row>) returns (i: nat)
    requires Legal(out.width, out.height, rec.moves) && GameAt(out.width, out.height, rec, rows, lo)
    requires Shows(board, out.width, out.height, rec.moves, 0) && Written(out, rows, lo + 1)
    modifies board, board.fields, out, out.features, out.scores
    ensures i == lo + |rec.moves| + 1 && Written(out, rows, i)
  {
    i := lo + 1;
    for k := 0 to |rec.moves|
      invariant Shows(board, out.width, out.height, rec.moves, k) && Written(out, rows, i) && i == lo + k + 1
    {
      WriteMove(out, board, rec, k, i, lo, rows);
      i := i + 1;
    }
  }

  /** The body of the fill loop: one game, one row for the empty board and one after each move. */
  method WriteGame(out: Output, rec: Recording, lo: nat, ghost rows: seq<Row>) returns (i: nat)
    requires out.width > 0 && out.height > 0 && Legal(out.width, out.height, rec.moves)
    requires Written(out, rows, lo) && GameAt(out.width, out.height, rec, rows, lo)
    modifies out, out.features, out.scores
    ensures i == lo + |rec.moves| + 1 && Written(out, rows, i)
  {
    var board := new Board(out.width, out.height);
    assert rec.moves[..0] == [];
    RowInGame(out.width, out.height, rec, rows, lo, 0);
    WriteNext(out, board, rec.score, lo, rows);
    i := WriteMoves(out, board, rec, lo, rows);
  }

  /** All games stand in a sequence of rows, one after the other. */
  ghost predicate AllGamesAt(w: nat, h: nat, recs: seq<Recording>, rows: seq<Row>) {
    && |rows| == FirstRow(recs, |recs|)
    && forall r :: 0 <= r < |recs| ==> GameAt(w, h, recs[r], rows, FirstRow(recs, r))
  }

  /** The fill pass. */
  method FillRows(out: Output, recs: seq<Recording>, ghost rows: seq<Row>)
    requires out.width > 0 && out.height > 0 && AllLegal(out.width, out.height, recs)
    requires Written(out, rows, 0) && AllGamesAt(out.width, out.height, recs, rows)
    modifies out, out.features, out.scores
    ensures Written(out, rows, |rows|)
  {
    var i := 0;
    for r := 0 to |recs|
      invariant i == FirstRow(recs, r) && Written(out, rows, i)
    {
      i := WriteGame(out, recs[r], i, rows);
    }
  }

  /** For legal recordings, the fill pass leaves exactly the rows of all games, in order: every
      precounted row is written, and none holds anything else. */
  method Compute(w: nat, h: nat, recs: seq<Recording>) returns (out: Output)
    requires w > 0 && h > 0 && AllLegal(w, h, recs)
    ensures out.Valid() && out.rows == AllRows(w, h, recs)
  {
    var samples := CountSamples(recs);
    out := new Output(samples, w, h);
    AllGamesPlaced(w, h, recs);
    FillRows(out, recs, AllRows(w, h, recs));
  }

  lemma AllGamesPlaced(w: nat, h: nat, recs: seq<Recording>)
    ensures AllGamesAt(w, h, recs, AllRows(w, h, recs))
  {
    AllRowsCount(WholeGameRows(w, h), recs);
    forall r | 0 <= r < |recs| ensures GameAt(w, h, recs[r], AllRows(w, h, recs), FirstRow(recs, r)) {
      GamePlacement(w, h, recs, r);
    }
  }

  lemma RowInGame(w: nat, h: nat, rec: Recording, rows: seq<Row>, lo: nat, k: nat)
    requires GameAt(w, h, rec, rows, lo) && k <= |rec.moves|
    ensures lo + k < |rows| && rows[lo + k] == RowOf(Replay(w, h, rec.moves[..k]), rec.score)
  {
  }

  lemma GamePlacement(w: nat, h: nat, recs: seq<Recording>, r: nat)
    requires r < |recs|
    ensures GameAt(w, h, recs[r], AllRows(w, h, recs), FirstRow(recs, r))
  {
    RowPlacement(w, h, recs, r, |recs[r].moves|);
    forall k | 0 <= k <= |recs[r].moves|
      ensures AllRows(w, h, recs)[FirstRow(recs, r) + k]
              == RowOf(Replay(w, h, recs[r].moves[..k]), recs[r].score)
    {
      RowPlacement(w, h, recs, r, k);
    }
  }

  // ---------------------------------------------------------------------------------------
  // What the scores say
  // ---------------------------------------------------------------------------------------

  /** The op is documented to give 1.0 exactly when the player to move won the game.  For a game that
      the referee scored, row k agrees with that exactly when the game was won or k is even. */
  lemma ScoreMeansWin(w: nat, h: nat, rec: Recording, k: nat)
    requires w > 0 && h > 0 && |rec.moves| > 0 && Legal(w, h, rec.moves) && QuietSoFar(w, h, rec.moves)
    requires k <= |rec.moves|
    requires rec.score == if HasFive(Replay(w, h, rec.moves), First) then 1.0 else 0.0
    ensures
      var last, s := Replay(w, h, rec.moves), Replay(w, h, rec.moves[..k]);
      (RowOf(s, rec.score).score == 1.0 <==> HasFive(last, s.turn)) <==> (Decided(last) || k % 2 == 0)
  {
    WholeGame(w, h, rec.moves);
  }

  /** A game that the referee can produce: it fills the board of 19 by 19 and is never won, so that the
      referee scores it 0.0.  Every row of the second player shows a win that nobody had. */
  lemma DrawScoredAsWin(k: nat)
    requires k <= SIZE * SIZE
    ensures Legal(SIZE, SIZE, DrawnGame()) && QuietSoFar(SIZE, SIZE, DrawnGame()) && |DrawnGame()| == SIZE * SIZE
    ensures !Decided(Replay(SIZE, SIZE, DrawnGame()))
    ensures
      var s := Replay(SIZE, SIZE, DrawnGame()[..k]);
      RowOf(s, 0.0).score == if k % 2 == 0 then 0.0 else 1.0
  {
    DrawnGameIsDrawn();
  }
}
