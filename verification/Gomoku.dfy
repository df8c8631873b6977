/** The rules of the game: positions as values, moves on them, and what a win is.

The board classes and the referee are proved against these definitions.  Width and height are
arbitrary; gomoku/core/board.h fixes both at 19.
*/
module Gomoku {

  datatype Player = First | Second | NoPlayer

  function Opponent(p: Player): (r: Player)
    requires p != NoPlayer
    ensures r != p && r != NoPlayer
  {
    if p == First then Second else First
  }

  /** A point or a direction of the plane. */
  datatype Pos = Pos(x: int, y: int)

  predicate Inside(w: nat, h: nat, p: Pos) {
    0 <= p.x < w && 0 <= p.y < h
  }

  ghost function Cells(w: nat, h: nat): (s: set<Pos>)
    ensures forall p :: p in s <==> Inside(w, h, p)
  {
    set x, y | 0 <= x < w && 0 <= y < h :: Pos(x, y)
  }

  ghost function OwnedBy(stones: map<Pos, Player>, p: Player): set<Pos> {
    set m | m in stones && stones[m] == p
  }

  /** A position: who owns which field, and who moves next. */
  datatype Position = Position(w: nat, h: nat, stones: map<Pos, Player>, turn: Player)
  {
    /** The owner of a field; nobody owns an empty field or one outside the board. */
    function At(p: Pos): Player {
      if p in stones then stones[p] else NoPlayer
    }

    ghost function Owned(p: Player): set<Pos> { OwnedBy(stones, p) }

    /** What holds of every position that play can reach. */
    ghost predicate WellFormed() {
      && w > 0 && h > 0
      && stones.Keys <= Cells(w, h)
      && turn != NoPlayer
      && (forall m :: m in stones ==> stones[m] != NoPlayer)
      && |Owned(First)| - |Owned(Second)| == (if turn == First then 0 else 1)
    }

    predicate CanApply(m: Pos) {
      turn != NoPlayer && Inside(w, h, m) && At(m) == NoPlayer
    }

    function Apply(m: Pos): Position
      requires turn != NoPlayer
    {
      Position(w, h, stones[m := turn], Opponent(turn))
    }

    /** The stone to take back belongs to the player who moved last; it need not be the last one. */
    predicate CanRevert(m: Pos) {
      turn != NoPlayer && Inside(w, h, m) && At(m) == Opponent(turn)
    }

    function Revert(m: Pos): Position
      requires turn != NoPlayer
    {
      Position(w, h, stones - {m}, Opponent(turn))
    }
  }

  function Start(w: nat, h: nat): Position {
    Position(w, h, map[], First)
  }

  // ---------------------------------------------------------------------------------------
  // What every operation keeps, and what one undoes of another
  // ---------------------------------------------------------------------------------------

  lemma ApplyKeeps(s: Position, m: Pos)
    requires s.WellFormed() && s.CanApply(m)
    ensures s.Apply(m).WellFormed()
    ensures |s.Apply(m).stones| == |s.stones| + 1
  {
    assert m !in s.stones;
    OwnedAfterApply(s, m, First);
    OwnedAfterApply(s, m, Second);
  }

  lemma OwnedAfterApply(s: Position, m: Pos, p: Player)
    requires s.turn != NoPlayer && m !in s.stones
    ensures |s.Apply(m).Owned(p)| == |s.Owned(p)| + (if p == s.turn then 1 else 0)
  {
    OwnersAfter(s.stones, m, s.turn, p);
  }

  lemma OwnersAfter(stones: map<Pos, Player>, m: Pos, owner: Player, p: Player)
    requires m !in stones
    ensures m !in OwnedBy(stones, p)
    ensures OwnedBy(stones[m := owner], p) == OwnedBy(stones, p) + if p == owner then {m} else {}
  {
  }

  lemma RevertKeeps(s: Position, m: Pos)
    requires s.WellFormed() && s.CanRevert(m)
    ensures s.Revert(m).WellFormed()
    ensures |s.Revert(m).stones| == |s.stones| - 1
  {
    var t := s.Revert(m);
    var p := Opponent(s.turn);
    assert t.Owned(p) == s.Owned(p) - {m};
    assert t.Owned(s.turn) == s.Owned(s.turn);
    assert t.stones.Keys == s.stones.Keys - {m};
  }

  lemma RevertUndoesApply(s: Position, m: Pos)
    requires s.WellFormed() && s.CanApply(m)
    ensures s.Apply(m).CanRevert(m) && s.Apply(m).Revert(m) == s
  {
    assert m !in s.stones;
    assert s.Apply(m).Revert(m).stones == s.stones;
  }

  lemma ApplyUndoesRevert(s: Position, m: Pos)
    requires s.WellFormed() && s.CanRevert(m)
    ensures s.Revert(m).CanApply(m) && s.Revert(m).Apply(m) == s
  {
    assert s.Revert(m).Apply(m).stones == s.stones;
  }

  /** The calls a client can make on a board. */
  datatype Call = ResetCall | ApplyCall(m: Pos) | RevertCall(m: Pos)

  ghost predicate Accepted(r: Position, c: Call, s: Position) {
    match c
    case ResetCall => s == Start(r.w, r.h)
    case ApplyCall(m) => r.CanApply(m) && s == r.Apply(m)
    case RevertCall(m) => r.CanRevert(m) && s == r.Revert(m)
  }

  /** The positions a sequence of accepted calls leads to, starting from the empty board. */
  ghost predicate Leads(w: nat, h: nat, calls: seq<Call>, s: Position)
    decreases |calls|
  {
    var n := |calls| - 1;
    if n < 0 then s == Start(w, h)
    else exists r :: Leads(w, h, calls[..n], r) && Accepted(r, calls[n], s)
  }

  /** Every reachable board is well formed, whatever the order of the calls. */
  lemma {:induction false} ReachableWellFormed(w: nat, h: nat, calls: seq<Call>, s: Position)
    requires w > 0 && h > 0 && Leads(w, h, calls, s)
    ensures s.WellFormed() && s.w == w && s.h == h
    decreases |calls|
  {
    assert Start(w, h).Owned(First) == {} == Start(w, h).Owned(Second);
    var n := |calls| - 1;
    if n >= 0 {
      var r :| Leads(w, h, calls[..n], r) && Accepted(r, calls[n], s);
      ReachableWellFormed(w, h, calls[..n], r);
      match calls[n]
      case ResetCall =>
      case ApplyCall(m) => ApplyKeeps(r, m);
      case RevertCall(m) => RevertKeeps(r, m);
    }
  }

  ghost function Column(x: int, h: nat): set<Pos> {
    set y | 0 <= y < h :: Pos(x, y)
  }

  lemma {:induction false} ColumnSize(x: int, h: nat)
    ensures |Column(x, h)| == h
  {
    if h > 0 {
      ColumnSize(x, h - 1);
      assert Column(x, h) == Column(x, h - 1) + {Pos(x, h - 1)};
    }
  }

  lemma SplitColumn(w: nat, h: nat)
    requires w > 0
    ensures Cells(w, h) == Cells(w - 1, h) + Column(w - 1, h) && Cells(w - 1, h) !! Column(w - 1, h)
  {
    assert forall p :: p in Column(w - 1, h) <==> p.x == w - 1 && 0 <= p.y < h;
  }

  lemma {:induction false} CellCount(w: nat, h: nat)
    ensures |Cells(w, h)| == w * h
  {
    if w > 0 {
      CellCount(w - 1, h);
      ColumnSize(w - 1, h);
      SplitColumn(w, h);
      assert (w - 1) * h + h == w * h;
    }
  }

  /** Counting stones decides whether a field is left, and never exceeds the number of fields. */
  lemma FullExactlyWhenCounted(s: Position)
    requires s.WellFormed()
    ensures |s.stones| <= s.w * s.h
    ensures |s.stones| == s.w * s.h <==> forall m :: Inside(s.w, s.h, m) ==> s.At(m) != NoPlayer
  {
    CellCount(s.w, s.h);
    var empty := Cells(s.w, s.h) - s.stones.Keys;
    assert Cells(s.w, s.h) == s.stones.Keys + empty;
    if |s.stones| != s.w * s.h {
      var m :| m in empty;
      assert s.At(m) == NoPlayer;
    }
  }

  // ---------------------------------------------------------------------------------------
  // Winning
  // ---------------------------------------------------------------------------------------

  function Along(m: Pos, d: Pos, i: int): Pos {
    Pos(m.x + i * d.x, m.y + i * d.y)
  }

  /** One step horizontally, vertically or diagonally. */
  predicate IsDirection(d: Pos) {
    -1 <= d.x <= 1 && -1 <= d.y <= 1 && d != Pos(0, 0)
  }

  ghost predicate FiveAt(s: Position, p: Player, start: Pos, d: Pos) {
    forall i :: 0 <= i < 5 ==> s.At(Along(start, d, i)) == p
  }

  /** A player owns five fields in a row, anywhere on the board and in any direction. */
  ghost predicate HasFive(s: Position, p: Player) {
    exists start, d :: IsDirection(d) && FiveAt(s, p, start, d)
  }

  const WIN_DIRECTIONS: seq<Pos> := [Pos(0, 1), Pos(1, 0), Pos(1, 1), Pos(1, -1)]

  /** Along a direction, `before` fields behind m and 4 - before ahead of it belong to p. */
  ghost predicate FourAround(s: Position, m: Pos, p: Player, d: Pos, before: int) {
    forall i :: -before <= i <= 4 - before && i != 0 ==> s.At(Along(m, d, i)) == p
  }

  ghost predicate FourOnLine(s: Position, m: Pos, p: Player, d: Pos) {
    exists before :: 0 <= before <= 4 && FourAround(s, m, p, d, before)
  }

  ghost predicate FiveThrough(s: Position, m: Pos, p: Player) {
    exists k :: 0 <= k < 4 && FourOnLine(s, m, p, WIN_DIRECTIONS[k])
  }

  lemma AlongAlong(m: Pos, d: Pos, i: int, j: int)
    ensures Along(Along(m, d, i), d, j) == Along(m, d, i + j)
    ensures Along(m, d, 0) == m
  {
    assert (i + j) * d.x == i * d.x + j * d.x && (i + j) * d.y == i * d.y + j * d.y;
  }

  function Negate(d: Pos): Pos { Pos(-d.x, -d.y) }

  lemma AlongNegate(m: Pos, d: Pos, i: int)
    ensures Along(m, Negate(d), i) == Along(m, d, -i)
  {
    assert i * (-d.x) == (-i) * d.x && i * (-d.y) == (-i) * d.y;
  }

  /** Up to its sign, every direction is one of the four that the win check visits. */
  lemma DirectionIndex(d: Pos) returns (k: int, reversed: bool)
    requires IsDirection(d)
    ensures 0 <= k < 4 && WIN_DIRECTIONS[k] == if reversed then Negate(d) else d
  {
    reversed := d.x < 0 || (d.x == 0 && d.y < 0);
    var e := if reversed then Negate(d) else d;
    k := if e.x == 0 then 0 else if e.y == 0 then 1 else if e.y == 1 then 2 else 3;
  }

  lemma FourAroundFromFive(s: Position, m: Pos, p: Player, start: Pos, d: Pos, j: int)
    requires IsDirection(d) && FiveAt(s, p, start, d) && 0 <= j < 5 && Along(start, d, j) == m
    ensures FiveThrough(s, m, p)
  {
    var k, reversed := DirectionIndex(d);
    var e, before := WIN_DIRECTIONS[k], if reversed then 4 - j else j;
    forall i | -before <= i <= 4 - before && i != 0 ensures s.At(Along(m, e, i)) == p {
      var n := if reversed then j - i else j + i;
      if reversed { AlongNegate(m, d, i); }
      AlongAlong(start, d, j, n - j);
      assert s.At(Along(start, d, n)) == p;
    }
    assert FourAround(s, m, p, e, before);
    assert FourOnLine(s, m, p, WIN_DIRECTIONS[k]);
  }

  lemma FiveFromFourAround(s: Position, m: Pos, p: Player)
    requires FiveThrough(s, m, p) && s.At(m) == p
    ensures HasFive(s, p)
  {
    var k :| 0 <= k < 4 && FourOnLine(s, m, p, WIN_DIRECTIONS[k]);
    var d := WIN_DIRECTIONS[k];
    var before :| 0 <= before <= 4 && FourAround(s, m, p, d, before);
    var start := Along(m, d, -before);
    forall i | 0 <= i < 5 ensures s.At(Along(start, d, i)) == p {
      AlongAlong(m, d, -before, i);
      AlongAlong(m, d, 0, 0);
    }
    assert IsDirection(d) && FiveAt(s, p, start, d);
  }

  /** A five that appears with a move goes through the field of that move. */
  lemma NewFiveIsThrough(s: Position, m: Pos, p: Player)
    requires s.WellFormed() && s.CanApply(m) && p != NoPlayer
    requires !HasFive(s, p) && HasFive(s.Apply(m), p)
    ensures p == s.turn && FiveThrough(s.Apply(m), m, p)
  {
    var t := s.Apply(m);
    var start, d :| IsDirection(d) && FiveAt(t, p, start, d);
    if j :| 0 <= j < 5 && Along(start, d, j) == m {
      assert t.At(Along(start, d, j)) == p;
      FourAroundFromFive(t, m, p, start, d, j);
    } else {
      forall i | 0 <= i < 5 ensures s.At(Along(start, d, i)) == p {
        assert t.At(Along(start, d, i)) == p;
      }
      assert FiveAt(s, p, start, d);
    }
  }

  ghost predicate Decided(s: Position) { HasFive(s, First) || HasFive(s, Second) }

  /** Looking around the last move only is enough: if nobody had a five before the move, the lines
      through it hold five stones of the mover exactly when anybody has a five anywhere. */
  lemma LocalCheckIsGlobal(s: Position, m: Pos)
    requires s.WellFormed() && s.CanApply(m) && !Decided(s)
    ensures FiveThrough(s.Apply(m), m, s.turn) <==> Decided(s.Apply(m))
    ensures Decided(s.Apply(m)) <==> HasFive(s.Apply(m), s.turn)
    ensures !HasFive(s.Apply(m), Opponent(s.turn))
  {
    var t := s.Apply(m);
    if FiveThrough(t, m, s.turn) { FiveFromFourAround(t, m, s.turn); }
    forall p | p != NoPlayer && HasFive(t, p) ensures p == s.turn && FiveThrough(t, m, p) {
      NewFiveIsThrough(s, m, p);
    }
  }

  // ---------------------------------------------------------------------------------------
  // Whole games
  // ---------------------------------------------------------------------------------------

  /** The moves of a game: all on the board, none on an occupied field. */
  ghost predicate Legal(w: nat, h: nat, moves: seq<Pos>) {
    && (forall k :: 0 <= k < |moves| ==> Inside(w, h, moves[k]))
    && (forall j, k :: 0 <= j < k < |moves| ==> moves[j] != moves[k])
  }

  function Replay(w: nat, h: nat, moves: seq<Pos>): (s: Position)
    ensures s.turn == if |moves| % 2 == 0 then First else Second
    ensures s.w == w && s.h == h
  {
    if moves == [] then Start(w, h) else Replay(w, h, moves[..|moves| - 1]).Apply(moves[|moves| - 1])
  }

  /** The player who makes move number k. */
  function Mover(k: nat): (p: Player) { if k % 2 == 0 then First else Second }

  lemma LegalPrefix(w: nat, h: nat, moves: seq<Pos>, n: nat)
    requires Legal(w, h, moves) && n <= |moves|
    ensures Legal(w, h, moves[..n])
  {
  }

  /** A replayed game shows exactly its moves, each owned by the player who made it. */
  lemma {:induction false} ReplayShowsMoves(w: nat, h: nat, moves: seq<Pos>)
    requires Legal(w, h, moves)
    ensures forall m :: m in Replay(w, h, moves).stones <==> m in moves
    ensures forall k :: 0 <= k < |moves| ==> Replay(w, h, moves).At(moves[k]) == Mover(k)
    decreases |moves|
  {
    if moves != [] {
      var n := |moves| - 1;
      var s, before := Replay(w, h, moves[..n]), moves[..n];
      LegalPrefix(w, h, moves, n);
      ReplayShowsMoves(w, h, before);
      assert moves == before + [moves[n]];
      forall k | 0 <= k <= n ensures s.Apply(moves[n]).At(moves[k]) == Mover(k) {
        if k < n { assert before[k] == moves[k]; }
      }
    }
  }

  /** The next move of a legal game is one that the board accepts. */
  lemma NextMoveAccepted(w: nat, h: nat, moves: seq<Pos>, n: nat)
    requires Legal(w, h, moves) && n < |moves|
    ensures Replay(w, h, moves[..n]).CanApply(moves[n])
  {
    LegalPrefix(w, h, moves, n);
    ReplayShowsMoves(w, h, moves[..n]);
    assert moves[n] !in moves[..n];
  }

  lemma {:induction false} ReplayWellFormed(w: nat, h: nat, moves: seq<Pos>)
    requires w > 0 && h > 0 && Legal(w, h, moves)
    ensures Replay(w, h, moves).WellFormed()
    ensures |Replay(w, h, moves).stones| == |moves|
    decreases |moves|
  {
    if moves == [] {
      ReachableWellFormed(w, h, [], Start(w, h));
    } else {
      var n := |moves| - 1;
      LegalPrefix(w, h, moves, n);
      ReplayWellFormed(w, h, moves[..n]);
      NextMoveAccepted(w, h, moves, n);
      ApplyKeeps(Replay(w, h, moves[..n]), moves[n]);
    }
  }

  /** The win check after each of the moves before the last one said no. */
  ghost predicate QuietSoFar(w: nat, h: nat, moves: seq<Pos>) {
    forall k :: 0 < k < |moves| ==> !FiveThrough(Replay(w, h, moves[..k]), moves[k - 1], Mover(k - 1))
  }

  lemma StartUndecided(w: nat, h: nat)
    ensures !Decided(Start(w, h))
  {
    var s := Start(w, h);
    forall p, start, d | p != NoPlayer ensures !FiveAt(s, p, start, d) {
      assert s.At(Along(start, d, 0)) == NoPlayer;
    }
  }

  /** A move in a game in which nobody had a five. */
  lemma MoveDecides(w: nat, h: nat, moves: seq<Pos>, k: nat)
    requires w > 0 && h > 0 && Legal(w, h, moves) && k < |moves| && !Decided(Replay(w, h, moves[..k]))
    ensures
      var s := Replay(w, h, moves[..k + 1]);
      && (FiveThrough(s, moves[k], Mover(k)) <==> Decided(s))
      && (Decided(s) <==> HasFive(s, Mover(k)))
      && !HasFive(s, Mover(k + 1))
  {
    assert moves[..k + 1][..k] == moves[..k];
    LegalPrefix(w, h, moves, k);
    ReplayWellFormed(w, h, moves[..k]);
    NextMoveAccepted(w, h, moves, k);
    LocalCheckIsGlobal(Replay(w, h, moves[..k]), moves[k]);
  }

  lemma {:induction false} QuietMeansUndecided(w: nat, h: nat, moves: seq<Pos>, k: nat)
    requires w > 0 && h > 0 && Legal(w, h, moves) && QuietSoFar(w, h, moves) && k < |moves|
    ensures !Decided(Replay(w, h, moves[..k]))
    decreases k
  {
    if k == 0 {
      assert moves[..0] == [];
      StartUndecided(w, h);
    } else {
      QuietMeansUndecided(w, h, moves, k - 1);
      MoveDecides(w, h, moves, k - 1);
      assert !FiveThrough(Replay(w, h, moves[..k]), moves[k - 1], Mover(k - 1));
    }
  }

  /** Over a whole game: as long as the check around each last move says no, nobody has a five, and
      the first time it says yes is the first time a five exists; it belongs to the mover. */
  lemma WholeGame(w: nat, h: nat, moves: seq<Pos>)
    requires w > 0 && h > 0 && |moves| > 0 && Legal(w, h, moves) && QuietSoFar(w, h, moves)
    ensures forall k :: 0 <= k < |moves| ==> !Decided(Replay(w, h, moves[..k]))
    ensures
      var n, s := |moves| - 1, Replay(w, h, moves);
      && (FiveThrough(s, moves[n], Mover(n)) <==> Decided(s))
      && (Decided(s) <==> HasFive(s, Mover(n)))
      && !HasFive(s, Mover(n + 1))
  {
    var n := |moves| - 1;
    forall k | 0 <= k < |moves| ensures !Decided(Replay(w, h, moves[..k])) {
      QuietMeansUndecided(w, h, moves, k);
    }
    MoveDecides(w, h, moves, n);
    assert moves[..n + 1] == moves;
  }
}
