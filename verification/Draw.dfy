/** A drawn game on the board of 19 by 19 fields: the players take the fields of a colouring in turn. */
module Draw {
  import opened Gomoku

  /** The size of the board in gomoku/core/board.h. */
  const SIZE: nat := 19

  /** A colouring of the plane in which no line of any direction has three fields of one colour in a row. */
  function Colour(p: Pos): int { (p.x / 2 + p.y) % 2 }

  lemma NoThreeAlike(p: Pos, d: Pos)
    requires IsDirection(d)
    ensures Colour(Along(p, d, 1)) != Colour(p) || Colour(Along(p, d, 2)) != Colour(p)
  {
    var q, r := Along(p, d, 1), Along(p, d, 2);
    assert q == Pos(p.x + d.x, p.y + d.y) && r == Pos(p.x + 2 * d.x, p.y + 2 * d.y);
    if d.x == 0 {
      Alternates(p.x / 2 + p.y, d.y);
    } else {
      // of the two steps along x, exactly one leaves the pair of columns
      assert (q.x / 2 == p.x / 2 && r.x / 2 == q.x / 2 + d.x) || (q.x / 2 == p.x / 2 + d.x && r.x / 2 == q.x / 2);
      if d.y == 0 {
        Alternates(p.x / 2 + p.y, d.x);
      } else {
        // and the other one changes the colour
        Alternates(p.x / 2 + p.y, d.y);
        Alternates(q.x / 2 + q.y, d.y);
        TwiceOrNot(p.x / 2 + p.y, d.x, d.y);
      }
    }
  }

  lemma Alternates(n: int, d: int)
    requires d == 1 || d == -1
    ensures (n + d) % 2 != n % 2
  {
  }

  lemma TwiceOrNot(n: int, d: int, e: int)
    requires (d == 1 || d == -1) && (e == 1 || e == -1)
    ensures (n + d + e) % 2 == n % 2
  {
  }

  /** Column i of a tour through all columns that alternates between those in which fields of even height
      have colour 0, and those in which they have colour 1. */
  function TourColumn(i: nat): int {
    var j := i / 2;
    4 * (j / 2) + j % 2 + 2 * (i % 2)
  }

  /** Field n of the tour. */
  function TourField(n: nat): Pos { Pos(TourColumn(n / SIZE), n % SIZE) }

  /** The tour visits every field once, and its colours alternate. */
  lemma TourAlternates(n: nat)
    requires n < SIZE * SIZE
    ensures Inside(SIZE, SIZE, TourField(n)) && Colour(TourField(n)) == n % 2
  {
    var i, y := n / SIZE, n % SIZE;
    assert n == SIZE * i + y && i < SIZE;
    TourColumnColour(i, y);
    OddMultiple(i, y);
  }

  lemma TourColumnColour(i: nat, y: nat)
    ensures Colour(Pos(TourColumn(i), y)) == (i + y) % 2
    ensures 0 <= TourColumn(i) && (i < SIZE ==> TourColumn(i) < SIZE)
  {
    TourColumnParity(i);
    SameParity(TourColumn(i) / 2, i, y);
  }

  lemma TourColumnParity(i: nat)
    ensures TourColumn(i) / 2 % 2 == i % 2 && 0 <= TourColumn(i)
    ensures i < SIZE ==> TourColumn(i) < SIZE
  {
    var j, b := i / 2, i % 2;
    var a, c := j / 2, j % 2;
    assert TourColumn(i) == 2 * (2 * a + b) + c;
    assert TourColumn(i) / 2 == 2 * a + b;
  }

  lemma SameParity(a: int, b: int, y: int)
    requires a % 2 == b % 2
    ensures (a + y) % 2 == (b + y) % 2
  {
  }

  lemma OddMultiple(i: nat, y: nat)
    ensures (SIZE * i + y) % 2 == (i + y) % 2
  {
    assert SIZE * i + y == 2 * (9 * i) + (i + y);
  }

  lemma TourIsInjective(m: nat, n: nat)
    requires m < SIZE * SIZE && n < SIZE * SIZE && TourField(m) == TourField(n)
    ensures m == n
  {
    TourColumnsDiffer(m / SIZE, n / SIZE);
    assert m == SIZE * (m / SIZE) + m % SIZE && n == SIZE * (n / SIZE) + n % SIZE;
  }

  lemma TourColumnsDiffer(i: nat, j: nat)
    requires TourColumn(i) == TourColumn(j)
    ensures i == j
  {
    SameDigits(i / 2 / 2, i / 2 % 2, i % 2, j / 2 / 2, j / 2 % 2, j % 2);
  }

  lemma SameDigits(a: int, u: int, v: int, b: int, s: int, t: int)
    requires 0 <= u < 2 && 0 <= v < 2 && 0 <= s < 2 && 0 <= t < 2
    requires 4 * a + u + 2 * v == 4 * b + s + 2 * t
    ensures a == b && u == s && v == t
  {
  }

  /** A full game in which the players take the fields of the two colours in turn. */
  function DrawnGame(): (moves: seq<Pos>)
    ensures |moves| == SIZE * SIZE
  {
    seq(SIZE * SIZE, n requires n >= 0 => TourField(n))
  }

  /** Every move takes a field of its player's colour. */
  ghost predicate Alternating(moves: seq<Pos>) {
    forall n :: 0 <= n < |moves| ==> Colour(moves[n]) == n % 2
  }

  /** In such a game the first player owns only fields of colour 0, the second one of colour 1. */
  lemma OwnersAreColours(w: nat, h: nat, moves: seq<Pos>, p: Pos)
    requires Legal(w, h, moves) && Alternating(moves) && Replay(w, h, moves).At(p) != NoPlayer
    ensures Replay(w, h, moves).At(p) == if Colour(p) == 0 then First else Second
  {
    ReplayShowsMoves(w, h, moves);
    assert p in moves;
    var n :| 0 <= n < |moves| && moves[n] == p;
  }

  lemma NeverDecided(w: nat, h: nat, moves: seq<Pos>)
    requires Legal(w, h, moves) && Alternating(moves)
    ensures !Decided(Replay(w, h, moves))
  {
    var s := Replay(w, h, moves);
    forall p, start, d | p != NoPlayer && IsDirection(d) ensures !FiveAt(s, p, start, d) {
      if FiveAt(s, p, start, d) {
        assert s.At(Along(start, d, 0)) == s.At(Along(start, d, 1)) == s.At(Along(start, d, 2)) == p;
        OwnersAreColours(w, h, moves, Along(start, d, 0));
        OwnersAreColours(w, h, moves, Along(start, d, 1));
        OwnersAreColours(w, h, moves, Along(start, d, 2));
        AlongAlong(start, d, 0, 0);
        NoThreeAlike(start, d);
      }
    }
  }

  /** On a board of any size, the win check never says yes in such a game. */
  lemma NeverWon(w: nat, h: nat, moves: seq<Pos>)
    requires Legal(w, h, moves) && Alternating(moves) && moves != []
    ensures !FiveThrough(Replay(w, h, moves), moves[|moves| - 1], Mover(|moves| - 1))
  {
    var s, last, mover := Replay(w, h, moves), moves[|moves| - 1], Mover(|moves| - 1);
    NeverDecided(w, h, moves);
    ReplayShowsMoves(w, h, moves);
    if FiveThrough(s, last, mover) { FiveFromFourAround(s, last, mover); }
  }

  /** The game is legal, fills the board, and nobody ever has a five. */
  lemma DrawnGameIsDrawn()
    ensures Legal(SIZE, SIZE, DrawnGame()) && QuietSoFar(SIZE, SIZE, DrawnGame())
    ensures !Decided(Replay(SIZE, SIZE, DrawnGame()))
  {
    var moves := DrawnGame();
    forall k | 0 <= k < |moves| ensures Inside(SIZE, SIZE, moves[k]) && Colour(moves[k]) == k % 2 {
      TourAlternates(k);
    }
    forall j, k | 0 <= j < k < |moves| ensures moves[j] != moves[k] {
      if moves[j] == moves[k] { TourIsInjective(j, k); }
    }
    NeverDecided(SIZE, SIZE, moves);
    forall k | 0 < k < |moves| ensures !FiveThrough(Replay(SIZE, SIZE, moves[..k]), moves[k - 1], Mover(k - 1)) {
      NeverWon(SIZE, SIZE, moves[..k]);
    }
  }
}
