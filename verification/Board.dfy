/** The bitset board of gomoku/core/board.cc, proved against the positions of the game. */
module BoardModel {
  import opened Common
  import opened Gomoku

  /** The bit pair of a field inside the bitset. */
  function FieldIndex(h: nat, p: Pos): int {
    (p.x * h + p.y) * 2
  }

  lemma FieldIndexInRange(w: nat, h: nat, p: Pos)
    requires Inside(w, h, p)
    ensures 0 <= FieldIndex(h, p) && FieldIndex(h, p) + 1 < w * h * 2
  {
    OneMore(p.x, h);
    MulMonotone(0, p.x, h);
    MulMonotone(p.x + 1, w, h);
  }

  /** Different fields have different bit pairs. */
  lemma FieldIndexInjective(w: nat, h: nat, p: Pos, q: Pos)
    requires Inside(w, h, p) && Inside(w, h, q) && FieldIndex(h, p) == FieldIndex(h, q)
    ensures p == q
  {
    if p.x < q.x { RowsApart(h, p, q); }
    if q.x < p.x { RowsApart(h, q, p); }
  }

  lemma RowsApart(h: nat, p: Pos, q: Pos)
    requires p.x < q.x && p.y < h && 0 <= q.y
    ensures FieldIndex(h, p) < FieldIndex(h, q)
  {
    OneMore(p.x, h);
    MulMonotone(p.x + 1, q.x, h);
  }

  class Board {
    const width: nat
    const height: nat
    const fields: array<bool>
    var current: Player
    var movesMade: int

    /** The position that the board shows; Valid() ties it to the fields above. */
    ghost var view: Position

    ghost predicate Shape()
      reads this
    {
      width > 0 && height > 0 && fields.Length == width * height * 2 && current != NoPlayer
    }

    /** The bit of a field that belongs to a player. */
    function Bit(p: Pos, player: Player): bool
      requires Shape() && Inside(width, height, p) && player != NoPlayer
      reads this, fields
    {
      FieldIndexInRange(width, height, p);
      fields[FieldIndex(height, p) + (if player == First then 0 else 1)]
    }

    /** A bit is set exactly when its player owns the field, so no field has two owners. */
    ghost predicate Shows(s: Position)
      requires Shape()
      reads this, fields
    {
      && s.w == width && s.h == height && s.turn == current
      && forall p, o :: Inside(width, height, p) && o != NoPlayer ==> (Bit(p, o) <==> s.At(p) == o)
    }

    /** What holds between any two calls: the board shows a position that play can reach, and the
        move counter counts its stones. */
    ghost predicate Valid()
      reads this, fields
    {
      Shape() && Shows(view) && view.WellFormed() && movesMade == |view.stones|
    }

    function StoneAt(p: Pos): Player
      requires Shape() && Inside(width, height, p)
      reads this, fields
    {
      if Bit(p, First) then First else if Bit(p, Second) then Second else NoPlayer
    }

    lemma StoneAtShows(p: Pos)
      requires Valid() && Inside(width, height, p)
      ensures StoneAt(p) == view.At(p)
    {
      assert Bit(p, First) <==> view.At(p) == First;
      assert Bit(p, Second) <==> view.At(p) == Second;
    }

    constructor (w: nat, h: nat)
      requires w > 0 && h > 0
      ensures Valid() && fresh(fields) && width == w && height == h
      ensures view == Start(w, h)
    {
      width, height, current, movesMade := w, h, First, 0;
      fields := new bool[w * h * 2](_ => false);
      view := Start(w, h);
      new;
      BlankIsValid();
    }

    lemma BlankIsValid()
      requires width > 0 && height > 0 && fields.Length == width * height * 2
      requires (forall i :: 0 <= i < fields.Length ==> !fields[i]) && current == First && movesMade == 0
      requires view == Start(width, height)
      ensures Valid()
    {
      BlankShowsStart();
    }

    lemma BlankShowsStart()
      requires Shape() && current == First && forall i :: 0 <= i < fields.Length ==> !fields[i]
      ensures Shows(Start(width, height)) && Start(width, height).WellFormed()
    {
      forall p, o | Inside(width, height, p) && o != NoPlayer ensures !Bit(p, o) {
        FieldIndexInRange(width, height, p);
      }
      ReachableWellFormed(width, height, [], Start(width, height));
    }

    method Reset()
      requires Valid()
      modifies this, fields
      ensures Valid() && view == Start(width, height)
    {
      for i := 0 to fields.Length
        invariant forall k :: 0 <= k < i ==> !fields[k]
      {
        fields[i] := false;
      }
      current, movesMade := First, 0;
      view := Start(width, height);
      BlankShowsStart();
    }

    /** Writing the bits of one field leaves the other fields alone. */
    twostate lemma OtherFieldsKept(m: Pos)
      requires old(Shape()) && Shape() && Inside(width, height, m)
      requires
        var index := FieldIndex(height, m);
        forall i :: 0 <= i < fields.Length && i != index && i != index + 1 ==> fields[i] == old(fields[i])
      ensures forall p, o :: Inside(width, height, p) && p != m && o != NoPlayer ==> Bit(p, o) == old(Bit(p, o))
    {
      forall p, o | Inside(width, height, p) && p != m && o != NoPlayer ensures Bit(p, o) == old(Bit(p, o)) {
        FieldIndexInRange(width, height, p);
        if FieldIndex(height, p) == FieldIndex(height, m) {
          FieldIndexInjective(width, height, p, m);
        }
      }
    }

    /** The requires clauses are the CHECKs of the source. */
    method ApplyMove(move: Pos)
      requires Valid() && Inside(width, height, move)
      requires StoneAt(move) == NoPlayer
      modifies this, fields
      ensures Valid() && view == old(view).Apply(move)
    {
      StoneAtShows(move);
      ApplyKeeps(view, move);
      FieldIndexInRange(width, height, move);
      var index := FieldIndex(height, move);
      fields[index + (if current == First then 0 else 1)] := true;
      current := Opponent(current);
      movesMade := movesMade + 1;
      view := view.Apply(move);
      OtherFieldsKept(move);
      forall p, o | Inside(width, height, p) && o != NoPlayer ensures Bit(p, o) <==> view.At(p) == o {
        assert old(Bit(p, o) <==> view.At(p) == o);
      }
    }

    method RevertMove(move: Pos)
      requires Valid() && Inside(width, height, move)
      requires StoneAt(move) == Opponent(current)
      modifies this, fields
      ensures Valid() && view == old(view).Revert(move)
    {
      StoneAtShows(move);
      RevertKeeps(view, move);
      FieldIndexInRange(width, height, move);
      var index := FieldIndex(height, move);
      current := Opponent(current);
      fields[index + (if current == First then 0 else 1)] := false;
      movesMade := movesMade - 1;
      view := view.Revert(move);
      OtherFieldsKept(move);
      forall p, o | Inside(width, height, p) && o != NoPlayer ensures Bit(p, o) <==> view.At(p) == o {
        assert old(Bit(p, o) <==> view.At(p) == o);
      }
    }

    method NoMovePossible() returns (r: bool)
      requires Valid()
      ensures r <==> forall p :: Inside(width, height, p) ==> view.At(p) != NoPlayer
    {
      FullExactlyWhenCounted(view);
      r := movesMade == width * height;
    }

    method StoneAtPadded(p: Pos) returns (r: Player)
      requires Valid()
      ensures r == view.At(p)
    {
      if !Inside(width, height, p) { return NoPlayer; }
      StoneAtShows(p);
      r := StoneAt(p);
    }

    /** Counts the stones of a player that follow one another from a field; the ray always ends. */
    method CastRay(last: Pos, d: Pos, player: Player) returns (count: nat)
      requires Valid() && IsDirection(d) && Inside(width, height, last) && player != NoPlayer
      ensures IsRay(view, last, d, player, count)
    {
      count := 0;
      AlongAlong(last, d, 0, 0);
      while true
        invariant Inside(width, height, Along(last, d, count))
        invariant forall i :: 1 <= i <= count ==> view.At(Along(last, d, i)) == player
        decreases width + height - count
      {
        var stone := StoneAtPadded(Along(last, d, count + 1));
        if stone != player { break; }
        RayStaysShort(width, height, last, d, count + 1);
        count := count + 1;
      }
    }

    /** One round of the win check: both rays along a line. */
    method LineWins(last: Pos, d: Pos, player: Player) returns (r: bool)
      requires Valid() && IsDirection(d) && Inside(width, height, last) && player != NoPlayer
      ensures r <==> FourOnLine(view, last, player, d)
    {
      var negative := CastRay(last, Negate(d), player);
      var positive := CastRay(last, d, player);
      RaysMakeFour(view, last, player, d, negative, positive);
      r := positive + negative >= 4;
    }

    method DidWin(last: Pos) returns (r: bool)
      requires Valid() && Inside(width, height, last)
      ensures r <==> FiveThrough(view, last, Opponent(current))
    {
      var player := Opponent(current);
      for k := 0 to 4
        invariant forall j :: 0 <= j < k ==> !FourOnLine(view, last, player, WIN_DIRECTIONS[j])
      {
        var found := LineWins(last, WIN_DIRECTIONS[k], player);
        if found { return true; }
      }
      r := false;
    }

    /** Scans the board from the drawn offsets, wrapping around, and returns the first empty field.
        None stands for the fatal error of the source. */
    method SampleLegalMove(xOffset: nat, yOffset: nat) returns (r: Option<Pos>)
      requires Valid() && xOffset < width && yOffset < height
      ensures r.None? <==> forall p :: Inside(width, height, p) ==> view.At(p) != NoPlayer
      ensures r.Some? ==> exists x, y :: FirstEmpty(view, xOffset, yOffset, x, y, r.value)
    {
      for x := 0 to width
        invariant forall i, j :: 0 <= i < x && 0 <= j < height ==>
                    view.At(Scanned(width, height, xOffset, yOffset, i, j)) != NoPlayer
      {
        for y := 0 to height
          invariant forall j :: 0 <= j < y ==>
                      view.At(Scanned(width, height, xOffset, yOffset, x, j)) != NoPlayer
        {
          var move := Scanned(width, height, xOffset, yOffset, x, y);
          StoneAtShows(move);
          if StoneAt(move) == NoPlayer {
            assert FirstEmpty(view, xOffset, yOffset, x, y, move);
            return Some(move);
          }
        }
      }
      forall p | Inside(width, height, p) ensures view.At(p) != NoPlayer {
        var i, j := ScanReaches(width, height, xOffset, yOffset, p);
      }
      r := None;
    }
  }

  /** Exactly n stones of a player follow one another from a field. */
  ghost predicate IsRay(s: Position, m: Pos, d: Pos, p: Player, n: nat) {
    (forall i :: 1 <= i <= n ==> s.At(Along(m, d, i)) == p) && s.At(Along(m, d, n + 1)) != p
  }

  lemma RayStaysShort(w: nat, h: nat, m: Pos, d: Pos, n: nat)
    requires IsDirection(d) && Inside(w, h, m) && Inside(w, h, Along(m, d, n))
    ensures n < w + h
  {
    if d.x == 1 { assert n * d.x == n; }
    else if d.x == -1 { assert n * d.x == 0 - n; }
    else if d.y == 1 { assert n * d.y == n; }
    else { assert n * d.y == 0 - n; }
  }

  /** Four stones on the two rays together are the same as four stones around the field. */
  lemma RaysMakeFour(s: Position, m: Pos, p: Player, d: Pos, negative: nat, positive: nat)
    requires IsRay(s, m, Negate(d), p, negative) && IsRay(s, m, d, p, positive)
    ensures positive + negative >= 4 <==> FourOnLine(s, m, p, d)
  {
    if positive + negative >= 4 {
      var before := if negative <= 4 then negative else 4;
      forall i | -before <= i <= 4 - before && i != 0 ensures s.At(Along(m, d, i)) == p {
        AlongNegate(m, d, -i);
        if i < 0 { assert s.At(Along(m, Negate(d), -i)) == p; }
      }
      assert FourAround(s, m, p, d, before);
    }
    AlongNegate(m, d, negative + 1);
    assert s.At(Along(m, d, -(negative + 1))) != p;
  }

  /** The field that the sampler looks at in round (x, y). */
  function Scanned(w: nat, h: nat, xOffset: nat, yOffset: nat, x: nat, y: nat): (p: Pos)
    requires w > 0 && h > 0
    ensures Inside(w, h, p)
  {
    Pos((x + xOffset) % w, (y + yOffset) % h)
  }

  /** Round (x, y) of the scan finds the first empty field. */
  ghost predicate FirstEmpty(s: Position, xOffset: nat, yOffset: nat, x: nat, y: nat, p: Pos) {
    && s.w > 0 && s.h > 0 && x < s.w && y < s.h
    && p == Scanned(s.w, s.h, xOffset, yOffset, x, y) && s.At(p) == NoPlayer
    && (forall i, j :: 0 <= i < x && 0 <= j < s.h ==> s.At(Scanned(s.w, s.h, xOffset, yOffset, i, j)) != NoPlayer)
    && (forall j :: 0 <= j < y ==> s.At(Scanned(s.w, s.h, xOffset, yOffset, x, j)) != NoPlayer)
  }

  lemma WrapAround(n: nat, offset: nat, c: nat) returns (i: nat)
    requires offset < n && c < n
    ensures i < n && (i + offset) % n == c
  {
    i := if offset <= c then c - offset else c - offset + n;
    if offset <= c { assert c % n == c; } else { assert (c + n) % n == c; }
  }

  /** The scan visits every field. */
  lemma ScanReaches(w: nat, h: nat, xOffset: nat, yOffset: nat, p: Pos) returns (i: nat, j: nat)
    requires xOffset < w && yOffset < h && Inside(w, h, p)
    ensures i < w && j < h && Scanned(w, h, xOffset, yOffset, i, j) == p
  {
    i := WrapAround(w, xOffset, p.x);
    j := WrapAround(h, yOffset, p.y);
  }

  /** Every legal move can be drawn: the offsets that point at it select it. */
  lemma EveryLegalMoveCanBeSampled(s: Position, p: Pos)
    requires Inside(s.w, s.h, p) && s.At(p) == NoPlayer
    ensures FirstEmpty(s, p.x, p.y, 0, 0, p)
  {
    SmallRemainder(p.x, s.w);
    SmallRemainder(p.y, s.h);
    assert Scanned(s.w, s.h, p.x, p.y, 0, 0) == p;
  }

  lemma SmallRemainder(x: nat, n: nat)
    requires x < n
    ensures x % n == x
  {
  }

  /** The sampled field is determined by the offsets: no two rounds can both be the first. */
  lemma FirstEmptyUnique(s: Position, xo: nat, yo: nat, x: nat, y: nat, p: Pos, x': nat, y': nat, p': Pos)
    requires FirstEmpty(s, xo, yo, x, y, p) && FirstEmpty(s, xo, yo, x', y', p')
    ensures p == p'
  {
    FirstNotLater(s, xo, yo, x, y, p, x', y', p');
    FirstNotLater(s, xo, yo, x', y', p', x, y, p);
  }

  lemma FirstNotLater(s: Position, xo: nat, yo: nat, x: nat, y: nat, p: Pos, x': nat, y': nat, p': Pos)
    requires FirstEmpty(s, xo, yo, x, y, p) && FirstEmpty(s, xo, yo, x', y', p')
    ensures x' < x || (x' == x && y' <= y)
  {
  }
}
