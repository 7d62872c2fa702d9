/** Move legality: boardValidPositionX and boardValidPositionO, written once
    for a mover colour and its opponent. */
module Legality {
  import opened Board
  import opened Rays

  /** The cells `from` to `to` steps out along d all lie on the board and hold
      the opponent's colour (vacuous when to < from). */
  ghost predicate OpponentSpan(b: Board, o: Pos, mover: Colour, d: Direction, from: int, to: int)
    requires WellFormed(b)
  {
    forall j :: from <= j <= to ==>
      InBounds(b, RayCell(o, d, j)) && Get(b, RayCell(o, d, j)) == Piece(mover.Opponent())
  }

  /** The cell k + 1 steps out along d lies on the board and holds the mover's colour. */
  predicate ClosedAt(b: Board, o: Pos, mover: Colour, d: Direction, k: int)
    requires WellFormed(b)
  {
    InBounds(b, RayCell(o, d, k + 1)) && Get(b, RayCell(o, d, k + 1)) == Piece(mover)
  }

  /** A bracket of length k along d, as the rules of Reversi define it: k >= 1
      opponent pieces starting next to o, then a mover piece, with no empty cell
      and no edge in between. */
  ghost predicate BracketAt(b: Board, o: Pos, mover: Colour, d: Direction, k: int)
    requires WellFormed(b)
  {
    1 <= k && OpponentSpan(b, o, mover, d, 1, k) && ClosedAt(b, o, mover, d, k)
  }

  /** A direction holds at most one bracket: its length is fixed by the first
      cell that is not an opponent piece. */
  lemma BracketLengthUnique(b: Board, o: Pos, mover: Colour, d: Direction, k: int, k': int)
    requires WellFormed(b)
    requires BracketAt(b, o, mover, d, k) && BracketAt(b, o, mover, d, k')
    ensures k == k'
  {
  }

  /** The inner loop of the validity check, standing k steps out along d: it
      steps over opponent pieces and is true when it meets a mover piece before
      an empty cell or the edge. */
  function ScanFindsMover(b: Board, o: Pos, mover: Colour, d: Direction, k: nat): bool
    requires WellFormed(b) && InBounds(b, o)
    decreases b.rows + b.columns - k
  {
    var p := RayCell(o, d, k);
    if !InBounds(b, p) then false
    else match Get(b, p)
      case Empty => false
      case Piece(c) =>
        c == mover || (RayReach(b, o, d, k); ScanFindsMover(b, o, mover, d, k + 1))
  }

  /** The scan from k steps out succeeds exactly when the opponent pieces from
      there on are closed by a mover piece. */
  lemma {:induction false} ScanFindsMoverSpec(b: Board, o: Pos, mover: Colour, d: Direction, k: nat)
    requires WellFormed(b) && InBounds(b, o) && k >= 1
    ensures ScanFindsMover(b, o, mover, d, k) <==>
      exists n :: n >= k - 1 && OpponentSpan(b, o, mover, d, k, n) && ClosedAt(b, o, mover, d, n)
    decreases b.rows + b.columns - k
  {
    var p := RayCell(o, d, k);
    ScanAt(b, o, mover, d, k);
    if !InBounds(b, p) || Get(b, p) == Empty {
      GapBlocksClosure(b, o, mover, d, k);
    } else if Get(b, p) == Piece(mover) {
      MoverCloses(b, o, mover, d, k);
    } else {
      RayReach(b, o, d, k);
      ScanFindsMoverSpec(b, o, mover, d, k + 1);
      SpanStep(b, o, mover, d, k);
    }
  }

  /** A mover piece k steps out closes the run of zero opponent pieces before it. */
  lemma MoverCloses(b: Board, o: Pos, mover: Colour, d: Direction, k: int)
    requires WellFormed(b)
    requires InBounds(b, RayCell(o, d, k)) && Get(b, RayCell(o, d, k)) == Piece(mover)
    ensures OpponentSpan(b, o, mover, d, k, k - 1) && ClosedAt(b, o, mover, d, k - 1)
  {
    assert RayCell(o, d, (k - 1) + 1) == RayCell(o, d, k);
  }

  /** An edge or an empty cell k steps out closes no run that reaches it. */
  lemma GapBlocksClosure(b: Board, o: Pos, mover: Colour, d: Direction, k: int)
    requires WellFormed(b)
    requires !InBounds(b, RayCell(o, d, k)) || Get(b, RayCell(o, d, k)) == Empty
    ensures forall n :: n >= k - 1 && OpponentSpan(b, o, mover, d, k, n) ==> !ClosedAt(b, o, mover, d, n)
  {
    forall n | n >= k - 1 && OpponentSpan(b, o, mover, d, k, n)
      ensures !ClosedAt(b, o, mover, d, n)
    {
      if n == k - 1 {
        assert RayCell(o, d, n + 1) == RayCell(o, d, k);
      }
    }
  }

  /** An opponent piece k steps out joins any closed run that starts after it,
      and every closed run from k continues past it. */
  lemma SpanStep(b: Board, o: Pos, mover: Colour, d: Direction, k: int)
    requires WellFormed(b)
    requires InBounds(b, RayCell(o, d, k)) && Get(b, RayCell(o, d, k)) == Piece(mover.Opponent())
    ensures (exists n :: n >= k - 1 && OpponentSpan(b, o, mover, d, k, n) && ClosedAt(b, o, mover, d, n)) <==>
      (exists n :: n >= k && OpponentSpan(b, o, mover, d, k + 1, n) && ClosedAt(b, o, mover, d, n))
  {
    if exists n :: n >= k && OpponentSpan(b, o, mover, d, k + 1, n) && ClosedAt(b, o, mover, d, n) {
      var n :| n >= k && OpponentSpan(b, o, mover, d, k + 1, n) && ClosedAt(b, o, mover, d, n);
      SpanExtend(b, o, mover, d, k, n);
    }
    if exists n :: n >= k - 1 && OpponentSpan(b, o, mover, d, k, n) && ClosedAt(b, o, mover, d, n) {
      var n :| n >= k - 1 && OpponentSpan(b, o, mover, d, k, n) && ClosedAt(b, o, mover, d, n);
      SpanShrink(b, o, mover, d, k, n);
    }
  }

  lemma SpanExtend(b: Board, o: Pos, mover: Colour, d: Direction, k: int, n: int)
    requires WellFormed(b)
    requires InBounds(b, RayCell(o, d, k)) && Get(b, RayCell(o, d, k)) == Piece(mover.Opponent())
    requires OpponentSpan(b, o, mover, d, k + 1, n)
    ensures OpponentSpan(b, o, mover, d, k, n)
  {
  }

  lemma SpanShrink(b: Board, o: Pos, mover: Colour, d: Direction, k: int, n: int)
    requires WellFormed(b)
    requires InBounds(b, RayCell(o, d, k)) && Get(b, RayCell(o, d, k)) == Piece(mover.Opponent())
    requires n >= k - 1 && OpponentSpan(b, o, mover, d, k, n) && ClosedAt(b, o, mover, d, n)
    ensures n >= k && OpponentSpan(b, o, mover, d, k + 1, n)
  {
  }

  /** One pass of the direction loop of the validity check: the neighbour lies on
      the board and holds the opponent's colour, the target is empty, and the
      scan from the neighbour meets a mover piece. */
  function DirectionValid(b: Board, o: Pos, mover: Colour, d: Direction): bool
    requires WellFormed(b) && InBounds(b, o)
  {
    var n := RayCell(o, d, 1);
    && InBounds(b, n)
    && Get(b, n) == Piece(mover.Opponent())
    && Get(b, o) == Empty
    && ScanFindsMover(b, o, mover, d, 1)
  }

  /** A direction passes the validity check exactly when the target is empty and the
      direction holds a bracket. */
  lemma DirectionValidIffBracket(b: Board, o: Pos, mover: Colour, d: Direction)
    requires WellFormed(b) && InBounds(b, o)
    ensures DirectionValid(b, o, mover, d) <==>
      Get(b, o) == Empty && exists k :: BracketAt(b, o, mover, d, k)
  {
    ScanFindsMoverSpec(b, o, mover, d, 1);
    var n1 := RayCell(o, d, 1);
    if DirectionValid(b, o, mover, d) {
      var n :| n >= 0 && OpponentSpan(b, o, mover, d, 1, n) && ClosedAt(b, o, mover, d, n);
      assert BracketAt(b, o, mover, d, n);
    }
    if Get(b, o) == Empty && exists k :: BracketAt(b, o, mover, d, k) {
      var k :| BracketAt(b, o, mover, d, k);
      assert InBounds(b, n1) && Get(b, n1) == Piece(mover.Opponent());
    }
  }

  /** boardValidPositionX (mover X) and boardValidPositionO (mover O): some
      direction of the table passes the validity check. */
  function IsLegal(b: Board, o: Pos, mover: Colour): (legal: bool)
    requires WellFormed(b) && InBounds(b, o)
    ensures legal ==> Get(b, o) == Empty
  {
    exists i | 0 <= i < |Directions| :: DirectionValid(b, o, mover, Directions[i])
  }

  /** A move is legal exactly when the target is empty and some direction holds
      a bracket. */
  lemma LegalIffBracket(b: Board, o: Pos, mover: Colour)
    requires WellFormed(b) && InBounds(b, o)
    ensures IsLegal(b, o, mover) <==>
      Get(b, o) == Empty && exists d, k :: BracketAt(b, o, mover, d, k)
  {
    if IsLegal(b, o, mover) {
      var i :| 0 <= i < |Directions| && DirectionValid(b, o, mover, Directions[i]);
      DirectionValidIffBracket(b, o, mover, Directions[i]);
    }
    if Get(b, o) == Empty && exists d, k :: BracketAt(b, o, mover, d, k) {
      var d, k :| BracketAt(b, o, mover, d, k);
      DirectionValidIffBracket(b, o, mover, d);
      assert DirectionValid(b, o, mover, Directions[IndexOf(d)]);
    }
  }

  /** An occupied cell is never a legal target, whatever the rays hold. */
  lemma OccupiedNeverLegal(b: Board, o: Pos, mover: Colour)
    requires WellFormed(b) && InBounds(b, o) && Get(b, o) != Empty
    ensures !IsLegal(b, o, mover)
  {
  }

  /** The inner loop of the validity check: a walk with running coordinates from
      the neighbour of o along d, which stops at an empty cell or the edge and
      succeeds at a mover piece. It decides what the recursive scan decides. */
  method WalkRay(b: Board, o: Pos, mover: Colour, d: Direction) returns (found: bool)
    requires WellFormed(b) && InBounds(b, o)
    ensures found == ScanFindsMover(b, o, mover, d, 1)
  {
    var cx, cy := o.row + RowStep(d), o.col + ColStep(d);
    ghost var k := 1;
    RayStep(o, d, 0);
    while 0 <= cy && 0 <= cx && cy < b.columns && cx < b.rows
      invariant k >= 1 && Pos(cx, cy) == RayCell(o, d, k)
      invariant ScanFindsMover(b, o, mover, d, 1) == ScanFindsMover(b, o, mover, d, k)
      decreases b.rows + b.columns - k
    {
      RayReach(b, o, d, k);
      ScanAt(b, o, mover, d, k);
      var coin := Get(b, Pos(cx, cy));
      if coin == Empty {
        return false;
      } else if coin == Piece(mover) {
        return true;
      }
      RayStep(o, d, k);
      cx, cy := cx + RowStep(d), cy + ColStep(d);
      k := k + 1;
    }
    ScanAt(b, o, mover, d, k);
    return false;
  }

  /** What the scan does at the cell k steps out: fails off the board and at an
      empty cell, succeeds at a mover piece, and moves on over an opponent piece. */
  lemma ScanAt(b: Board, o: Pos, mover: Colour, d: Direction, k: nat)
    requires WellFormed(b) && InBounds(b, o)
    ensures !InBounds(b, RayCell(o, d, k)) ==> !ScanFindsMover(b, o, mover, d, k)
    ensures InBounds(b, RayCell(o, d, k)) ==>
      (Get(b, RayCell(o, d, k)) == Empty ==> !ScanFindsMover(b, o, mover, d, k)) &&
      (Get(b, RayCell(o, d, k)) == Piece(mover) ==> ScanFindsMover(b, o, mover, d, k)) &&
      (Get(b, RayCell(o, d, k)) == Piece(mover.Opponent()) ==>
        ScanFindsMover(b, o, mover, d, k) == ScanFindsMover(b, o, mover, d, k + 1))
  {
  }

  /** One pass of the direction loop of the validity check: the neighbour test,
      then the walk. It passes exactly when the target is empty and d holds a
      bracket. */
  method CheckDirection(b: Board, o: Pos, mover: Colour, d: Direction) returns (ok: bool)
    requires WellFormed(b) && InBounds(b, o)
    ensures ok == DirectionValid(b, o, mover, d)
    ensures ok <==> Get(b, o) == Empty && exists k :: BracketAt(b, o, mover, d, k)
  {
    DirectionValidIffBracket(b, o, mover, d);
    var x, y := o.row + RowStep(d), o.col + ColStep(d);
    RayStep(o, d, 0);
    if 0 <= x < b.rows && 0 <= y < b.columns
      && Get(b, Pos(x, y)) == Piece(mover.Opponent()) && Get(b, o) == Empty
    {
      ok := WalkRay(b, o, mover, d);
    } else {
      ok := false;
    }
  }

  /** The validity check as its loops are written: the directions in table
      order, stopping at the first that passes. */
  method ValidPosition(b: Board, o: Pos, mover: Colour) returns (legal: bool)
    requires WellFormed(b) && InBounds(b, o)
    ensures legal == IsLegal(b, o, mover)
    ensures legal <==> Get(b, o) == Empty && exists d, k :: BracketAt(b, o, mover, d, k)
  {
    LegalIffBracket(b, o, mover);
    var i := 0;
    while i < |Directions|
      invariant 0 <= i <= |Directions|
      invariant forall j :: 0 <= j < i ==> !DirectionValid(b, o, mover, Directions[j])
    {
      var ok := CheckDirection(b, o, mover, Directions[i]);
      if ok {
        return true;
      }
      i := i + 1;
    }
    return false;
  }
}
