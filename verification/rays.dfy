/** The eight rays that the validity checks and the flips scan from a cell. */
module Rays {
  import opened Board

  /** A scan direction. North decreases the row index and west the column index. */
  datatype Direction = N | NW | W | SW | S | SE | E | NE

  /** The directions in the order of the offset tables, which list the row steps
      -1, -1, 0, 1, 1, 1, 0, -1 and the column steps 0, -1, -1, -1, 0, 1, 1, 1. */
  const Directions: seq<Direction> := [N, NW, W, SW, S, SE, E, NE]

  /** The position of d in the offset tables. */
  function IndexOf(d: Direction): (i: nat)
    ensures i < |Directions| && Directions[i] == d
  {
    match d
    case N => 0
    case NW => 1
    case W => 2
    case SW => 3
    case S => 4
    case SE => 5
    case E => 6
    case NE => 7
  }

  /** The row offset of one step in direction d. */
  function RowStep(d: Direction): int {
    match d
    case N | NW | NE => -1
    case W | E => 0
    case SW | S | SE => 1
  }

  /** The column offset of one step in direction d. */
  function ColStep(d: Direction): int {
    match d
    case NW | W | SW => -1
    case N | S => 0
    case SE | E | NE => 1
  }

  /** The offset tables list every direction exactly once, no two directions
      share a step, and every non-zero unit step is one of them. */
  lemma DirectionsComplete()
    ensures |Directions| == 8
    ensures forall i, j :: 0 <= i < j < |Directions| ==> Directions[i] != Directions[j]
    ensures forall d: Direction, d': Direction :: RowStep(d) == RowStep(d') && ColStep(d) == ColStep(d') ==> d == d'
    ensures forall dr, dc :: -1 <= dr <= 1 && -1 <= dc <= 1 && (dr, dc) != (0, 0) ==>
      exists d: Direction :: RowStep(d) == dr && ColStep(d) == dc
  {
    forall dr, dc | -1 <= dr <= 1 && -1 <= dc <= 1 && (dr, dc) != (0, 0)
      ensures exists d: Direction :: RowStep(d) == dr && ColStep(d) == dc
    {
      var d :=
        if dr == -1 then (if dc == -1 then NW else if dc == 0 then N else NE)
        else if dr == 0 then (if dc == -1 then W else E)
        else (if dc == -1 then SW else if dc == 0 then S else SE);
      assert RowStep(d) == dr && ColStep(d) == dc;
    }
  }

  /** Every direction moves along at least one axis. */
  lemma StepNonZero(d: Direction)
    ensures RowStep(d) != 0 || ColStep(d) != 0
  {
  }

  /** The cell k steps from o in direction d (k = 1 is the neighbour). */
  function RayCell(o: Pos, d: Direction, k: int): Pos
  {
    match d
    case N => Pos(o.row - k, o.col)
    case NW => Pos(o.row - k, o.col - k)
    case W => Pos(o.row, o.col - k)
    case SW => Pos(o.row + k, o.col - k)
    case S => Pos(o.row + k, o.col)
    case SE => Pos(o.row + k, o.col + k)
    case E => Pos(o.row, o.col + k)
    case NE => Pos(o.row - k, o.col + k)
  }

  /** The scans reach cell k + 1 from cell k by adding the offsets of d. */
  lemma RayStep(o: Pos, d: Direction, k: int)
    ensures RayCell(o, d, k + 1) == Pos(RayCell(o, d, k).row + RowStep(d), RayCell(o, d, k).col + ColStep(d))
  {
    match d
    case N =>
    case NW =>
    case W =>
    case SW =>
    case S =>
    case SE =>
    case E =>
    case NE =>
  }

  /** The cell k steps out is k times the offsets of d away from o. */
  lemma RayCellIsScaledStep(o: Pos, d: Direction, k: int)
    ensures RayCell(o, d, k) == Pos(o.row + k * RowStep(d), o.col + k * ColStep(d))
  {
  }

  /** The distance of p from o along direction d, or 0 when p is not on that ray
      (the origin itself is on no ray). */
  function RayIndex(o: Pos, d: Direction, p: Pos): (k: nat)
    ensures k > 0 ==> RayCell(o, d, k) == p
    ensures k == 0 ==> forall j :: j >= 1 ==> RayCell(o, d, j) != p
  {
    var dr, dc := p.row - o.row, p.col - o.col;
    match d
    case N => if dc == 0 && dr < 0 then -dr else 0
    case NW => if dr == dc && dr < 0 then -dr else 0
    case W => if dr == 0 && dc < 0 then -dc else 0
    case SW => if dr == -dc && dr > 0 then dr else 0
    case S => if dc == 0 && dr > 0 then dr else 0
    case SE => if dr == dc && dr > 0 then dr else 0
    case E => if dr == 0 && dc > 0 then dc else 0
    case NE => if dr == -dc && dr < 0 then -dr else 0
  }

  /** Every cell of a ray is found again by RayIndex at its own distance. */
  lemma RayIndexOfRayCell(o: Pos, d: Direction, k: int)
    requires k >= 1
    ensures RayIndex(o, d, RayCell(o, d, k)) == k
  {
  }

  /** Two different rays from one origin share no cell. */
  lemma RaysDisjoint(o: Pos, d: Direction, d': Direction, p: Pos)
    requires d != d'
    ensures RayIndex(o, d, p) == 0 || RayIndex(o, d', p) == 0
  {
  }

  /** A ray cell on the board, for an origin on the board, is fewer steps out
      than the board is long in each axis the direction moves along. */
  lemma RayReach(b: Board, o: Pos, d: Direction, k: int)
    requires InBounds(b, o) && InBounds(b, RayCell(o, d, k)) && k >= 0
    ensures (RowStep(d) != 0 ==> k < b.rows) && (ColStep(d) != 0 ==> k < b.columns)
    ensures k < b.rows + b.columns
  {
  }
}
