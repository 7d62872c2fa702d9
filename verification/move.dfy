/** A move as the console driver makes it: the validity check, then boardSet
    of the mover's piece at the target, then the flip. An invalid move leaves
    the board as it was. */
module Move {
  import opened Board
  import opened Rays
  import opened Legality
  import opened Capture

  /** Writing the origin does not change what a move there captures: the rays
      start one step away from it. */
  lemma SetOriginKeepsCaptures(b: Board, o: Pos, t: Token, mover: Colour, p: Pos)
    requires WellFormed(b) && InBounds(b, o)
    ensures Captured(Set(b, o, t), o, mover, p) <==> Captured(b, o, mover, p)
  {
    var placed := Set(b, o, t);
    forall d
      ensures CapturedAlong(placed, o, mover, d, p) <==> CapturedAlong(b, o, mover, d, p)
    {
      forall j | j >= 1 && InBounds(placed, RayCell(o, d, j))
        ensures Get(placed, RayCell(o, d, j)) == Get(b, RayCell(o, d, j))
      {
        assert RayIndex(o, d, o) == 0;
      }
      CapturedAlongReadsRay(placed, b, o, mover, d, p);
    }
  }

  /** Flipping after placing the mover's piece on o: o keeps the new piece and
      the other cells change as the board before the placement determines. */
  lemma FlipAfterPlacing(b: Board, o: Pos, mover: Colour, p: Pos)
    requires WellFormed(b) && InBounds(b, o) && InBounds(b, p)
    ensures var placed := Set(b, o, Piece(mover));
      Get(Flip(placed, o, mover), p) ==
        if p == o then Piece(mover)
        else if Captured(b, o, mover, p) then Piece(mover) else Get(b, p)
  {
    var placed := Set(b, o, Piece(mover));
    SetOriginKeepsCaptures(b, o, Piece(mover), mover, p);
    if p == o {
      assert RayIndex(o, Directions[0], o) == 0;
      assert !Captured(placed, o, mover, o);
    }
  }

  /** The driver's move: a legal move puts the mover's piece on the target and
      turns exactly the captured pieces, as the board before the move determines
      them; an illegal one changes nothing. */
  function Play(b: Board, o: Pos, mover: Colour): (r: Board)
    requires WellFormed(b) && InBounds(b, o)
    ensures WellFormed(r) && SameShape(r, b)
    ensures !IsLegal(b, o, mover) ==> r == b
    ensures IsLegal(b, o, mover) ==> Get(r, o) == Piece(mover)
    ensures IsLegal(b, o, mover) ==> forall p {:trigger Get(r, p)} :: InBounds(b, p) && p != o ==>
      Get(r, p) == (if Captured(b, o, mover, p) then Piece(mover) else Get(b, p))
  {
    if IsLegal(b, o, mover) then
      var r := Flip(Set(b, o, Piece(mover)), o, mover);
      assert forall p {:trigger Get(r, p)} :: InBounds(b, p) ==>
        Get(r, p) == if p == o then Piece(mover)
          else if Captured(b, o, mover, p) then Piece(mover) else Get(b, p) by {
        forall p | InBounds(b, p) {
          FlipAfterPlacing(b, o, mover, p);
        }
      }
      r
    else
      b
  }

  /** A legal move adds exactly one piece to the board. */
  lemma PlayAddsOnePiece(b: Board, o: Pos, mover: Colour)
    requires WellFormed(b) && InBounds(b, o) && IsLegal(b, o, mover)
    ensures PieceCount(Play(b, o, mover).cells) == PieceCount(b.cells) + 1
  {
    var placed := Set(b, o, Piece(mover));
    PieceCountSet(b, o, Piece(mover));
    FlipKeepsPieceCount(placed, o, mover);
  }

  /** On boards of at most 9 × 9 cells the buffer cap never bites: every bracket is
      shorter than the buffer, so every legal move turns at least one piece. */
  lemma LegalMoveCapturesOnSmallBoards(b: Board, o: Pos, mover: Colour)
    requires WellFormed(b) && InBounds(b, o) && b.rows <= 9 && b.columns <= 9
    requires IsLegal(b, o, mover)
    ensures forall d, k :: BracketAt(b, o, mover, d, k) ==> k < RunBuffer
    ensures exists p :: InBounds(b, p) && p != o && Get(b, p) != Get(Play(b, o, mover), p)
  {
    forall d, k | BracketAt(b, o, mover, d, k)
      ensures k < RunBuffer
    {
      RayReach(b, o, d, k + 1);
      StepNonZero(d);
    }
    LegalIffBracket(b, o, mover);
    var d, k :| BracketAt(b, o, mover, d, k);
    var p := RayCell(o, d, 1);
    RayIndexOfRayCell(o, d, 1);
    assert CapturedAlong(b, o, mover, d, p);
    assert Get(b, p) == Piece(mover.Opponent());
  }

  /** A 1 × 10 board: empty (0, 0), eight 'o' pieces, then 'x' at (0, 9). */
  function CapBoard(): (b: Board)
    ensures WellFormed(b) && b.rows == 1 && b.columns == 10
    ensures forall p {:trigger Get(b, p)} :: InBounds(b, p) ==>
      Get(b, p) == if p.col == 0 then Empty else if p.col == 9 then Piece(X) else Piece(O)
  {
    var b := Board(1, 10, [Empty] + seq(8, _ => Piece(O)) + [Piece(X)]);
    assert forall p :: InBounds(b, p) ==> CalcIndex(b, p.row, p.col) == p.col;
    b
  }

  /** On the 1 × 10 board the only bracket from (0, 0) for 'x' runs east over
      all eight 'o' pieces. */
  lemma CapBoardBrackets(d: Direction, k: int)
    ensures BracketAt(CapBoard(), Pos(0, 0), X, d, k) <==> d == E && k == 8
  {
    var b, o := CapBoard(), Pos(0, 0);
    if d == E {
      assert BracketAt(b, o, X, E, 8);
      if BracketAt(b, o, X, d, k) {
        BracketLengthUnique(b, o, X, d, k, 8);
      }
    } else {
      assert !InBounds(b, RayCell(o, d, 1)) by {
        match d
        case N =>
        case NW =>
        case W =>
        case SW =>
        case S =>
        case SE =>
        case NE =>
      }
    }
  }

  /** Hence a move by 'x' at (0, 0) of the 1 × 10 board captures nothing. */
  lemma CapBoardCapturesNothing(p: Pos)
    ensures !Captured(CapBoard(), Pos(0, 0), X, p)
  {
    forall d, k | BracketAt(CapBoard(), Pos(0, 0), X, d, k)
      ensures k >= RunBuffer
    {
      CapBoardBrackets(d, k);
    }
  }

  /** The move of 'x' at (0, 0) on the 1 × 10 board agrees cell by cell with
      placing the piece alone. */
  lemma CapBoardPlayCells(p: Pos)
    requires InBounds(CapBoard(), p)
    ensures Get(Play(CapBoard(), Pos(0, 0), X), p) == Get(Set(CapBoard(), Pos(0, 0), Piece(X)), p)
  {
    CapBoardBrackets(E, 8);
    LegalIffBracket(CapBoard(), Pos(0, 0), X);
    CapBoardCapturesNothing(p);
  }

  /** The buffer cap at work: on the 1 × 10 board, 'x' at (0, 0) brackets eight
      'o' pieces against the 'x' at (0, 9), so the move is legal, yet the flip
      turns none of them and the move only places the new piece. */
  lemma CapWitness()
    ensures IsLegal(CapBoard(), Pos(0, 0), X)
    ensures Play(CapBoard(), Pos(0, 0), X) == Set(CapBoard(), Pos(0, 0), Piece(X))
  {
    var b := CapBoard();
    CapBoardBrackets(E, 8);
    LegalIffBracket(b, Pos(0, 0), X);
    forall p | InBounds(b, p) {
      CapBoardPlayCells(p);
    }
    Extensionality(Play(b, Pos(0, 0), X), Set(b, Pos(0, 0), Piece(X)));
  }

  /** The token the opening holds at p. */
  function OpeningToken(p: Pos): Token {
    if 3 <= p.row <= 4 && 3 <= p.col <= 4 then Piece(if p.row == p.col then X else O) else Empty
  }

  /** s is the 8 × 8 opening position. */
  ghost predicate IsOpening(s: Board) {
    && WellFormed(s) && s.rows == 8 && s.columns == 8
    && forall p {:trigger Get(s, p)} :: InBounds(s, p) ==> Get(s, p) == OpeningToken(p)
  }

  /** The 8 × 8 opening position: the initial layout on a cleared board. */
  function Opening(): (s: Board)
    ensures IsOpening(s)
  {
    var c := Clear(Board(8, 8, []));
    OpeningCells(c);
    InitialState(c, 8, 8)
  }

  lemma OpeningCells(c: Board)
    requires WellFormed(c) && c.rows == 8 && c.columns == 8
    requires forall p {:trigger Get(c, p)} :: InBounds(c, p) ==> Get(c, p) == Empty
    ensures IsOpening(InitialState(c, 8, 8))
  {
    var s := InitialState(c, 8, 8);
    forall p | InBounds(c, p)
      ensures Get(s, p) == OpeningToken(p)
    {
      if InCentre(p, 8, 8) {
        assert Get(s, p) == Piece(if p.row - 4 == p.col - 4 then X else O);
      } else {
        assert Get(s, p) == Get(c, p);
      }
    }
  }

  /** In the opening, (2, 3) holds no bracket for 'x' in any direction. */
  lemma OpeningIllegal(s: Board)
    requires IsOpening(s)
    ensures !IsLegal(s, Pos(2, 3), X)
  {
    var o := Pos(2, 3);
    forall d, k | 1 <= k
      ensures !BracketAt(s, o, X, d, k)
    {
      var n := RayCell(o, d, 1);
      if d == SE {
        assert Get(s, Pos(4, 5)) == OpeningToken(Pos(4, 5)) == Empty;
        assert RayCell(o, SE, 2) == Pos(4, 5);
      } else {
        assert Get(s, n) == OpeningToken(n);
        match d
        case N =>
        case NW =>
        case W =>
        case SW =>
        case S =>
        case SE =>
        case E =>
        case NE =>
      }
    }
    LegalIffBracket(s, o, X);
  }

  /** The bracket of the opening move (2, 4) for 'x': (3, 4) then (4, 4). */
  lemma OpeningBracket(s: Board)
    requires IsOpening(s)
    ensures BracketAt(s, Pos(2, 4), X, S, 1)
  {
    var o := Pos(2, 4);
    assert RayCell(o, S, 1) == Pos(3, 4) && RayCell(o, S, 2) == Pos(4, 4);
    assert Get(s, Pos(3, 4)) == OpeningToken(Pos(3, 4));
    assert Get(s, Pos(4, 4)) == OpeningToken(Pos(4, 4));
  }

  /** From (2, 4) in the opening, 'x' has exactly one bracket: (3, 4) southwards. */
  lemma OpeningBrackets(s: Board, d: Direction, k: int)
    requires IsOpening(s)
    ensures BracketAt(s, Pos(2, 4), X, d, k) <==> d == S && k == 1
  {
    var o := Pos(2, 4);
    OpeningBracket(s);
    if d == S {
      if BracketAt(s, o, X, d, k) {
        BracketLengthUnique(s, o, X, S, k, 1);
      }
    } else {
      var n := RayCell(o, d, 1);
      assert InBounds(s, n) ==> Get(s, n) == OpeningToken(n);
      match d
      case N =>
      case NW =>
      case W =>
      case SW =>
      case S =>
      case SE =>
      case E =>
      case NE =>
    }
  }

  /** A move by 'x' at (2, 4) in the opening captures (3, 4) and nothing else. */
  lemma OpeningCaptures(s: Board, p: Pos)
    requires IsOpening(s)
    ensures Captured(s, Pos(2, 4), X, p) <==> p == Pos(3, 4)
  {
    var o := Pos(2, 4);
    if Captured(s, o, X, p) {
      var d :| CapturedAlong(s, o, X, d, p);
      var k :| BracketAt(s, o, X, d, k) && k < RunBuffer && 1 <= RayIndex(o, d, p) <= k;
      OpeningBrackets(s, d, k);
    }
    if p == Pos(3, 4) {
      OpeningBracket(s);
      RayIndexOfRayCell(o, S, 1);
      assert CapturedAlong(s, o, X, S, p);
    }
  }

  /** 'x' may play (2, 4) in the opening. */
  lemma OpeningLegal(s: Board)
    requires IsOpening(s)
    ensures IsLegal(s, Pos(2, 4), X)
  {
    var o := Pos(2, 4);
    assert Get(s, o) == OpeningToken(o);
    OpeningBracket(s);
    LegalIffBracket(s, o, X);
  }

  /** The token at p after 'x' plays (2, 4) in the opening. */
  function AfterOpeningMove(p: Pos): Token {
    if p == Pos(2, 4) || p == Pos(3, 4) then Piece(X) else OpeningToken(p)
  }

  /** One cell of the board after 'x' plays (2, 4) in the opening. */
  lemma OpeningMoveCell(s: Board, p: Pos)
    requires IsOpening(s) && InBounds(s, p)
    ensures Get(Play(s, Pos(2, 4), X), p) == AfterOpeningMove(p)
  {
    OpeningLegal(s);
    OpeningCaptures(s, p);
  }

  /** After 'x' plays (2, 4) in the opening, (2, 4) and (3, 4) hold 'x' and every
      other cell holds what it held before. */
  lemma OpeningMove(s: Board)
    requires IsOpening(s)
    ensures forall p {:trigger Get(Play(s, Pos(2, 4), X), p)} :: InBounds(s, p) ==>
      Get(Play(s, Pos(2, 4), X), p) == AfterOpeningMove(p)
  {
    forall p | InBounds(s, p) {
      OpeningMoveCell(s, p);
    }
  }

  /** The 8 × 8 opening (Opening() is one): 'x' on (3, 3) and (4, 4), 'o' on
      (4, 3) and (3, 4). 'x' may not play (2, 3); 'x' may play (2, 4), which turns
      (3, 4) and leaves the other three pieces as they were. */
  lemma OpeningScenario(s: Board)
    requires IsOpening(s)
    ensures Get(s, Pos(3, 3)) == Piece(X) && Get(s, Pos(4, 4)) == Piece(X)
    ensures Get(s, Pos(4, 3)) == Piece(O) && Get(s, Pos(3, 4)) == Piece(O)
    ensures !IsLegal(s, Pos(2, 3), X)
    ensures IsLegal(s, Pos(2, 4), X)
    ensures var r := Play(s, Pos(2, 4), X);
      && Get(r, Pos(2, 4)) == Piece(X) && Get(r, Pos(3, 4)) == Piece(X)
      && Get(r, Pos(3, 3)) == Piece(X) && Get(r, Pos(4, 4)) == Piece(X)
      && Get(r, Pos(4, 3)) == Piece(O)
  {
    assert Get(s, Pos(3, 3)) == OpeningToken(Pos(3, 3));
    assert Get(s, Pos(4, 4)) == OpeningToken(Pos(4, 4));
    assert Get(s, Pos(4, 3)) == OpeningToken(Pos(4, 3));
    assert Get(s, Pos(3, 4)) == OpeningToken(Pos(3, 4));
    OpeningIllegal(s);
    OpeningLegal(s);
    OpeningMoveCell(s, Pos(2, 4));
    OpeningMoveCell(s, Pos(3, 4));
    OpeningMoveCell(s, Pos(3, 3));
    OpeningMoveCell(s, Pos(4, 4));
    OpeningMoveCell(s, Pos(4, 3));
  }
}
