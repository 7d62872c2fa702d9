/** Capture: flipOtoX and flipXtoO, written once for a mover colour and its
    opponent. Each of the eight directions collects a run of opponent pieces in
    a buffer of eight coordinates and recolours the run when a mover piece
    closes it. */
module Capture {
  import opened Board
  import opened Rays
  import opened Legality

  /** The length of the per-direction coordinate buffers. */
  const RunBuffer: nat := 8

  /** The walk of one direction, standing k steps out with the k - 1 opponent
      pieces before it collected: the number of collected pieces it recolours.
      It gives up (0) at an empty cell, at the edge, and when collecting the
      k-th piece fills the buffer. */
  function CaptureRun(b: Board, o: Pos, mover: Colour, d: Direction, k: nat): (n: nat)
    requires WellFormed(b) && InBounds(b, o) && 1 <= k <= RunBuffer
    ensures n < RunBuffer
    ensures n > 0 ==> n >= k - 1 && OpponentSpan(b, o, mover, d, k, n) && ClosedAt(b, o, mover, d, n)
    decreases RunBuffer - k
  {
    var p := RayCell(o, d, k);
    if !InBounds(b, p) then 0
    else match Get(b, p)
      case Empty => 0
      case Piece(c) =>
        if c == mover then
          MoverCloses(b, o, mover, d, k);
          k - 1
        else if k >= RunBuffer then 0
        else
          var n := CaptureRun(b, o, mover, d, k + 1);
          if n > 0 then
            SpanExtend(b, o, mover, d, k, n);
            n
          else 0
  }

  /** A walk that starts inside a bracket shorter than the buffer recolours
      exactly that bracket. */
  lemma {:induction false} CaptureRunFindsBracket(b: Board, o: Pos, mover: Colour, d: Direction, k: nat, n: nat)
    requires WellFormed(b) && InBounds(b, o) && 1 <= k <= n + 1 && n < RunBuffer
    requires BracketAt(b, o, mover, d, n)
    ensures CaptureRun(b, o, mover, d, k) == n
    decreases RunBuffer - k
  {
    if k <= n {
      assert InBounds(b, RayCell(o, d, k)) && Get(b, RayCell(o, d, k)) == Piece(mover.Opponent());
      CaptureRunFindsBracket(b, o, mover, d, k + 1, n);
    } else {
      assert RayCell(o, d, n + 1) == RayCell(o, d, k);
    }
  }

  /** One direction recolours n > 0 pieces exactly when it holds a bracket of
      length n shorter than the buffer. */
  lemma CaptureRunIffBracket(b: Board, o: Pos, mover: Colour, d: Direction, n: int)
    requires WellFormed(b) && InBounds(b, o) && 1 <= n
    ensures CaptureRun(b, o, mover, d, 1) == n <==> BracketAt(b, o, mover, d, n) && n < RunBuffer
  {
    if BracketAt(b, o, mover, d, n) && n < RunBuffer {
      CaptureRunFindsBracket(b, o, mover, d, 1, n);
    }
  }

  /** The buffer cap: a bracket of eight or more opponent pieces is not flipped
      at all, although it makes the move legal. */
  lemma LongBracketNotCaptured(b: Board, o: Pos, mover: Colour, d: Direction, n: int)
    requires WellFormed(b) && InBounds(b, o)
    requires BracketAt(b, o, mover, d, n) && n >= RunBuffer
    ensures CaptureRun(b, o, mover, d, 1) == 0
  {
    var m := CaptureRun(b, o, mover, d, 1);
    if m > 0 {
      BracketLengthUnique(b, o, mover, d, m, n);
    }
  }

  /** The cells 1 to n steps out are the cells 1 to n - 1 steps out and the n-th. */
  lemma PaintStep(o: Pos, d: Direction, n: nat, c: Pos, p: Pos)
    requires n >= 1 && c == RayCell(o, d, n)
    ensures (1 <= RayIndex(o, d, p) <= n) <==> (p == c || 1 <= RayIndex(o, d, p) <= n - 1)
  {
    RayIndexOfRayCell(o, d, n);
  }

  /** The recolouring loop: the pieces 1 to n steps out along d take token t. */
  function Paint(b: Board, o: Pos, d: Direction, n: nat, t: Token): (r: Board)
    requires WellFormed(b)
    requires forall j :: 1 <= j <= n ==> InBounds(b, RayCell(o, d, j))
    ensures WellFormed(r) && SameShape(r, b)
    ensures forall p {:trigger Get(r, p)} :: InBounds(b, p) ==>
      Get(r, p) == (if 1 <= RayIndex(o, d, p) <= n then t else Get(b, p))
    decreases n
  {
    if n == 0 then b
    else
      var prev, c := Paint(b, o, d, n - 1, t), RayCell(o, d, n);
      assert InBounds(prev, c) by {
        assert InBounds(b, c);
      }
      var r := Set(prev, c, t);
      assert forall p {:trigger Get(r, p)} :: InBounds(b, p) ==>
        Get(r, p) == (if 1 <= RayIndex(o, d, p) <= n then t else Get(b, p)) by {
        forall p | InBounds(b, p) {
          PaintStep(o, d, n, c, p);
        }
      }
      r
  }

  /** p is captured along d: it lies inside a bracket along d that is shorter
      than the buffer. */
  ghost predicate CapturedAlong(b: Board, o: Pos, mover: Colour, d: Direction, p: Pos)
    requires WellFormed(b)
  {
    exists k :: BracketAt(b, o, mover, d, k) && k < RunBuffer && 1 <= RayIndex(o, d, p) <= k
  }

  /** p is captured by a move at o: it is captured along one of the eight directions. */
  ghost predicate Captured(b: Board, o: Pos, mover: Colour, p: Pos)
    requires WellFormed(b)
  {
    exists d :: CapturedAlong(b, o, mover, d, p)
  }

  /** The pieces one direction's walk recolours are those captured along it. */
  lemma CapturedAlongIffRun(b: Board, o: Pos, mover: Colour, d: Direction, p: Pos)
    requires WellFormed(b) && InBounds(b, o)
    ensures CapturedAlong(b, o, mover, d, p) <==> 1 <= RayIndex(o, d, p) <= CaptureRun(b, o, mover, d, 1)
  {
    var n := CaptureRun(b, o, mover, d, 1);
    if CapturedAlong(b, o, mover, d, p) {
      var k :| BracketAt(b, o, mover, d, k) && k < RunBuffer && 1 <= RayIndex(o, d, p) <= k;
      CaptureRunIffBracket(b, o, mover, d, k);
    }
    if 1 <= RayIndex(o, d, p) <= n {
      CaptureRunIffBracket(b, o, mover, d, n);
    }
  }

  /** One pass of the direction loop of the flip: walk along d and recolour the
      collected run. Exactly the pieces captured along d change, to the mover's colour. */
  function FlipDirection(b: Board, o: Pos, mover: Colour, d: Direction): (r: Board)
    requires WellFormed(b) && InBounds(b, o)
    ensures WellFormed(r) && SameShape(r, b)
    ensures forall p {:trigger Get(r, p)} :: InBounds(b, p) ==>
      Get(r, p) == (if CapturedAlong(b, o, mover, d, p) then Piece(mover) else Get(b, p))
  {
    var n := CaptureRun(b, o, mover, d, 1);
    assert forall p :: InBounds(b, p) ==>
      (CapturedAlong(b, o, mover, d, p) <==> 1 <= RayIndex(o, d, p) <= n) by {
      forall p | InBounds(b, p) {
        CapturedAlongIffRun(b, o, mover, d, p);
      }
    }
    Paint(b, o, d, n, Piece(mover))
  }

  /** The direction loop of the flip from table position i on, each direction
      walking the board as the earlier ones left it. */
  function FlipFrom(b: Board, o: Pos, mover: Colour, i: nat): (r: Board)
    requires WellFormed(b) && InBounds(b, o) && i <= |Directions|
    ensures WellFormed(r) && SameShape(r, b)
    decreases |Directions| - i
  {
    if i == |Directions| then b
    else FlipFrom(FlipDirection(b, o, mover, Directions[i]), o, mover, i + 1)
  }

  /** One turn of the direction loop. */
  lemma FlipFromStep(b: Board, o: Pos, mover: Colour, i: nat)
    requires WellFormed(b) && InBounds(b, o) && i < |Directions|
    ensures FlipFrom(b, o, mover, i) == FlipFrom(FlipDirection(b, o, mover, Directions[i]), o, mover, i + 1)
  {
  }

  /** p is captured along one of the first i directions of the table. */
  ghost predicate CapturedBefore(b: Board, o: Pos, mover: Colour, i: nat, p: Pos)
    requires WellFormed(b)
  {
    exists j :: 0 <= j < i && j < |Directions| && CapturedAlong(b, o, mover, Directions[j], p)
  }

  /** Two boards of one shape hold the same tokens on the ray from o along d. */
  ghost predicate AgreeOnRay(b: Board, b': Board, o: Pos, d: Direction)
    requires WellFormed(b) && WellFormed(b') && SameShape(b, b')
  {
    forall j :: j >= 1 && InBounds(b, RayCell(o, d, j)) ==> Get(b, RayCell(o, d, j)) == Get(b', RayCell(o, d, j))
  }

  /** A bracket along d is made of cells of that ray only. */
  lemma BracketReadsRay(b: Board, b': Board, o: Pos, mover: Colour, d: Direction, k: int)
    requires WellFormed(b) && WellFormed(b') && SameShape(b, b') && AgreeOnRay(b, b', o, d)
    ensures BracketAt(b, o, mover, d, k) <==> BracketAt(b', o, mover, d, k)
  {
    if 1 <= k {
      forall j | 1 <= j <= k + 1
        ensures InBounds(b, RayCell(o, d, j)) == InBounds(b', RayCell(o, d, j))
        ensures InBounds(b, RayCell(o, d, j)) ==> Get(b, RayCell(o, d, j)) == Get(b', RayCell(o, d, j))
      {
      }
    }
  }

  /** Whether p is captured along d depends only on the cells of the ray along d. */
  lemma CapturedAlongReadsRay(b: Board, b': Board, o: Pos, mover: Colour, d: Direction, p: Pos)
    requires WellFormed(b) && WellFormed(b') && SameShape(b, b') && AgreeOnRay(b, b', o, d)
    ensures CapturedAlong(b, o, mover, d, p) <==> CapturedAlong(b', o, mover, d, p)
  {
    forall k
      ensures BracketAt(b, o, mover, d, k) <==> BracketAt(b', o, mover, d, k)
    {
      BracketReadsRay(b, b', o, mover, d, k);
    }
  }

  /** The directions processed before table position i leave the ray of direction
      i as it was: rays from one origin are disjoint. */
  lemma EarlierDirectionsMissRay(b: Board, o: Pos, mover: Colour, i: nat, q: Pos)
    requires WellFormed(b) && i < |Directions| && RayIndex(o, Directions[i], q) >= 1
    ensures !CapturedBefore(b, o, mover, i, q)
  {
    DirectionsComplete();
    forall j | 0 <= j < i
      ensures !CapturedAlong(b, o, mover, Directions[j], q)
    {
      RaysDisjoint(o, Directions[i], Directions[j], q);
    }
  }

  /** After the whole table, the captures of the processed directions are all captures. */
  lemma CapturedBeforeAll(b: Board, o: Pos, mover: Colour, p: Pos)
    requires WellFormed(b)
    ensures CapturedBefore(b, o, mover, |Directions|, p) <==> Captured(b, o, mover, p)
  {
    if Captured(b, o, mover, p) {
      var d :| CapturedAlong(b, o, mover, d, p);
      assert CapturedAlong(b, o, mover, Directions[IndexOf(d)], p);
    }
  }

  /** Processing direction i on a board that has exactly the captures of the
      first i directions applied adds exactly the captures along direction i,
      as the original board determines them. */
  lemma FlipDirectionStep(b0: Board, b: Board, o: Pos, mover: Colour, i: nat)
    requires WellFormed(b0) && InBounds(b0, o) && WellFormed(b) && SameShape(b, b0) && i < |Directions|
    requires forall p {:trigger Get(b, p)} :: InBounds(b0, p) ==>
      Get(b, p) == (if CapturedBefore(b0, o, mover, i, p) then Piece(mover) else Get(b0, p))
    ensures forall p {:trigger Get(FlipDirection(b, o, mover, Directions[i]), p)} :: InBounds(b0, p) ==>
      Get(FlipDirection(b, o, mover, Directions[i]), p) ==
        (if CapturedBefore(b0, o, mover, i + 1, p) then Piece(mover) else Get(b0, p))
  {
    var d := Directions[i];
    forall j | j >= 1 && InBounds(b, RayCell(o, d, j))
      ensures Get(b, RayCell(o, d, j)) == Get(b0, RayCell(o, d, j))
    {
      RayIndexOfRayCell(o, d, j);
      EarlierDirectionsMissRay(b0, o, mover, i, RayCell(o, d, j));
    }
    assert AgreeOnRay(b, b0, o, d);
    forall p | InBounds(b0, p)
      ensures CapturedAlong(b, o, mover, d, p) <==> CapturedAlong(b0, o, mover, d, p)
    {
      CapturedAlongReadsRay(b, b0, o, mover, d, p);
    }
  }

  /** The direction loop from position i, started on a board that has exactly the
      captures of the first i directions applied, ends with all captures applied. */
  lemma {:induction false} FlipFromSpec(b0: Board, b: Board, o: Pos, mover: Colour, i: nat)
    requires WellFormed(b0) && InBounds(b0, o) && WellFormed(b) && SameShape(b, b0) && i <= |Directions|
    requires forall p {:trigger Get(b, p)} :: InBounds(b0, p) ==>
      Get(b, p) == (if CapturedBefore(b0, o, mover, i, p) then Piece(mover) else Get(b0, p))
    ensures forall p {:trigger Get(FlipFrom(b, o, mover, i), p)} :: InBounds(b0, p) ==>
      Get(FlipFrom(b, o, mover, i), p) == (if Captured(b0, o, mover, p) then Piece(mover) else Get(b0, p))
    decreases |Directions| - i
  {
    if i == |Directions| {
      FlipFromDone(b0, b, o, mover);
    } else {
      var next := FlipDirection(b, o, mover, Directions[i]);
      FlipFromStep(b, o, mover, i);
      FlipDirectionStep(b0, b, o, mover, i);
      FlipFromSpec(b0, next, o, mover, i + 1);
    }
  }

  /** At the end of the table the board holds all captures. */
  lemma FlipFromDone(b0: Board, b: Board, o: Pos, mover: Colour)
    requires WellFormed(b0) && InBounds(b0, o) && WellFormed(b) && SameShape(b, b0)
    requires forall p {:trigger Get(b, p)} :: InBounds(b0, p) ==>
      Get(b, p) == (if CapturedBefore(b0, o, mover, |Directions|, p) then Piece(mover) else Get(b0, p))
    ensures forall p {:trigger Get(b, p)} :: InBounds(b0, p) ==>
      Get(b, p) == (if Captured(b0, o, mover, p) then Piece(mover) else Get(b0, p))
  {
    forall p | InBounds(b0, p) {
      CapturedBeforeAll(b0, o, mover, p);
    }
  }

  /** flipOtoX (mover X) and flipXtoO (mover O): exactly the captured pieces change,
      to the mover's colour; every other cell keeps its token. */
  function Flip(b: Board, o: Pos, mover: Colour): (r: Board)
    requires WellFormed(b) && InBounds(b, o)
    ensures WellFormed(r) && SameShape(r, b)
    ensures forall p {:trigger Get(r, p)} :: InBounds(b, p) ==>
      Get(r, p) == (if Captured(b, o, mover, p) then Piece(mover) else Get(b, p))
  {
    FlipFromSpec(b, b, o, mover, 0);
    FlipFrom(b, o, mover, 0)
  }

  /** A captured cell holds an opponent piece and lies on one of the eight rays. */
  lemma CapturedIsOpponentOnRay(b: Board, o: Pos, mover: Colour, p: Pos)
    requires WellFormed(b) && InBounds(b, p) && Captured(b, o, mover, p)
    ensures Get(b, p) == Piece(mover.Opponent())
    ensures exists d :: RayIndex(o, d, p) >= 1
  {
    var d :| CapturedAlong(b, o, mover, d, p);
    var k :| BracketAt(b, o, mover, d, k) && k < RunBuffer && 1 <= RayIndex(o, d, p) <= k;
    assert RayCell(o, d, RayIndex(o, d, p)) == p;
  }

  /** The flip turns opponent pieces into mover pieces and changes nothing else:
      the origin, empty cells and mover pieces keep their tokens, and every changed
      cell lies on one of the eight rays from the origin. */
  lemma FlipFrame(b: Board, o: Pos, mover: Colour)
    requires WellFormed(b) && InBounds(b, o)
    ensures var r := Flip(b, o, mover);
      && Get(r, o) == Get(b, o)
      && (forall p {:trigger Get(r, p)} :: InBounds(b, p) ==>
            Get(r, p) == Get(b, p) || (Get(b, p) == Piece(mover.Opponent()) && Get(r, p) == Piece(mover)))
      && (forall p {:trigger Get(r, p)} :: InBounds(b, p) && Get(r, p) != Get(b, p) ==> exists d :: RayIndex(o, d, p) >= 1)
  {
    var r := Flip(b, o, mover);
    forall p | InBounds(b, p) && Captured(b, o, mover, p)
      ensures Get(b, p) == Piece(mover.Opponent()) && exists d :: RayIndex(o, d, p) >= 1
    {
      CapturedIsOpponentOnRay(b, o, mover, p);
    }
  }

  /** The flip keeps the number of pieces on the board. */
  lemma FlipKeepsPieceCount(b: Board, o: Pos, mover: Colour)
    requires WellFormed(b) && InBounds(b, o)
    ensures PieceCount(Flip(b, o, mover).cells) == PieceCount(b.cells)
  {
    FlipFrame(b, o, mover);
    PieceCountSameEmptyCells(b, Flip(b, o, mover));
  }

  /** On each ray the flip acts as that ray's pass would act on the original board:
      the passes, made one after another, do not see each other's recolouring. */
  lemma FlipDirectionsIndependent(b: Board, o: Pos, mover: Colour, d: Direction, p: Pos)
    requires WellFormed(b) && InBounds(b, o) && InBounds(b, p) && RayIndex(o, d, p) >= 1
    ensures Get(Flip(b, o, mover), p) == Get(FlipDirection(b, o, mover, d), p)
  {
    if Captured(b, o, mover, p) {
      var d' :| CapturedAlong(b, o, mover, d', p);
      if d' != d {
        RaysDisjoint(o, d, d', p);
      }
    }
  }
}
