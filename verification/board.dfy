/** The Reversi board: a flat, row-major buffer of rows × columns cells, each
    empty ('.') or holding one player's piece ('x' or 'o'). */
module Board {

  /** The two players' colours, 'x' and 'o'. */
  datatype Colour = X | O {
    /** The other player's colour. */
    function Opponent(): (c: Colour)
      ensures c != this
    {
      if this == X then O else X
    }
  }

  /** The content of one cell. */
  datatype Token = Empty | Piece(colour: Colour)

  /** A cell position. Signed, because the ray scans step one cell past the edge. */
  datatype Pos = Pos(row: int, col: int)

  /** The dimensions are stored as `unsigned short`. */
  const MaxDim: nat := 65535

  /** 2^32: the modulus of the `unsigned int` index arithmetic. */
  const Word: nat := 0x1_0000_0000

  type Dim = n: nat | n <= MaxDim

  datatype Board = Board(rows: Dim, columns: Dim, cells: seq<Token>)

  /** rows × columns, written as repeated addition so that the index arithmetic
      stays linear (AreaIsProduct shows it is the product). */
  function Area(rows: nat, columns: nat): nat {
    if rows == 0 then 0 else Area(rows - 1, columns) + columns
  }

  /** The buffer holds exactly one cell per (row, column). */
  predicate WellFormed(b: Board) {
    |b.cells| == Area(b.rows, b.columns)
  }

  predicate InBounds(b: Board, p: Pos) {
    0 <= p.row < b.rows && 0 <= p.col < b.columns
  }

  predicate SameShape(a: Board, b: Board) {
    a.rows == b.rows && a.columns == b.columns
  }

  lemma {:induction false} AreaIsProduct(rows: nat, columns: nat)
    ensures Area(rows, columns) == rows * columns
  {
    if rows > 0 {
      AreaIsProduct(rows - 1, columns);
    }
  }

  /** Row `row` ends no later than row `rows` - 1 does. */
  lemma {:induction false} AreaRowEnd(row: nat, rows: nat, columns: nat)
    requires row < rows
    ensures Area(row, columns) + columns <= Area(rows, columns)
  {
    if row + 1 < rows {
      AreaRowEnd(row, rows - 1, columns);
    }
  }

  /** The row holding buffer index i, for rows of the given length. */
  function RowOf(i: nat, columns: nat): nat
    requires columns > 0
  {
    if i < columns then 0 else 1 + RowOf(i - columns, columns)
  }

  /** Index i lies in row RowOf(i, columns). */
  lemma {:induction false} RowOfSpec(i: nat, columns: nat)
    requires columns > 0
    ensures Area(RowOf(i, columns), columns) <= i < Area(RowOf(i, columns), columns) + columns
  {
    if i >= columns {
      RowOfSpec(i - columns, columns);
    }
  }

  /** The column-th cell of row `row` lies in that row. */
  lemma {:induction false} RowOfCell(row: nat, column: nat, columns: nat)
    requires column < columns
    ensures RowOf(Area(row, columns) + column, columns) == row
  {
    if row > 0 {
      RowOfCell(row - 1, column, columns);
    }
  }

  /** An index below the cell count lies in one of the rows. */
  lemma IndexRow(rows: nat, columns: nat, i: nat)
    requires i < Area(rows, columns)
    ensures columns > 0 && RowOf(i, columns) < rows
    ensures Area(RowOf(i, columns), columns) <= i < Area(RowOf(i, columns), columns) + columns
  {
    if columns == 0 {
      AreaIsProduct(rows, columns);
    }
    RowOfSpec(i, columns);
    var row := RowOf(i, columns);
    if row >= rows {
      AreaRowEnd(rows, row + 1, columns);
    }
  }

  /** No board has more than 2^32 - 1 cells, so 32-bit index arithmetic never wraps. */
  lemma CellCountFits(rows: Dim, columns: Dim)
    ensures Area(rows, columns) < Word
  {
    AreaIsProduct(rows, columns);
    MulMonotonic(rows, MaxDim, columns);
    MulMonotonic(columns, MaxDim, MaxDim);
  }

  /** Multiplication by a natural number is monotonic. */
  lemma MulMonotonic(a: nat, b: nat, c: nat)
    requires a <= b
    ensures a * c <= b * c
  {
    assert b * c == a * c + (b - a) * c;
  }

  /** The index computation of boardCalcIndex, row * columns + column in 32-bit
      unsigned arithmetic, for any arguments: the source checks neither. */
  function Index(columns: nat, row: nat, column: nat): nat {
    (Area(row, columns) + column) % Word
  }

  /** A column one past the end of a row names the first cell of the next row:
      the index computation does not tell the two apart. */
  lemma IndexPastRowEnd(columns: nat, row: nat)
    ensures Index(columns, row, columns) == Index(columns, row + 1, 0)
  {
  }

  /** A wrapped column -1 (2^32 - 1 as an unsigned value) names the last cell of
      the previous row. */
  lemma IndexWrappedColumn(columns: Dim, row: Dim)
    requires 1 <= row && 1 <= columns
    ensures Index(columns, row, Word - 1) == Index(columns, row - 1, columns - 1)
  {
    CellCountFits(row, columns);
  }

  /** boardCalcIndex on the board's coordinates: for a row and column in range
      it is a valid buffer index. */
  function CalcIndex(b: Board, row: nat, column: nat): (i: nat)
    requires row < b.rows && column < b.columns
    ensures i < Area(b.rows, b.columns)
  {
    AreaRowEnd(row, b.rows, b.columns);
    CellCountFits(b.rows, b.columns);
    Index(b.columns, row, column)
  }

  /** In range the 32-bit computation does not wrap. */
  lemma CalcIndexNoWrap(b: Board, row: nat, column: nat)
    requires row < b.rows && column < b.columns
    ensures CalcIndex(b, row, column) == Area(row, b.columns) + column
  {
    AreaRowEnd(row, b.rows, b.columns);
    CellCountFits(b.rows, b.columns);
  }

  /** The index is the row-major position row * columns + column. */
  lemma CalcIndexIsRowMajor(b: Board, row: nat, column: nat)
    requires row < b.rows && column < b.columns
    ensures CalcIndex(b, row, column) == row * b.columns + column
  {
    CalcIndexNoWrap(b, row, column);
    AreaIsProduct(row, b.columns);
  }

  /** The coordinates of buffer index i: the inverse of CalcIndex. */
  function Coords(b: Board, i: nat): (p: Pos)
    requires i < Area(b.rows, b.columns)
    ensures InBounds(b, p)
    ensures CalcIndex(b, p.row, p.col) == i
  {
    IndexRow(b.rows, b.columns, i);
    var row := RowOf(i, b.columns);
    CellCountFits(b.rows, b.columns);
    Pos(row, i - Area(row, b.columns))
  }

  /** The index mapping is injective on in-range coordinates. */
  lemma CalcIndexInjective(b: Board, p: Pos, q: Pos)
    requires InBounds(b, p) && InBounds(b, q)
    ensures CalcIndex(b, p.row, p.col) == CalcIndex(b, q.row, q.col) <==> p == q
  {
    CalcIndexNoWrap(b, p.row, p.col);
    CalcIndexNoWrap(b, q.row, q.col);
    RowOfCell(p.row, p.col, b.columns);
    RowOfCell(q.row, q.col, b.columns);
  }

  /** Coords undoes CalcIndex. */
  lemma CoordsOfCalcIndex(b: Board, p: Pos)
    requires InBounds(b, p)
    ensures Coords(b, CalcIndex(b, p.row, p.col)) == p
  {
    CalcIndexInjective(b, p, Coords(b, CalcIndex(b, p.row, p.col)));
  }

  /** The token at p, read through the index mapping. */
  function Get(b: Board, p: Pos): Token
    requires WellFormed(b) && InBounds(b, p)
  {
    b.cells[CalcIndex(b, p.row, p.col)]
  }

  /** Two boards of one shape that agree on every cell are equal. */
  lemma Extensionality(a: Board, b: Board)
    requires WellFormed(a) && WellFormed(b) && SameShape(a, b)
    requires forall p {:trigger Get(a, p)} :: InBounds(a, p) ==> Get(a, p) == Get(b, p)
    ensures a == b
  {
    forall i | 0 <= i < |a.cells|
      ensures a.cells[i] == b.cells[i]
    {
      var p := Coords(a, i);
      assert Get(a, p) == Get(b, p);
    }
  }

  /** The number of pieces among the first n cells of a buffer. */
  function PiecesBelow(s: seq<Token>, n: nat): nat
    requires n <= |s|
  {
    if n == 0 then 0 else PiecesBelow(s, n - 1) + (if s[n - 1] == Empty then 0 else 1)
  }

  /** The number of pieces in a buffer: the cells that are not '.'. */
  function PieceCount(s: seq<Token>): nat {
    PiecesBelow(s, |s|)
  }

  /** The piece count is the length minus the multiplicity of '.'. */
  lemma PieceCountIsNonEmpty(s: seq<Token>)
    ensures PieceCount(s) == |s| - multiset(s)[Empty]
  {
    PiecesBelowIsNonEmpty(s, |s|);
    assert s[..|s|] == s;
  }

  lemma {:induction false} PiecesBelowIsNonEmpty(s: seq<Token>, n: nat)
    requires n <= |s|
    ensures PiecesBelow(s, n) == n - multiset(s[..n])[Empty]
  {
    if n > 0 {
      assert s[..n] == s[..n - 1] + [s[n - 1]];
      PiecesBelowIsNonEmpty(s, n - 1);
    }
  }

  /** Writing t at index i changes the piece count by what leaves and what arrives. */
  lemma PieceCountUpdate(s: seq<Token>, i: nat, t: Token)
    requires i < |s|
    ensures PieceCount(s[i := t]) ==
      PieceCount(s) - (if s[i] == Empty then 0 else 1) + (if t == Empty then 0 else 1)
  {
    PiecesBelowUpdate(s, i, t, |s|);
  }

  lemma {:induction false} PiecesBelowUpdate(s: seq<Token>, i: nat, t: Token, n: nat)
    requires i < |s| && n <= |s|
    ensures PiecesBelow(s[i := t], n) == PiecesBelow(s, n) +
      (if i < n then (if t == Empty then 0 else 1) - (if s[i] == Empty then 0 else 1) else 0)
  {
    if n > 0 {
      PiecesBelowUpdate(s, i, t, n - 1);
    }
  }

  /** Two buffers that are empty at exactly the same indices hold the same number of pieces. */
  lemma PieceCountSameEmptiness(s: seq<Token>, t: seq<Token>)
    requires |s| == |t|
    requires forall i :: 0 <= i < |s| ==> (s[i] == Empty <==> t[i] == Empty)
    ensures PieceCount(s) == PieceCount(t)
  {
    PiecesBelowSameEmptiness(s, t, |s|);
  }

  lemma {:induction false} PiecesBelowSameEmptiness(s: seq<Token>, t: seq<Token>, n: nat)
    requires |s| == |t| && n <= |s|
    requires forall i :: 0 <= i < |s| ==> (s[i] == Empty <==> t[i] == Empty)
    ensures PiecesBelow(s, n) == PiecesBelow(t, n)
  {
    if n > 0 {
      PiecesBelowSameEmptiness(s, t, n - 1);
    }
  }

  /** A buffer of empty cells holds no piece. */
  lemma PieceCountAllEmpty(s: seq<Token>)
    requires forall i :: 0 <= i < |s| ==> s[i] == Empty
    ensures PieceCount(s) == 0
  {
    PiecesBelowAllEmpty(s, |s|);
  }

  lemma {:induction false} PiecesBelowAllEmpty(s: seq<Token>, n: nat)
    requires n <= |s|
    requires forall i :: 0 <= i < |s| ==> s[i] == Empty
    ensures PiecesBelow(s, n) == 0
  {
    if n > 0 {
      PiecesBelowAllEmpty(s, n - 1);
    }
  }

  /** Two boards of one shape with the same empty cells hold the same number of pieces. */
  lemma PieceCountSameEmptyCells(a: Board, b: Board)
    requires WellFormed(a) && WellFormed(b) && SameShape(a, b)
    requires forall p {:trigger Get(a, p)} :: InBounds(a, p) ==> (Get(a, p) == Empty <==> Get(b, p) == Empty)
    ensures PieceCount(a.cells) == PieceCount(b.cells)
  {
    forall i | 0 <= i < |a.cells|
      ensures a.cells[i] == Empty <==> b.cells[i] == Empty
    {
      var p := Coords(a, i);
      assert Get(a, p) == a.cells[i] && Get(b, p) == b.cells[i];
    }
    PieceCountSameEmptiness(a.cells, b.cells);
  }

  /** boardClear: every one of the rows × columns cells becomes '.', whatever
      the board held before; no piece is left. */
  function Clear(b: Board): (r: Board)
    ensures WellFormed(r) && SameShape(r, b)
    ensures forall p {:trigger Get(r, p)} :: InBounds(r, p) ==> Get(r, p) == Empty
    ensures PieceCount(r.cells) == 0
  {
    var cells := seq(Area(b.rows, b.columns), _ => Empty);
    PieceCountAllEmpty(cells);
    b.(cells := cells)
  }

  /** The state the constructor leaves: the `unsigned int` arguments narrowed to
      the `unsigned short` fields, and every cell cleared. */
  function NewBoard(rows: nat, columns: nat): (b: Board)
    requires rows < Word && columns < Word
    ensures rows <= MaxDim ==> b.rows == rows
    ensures columns <= MaxDim ==> b.columns == columns
    ensures (rows - b.rows) % (MaxDim + 1) == 0 && (columns - b.columns) % (MaxDim + 1) == 0
    ensures WellFormed(b) && PieceCount(b.cells) == 0
  {
    Clear(Board(rows % (MaxDim + 1), columns % (MaxDim + 1), []))
  }

  /** The size of the constructor's allocation: the 32-bit product of its
      unnarrowed arguments. */
  function Allocation(rows: nat, columns: nat): nat {
    (rows * columns) % Word
  }

  /** The allocation can be smaller than the cells of the narrowed board: for
      arguments 131071 × 65535 the board is 65535 × 65535, and the clear the
      constructor runs writes past the buffer. */
  lemma AllocationCanBeShort()
    ensures Allocation(131071, 65535) < |NewBoard(131071, 65535).cells|
  {
    var b := NewBoard(131071, 65535);
    assert b.rows == MaxDim && b.columns == MaxDim;
    AreaIsProduct(MaxDim, MaxDim);
    assert Allocation(131071, 65535) == 4294770689;
  }

  /** boardSet: cell p holds t afterwards and every other cell keeps its token. */
  function Set(b: Board, p: Pos, t: Token): (r: Board)
    requires WellFormed(b) && InBounds(b, p)
    ensures WellFormed(r) && SameShape(r, b)
    ensures Get(r, p) == t
    ensures forall q {:trigger Get(r, q)} :: InBounds(b, q) && q != p ==> Get(r, q) == Get(b, q)
  {
    assert forall q :: InBounds(b, q) && q != p ==>
      CalcIndex(b, q.row, q.col) != CalcIndex(b, p.row, p.col) by {
      forall q | InBounds(b, q) && q != p {
        CalcIndexInjective(b, p, q);
      }
    }
    b.(cells := b.cells[CalcIndex(b, p.row, p.col) := t])
  }

  /** Writing one cell changes the piece count by what leaves and what arrives. */
  lemma PieceCountSet(b: Board, p: Pos, t: Token)
    requires WellFormed(b) && InBounds(b, p)
    ensures PieceCount(Set(b, p, t).cells) ==
      PieceCount(b.cells) - (if Get(b, p) == Empty then 0 else 1) + (if t == Empty then 0 else 1)
  {
    PieceCountUpdate(b.cells, CalcIndex(b, p.row, p.col), t);
  }

  /** The 2 × 2 block whose top-left cell is (top, left). */
  predicate InBlock(p: Pos, top: int, left: int) {
    top <= p.row <= top + 1 && left <= p.col <= left + 1
  }

  /** The four writes of the initial layout in their order: 'x' top-left, 'o'
      bottom-left, 'o' top-right, 'x' bottom-right. */
  function PlaceBlock(b: Board, top: nat, left: nat): (r: Board)
    requires WellFormed(b) && top + 1 < b.rows && left + 1 < b.columns
    ensures WellFormed(r) && SameShape(r, b)
  {
    var b1 := Set(b, Pos(top, left), Piece(X));
    var b2 := Set(b1, Pos(top + 1, left), Piece(O));
    var b3 := Set(b2, Pos(top, left + 1), Piece(O));
    Set(b3, Pos(top + 1, left + 1), Piece(X))
  }

  /** After the four writes the block holds 'x' on its main diagonal and 'o' on
      the other, and every other cell is untouched. */
  lemma PlaceBlockCell(b: Board, top: nat, left: nat, p: Pos)
    requires WellFormed(b) && top + 1 < b.rows && left + 1 < b.columns && InBounds(b, p)
    ensures Get(PlaceBlock(b, top, left), p) ==
      if InBlock(p, top, left) then Piece(if p.row - top == p.col - left then X else O) else Get(b, p)
  {
  }

  /** The 2 × 2 block the initial layout writes, for layout dimensions rows × columns. */
  predicate InCentre(p: Pos, rows: nat, columns: nat) {
    InBlock(p, rows / 2 - 1, columns / 2 - 1)
  }

  /** boardInitialState: 'x' on the main diagonal of the centre block, 'o' on the
      other diagonal. The block is computed from the layout dimensions, which must
      be at least 2 (the unsigned `n / 2 - 1` wraps otherwise) and must put the
      block on the board. Cells outside the block are untouched. */
  function InitialState(b: Board, rows: nat, columns: nat): (r: Board)
    requires WellFormed(b)
    requires 2 <= rows && 2 <= columns
    requires rows / 2 < b.rows && columns / 2 < b.columns
    ensures WellFormed(r) && SameShape(r, b)
    ensures forall p {:trigger Get(r, p)} :: InBounds(b, p) && InCentre(p, rows, columns) ==>
      Get(r, p) == Piece(if p.row - rows / 2 == p.col - columns / 2 then X else O)
    ensures forall p {:trigger Get(r, p)} :: InBounds(b, p) && !InCentre(p, rows, columns) ==> Get(r, p) == Get(b, p)
  {
    var top, left := rows / 2 - 1, columns / 2 - 1;
    assert forall p {:trigger Get(PlaceBlock(b, top, left), p)} :: InBounds(b, p) ==>
      Get(PlaceBlock(b, top, left), p) ==
        (if InBlock(p, top, left) then Piece(if p.row - top == p.col - left then X else O) else Get(b, p)) by {
      forall p | InBounds(b, p) {
        PlaceBlockCell(b, top, left, p);
      }
    }
    PlaceBlock(b, top, left)
  }

  /** On a cleared board the initial layout leaves exactly the four centre pieces. */
  lemma InitialStateHasFourPieces(b: Board, rows: nat, columns: nat)
    requires WellFormed(b)
    requires 2 <= rows && 2 <= columns
    requires rows / 2 < b.rows && columns / 2 < b.columns
    ensures var r := InitialState(Clear(b), rows, columns);
      && PieceCount(r.cells) == 4
      && forall p {:trigger Get(r, p)} :: InBounds(r, p) ==> (Get(r, p) != Empty <==> InCentre(p, rows, columns))
  {
    InitialCount(Clear(b), rows, columns);
    InitialPieces(Clear(b), rows, columns);
  }

  lemma InitialCount(c: Board, rows: nat, columns: nat)
    requires WellFormed(c) && PieceCount(c.cells) == 0
    requires forall p {:trigger Get(c, p)} :: InBounds(c, p) ==> Get(c, p) == Empty
    requires 2 <= rows && 2 <= columns
    requires rows / 2 < c.rows && columns / 2 < c.columns
    ensures PieceCount(InitialState(c, rows, columns).cells) == 4
  {
    var top, left := rows / 2 - 1, columns / 2 - 1;
    assert InitialState(c, rows, columns) == PlaceBlock(c, top, left);
    BlockCount(c, top, left);
  }

  lemma InitialPieces(c: Board, rows: nat, columns: nat)
    requires WellFormed(c)
    requires forall p {:trigger Get(c, p)} :: InBounds(c, p) ==> Get(c, p) == Empty
    requires 2 <= rows && 2 <= columns
    requires rows / 2 < c.rows && columns / 2 < c.columns
    ensures var r := InitialState(c, rows, columns);
      forall p {:trigger Get(r, p)} :: InBounds(r, p) ==> (Get(r, p) != Empty <==> InCentre(p, rows, columns))
  {
    BlockPieces(c, rows / 2 - 1, columns / 2 - 1);
  }

  /** On an empty board, the block's cells are exactly the occupied ones. */
  lemma BlockPieces(c: Board, top: nat, left: nat)
    requires WellFormed(c) && top + 1 < c.rows && left + 1 < c.columns
    requires forall p {:trigger Get(c, p)} :: InBounds(c, p) ==> Get(c, p) == Empty
    ensures var r := PlaceBlock(c, top, left);
      forall p {:trigger Get(r, p)} :: InBounds(r, p) ==> (Get(r, p) != Empty <==> InBlock(p, top, left))
  {
    forall p | InBounds(c, p) {
      PlaceBlockCell(c, top, left, p);
    }
  }

  /** Four pieces written to four distinct cells of an empty board. */
  lemma BlockCount(c: Board, top: nat, left: nat)
    requires WellFormed(c) && top + 1 < c.rows && left + 1 < c.columns
    requires PieceCount(c.cells) == 0
    requires forall p {:trigger Get(c, p)} :: InBounds(c, p) ==> Get(c, p) == Empty
    ensures PieceCount(PlaceBlock(c, top, left).cells) == 4
  {
    var b1 := Set(c, Pos(top, left), Piece(X));
    PieceCountSet(c, Pos(top, left), Piece(X));
    var b2 := Set(b1, Pos(top + 1, left), Piece(O));
    assert Get(b1, Pos(top + 1, left)) == Empty;
    PieceCountSet(b1, Pos(top + 1, left), Piece(O));
    var b3 := Set(b2, Pos(top, left + 1), Piece(O));
    assert Get(b2, Pos(top, left + 1)) == Get(b1, Pos(top, left + 1)) == Empty;
    PieceCountSet(b2, Pos(top, left + 1), Piece(O));
    var q := Pos(top + 1, left + 1);
    assert Get(b3, q) == Get(b2, q) == Get(b1, q) == Empty;
    PieceCountSet(b3, q, Piece(X));
  }
}
