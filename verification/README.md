# Reversi board engine, modelled in Dafny

This project models the board engine of a console Reversi game: the class
`ReversiBoard`. The class keeps a flat, row-major buffer of `rows × columns`
cells. Each cell is empty (`'.'`) or holds a piece of one of the two players
(`'x'`, `'o'`). The class offers these operations:

- the index mapping `boardCalcIndex`;
- `boardClear`;
- the single-cell write `boardSet`;
- the centre seeding `boardInitialState`;
- the move-validity checks `boardValidPositionX` and `boardValidPositionO`;
- the captures `flipOtoX` and `flipXtoO`.

The driver's move is the composition "check validity, `boardSet` the mover's
piece, flip".

The model is functional. A `Board` is an immutable value: its two dimensions,
bounded by 65535 because the fields are `unsigned short`, and a `seq<Token>`
of cells. Every operation is a pure function or a method without side effects.

The X and O variants of the validity check and of the flip are mirror images of each
other. Each pair is written once, for a `mover` colour and its `Opponent()`.

The modules follow the structure of the code:

| file | module | what it holds |
|---|---|---|
| `board.dfy` | `Board` | the board, the index mapping, clear, set, the initial layout, the piece count |
| `rays.dfy` | `Rays` | the eight-entry offset tables as a `Direction` type, and the cells of a ray |
| `legality.dfy` | `Legality` | the validity check: a recursive reference scan, the method with the source's loops, and the bracket characterisation |
| `capture.dfy` | `Capture` | the flip: the per-direction walk with its eight-entry buffer, the recolouring, and the sequential loop over the directions |
| `move.dfy` | `Move` | the driver's move, the buffer-cap witness, and the 8 × 8 opening |

Two behaviours of the code are modelled as written:

- **The flip caps each direction at seven pieces.**
  - The flip collects the opponent pieces of a direction in an eight-entry coordinate buffer.
  - When the eighth piece is collected, it abandons that direction.
  - The validity check has no such limit.
  - So on a board with a row of ten cells, a move can be legal and still flip nothing (`Move.CapWitness`).
  - On boards of at most 9 × 9 cells no bracket is long enough for the cap to matter (`Move.LegalMoveCapturesOnSmallBoards`).
- **The initial layout needs both layout dimensions to be at least 2.**
  - The unsigned `n / 2 - 1` wraps around otherwise.
  - Odd dimensions round the centre down.

The validity check and the flip are each characterised by the rules of
Reversi (`Legality.BracketAt`):

- A move is legal exactly when the target is empty and some direction holds a bracket.
- The flip turns exactly the cells inside brackets shorter than the buffer.
- The flip changes only opponent pieces, and only on the eight rays.
- The eight directions, although processed one after another on a changing board, act independently.

In the 8 × 8 opening the layout puts 'x' on (3, 3) and (4, 4) and 'o' on
(4, 3) and (3, 4) (`Move.OpeningScenario`):

- (2, 3) holds no bracket for 'x'. Its southern neighbour (3, 3) is already an 'x', and the run from its south-eastern neighbour (3, 4) ends at the empty (4, 5).
- (2, 4) is legal for 'x' and turns exactly (3, 4).

The target of a move is assumed to lie on the board. The source checks neither
coordinate, and a column one past a row's end names the first cell of the next
row (`Board.IndexPastRowEnd`); see "## Left out".

## Model

Sources: `ReversiBoard.cpp` lines 142-192 (X) and 205-255 (O) hold the two validity checks. Lines 268-324 (X) and 337-393 (O) hold the two flips. The table cites the X variant. The O variant is the same member with `mover == O`.

| member | source | states |
|---|---|---|
| Board.CellCountFits | ReversiBoard/myCode/ReversiBoard.h:35-37 | with `unsigned short` dimensions the cell count is below 2^32, so the 32-bit index arithmetic cannot wrap |
| Board.AreaIsProduct | ReversiBoard/myCode/ReversiBoard.cpp:75 | the cell count the model uses is rows × columns |
| Board.CalcIndex | ReversiBoard/myCode/ReversiBoard.cpp:60-64 | for an in-range row and column the 32-bit index `row * columns + column` is a valid buffer index |
| Board.Index | ReversiBoard/myCode/ReversiBoard.cpp:60-64 | the unchecked 32-bit computation `row * columns + column` for any arguments; `Board.CalcIndex` is it on in-range coordinates, and `Board.IndexPastRowEnd` shows the aliasing it allows |
| Board.IndexPastRowEnd | ReversiBoard/myCode/ReversiBoard.cpp:60-64 | the column one past the end of a row gets the same index as the first cell of the next row |
| Board.IndexWrappedColumn | ReversiBoard/myCode/ReversiBoard.cpp:112-115 | a column that wrapped to 2^32 - 1 (as `C/2 - 1` does when C < 2) names the last cell of the previous row |
| Board.CalcIndexNoWrap | ReversiBoard/myCode/ReversiBoard.cpp:60-64 | in range, the unsigned computation never wraps around |
| Board.CalcIndexIsRowMajor | ReversiBoard/myCode/ReversiBoard.cpp:60-64 | the index is the row-major position `row * columns + column` |
| Board.CalcIndexInjective | ReversiBoard/myCode/ReversiBoard.cpp:60-64 | two in-range cells share an index if and only if they are the same cell |
| Board.Coords | ReversiBoard/myCode/ReversiBoard.cpp:60-64 | every buffer index is the index of some in-range cell (the mapping is onto) |
| Board.CoordsOfCalcIndex | ReversiBoard/myCode/ReversiBoard.cpp:60-64 | recovering the coordinates from the index gives back the cell |
| Board.Get | ReversiBoard/myCode/ReversiBoard.cpp:160 | the reads `pBoard[boardCalcIndex(row, column)]` of the checks and flips; its meaning is fixed by `Board.Set` (a write is read back, other cells unchanged) and `Board.Extensionality` |
| Board.Extensionality | ReversiBoard/myCode/ReversiBoard.h:39-49 | since every cell is reached through the index mapping, two boards of one shape that agree on every cell are equal |
| Board.Clear | ReversiBoard/myCode/ReversiBoard.cpp:73-80 | afterwards every cell of the board is empty, whatever it held, and no piece is left |
| Board.NewBoard | ReversiBoard/myCode/ReversiBoard.cpp:34-39 | the constructor narrows its `unsigned int` arguments to the `unsigned short` fields (exactly modulo 65536) and leaves a well-formed, empty board |
| Board.Allocation | ReversiBoard/myCode/ReversiBoard.cpp:37 | the number of cells `new char[rows * columns]` allocates: the 32-bit product of the unnarrowed arguments |
| Board.AllocationCanBeShort | ReversiBoard/myCode/ReversiBoard.cpp:34-38 | for arguments 131071 × 65535 the allocation is smaller than the 65535 × 65535 cells the narrowed fields describe |
| Board.Set | ReversiBoard/myCode/ReversiBoard.cpp:92-98 | the target cell holds the token afterwards; every other cell keeps its token; the shape is unchanged |
| Board.PieceCountSet | ReversiBoard/myCode/ReversiBoard.cpp:92-98 | a write changes the number of pieces by one for each piece that arrives or leaves |
| Board.PlaceBlock | ReversiBoard/myCode/ReversiBoard.cpp:120-126 | the loop of four `boardSet` calls in the order of the tables; `Board.PlaceBlockCell` states its result cell by cell |
| Board.PlaceBlockCell | ReversiBoard/myCode/ReversiBoard.cpp:112-126 | the four writes in their order put 'x' on the main diagonal of the 2 × 2 block and 'o' on the other diagonal, and touch nothing else |
| Board.InitialState | ReversiBoard/myCode/ReversiBoard.cpp:110-129 | for layout dimensions of at least 2, the centre block gets 'x' at (R/2-1, C/2-1) and (R/2, C/2), and 'o' at (R/2, C/2-1) and (R/2-1, C/2); every other cell is unchanged |
| Board.InitialStateHasFourPieces | ReversiBoard/myCode/ReversiBoard.cpp:110-129 | on a cleared board the layout leaves exactly four pieces, and exactly the centre cells are occupied |
| Rays.IndexOf | ReversiBoard/myCode/ReversiBoard.cpp:146-149 | every direction has a position in the offset tables |
| Rays.DirectionsComplete | ReversiBoard/myCode/ReversiBoard.cpp:146-149 | the tables list eight distinct directions, and every non-zero unit step among them |
| Rays.RowStep | ReversiBoard/myCode/ReversiBoard.cpp:146-147 | the `xOffsets` entry (row offset) of a direction; `Rays.DirectionsComplete` shows the two tables together list every non-zero unit step once |
| Rays.ColStep | ReversiBoard/myCode/ReversiBoard.cpp:148-149 | the `yOffsets` entry (column offset) of a direction; partner as for `Rays.RowStep` |
| Rays.RayCell | ReversiBoard/myCode/ReversiBoard.cpp:155-156 | the cell k steps from the target along a direction; `Rays.RayCellIsScaledStep` and `Rays.RayStep` tie it to the offset tables |
| Rays.RayCellIsScaledStep | ReversiBoard/myCode/ReversiBoard.cpp:146-149 | the cell k steps out is the target plus k times the table offsets |
| Rays.RayStep | ReversiBoard/myCode/ReversiBoard.cpp:183-184 | adding a table offset to the running coordinates moves one cell further along the ray |
| Rays.RaysDisjoint | ReversiBoard/myCode/ReversiBoard.cpp:271-274 | rays of two different directions from one origin share no cell |
| Rays.RayReach | ReversiBoard/myCode/ReversiBoard.cpp:167-168 | a ray cell on the board is fewer steps out than the board is long, so every walk ends |
| Legality.BracketLengthUnique | ReversiBoard/myCode/ReversiBoard.cpp:167-186 | a direction holds at most one bracket |
| Legality.ScanAt | ReversiBoard/myCode/ReversiBoard.cpp:170-185 | the scan fails at an empty cell and at the edge, succeeds at a mover piece, and moves on over an opponent piece |
| Legality.ScanFindsMover | ReversiBoard/myCode/ReversiBoard.cpp:167-186 | the inner walk as a recursion over the distance k; `Legality.ScanFindsMoverSpec` characterises it and `Legality.WalkRay` is proved to decide the same |
| Legality.ScanFindsMoverSpec | ReversiBoard/myCode/ReversiBoard.cpp:167-186 | the scan from k steps out succeeds if and only if the opponent pieces from there are closed by a mover piece before an empty cell or the edge |
| Legality.DirectionValidIffBracket | ReversiBoard/myCode/ReversiBoard.cpp:155-187 | a direction passes if and only if the target is empty and the direction holds a bracket |
| Legality.DirectionValid | ReversiBoard/myCode/ReversiBoard.cpp:155-187 | one pass of the direction loop: the neighbour and target guard, then the walk; `Legality.DirectionValidIffBracket` characterises it |
| Legality.IsLegal | ReversiBoard/myCode/ReversiBoard.cpp:142-192 | a legal target is empty |
| Legality.LegalIffBracket | ReversiBoard/myCode/ReversiBoard.cpp:142-192 | a move is legal if and only if the target is empty and some direction holds a bracket (opponent pieces from the neighbour on, closed by a mover piece) |
| Legality.OccupiedNeverLegal | ReversiBoard/myCode/ReversiBoard.cpp:159-161 | an occupied target is never legal, whatever the rays hold |
| Legality.WalkRay | ReversiBoard/myCode/ReversiBoard.cpp:163-186 | the loop over running coordinates decides what the recursive scan decides |
| Legality.CheckDirection | ReversiBoard/myCode/ReversiBoard.cpp:155-187 | one pass of the direction loop is true if and only if the target is empty and that direction holds a bracket |
| Legality.ValidPosition | ReversiBoard/myCode/ReversiBoard.cpp:142-192 | the loops return true if and only if the target is empty and some direction holds a bracket |
| Capture.CaptureRun | ReversiBoard/myCode/ReversiBoard.cpp:284-319 | the walk recolours fewer pieces than the buffer holds, and the pieces it recolours are opponent pieces closed by a mover piece |
| Capture.CaptureRunFindsBracket | ReversiBoard/myCode/ReversiBoard.cpp:289-319 | a walk that starts inside a bracket shorter than the buffer recolours exactly that bracket |
| Capture.CaptureRunIffBracket | ReversiBoard/myCode/ReversiBoard.cpp:284-319 | a direction recolours n > 0 pieces if and only if it holds a bracket of length n with n < 8 |
| Capture.LongBracketNotCaptured | ReversiBoard/myCode/ReversiBoard.cpp:308-315 | a bracket of eight or more opponent pieces is not flipped at all |
| Capture.Paint | ReversiBoard/myCode/ReversiBoard.cpp:299-304 | the recolouring loop gives the first n cells of the ray the new token and leaves every other cell alone |
| Capture.CapturedAlongIffRun | ReversiBoard/myCode/ReversiBoard.cpp:289-319 | the cells a direction's walk recolours are exactly the cells inside its short bracket |
| Capture.FlipDirection | ReversiBoard/myCode/ReversiBoard.cpp:280-319 | one pass of the direction loop turns exactly the cells captured along that direction to the mover's colour |
| Capture.FlipDirectionStep | ReversiBoard/myCode/ReversiBoard.cpp:278-321 | on a board already changed by the earlier directions, a pass adds exactly the captures of its own direction, as the original board determines them |
| Capture.FlipFrom | ReversiBoard/myCode/ReversiBoard.cpp:278-321 | the outer direction loop from table position i on, each pass on the board the earlier ones left; keeps the board's shape, and `Capture.FlipFromSpec` states its result |
| Capture.FlipFromSpec | ReversiBoard/myCode/ReversiBoard.cpp:278-321 | the sequential loop over the eight directions ends with exactly the captures of all directions applied |
| Capture.Flip | ReversiBoard/myCode/ReversiBoard.cpp:268-324 | exactly the captured cells change, to the mover's colour; every other cell keeps its token |
| Capture.CapturedIsOpponentOnRay | ReversiBoard/myCode/ReversiBoard.cpp:308-312 | only opponent pieces on one of the eight rays are captured |
| Capture.FlipFrame | ReversiBoard/myCode/ReversiBoard.cpp:268-324 | the flip leaves the origin, empty cells and mover pieces alone, turns opponent pieces only into mover pieces, and changes only cells on the eight rays |
| Capture.FlipKeepsPieceCount | ReversiBoard/myCode/ReversiBoard.cpp:268-324 | the flip keeps the number of pieces on the board |
| Capture.FlipDirectionsIndependent | ReversiBoard/myCode/ReversiBoard.cpp:278-321 | on each ray, the sequential flip agrees with that direction's pass applied to the original board |
| Move.SetOriginKeepsCaptures | ReversiBoard/myCode/main.cpp:47-48 | placing the piece before the flip does not change what the flip captures |
| Move.Play | ReversiBoard/myCode/main.cpp:44-48 | an illegal move leaves the board unchanged; a legal move puts the mover's piece on the target and turns exactly the captured pieces, as the board before the move determines them |
| Move.PlayAddsOnePiece | ReversiBoard/myCode/main.cpp:44-48 | a legal move adds exactly one piece to the board |
| Move.LegalMoveCapturesOnSmallBoards | ReversiBoard/myCode/ReversiBoard.cpp:314-315 | on boards of at most 9 × 9 cells every bracket is shorter than the buffer, so every legal move turns some piece |
| Move.CapWitness | ReversiBoard/myCode/ReversiBoard.cpp:314-315 | on a 1 × 10 board a legal move bracketing eight pieces turns none of them |
| Move.Opening | ReversiBoard/myCode/ReversiBoard.cpp:112-117 | the cleared 8 × 8 board after the initial layout holds 'x' on (3, 3) and (4, 4), 'o' on (4, 3) and (3, 4), and nothing else |
| Move.OpeningCaptures | ReversiBoard/myCode/ReversiBoard.cpp:268-324 | in the opening, 'x' at (2, 4) captures (3, 4) and nothing else |
| Move.OpeningMove | ReversiBoard/myCode/main.cpp:44-48 | after 'x' plays (2, 4) in the opening, (2, 4) and (3, 4) hold 'x' and every other cell is unchanged |
| Move.OpeningScenario | ReversiBoard/myCode/ReversiBoard.cpp:142-192 | in the opening, (2, 3) is illegal for 'x', (2, 4) is legal, and playing (2, 4) turns (3, 4) and leaves the other centre pieces alone |

## Left out

- Console output: the "Invalid move" message of the validity checks, the console view `ReversiConsoleView`, and the prompting turn loop of `main.cpp` are I/O with no effect on the board. `Move.Play` models one move of the loop.
- Heap management: the constructor's `new[]` and the destructor's `delete[]`. The model's board is a value that holds its cells.
- Board.NewBoard: the constructor sizes the buffer with the 32-bit product of its unnarrowed `unsigned int` arguments (`Board.Allocation`), while the fields keep the arguments modulo 65536. When that wrapped size is smaller than the narrowed rows × columns, the constructor's clear writes past the buffer. `Board.AllocationCanBeShort` shows this for 131071 × 65535. The model's board always holds exactly rows × columns cells, so it does not represent the buffer size or that overrun.
- Board.Clear: the source's loop bound `rows * columns` is an `int` product of two `unsigned short` values, which overflows for boards of more than 2^31 - 1 cells. The model uses the exact product.
- The `RC_t` return codes: every core operation returns `RC_OK` unconditionally, so the model's operations return only the board.
- The unused `coin` parameters of the validity checks and the flips. The colour comes from `mover`.
- Tokens other than `'.'`, `'x'` and `'o'`: `boardSet` stores any character, but the driver only passes the two players' coins. `Token` has exactly three values.
- Board.Set: coordinates outside the board are a precondition, as for `Board.CalcIndex` and `Board.Get`. The source checks neither coordinate. A column past the end of a row names a cell of a later row, as long as the index stays inside the buffer; `Board.IndexPastRowEnd` proves this for the column one past the end. Only an index past the buffer is undefined behaviour. The model writes in-range cells only.
- Board.InitialState: the precondition excludes layout dimensions below 2 and centre blocks off the board. What the source does in those cases:
  - With a dimension below 2, `n / 2 - 1` wraps to 2^32 - 1, and the index arithmetic then wraps modulo 2^32 as well.
  - With one column and at least four layout rows, the wrapped column names the last cell of the previous row (`Board.IndexWrappedColumn`), so the writes land on the board.
  - The driver passes its unnarrowed input, while the fields keep it modulo 65536. Both the allocation size and the index are taken modulo 2^32, so for arguments above 65535 a write may land on the board, elsewhere in the allocation, or past it.
- Legality.IsLegal: the target must lie on the board. Take a target (row, columns) in a row before the last. The source's emptiness test reads cell (row + 1, 0) (`Board.IndexPastRowEnd`), the western rays run over real cells, and the check can return true. The model promises nothing for such targets.
- Legality.ValidPosition: the same in-range target precondition as `Legality.IsLegal`, for the same reason. It also applies to `Legality.CheckDirection` and `Legality.WalkRay`.
- Capture.Flip: the target must lie on the board. For the off-board target above, the source flips along the western rays of the off-board position. The model does not represent this.
- Move.Play: the target must lie on the board. The driver passes unchecked input. For the off-board target above, the source's move writes cell (row + 1, 0) and then flips from the off-board position. The model does not represent this move.
- The imperative, in-place flip loop: the flip is modelled as a composition of pure per-direction functions (`Capture.FlipFrom`), not as a method over an array.
