# Hasami Shogi game model

A model of the game logic of a Hasami Shogi (はさみ将棋) web and console game: the class
`HasamiShogi` in `app/models.py`.  Two sides, `PLAYER` (1) and `ENEMY` (-1), start with a full
row each on a 9x9 board (`EMPTY` is 0): ENEMY on the top row, PLAYER on the bottom row.  A
piece slides like a rook over empty cells.  After a move, two capture rules run:

- the **sandwich** rule: in each of the four directions from the square reached, a run of
  opponent pieces closed by a piece of the mover is removed;
- the **encirclement** rule: every group of opponent pieces that touches the edge of the
  board, and none of whose members has a neighbour outside the group other than a piece of
  the mover, is removed.

The game is over when a side is down to four pieces or fewer.

Modules, one file each:

- `Grid` (`grid.dfy`): board cells, the initial position, neighbours, edges and piece counts.
- `Moves` (`moves.dfy`): the moves of a piece and of a side.
- `Sandwich` (`sandwich.dfy`): the sandwich rule.
- `Encircle` (`encircle.dfy`): groups, enclosure and the encirclement rule.
- `Rules` (`rules.dfy`): a whole move and its effect on the board.
- `Outcome` (`outcome.dfy`): the end-of-game test.
- `Notation` (`notation.dfy`): the move notation read by `parse_move` and written by the console loop.
- `RawIndex` (`rawindex.dfy`): `take_action` on unchecked coordinates, with Python's list indexing.
- `Game` (`game.dfy`): the class itself.  The board and the side to move are fields that its
  methods update.  The flood fill uses a `visited` matrix, an `array2<bool>` shared between
  the group search and the fill, as in the source.  Every method is proved against the
  functions of the modules above.

The board is a `seq<seq<int>>` that methods reassign cell by cell (`Put`, `Clear`).

## Model

| member | source | states |
|---|---|---|
| Game.HasamiShogi.constructor | app/models.py:22-32 | A new game holds the initial position, with PLAYER to move. |
| Grid.InitialBoardSpec | app/models.py:27-32 | In the initial position, row 0 is all ENEMY, the last row is all PLAYER, and every other cell is empty. |
| Grid.InitialCounts | app/models.py:27-32 | The initial position holds nine pieces of each side. |
| Game.HasamiShogi.ToDict | app/models.py:34-40 | The snapshot carries the current board and side to move, and they are always a well-formed board and a side. |
| Game.HasamiShogi.FromDict | app/models.py:41-55 | The game built from a snapshot holds exactly that board and side: `ToDict` gives the snapshot back. |
| Game.HasamiShogi.GetPossibleMoves | app/models.py:57-71 | The result is exactly `AllMoves`: every move of every piece of the side to move, in row-major order of the piece moved. |
| Game.HasamiShogi.AppendCellMoves | app/models.py:67-70 | One cell's moves are appended, each paired with its source cell, after those already collected. |
| Game.HasamiShogi.AppendMoves | app/models.py:69-70 | The piece's destinations are appended in their order, each paired with the piece's cell, after the moves already collected. |
| Moves.AllMovesSpec | app/models.py:57-71 | A pair is listed iff its source holds the mover and its target is one of that piece's destinations. Sources are never out of row-major order. |
| Moves.MovesBeforeOrdered | app/models.py:64-71 | The cell-by-cell collection keeps the sources in row-major order. |
| Game.HasamiShogi.GetPieceMoves | app/models.py:73-96 | The result equals `PieceMoves`. It is empty unless the cell holds the side to move; otherwise it is the up, down, left and right rays in that order. |
| Game.HasamiShogi.CastRay | app/models.py:88-95 | One direction's walk collects exactly the ray: the empty cells before the first occupied or off-board cell, nearest first. |
| Game.HasamiShogi.WalkRun | app/models.py:88-95 | A walk stops at the first cell not holding the given value and has collected every cell before it. |
| Moves.RaySpec | app/models.py:88-95 | A cell is on the ray iff it lies along the direction and it and every cell before it are empty. |
| Moves.PieceMovesRays | app/models.py:84-96 | The moves of a piece of the side to move are its four rays concatenated, up, down, left, right. Any other cell has none. |
| Moves.PieceMovesSpec | app/models.py:84-96 | A target is a move iff the cell holds the mover and the target is reachable along some direction over empty cells. |
| Moves.PieceMovesAreEmptyCells | app/models.py:84-96 | Every destination is an empty board cell other than the source, and exists only for a piece of the mover. |
| Game.HasamiShogi.TakeAction | app/models.py:98-119 | The move is made iff the source is on the board, holds the side to move and the target is among its moves. A refused move changes nothing. An accepted one leaves the board `AfterMove` gives and passes the turn. |
| Game.HasamiShogi.Play | app/models.py:115-118 | The accepted branch: slide, sandwich at the target, encirclement, turn flips; the board is `AfterMove`. |
| Game.HasamiShogi.Slide | app/models.py:115 | The target receives the mover's piece and then the source is emptied; nothing else changes. |
| Rules.MoveEffect | app/models.py:98-119 | After a legal move the source is empty and the target holds the mover. Every other cell keeps its value or goes from opponent to empty. The mover's count is unchanged and the opponent's does not grow. |
| Rules.SlideEffect | app/models.py:115 | The slide alone moves one piece: both counts are unchanged, and only the source and target change. |
| Rules.SandwichOpponents | app/models.py:116 | The sandwich rule only removes opponent pieces. |
| Rules.SurroundOpponents | app/models.py:117 | The encirclement rule only removes opponent pieces. |
| Game.HasamiShogi.CheckSandwiched | app/models.py:121-140 | The board afterwards is the sandwich rule applied around the square, one direction after the other. |
| Game.HasamiShogi.CaptureAlong | app/models.py:126-140 | One direction clears exactly that direction's captures, computed on the board before it. |
| Game.HasamiShogi.ScanAlong | app/models.py:128-138 | The collected cells are the run of opponent pieces next to the square; the run counts as flanked iff the cell past it holds the mover. |
| Game.HasamiShogi.ClearCells | app/models.py:134-135 | Exactly the listed cells become empty, and the side to move is kept. |
| Sandwich.SandwichOnRay | app/models.py:121-140 | A cell k steps away in one direction becomes empty iff it lies in the opponent run next to the square and that run is flanked; otherwise it keeps its value. |
| Sandwich.SandwichOffRays | app/models.py:121-140 | Cells on no ray from the square, including the square itself, are unchanged. |
| Sandwich.NoFalseSandwich | app/models.py:128-138 | A run that ends at the edge or at an empty cell is not removed: the whole direction is unchanged. |
| Sandwich.SandwichAtOnce | app/models.py:126-140 | The four directions do not interfere: clearing one after another equals clearing the union of their captures computed on the original board. |
| Sandwich.CapturesAreOpponents | app/models.py:131-135 | Every captured cell is on the board and holds an opponent piece. |
| Game.HasamiShogi.CheckSurround | app/models.py:142-148 | The board afterwards is the encirclement rule applied to the board before: every enclosed edge group of the opponent removed, and nothing else. |
| Game.HasamiShogi.ClearIfEnclosed | app/models.py:145-148 | A group is cleared iff it is enclosed; the board is the original one with the groups enclosed so far removed. |
| Encircle.EnclosedOnCleared | app/models.py:145-148 | Removing earlier enclosed groups does not change whether a later group is enclosed. So the source's check against the partly cleared board agrees with a check against the original. |
| Encircle.SurroundSpec | app/models.py:142-148 | A cell is emptied by the rule iff it belongs to an enclosed edge group of the opponent. The only change is opponent to empty. |
| Encircle.EdgeGroupCleared | app/models.py:142-148 | Every cell of an edge group ends up empty if the group is enclosed and keeps the opponent's piece if it is not. |
| Encircle.InteriorGroupKept | app/models.py:164-173 | A group that does not touch the edge is never removed, enclosed or not. |
| Encircle.EdgeGroupsCaptureSet | app/models.py:142-173 | The enclosed groups among those the edge search finds cover exactly the cells the encirclement rule removes. |
| Game.HasamiShogi.GetAdjacentPositions | app/models.py:154-162 | The result is the on-board orthogonal neighbours in the order up, down, left, right. |
| Grid.AdjacentPositionsSpec | app/models.py:154-162 | A cell is listed iff it is on the board and orthogonally adjacent. |
| Grid.AdjacentPositionsSteps | app/models.py:154-162 | The list is the step up, down, left, right, each kept only when on the board. |
| Grid.IsOnEdge | app/models.py:150-152 | For a board cell, being on the edge means some single step from it leaves the board. |
| Grid.EdgeIffFewerNeighbours | app/models.py:150-152 | A cell is on the edge iff it has fewer than four neighbours on the board. |
| Game.HasamiShogi.FindGroupsOnEdges | app/models.py:164-173 | The result lists the opponent's groups touching the edge. Each is a maximal connected group started at an edge cell; no two share a cell; every edge cell holding the opponent is in one. |
| Game.HasamiShogi.ScanRowForGroups | app/models.py:168-172 | After a row of the scan, every edge opponent cell up to the end of that row is in a group found so far. |
| Game.HasamiShogi.ShouldStartNewGroup | app/models.py:175-179 | With the visited flags standing for the groups found so far, a group starts exactly at an edge cell that holds an opponent piece and lies in none of them. |
| Game.HasamiShogi.StartGroupAt | app/models.py:170-172 | An unvisited edge cell holding the opponent starts a new group. Afterwards the cell is covered, no earlier cell is lost, and the groups stay rooted at edge cells and closed. |
| Game.HasamiShogi.ExpandGroup | app/models.py:181-195 | The fill from a cell lists a maximal connected group of opponent pieces with that cell first. It contains no cell visited before, and marks exactly its own cells as visited. |
| Game.HasamiShogi.ExpandRound | app/models.py:186-194 | One turn of the fill takes the front of the queue into the group and queues its fresh neighbours, keeping the fill invariant and making progress. |
| Game.HasamiShogi.EnqueueNeighbours | app/models.py:189-194 | Afterwards every opponent neighbour of the cell is in the group, the queue or an earlier group. |
| Game.HasamiShogi.Visit | app/models.py:193 | Marking a cell adds exactly that cell to the set the visited flags stand for. |
| Game.HasamiShogi.EnqueueIfFresh | app/models.py:190-194 | A neighbour is appended to the queue or left out. If it holds the opponent, it is afterwards in the group, the queue or an earlier group, and the fill invariants still hold. |
| Encircle.SameGroup | app/models.py:181-195 | Two maximal groups that share a cell have the same cells: a group does not depend on where the fill starts. |
| Game.HasamiShogi.IsGroupEnclosed | app/models.py:197-209 | The answer equals `IsGroupEnclosed` on the current board. |
| Game.HasamiShogi.MemberEnclosedScan | app/models.py:199-208 | One member is closed in iff none of its neighbours is empty or an opponent piece outside the group. |
| Encircle.EnclosedSpec | app/models.py:197-209 | A group is enclosed iff no neighbour of any member is empty or holds an opponent piece outside the group. |
| Encircle.EnclosedIffNoLiberty | app/models.py:197-209 | For a maximal group, the "opponent outside the group" test never fires: it is enclosed iff no member has an empty neighbour. |
| Encircle.EnclosedBySides | app/models.py:197-209 | Every neighbour of an enclosed group outside it holds the mover's piece. |
| Outcome.IsFinished | app/models.py:211-222 | The game is reported over exactly when a winner is named. |
| Outcome.IsFinishedSpec | app/models.py:211-226 | ENEMY wins iff PLAYER has four pieces or fewer; this is checked first. Otherwise PLAYER wins iff ENEMY has four or fewer. Otherwise the game goes on. |
| Outcome.InitialNotFinished | app/models.py:211-222 | A new game is not over. |
| Grid.CountPut | app/models.py:224-226 | Writing one cell changes a count by at most the cell's old and new values. |
| Grid.CountUsed | app/models.py:224-226 | A side's count on a board of 9-cell rows is at most the number of cells. How counts move under writes is stated by CountPut and CountClear. |
| Grid.CountClear | app/models.py:224-226 | Emptying cells never raises a side's count, and leaves it unchanged when none of the cells held that side. |
| Notation.ColumnOf | app/models.py:240 | Exactly the letters A to I map to a column, A to 0 and onward. |
| Notation.ParseFormatMove | app/models.py:228-246 | A move written as the console loop writes it, column letter then row plus one, reads back as the same move. This holds for every column and every row from -1 up. |
| Notation.ParseMoveNeedsOneHyphen | app/models.py:239 | Text with no hyphen, or more than one, is refused. |
| Notation.ParseSquare | app/models.py:241-242 | A square is read iff it is a letter A to I followed by a non-empty run of digits; its column is the letter's offset from A and its row the digits' value minus one. |
| Notation.ParseMove | app/models.py:228-246 | A text is accepted iff, once upper-cased, it is two such squares joined by one hyphen: an empty part, a letter outside A..I, or a row that is empty or not all digits gives None. Every accepted square has a board column and a row of at least -1, with no upper bound. |
| Notation.FormatParseMove | app/models.py:228-246 | The reverse round trip: upper-case text that parses, with rows written without leading zeros, is exactly the console loop's rendering (app/models.py:287-290) of the move it parses to. |
| Notation.DecimalOfDigits | app/models.py:241-242 | `int()` followed by `str()` gives back a run of digits that has no leading zero. |
| Notation.ExampleLowerCase | app/models.py:239-243 | "e9-e6" reads as a move from (8, 4) to (5, 4): letters of either case are accepted. |
| Notation.ExampleRowZero | app/models.py:239-243 | "A0-A1" is accepted and gives row -1. |
| Notation.ExampleBadColumn | app/models.py:239-246 | A column letter past I is refused. |
| Notation.ExampleBadRow | app/models.py:239-246 | A row that is not a number is refused. |
| Notation.ExampleEmptySquare | app/models.py:239-246 | An empty square is refused. |
| RawIndex.RawRay | app/models.py:88-95 | One walk of get_piece_moves from a start that may be off the board: it collects the run of empty cells along the direction, each at its step from the start. |
| RawIndex.RawPieceMoves | app/models.py:73-96 | get_piece_moves as written, with the piece looked up through Python indexing; from an on-board start it is exactly `PieceMoves`. |
| RawIndex.RawMovesOnBoard | app/models.py:88-95 | Whatever the start, every destination collected is an empty cell of the board. |
| RawIndex.RawTakeAction | app/models.py:109-119 | With raw coordinates, a from square outside -9..8 raises. An accepted move targets an empty board cell, and the cell that Python indexing reads holds the mover. |
| RawIndex.RawRayOnBoard | app/models.py:88-95 | From an on-board start, the walk as written is the model's ray. |
| RawIndex.RawOnBoard | app/models.py:109-119 | On board squares, take_action as written makes exactly the legal moves with the `AfterMove` board, and refuses the rest. |
| RawIndex.RowMinusOneJumps | app/models.py:111-115 | From row -1 (text "A0" to "I0"), a move to row 0 is accepted whenever that cell is empty and the last row of the column holds the mover. The piece on the last row lands on the first. |
| RawIndex.RowNineRaises | app/models.py:111 | From row 9 (text "A10" to "I10"), take_action raises IndexError. |

## Left out

- `show_board`, `main`'s input loop, the random choice of the opponent's move, the console
  output and the `logger` calls: these are I/O.  `main`'s formatting of a move (app/models.py:287-290) is `Notation.FormatMove`.
- Notation.ParseMove: requires text made only of ASCII letters, digits and hyphens.  Python's
  `int()` also accepts surrounding whitespace, signs, underscores and non-ASCII digits, and
  `str.upper()` maps non-ASCII letters.  These are not modelled.
- Game.HasamiShogi.FromDict: requires a 9x9 board of EMPTY, PLAYER and ENEMY and a side to
  move.  `from_dict` stores whatever it is given.
- Game.HasamiShogi.ToDict: the source's dictionary shares the board list with the game, so
  later moves show through it.  The model's board is a value, and this aliasing is not captured.
- Game.HasamiShogi.FromDict: `from_dict` likewise takes over the caller's board list
  (app/models.py:53), so a move made on the game updates that list in the caller's dictionary
  in place.  The model copies the board as a value, and this aliasing is not captured.
- Game.HasamiShogi.TakeAction: follows the corrected behaviour (see Findings).  The
  as-written behaviour on off-board coordinates is `RawIndex.RawTakeAction`.  The
  `map(int, ...)` conversion of the coordinates is not modelled: coordinates are integers.
- Game.HasamiShogi.GetPieceMoves: requires an on-board cell, as `get_possible_moves`
  supplies.  The call from `take_action` with raw coordinates is `RawIndex.RawPieceMoves`.
- Game.HasamiShogi.ExpandGroup: states which cells the fill lists and that the start comes
  first.  It does not state the breadth-first order of the rest, on which no caller depends.
  `FindGroupsOnEdges` likewise does not pin down the order of the groups.
- The notation is described as naming squares A1 to I9, but `parse_move` never checks the
  row.  The model follows the code: "A0" gives row -1 and "A10" row 9.

## Findings

| source | as written | input that shows it | evidently intended | confidence | as-written member | corrected member |
|---|---|---|---|---|---|---|
| app/models.py:111-115 | `take_action` indexes the board with the unchecked coordinates from `parse_move`. Row -1 reads the last row through Python's negative indexing, and the piece there is moved. Row 9 raises an IndexError that `main` does not catch. | "A0-A1" when A1 is empty and A9 holds PLAYER's piece: that piece jumps from A9 to A1 whatever stands between. "A10-A1" raises IndexError. | A square off the board is refused like any other illegal move. | high; not executed | RawIndex.RowMinusOneJumps | Game.HasamiShogi.TakeAction |
