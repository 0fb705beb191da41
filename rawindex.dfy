/**
 * take_action on the coordinates the console loop hands it.  parse_move does not
 * range-check rows, so "A0" reads as row -1 and "A10" as row 9.  The board is a
 * Python list of lists: an index from -9 to -1 counts from the end of the list, and any
 * other index outside 0..8 raises IndexError.  The refusal path of take_action does not
 * check bounds first, so row -1 reaches the last row, and row 9 raises.
 */
module RawIndex {
  import opened Grid
  import opened Moves
  import opened Rules
  import opened Wrappers
  import Sandwich

  /** Python indexing into a list of N items: the position reached, or None for IndexError. */
  function PyIndex(i: int): (j: Option<int>)
    ensures j.Some? <==> -N <= i < N
    ensures j.Some? ==> 0 <= j.value < N && j.value % N == i % N
  {
    if 0 <= i < N then Some(i) else if -N <= i < 0 then Some(i + N) else None
  }

  /** The cell that board[p.row][p.col] names, or None when the indexing raises. */
  function Cell(p: Pos): (c: Option<Pos>)
    ensures c.Some? ==> InBounds(c.value)
    ensures InBounds(p) ==> c == Some(p)
  {
    var r, k := PyIndex(p.row), PyIndex(p.col);
    if r.Some? && k.Some? then Some(Pos(r.value, k.value)) else None
  }

  /** One direction of get_piece_moves from a start that may lie off the board.  The walk
      checks the bounds before each step, so nothing is collected unless the first step lands
      on an empty cell, and from that cell on it is the walk from an on-board start.  What it
      collects is the run of empty cells along d. */
  function RawRay(b: Board, p: Pos, d: Dir): (s: seq<Pos>)
    requires WellFormed(b)
    ensures RunOf(b, p, d, EMPTY, |s|)
    ensures forall i | 0 <= i < |s| :: s[i] == Offset(p, d, i + 1)
  {
    var q := Offset(p, d, 1);
    if InBounds(q) && At(b, q) == EMPTY then
      ShiftRun(b, p, d);
      [q] + Ray(b, q, d)
    else []
  }

  /** The run from p along d, when its first cell is on the board and empty, is that cell
      followed by the run from it. */
  lemma {:induction false} ShiftRun(b: Board, p: Pos, d: Dir)
    requires WellFormed(b) && InBounds(Offset(p, d, 1)) && At(b, Offset(p, d, 1)) == EMPTY
    ensures var m := Run(b, Offset(p, d, 1), d, EMPTY);
      RunOf(b, p, d, EMPTY, m + 1) && !RayCell(b, p, d, m + 2, EMPTY)
  {
    var q := Offset(p, d, 1);
    var m := Run(b, q, d, EMPTY);
    forall j | 1 <= j <= m + 1
      ensures RayCell(b, p, d, j, EMPTY)
    {
      if j > 1 {
        assert RayCell(b, q, d, j - 1, EMPTY);
        assert Offset(q, d, j - 1) == Offset(p, d, j);
      }
    }
    assert !RayCell(b, q, d, m + 1, EMPTY);
    assert Offset(q, d, m + 1) == Offset(p, d, m + 2);
  }

  /** get_piece_moves(y, x) as written, for any (y, x) whose indexing does not raise: the
      piece is looked up through Python indexing, the walks start from (y, x) itself. */
  function RawPieceMoves(b: Board, player: int, p: Pos): (s: seq<Pos>)
    requires WellFormed(b) && Cell(p).Some?
    ensures InBounds(p) ==> s == PieceMoves(b, player, p)
  {
    RaysOnBoard(b, player, p);
    if At(b, Cell(p).value) != player then []
    else RawRay(b, p, Up) + RawRay(b, p, Down) + RawRay(b, p, Left) + RawRay(b, p, Right)
  }

  /** From an on-board start the four walks as written are the moves the rest of the model
      uses. */
  lemma {:induction false} RaysOnBoard(b: Board, player: int, p: Pos)
    requires WellFormed(b)
    ensures InBounds(p) ==>
              PieceMoves(b, player, p) ==
              (if At(b, p) == player then RawRay(b, p, Up) + RawRay(b, p, Down) + RawRay(b, p, Left) + RawRay(b, p, Right) else [])
  {
    if InBounds(p) {
      RawRayOnBoard(b, p, Up);
      RawRayOnBoard(b, p, Down);
      RawRayOnBoard(b, p, Left);
      RawRayOnBoard(b, p, Right);
      PieceMovesRays(b, player, p);
    }
  }

  /** Whatever the start, every destination the walks collect is an empty cell of the board. */
  lemma {:induction false} RawMovesOnBoard(b: Board, player: int, p: Pos, q: Pos)
    requires WellFormed(b) && Cell(p).Some? && q in RawPieceMoves(b, player, p)
    ensures InBounds(q) && At(b, q) == EMPTY
  {
    var up, down, left, right := RawRay(b, p, Up), RawRay(b, p, Down), RawRay(b, p, Left), RawRay(b, p, Right);
    assert q in up + down + left + right;
    if q in up { RawRayCell(b, p, Up, q); }
    else if q in down { RawRayCell(b, p, Down, q); }
    else if q in left { RawRayCell(b, p, Left, q); }
    else { RawRayCell(b, p, Right, q); }
  }

  lemma {:induction false} RawRayCell(b: Board, p: Pos, d: Dir, q: Pos)
    requires WellFormed(b) && q in RawRay(b, p, d)
    ensures InBounds(q) && At(b, q) == EMPTY
  {
    var s := RawRay(b, p, d);
    var i :| 0 <= i < |s| && s[i] == q;
    assert RayCell(b, p, d, i + 1, EMPTY);
  }

  /** What take_action does with raw coordinates. */
  datatype RawResult = Raised | Refused | Moved(board: Board)

  /** take_action as written: the piece is looked up through Python indexing (IndexError
      when that fails), the move is refused unless the cell holds the mover and to is among
      the destinations of the walk from the raw coordinates, and otherwise the cell that was
      read is the one that is emptied. */
  ghost function RawTakeAction(b: Board, player: int, from: Pos, to: Pos): (r: RawResult)
    requires WellFormed(b) && IsSide(player)
    ensures r.Raised? <==> !(-N <= from.row < N && -N <= from.col < N)
    ensures r.Moved? ==> InBounds(to) && At(b, to) == EMPTY && At(b, Cell(from).value) == player
  {
    var f := Cell(from);
    if f.None? then Raised
    else if At(b, f.value) != player || to !in RawPieceMoves(b, player, from) then Refused
    else
      RawMovesOnBoard(b, player, from, to);
      Moved(AfterMove(b, player, f.value, to))
  }

  /** From an on-board start the walk is the one the rest of the model uses. */
  lemma {:induction false} RawRayOnBoard(b: Board, p: Pos, d: Dir)
    requires WellFormed(b) && InBounds(p)
    ensures RawRay(b, p, d) == Ray(b, p, d)
  {
    var q := Offset(p, d, 1);
    if InBounds(q) && At(b, q) == EMPTY {
      ShiftRun(b, p, d);
      RunUnique(b, p, d, EMPTY, Run(b, q, d, EMPTY) + 1);
    } else {
      assert !RayCell(b, p, d, 1, EMPTY);
      RunUnique(b, p, d, EMPTY, 0);
    }
  }

  /** On board squares, take_action as written and the model's TakeAction agree: the move is
      made exactly when it is legal, and otherwise refused. */
  lemma {:induction false} RawOnBoard(b: Board, player: int, from: Pos, to: Pos)
    requires WellFormed(b) && IsSide(player) && InBounds(from)
    ensures var r := RawTakeAction(b, player, from, to);
      (r.Moved? <==> At(b, from) == player && to in PieceMoves(b, player, from)) &&
      (r.Moved? ==> r.board == AfterMove(b, player, from, to)) &&
      (!r.Moved? ==> r == Refused)
  {
    RawRayOnBoard(b, from, Up);
    RawRayOnBoard(b, from, Down);
    RawRayOnBoard(b, from, Left);
    RawRayOnBoard(b, from, Right);
    PieceMovesRays(b, player, from);
  }

  /** Row -1, which parse_move produces for "A0" to "I0", is accepted as the last row: when
      the first-row cell of a column is empty and the last-row cell holds the mover, the move
      from row -1 to row 0 is made, and that piece lands on the first row. */
  lemma {:induction false} RowMinusOneJumps(b: Board, player: int, c: int)
    requires WellFormed(b) && IsSide(player) && 0 <= c < N
    requires At(b, Pos(N - 1, c)) == player && At(b, Pos(0, c)) == EMPTY
    ensures !InBounds(Pos(-1, c))
    ensures var r := RawTakeAction(b, player, Pos(-1, c), Pos(0, c));
      r == Moved(AfterMove(b, player, Pos(N - 1, c), Pos(0, c))) &&
      At(r.board, Pos(0, c)) == player && At(r.board, Pos(N - 1, c)) == EMPTY
  {
    var from, to := Pos(N - 1, c), Pos(0, c);
    assert RawRay(b, Pos(-1, c), Down)[0] == to;
    var m := Put(Put(b, to, player), from, EMPTY);
    SlideEffect(b, player, from, to);
    var s := Sandwich.Sandwich(m, player, to);
    SandwichOpponents(m, player, to);
    SurroundOpponents(s, player);
  }

  /** Row 9, which parse_move produces for "A10" to "I10", makes take_action raise
      IndexError, whatever the target. */
  lemma RowNineRaises(b: Board, player: int, c: int, to: Pos)
    requires WellFormed(b) && IsSide(player) && 0 <= c < N
    ensures RawTakeAction(b, player, Pos(N, c), to) == Raised
  {
  }
}
