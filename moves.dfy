/**
 * Move generation: a piece slides like a rook along one of the four
 * orthogonal rays through consecutive empty cells.
 */
module Moves {
  import opened Grid

  /** The cell k steps from p along d is on the board and holds v. */
  predicate RayCell(b: Board, p: Pos, d: Dir, k: int, v: int)
    requires WellFormed(b)
  {
    InBounds(Offset(p, d, k)) && At(b, Offset(p, d, k)) == v
  }

  /** The first step count e >= k at which the ray from p along d leaves the run of v-cells. */
  function RunEnd(b: Board, p: Pos, d: Dir, v: int, k: int): (e: int)
    requires WellFormed(b) && InBounds(p) && 1 <= k
    ensures k <= e
    ensures forall j | k <= j < e :: RayCell(b, p, d, j, v)
    ensures !RayCell(b, p, d, e, v)
    decreases N - k
  {
    if RayCell(b, p, d, k, v) then RunEnd(b, p, d, v, k + 1) else k
  }

  /** Length of the maximal run of v-cells that starts one step from p in direction d. */
  function Run(b: Board, p: Pos, d: Dir, v: int): (n: nat)
    requires WellFormed(b) && InBounds(p)
    ensures RunOf(b, p, d, v, n)
    ensures !RayCell(b, p, d, n + 1, v)
  {
    RunEnd(b, p, d, v, 1) - 1
  }

  /** A run is determined by its cells: if cells 1..n hold v and cell n + 1 does not, n is the run. */
  lemma {:induction false} RunUnique(b: Board, p: Pos, d: Dir, v: int, n: nat)
    requires WellFormed(b) && InBounds(p)
    requires RunOf(b, p, d, v, n)
    requires !RayCell(b, p, d, n + 1, v)
    ensures Run(b, p, d, v) == n
  {
  }

  /** a and b agree on every cell of the ray from p along d. */
  ghost predicate SameRay(a: Board, b: Board, p: Pos, d: Dir)
    requires WellFormed(a) && WellFormed(b)
  {
    forall k, v | 1 <= k :: RayCell(a, p, d, k, v) == RayCell(b, p, d, k, v)
  }

  /** A run depends only on the cells of its own ray. */
  lemma {:induction false} RunFrame(a: Board, b: Board, p: Pos, d: Dir, v: int)
    requires WellFormed(a) && WellFormed(b) && InBounds(p)
    requires SameRay(a, b, p, d)
    ensures Run(a, p, d, v) == Run(b, p, d, v)
  {
    var n := Run(a, p, d, v);
    assert RayCell(a, p, d, n + 1, v) == RayCell(b, p, d, n + 1, v);
    RunUnique(b, p, d, v, n);
  }

  /** The cells 1..n steps from p along d, nearest first. */
  function Steps(p: Pos, d: Dir, n: int): (s: seq<Pos>)
    requires 0 <= n
    ensures |s| == n && forall j | 0 <= j < n :: s[j] == Offset(p, d, j + 1)
  {
    if n == 0 then [] else Steps(p, d, n - 1) + [Offset(p, d, n)]
  }

  /** The destinations along direction d: every empty cell before the first obstruction,
      nearest first. */
  function Ray(b: Board, p: Pos, d: Dir): (s: seq<Pos>)
    requires WellFormed(b) && InBounds(p)
    ensures |s| == Run(b, p, d, EMPTY)
    ensures forall i | 0 <= i < |s| :: s[i] == Offset(p, d, i + 1)
  {
    Steps(p, d, Run(b, p, d, EMPTY))
  }

  /** Cells 1..n steps from p along d are on the board and all hold v. */
  predicate RunOf(b: Board, p: Pos, d: Dir, v: int, n: int)
    requires WellFormed(b)
  {
    forall j | 1 <= j <= n :: RayCell(b, p, d, j, v)
  }

  /** The source's get_piece_moves: nothing unless p holds the mover's piece,
      otherwise the rays up, down, left and right, each nearest cell first. */
  function PieceMoves(b: Board, player: int, p: Pos): seq<Pos>
    requires WellFormed(b) && InBounds(p)
  {
    if At(b, p) != player then [] else RaysUpTo(b, p, |Directions|)
  }

  /** The rays of the first i directions of Directions, one after another. */
  function RaysUpTo(b: Board, p: Pos, i: int): seq<Pos>
    requires WellFormed(b) && InBounds(p) && 0 <= i <= |Directions|
  {
    if i == 0 then [] else RaysUpTo(b, p, i - 1) + Ray(b, p, Directions[i - 1])
  }

  /** For a piece of the side to move, its moves are the ray up, then down, then left, then
      right; for any other cell there are none. */
  lemma {:induction false} PieceMovesRays(b: Board, player: int, p: Pos)
    requires WellFormed(b) && InBounds(p)
    ensures PieceMoves(b, player, p) ==
              if At(b, p) == player then Ray(b, p, Up) + Ray(b, p, Down) + Ray(b, p, Left) + Ray(b, p, Right) else []
  {
    assert RaysUpTo(b, p, 1) == Ray(b, p, Up);
    assert RaysUpTo(b, p, 2) == Ray(b, p, Up) + Ray(b, p, Down);
    assert RaysUpTo(b, p, 3) == Ray(b, p, Up) + Ray(b, p, Down) + Ray(b, p, Left);
    assert RaysUpTo(b, p, 4) == Ray(b, p, Up) + Ray(b, p, Down) + Ray(b, p, Left) + Ray(b, p, Right);
  }

  /** A walk along d that collected the cells of a run of v-cells, and stopped at the first
      cell k past them, collected the whole run. */
  lemma {:induction false} WalkEnd(b: Board, p: Pos, d: Dir, v: int, k: int, cells: seq<Pos>)
    requires WellFormed(b) && InBounds(p) && 1 <= k
    requires RunOf(b, p, d, v, k - 1) && !RayCell(b, p, d, k, v)
    requires cells == Steps(p, d, k - 1)
    ensures cells == Steps(p, d, Run(b, p, d, v))
  {
    RunUnique(b, p, d, v, k - 1);
  }

  /** q lies k >= 1 steps from p along d, and every cell up to and including q is empty. */
  ghost predicate ReachableAlong(b: Board, p: Pos, d: Dir, q: Pos)
    requires WellFormed(b)
  {
    exists k :: 1 <= k && q == Offset(p, d, k) && RunOf(b, p, d, EMPTY, k)
  }

  /** Cells of a ray: exactly the cells reachable along d. */
  lemma {:induction false} RaySpec(b: Board, p: Pos, d: Dir, q: Pos)
    requires WellFormed(b) && InBounds(p)
    ensures q in Ray(b, p, d) <==> ReachableAlong(b, p, d, q)
  {
    if q in Ray(b, p, d) {
      RaySound(b, p, d, q);
    }
    if ReachableAlong(b, p, d, q) {
      RayComplete(b, p, d, q);
    }
  }

  lemma {:induction false} RaySound(b: Board, p: Pos, d: Dir, q: Pos)
    requires WellFormed(b) && InBounds(p)
    requires q in Ray(b, p, d)
    ensures ReachableAlong(b, p, d, q)
  {
    var s := Ray(b, p, d);
    var i :| 0 <= i < |s| && s[i] == q;
    assert q == Offset(p, d, i + 1) && RunOf(b, p, d, EMPTY, i + 1);
  }

  lemma {:induction false} RayComplete(b: Board, p: Pos, d: Dir, q: Pos)
    requires WellFormed(b) && InBounds(p)
    requires ReachableAlong(b, p, d, q)
    ensures q in Ray(b, p, d)
  {
    var s := Ray(b, p, d);
    var n := Run(b, p, d, EMPTY);
    var k :| 1 <= k && q == Offset(p, d, k) && RunOf(b, p, d, EMPTY, k);
    // the cell just past the run is not empty, so it lies beyond q
    var past := RayCell(b, p, d, n + 1, EMPTY);
    assert s[k - 1] == q;
  }

  /** A move generated for p is exactly a slide along one ray over empty cells,
      and only for a piece of the side to move. */
  lemma {:induction false} PieceMovesSpec(b: Board, player: int, p: Pos, q: Pos)
    requires WellFormed(b) && InBounds(p)
    ensures q in PieceMoves(b, player, p) <==>
              At(b, p) == player && exists d :: ReachableAlong(b, p, d, q)
  {
    PieceMovesRays(b, player, p);
    RaySpec(b, p, Up, q);
    RaySpec(b, p, Down, q);
    RaySpec(b, p, Left, q);
    RaySpec(b, p, Right, q);
    var up, down, left, right := Ray(b, p, Up), Ray(b, p, Down), Ray(b, p, Left), Ray(b, p, Right);
    var along := q in up || q in down || q in left || q in right;
    assert along <==> q in up + down + left + right;
    if At(b, p) == player && exists d :: ReachableAlong(b, p, d, q) {
      var d :| ReachableAlong(b, p, d, q);
      assert along by {
        match d
        case Up => assert q in up;
        case Down => assert q in down;
        case Left => assert q in left;
        case Right => assert q in right;
      }
    }
    if q in PieceMoves(b, player, p) {
      if q in up { assert ReachableAlong(b, p, Up, q); }
      else if q in down { assert ReachableAlong(b, p, Down, q); }
      else if q in left { assert ReachableAlong(b, p, Left, q); }
      else { assert ReachableAlong(b, p, Right, q); }
    }
  }

  /** Every destination is an in-bounds empty cell other than p itself. */
  lemma {:induction false} PieceMovesAreEmptyCells(b: Board, player: int, p: Pos, q: Pos)
    requires WellFormed(b) && InBounds(p)
    requires q in PieceMoves(b, player, p)
    ensures InBounds(q) && At(b, q) == EMPTY && q != p && At(b, p) == player
  {
    PieceMovesSpec(b, player, p, q);
    var d :| ReachableAlong(b, p, d, q);
    var k :| 1 <= k && q == Offset(p, d, k) && RunOf(b, p, d, EMPTY, k);
    assert RayCell(b, p, d, k, EMPTY);
  }

  type Move = (Pos, Pos)

  /** The pairs (p, d) for the destinations d in ds, in order. */
  function Pairs(p: Pos, ds: seq<Pos>): (ms: seq<Move>)
    ensures |ms| == |ds|
    ensures forall i | 0 <= i < |ms| :: ms[i] == (p, ds[i])
  {
    seq(|ds|, i requires 0 <= i < |ds| => (p, ds[i]))
  }

  lemma {:induction false} PairsSpec(p: Pos, ds: seq<Pos>, m: Move)
    ensures m in Pairs(p, ds) <==> m.0 == p && m.1 in ds
  {
    var ms := Pairs(p, ds);
    if m in ms {
      var i :| 0 <= i < |ms| && ms[i] == m;
      assert m.1 == ds[i];
    }
    if m.0 == p && m.1 in ds {
      var i :| 0 <= i < |ds| && ds[i] == m.1;
      assert ms[i] == m;
    }
  }

  /** The destinations of every cell: those of PieceMoves on the board, none off it. */
  function Destinations(b: Board, player: int): Pos -> seq<Pos>
    requires WellFormed(b)
  {
    q => if InBounds(q) then PieceMoves(b, player, q) else []
  }

  /** p comes strictly before q when the board is read row by row, left to right. */
  predicate RowMajorBefore(p: Pos, q: Pos) {
    p.row < q.row || (p.row == q.row && p.col < q.col)
  }

  /** p comes before q in reading order, or is q. */
  predicate RowMajorLeq(p: Pos, q: Pos) {
    RowMajorBefore(p, q) || p == q
  }

  /** The moves of every cell that precedes (x, y) in row-major order, cell by cell. */
  function MovesBefore(dests: Pos -> seq<Pos>, x: int, y: int): seq<Move>
    requires 0 <= x <= N && 0 <= y <= N && (x < N || y == 0)
    decreases x, y
  {
    if y > 0 then MovesBefore(dests, x, y - 1) + Pairs(Pos(x, y - 1), dests(Pos(x, y - 1)))
    else if x > 0 then MovesBefore(dests, x - 1, N)
    else []
  }

  /** Pairing the first k + 1 destinations adds the pair for destination k. */
  lemma {:induction false} PairsSnoc(p: Pos, ds: seq<Pos>, k: int)
    requires 0 <= k < |ds|
    ensures Pairs(p, ds[..k + 1]) == Pairs(p, ds[..k]) + [(p, ds[k])]
  {
  }

  lemma {:induction false} PairsAll(p: Pos, ds: seq<Pos>)
    ensures Pairs(p, ds[..|ds|]) == Pairs(p, ds) && Pairs(p, []) == []
  {
    assert ds[..|ds|] == ds;
  }

  /** Reading order moves on by one cell within a row... */
  lemma {:induction false} MovesBeforeNext(b: Board, player: int, x: int, y: int)
    requires WellFormed(b) && 0 <= x < N && 0 <= y < N
    ensures MovesBefore(Destinations(b, player), x, y + 1) ==
              MovesBefore(Destinations(b, player), x, y) + Pairs(Pos(x, y), PieceMoves(b, player, Pos(x, y)))
  {
  }

  /** ...and from the end of one row to the start of the next. */
  lemma {:induction false} MovesBeforeNextRow(dests: Pos -> seq<Pos>, x: int)
    requires 0 <= x < N
    ensures MovesBefore(dests, x + 1, 0) == MovesBefore(dests, x, N)
  {
  }

  /** The source's get_possible_moves. */
  function AllMoves(b: Board, player: int): seq<Move>
    requires WellFormed(b)
  {
    MovesBefore(Destinations(b, player), N, 0)
  }

  /** A move is listed before (x, y) exactly when its source cell precedes (x, y)
      and its destination is one of that cell's. */
  lemma {:induction false} MovesBeforeSpec(dests: Pos -> seq<Pos>, x: int, y: int, m: Move)
    requires 0 <= x <= N && 0 <= y <= N && (x < N || y == 0)
    ensures m in MovesBefore(dests, x, y) <==>
              InBounds(m.0) && RowMajorBefore(m.0, Pos(x, y)) && m.1 in dests(m.0)
    decreases x, y
  {
    if y > 0 {
      MovesBeforeSpec(dests, x, y - 1, m);
      PairsSpec(Pos(x, y - 1), dests(Pos(x, y - 1)), m);
    } else if x > 0 {
      MovesBeforeSpec(dests, x - 1, N, m);
    }
  }

  /** The moves are grouped by source cell, the cells in row-major order. */
  lemma {:induction false} MovesBeforeOrdered(dests: Pos -> seq<Pos>, x: int, y: int)
    requires 0 <= x <= N && 0 <= y <= N && (x < N || y == 0)
    ensures forall i, j | 0 <= i < j < |MovesBefore(dests, x, y)| ::
              RowMajorLeq(MovesBefore(dests, x, y)[i].0, MovesBefore(dests, x, y)[j].0)
    decreases x, y
  {
    if y > 0 {
      MovesBeforeOrdered(dests, x, y - 1);
      var pre := MovesBefore(dests, x, y - 1);
      var from := Pairs(Pos(x, y - 1), dests(Pos(x, y - 1)));
      var all := MovesBefore(dests, x, y);
      assert all == pre + from;
      forall i, j | 0 <= i < j < |all|
        ensures RowMajorLeq(all[i].0, all[j].0)
      {
        if j >= |pre| {
          assert all[j] == from[j - |pre|];
          if i >= |pre| {
            assert all[i] == from[i - |pre|];
          } else {
            assert all[i] == pre[i];
            MovesBeforeSpec(dests, x, y - 1, pre[i]);
          }
        } else {
          assert all[i] == pre[i] && all[j] == pre[j];
        }
      }
    } else if x > 0 {
      MovesBeforeOrdered(dests, x - 1, N);
    }
  }

  /** (s, d) is a generated move exactly when s holds the side to move and d is a
      destination of s; the moves are grouped by source cell in row-major order. */
  lemma {:induction false} AllMovesSpec(b: Board, player: int, m: Move)
    requires WellFormed(b)
    ensures m in AllMoves(b, player) <==>
              InBounds(m.0) && At(b, m.0) == player && m.1 in PieceMoves(b, player, m.0)
    ensures forall i, j | 0 <= i < j < |AllMoves(b, player)| ::
              RowMajorLeq(AllMoves(b, player)[i].0, AllMoves(b, player)[j].0)
  {
    MovesBeforeSpec(Destinations(b, player), N, 0, m);
    MovesBeforeOrdered(Destinations(b, player), N, 0);
  }
}
