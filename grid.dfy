/**
 * The Hasami Shogi board: a fixed 9x9 grid of small integers.
 * EMPTY = 0, PLAYER = 1 (the side that moves first, home row 8) and
 * ENEMY = -1 (home row 0).  Coordinates are (row, column), 0-based.
 */
module Grid {

  const N: int := 9
  const EMPTY: int := 0
  const PLAYER: int := 1
  const ENEMY: int := -1

  /** A board is a list of rows; row r, column c is b[r][c]. */
  type Board = seq<seq<int>>

  datatype Pos = Pos(row: int, col: int)

  /** The four orthogonal directions, in the order the engine always visits them. */
  datatype Dir = Up | Down | Left | Right

  const Directions: seq<Dir> := [Up, Down, Left, Right]

  predicate IsCell(v: int) { v == EMPTY || v == PLAYER || v == ENEMY }

  predicate IsSide(v: int) { v == PLAYER || v == ENEMY }

  predicate InBounds(p: Pos) { 0 <= p.row < N && 0 <= p.col < N }

  /** A 9x9 board whose cells hold EMPTY, PLAYER or ENEMY. */
  predicate WellFormed(b: Board) {
    |b| == N &&
    (forall r | 0 <= r < N :: |b[r]| == N) &&
    (forall r, c | 0 <= r < N && 0 <= c < N :: IsCell(b[r][c]))
  }

  function At(b: Board, p: Pos): (v: int)
    requires WellFormed(b) && InBounds(p)
    ensures IsCell(v)
  {
    b[p.row][p.col]
  }

  /** The board with one cell overwritten; every other cell keeps its value. */
  function Put(b: Board, p: Pos, v: int): (r: Board)
    requires WellFormed(b) && InBounds(p) && IsCell(v)
    ensures WellFormed(r) && At(r, p) == v
    ensures forall q | InBounds(q) && q != p :: At(r, q) == At(b, q)
  {
    b[p.row := b[p.row][p.col := v]]
  }

  /** The board with every cell of s emptied; every other cell keeps its value. */
  function Clear(b: Board, s: set<Pos>): (r: Board)
    requires WellFormed(b)
    ensures WellFormed(r)
    ensures forall q | InBounds(q) :: At(r, q) == if q in s then EMPTY else At(b, q)
  {
    ClearRows(b, s, N)
  }

  function ClearRow(b: Board, s: set<Pos>, r: int, c: int): (row: seq<int>)
    requires WellFormed(b) && 0 <= r < N && 0 <= c <= N
    ensures |row| == c && forall j | 0 <= j < c :: row[j] == if Pos(r, j) in s then EMPTY else b[r][j]
  {
    if c == 0 then [] else ClearRow(b, s, r, c - 1) + [if Pos(r, c - 1) in s then EMPTY else b[r][c - 1]]
  }

  function ClearRows(b: Board, s: set<Pos>, n: int): (rows: Board)
    requires WellFormed(b) && 0 <= n <= N
    ensures |rows| == n && forall i | 0 <= i < n :: rows[i] == ClearRow(b, s, i, N)
  {
    if n == 0 then [] else ClearRows(b, s, n - 1) + [ClearRow(b, s, n - 1, N)]
  }

  /** Two boards that agree on every cell are the same board. */
  lemma BoardExt(a: Board, b: Board)
    requires WellFormed(a) && WellFormed(b)
    requires forall q | InBounds(q) :: At(a, q) == At(b, q)
    ensures a == b
  {
    forall i | 0 <= i < N
      ensures a[i] == b[i]
    {
      forall j | 0 <= j < N
        ensures a[i][j] == b[i][j]
      {
        assert At(a, Pos(i, j)) == At(b, Pos(i, j));
      }
    }
  }

  /** Clearing a set and then one more cell is clearing the larger set. */
  lemma ClearThenPut(b: Board, s: set<Pos>, p: Pos)
    requires WellFormed(b) && InBounds(p)
    ensures Put(Clear(b, s), p, EMPTY) == Clear(b, s + {p})
  {
    BoardExt(Put(Clear(b, s), p, EMPTY), Clear(b, s + {p}));
  }

  /** The cells listed in g. */
  function Members(g: seq<Pos>): (m: set<Pos>)
    ensures forall q :: q in m <==> q in g
  {
    set k | 0 <= k < |g| :: g[k]
  }

  lemma {:induction false} MembersSnoc(g: seq<Pos>, k: int)
    requires 0 <= k < |g|
    ensures Members(g[..k + 1]) == Members(g[..k]) + {g[k]}
  {
    assert g[..k + 1] == g[..k] + [g[k]];
  }

  lemma MembersAll(g: seq<Pos>)
    ensures Members(g[..|g|]) == Members(g)
  {
    assert g[..|g|] == g;
  }

  /** Clearing one set and then another is clearing both at once. */
  lemma ClearClear(b: Board, s: set<Pos>, t: set<Pos>)
    requires WellFormed(b)
    ensures Clear(Clear(b, s), t) == Clear(b, s + t)
  {
    BoardExt(Clear(Clear(b, s), t), Clear(b, s + t));
  }

  /** Clearing nothing changes nothing. */
  lemma ClearNothing(b: Board)
    requires WellFormed(b)
    ensures Clear(b, {}) == b
  {
    BoardExt(Clear(b, {}), b);
  }

  /** Every cell of the board. */
  function AllCells(): (cells: set<Pos>)
    ensures forall q :: q in cells <==> InBounds(q)
  {
    var s := set r, c | 0 <= r < N && 0 <= c < N :: Pos(r, c);
    assert forall q | InBounds(q) :: q == Pos(q.row, q.col) && q in s;
    s
  }

  /** The cell k steps from p in direction d. */
  function Offset(p: Pos, d: Dir, k: int): Pos {
    match d
    case Up => Pos(p.row - k, p.col)
    case Down => Pos(p.row + k, p.col)
    case Left => Pos(p.row, p.col - k)
    case Right => Pos(p.row, p.col + k)
  }

  /** How many cells lie between p and the board edge in direction d. */
  function Room(p: Pos, d: Dir): (n: int)
    requires InBounds(p)
    ensures 0 <= n < N
  {
    match d
    case Up => p.row
    case Down => N - 1 - p.row
    case Left => p.col
    case Right => N - 1 - p.col
  }

  /** Walking k >= 0 steps from an in-bounds cell stays on the board exactly while k <= Room. */
  lemma RoomSpec(p: Pos, d: Dir, k: int)
    requires InBounds(p) && 0 <= k
    ensures InBounds(Offset(p, d, k)) <==> k <= Room(p, d)
  {
  }

  /** One more step from the cell k steps out is the cell k + 1 steps out. */
  lemma OffsetStep(p: Pos, d: Dir, k: int)
    ensures Offset(Offset(p, d, k), d, 1) == Offset(p, d, k + 1)
  {
  }

  /** No walk from an in-bounds cell stays on the board for N steps. */
  lemma OffsetBound(p: Pos, d: Dir, k: int)
    requires InBounds(p) && 0 <= k && InBounds(Offset(p, d, k))
    ensures k < N
  {
    RoomSpec(p, d, k);
  }

  /** Orthogonal neighbours: one step apart along a row or a column. */
  predicate Adjacent(p: Pos, q: Pos) {
    (p.row == q.row && (p.col == q.col + 1 || p.col + 1 == q.col)) ||
    (p.col == q.col && (p.row == q.row + 1 || p.row + 1 == q.row))
  }

  /** The source's _is_on_edge: a cell of the outer ring, one from which some single step
      leaves the board. */
  predicate IsOnEdge(p: Pos)
    ensures InBounds(p) ==> (IsOnEdge(p) <==> exists d: Dir :: !InBounds(Offset(p, d, 1)))
  {
    var e := p.row == 0 || p.row == N - 1 || p.col == 0 || p.col == N - 1;
    assert e ==> !InBounds(Offset(p, Up, 1)) || !InBounds(Offset(p, Down, 1)) ||
                 !InBounds(Offset(p, Left, 1)) || !InBounds(Offset(p, Right, 1));
    e
  }

  /** The on-board cells one step from p along the first i directions of Directions, in that
      order. */
  function NeighboursUpTo(p: Pos, i: int): (adj: seq<Pos>)
    requires 0 <= i <= |Directions|
    ensures |adj| <= i && forall t | 0 <= t < |adj| :: InBounds(adj[t])
  {
    if i == 0 then []
    else
      var q := Offset(p, Directions[i - 1], 1);
      NeighboursUpTo(p, i - 1) + (if InBounds(q) then [q] else [])
  }

  /** The on-board orthogonal neighbours of p, in the order up, down, left, right. */
  function AdjacentPositions(p: Pos): (adj: seq<Pos>)
    ensures |adj| <= 4 && forall t | 0 <= t < |adj| :: InBounds(adj[t])
  {
    NeighboursUpTo(p, |Directions|)
  }

  /** The four steps, one by one. */
  lemma {:induction false} AdjacentPositionsSteps(p: Pos)
    ensures var up, down, left, right := Offset(p, Up, 1), Offset(p, Down, 1), Offset(p, Left, 1), Offset(p, Right, 1);
      AdjacentPositions(p) ==
        (if InBounds(up) then [up] else []) + (if InBounds(down) then [down] else []) +
        (if InBounds(left) then [left] else []) + (if InBounds(right) then [right] else [])
  {
    assert NeighboursUpTo(p, 1) == [] + (if InBounds(Offset(p, Up, 1)) then [Offset(p, Up, 1)] else []);
    assert NeighboursUpTo(p, 2) == NeighboursUpTo(p, 1) + (if InBounds(Offset(p, Down, 1)) then [Offset(p, Down, 1)] else []);
    assert NeighboursUpTo(p, 3) == NeighboursUpTo(p, 2) + (if InBounds(Offset(p, Left, 1)) then [Offset(p, Left, 1)] else []);
    assert NeighboursUpTo(p, 4) == NeighboursUpTo(p, 3) + (if InBounds(Offset(p, Right, 1)) then [Offset(p, Right, 1)] else []);
  }

  /** The listed cells are exactly the on-board orthogonal neighbours. */
  lemma {:induction false} AdjacentPositionsSpec(p: Pos)
    ensures forall q :: q in AdjacentPositions(p) <==> InBounds(q) && Adjacent(p, q)
  {
    AdjacentPositionsSteps(p);
    var up, down, left, right := Offset(p, Up, 1), Offset(p, Down, 1), Offset(p, Left, 1), Offset(p, Right, 1);
    var a, b, c, d := (if InBounds(up) then [up] else []), (if InBounds(down) then [down] else []),
                      (if InBounds(left) then [left] else []), (if InBounds(right) then [right] else []);
    forall q
      ensures q in AdjacentPositions(p) <==> InBounds(q) && Adjacent(p, q)
    {
      assert q in a + b + c + d <==> q in a || q in b || q in c || q in d;
      assert Adjacent(p, q) <==> q == up || q == down || q == left || q == right;
    }
  }

  /** An on-board cell is on the edge exactly when it has fewer than four neighbours. */
  lemma {:induction false} EdgeIffFewerNeighbours(p: Pos)
    requires InBounds(p)
    ensures IsOnEdge(p) <==> |AdjacentPositions(p)| < 4
  {
    AdjacentPositionsSteps(p);
  }

  /** The starting position: ENEMY fills row 0, PLAYER fills row N - 1, the rest is empty. */
  function InitialBoard(): (b: Board)
    ensures WellFormed(b)
  {
    seq(N, i => Row(HomeRowValue(i)))
  }

  /** ENEMY on the first row, PLAYER on the last, every other cell empty. */
  lemma InitialBoardSpec(q: Pos)
    requires InBounds(q)
    ensures At(InitialBoard(), q) == if q.row == 0 then ENEMY else if q.row == N - 1 then PLAYER else EMPTY
  {
  }

  /** What row i of the starting position is filled with. */
  function HomeRowValue(i: int): int {
    if i == 0 then ENEMY else if i == N - 1 then PLAYER else EMPTY
  }

  function Row(v: int): seq<int> { seq(N, _ => v) }

  /** Number of cells of a row that hold v. */
  function CountIn(row: seq<int>, v: int): (n: nat)
    ensures n <= |row|
  {
    if row == [] then 0
    else CountIn(row[..|row| - 1], v) + (if row[|row| - 1] == v then 1 else 0)
  }

  /** Number of cells of the board that hold v (the source's count_used). */
  function CountUsed(b: Board, v: int): (c: nat)
    ensures (forall r | 0 <= r < |b| :: |b[r]| == N) ==> c <= N * |b|
  {
    if b == [] then 0
    else CountUsed(b[..|b| - 1], v) + CountIn(b[|b| - 1], v)
  }

  lemma {:induction false} CountInUniform(row: seq<int>, w: int, v: int)
    requires forall i | 0 <= i < |row| :: row[i] == w
    ensures CountIn(row, v) == if w == v then |row| else 0
  {
    if row != [] {
      CountInUniform(row[..|row| - 1], w, v);
    }
  }

  lemma {:induction false} InitialCountsUpTo(k: int, v: int)
    requires 0 <= k <= N && IsSide(v)
    ensures CountUsed(InitialBoard()[..k], v)
         == (if v == ENEMY && k >= 1 then N else 0) + (if v == PLAYER && k == N then N else 0)
  {
    var b := InitialBoard();
    if k > 0 {
      assert b[..k][..k - 1] == b[..k - 1];
      assert CountUsed(b[..k], v) == CountUsed(b[..k - 1], v) + CountIn(b[k - 1], v);
      InitialCountsUpTo(k - 1, v);
      CountInUniform(Row(HomeRowValue(k - 1)), HomeRowValue(k - 1), v);
    }
  }

  /** The starting position has one full row of pieces per side. */
  lemma InitialCounts()
    ensures CountUsed(InitialBoard(), PLAYER) == N
    ensures CountUsed(InitialBoard(), ENEMY) == N
  {
    var b := InitialBoard();
    assert b[..N] == b;
    InitialCountsUpTo(N, PLAYER);
    InitialCountsUpTo(N, ENEMY);
  }

  /** A row in which every v-cell of r1 is also a v-cell of r2 has no more v-cells than r2. */
  lemma {:induction false} CountInMono(r1: seq<int>, r2: seq<int>, v: int)
    requires |r1| == |r2|
    requires forall i | 0 <= i < |r1| :: r1[i] == v ==> r2[i] == v
    ensures CountIn(r1, v) <= CountIn(r2, v)
  {
    if r1 != [] {
      CountInMono(r1[..|r1| - 1], r2[..|r2| - 1], v);
    }
  }

  lemma {:induction false} CountUsedMonoRows(a: Board, b: Board, v: int)
    requires |a| == |b|
    requires forall i | 0 <= i < |a| :: |a[i]| == |b[i]|
    requires forall i, j | 0 <= i < |a| && 0 <= j < |a[i]| :: a[i][j] == v ==> b[i][j] == v
    ensures CountUsed(a, v) <= CountUsed(b, v)
  {
    if a != [] {
      CountUsedMonoRows(a[..|a| - 1], b[..|b| - 1], v);
      CountInMono(a[|a| - 1], b[|b| - 1], v);
    }
  }

  /** Counting is monotone: if every v-cell of a is a v-cell of b, b has at least as many. */
  lemma CountUsedMono(a: Board, b: Board, v: int)
    requires WellFormed(a) && WellFormed(b)
    requires forall q | InBounds(q) :: At(a, q) == v ==> At(b, q) == v
    ensures CountUsed(a, v) <= CountUsed(b, v)
  {
    forall i, j | 0 <= i < |a| && 0 <= j < |a[i]| && a[i][j] == v
      ensures b[i][j] == v
    {
      assert At(a, Pos(i, j)) == v;
    }
    CountUsedMonoRows(a, b, v);
  }

  /** Emptying cells never adds pieces, and leaves the count of a side untouched
      when none of the emptied cells held that side. */
  lemma CountClear(b: Board, s: set<Pos>, v: int)
    requires WellFormed(b) && v != EMPTY
    ensures CountUsed(Clear(b, s), v) <= CountUsed(b, v)
    ensures (forall q | q in s && InBounds(q) :: At(b, q) != v) ==>
              CountUsed(Clear(b, s), v) == CountUsed(b, v)
  {
    CountUsedMono(Clear(b, s), b, v);
    if forall q | q in s && InBounds(q) :: At(b, q) != v {
      CountUsedMono(b, Clear(b, s), v);
    }
  }

  lemma {:induction false} CountInUpdate(row: seq<int>, j: int, x: int, v: int)
    requires 0 <= j < |row|
    ensures CountIn(row[j := x], v) + (if row[j] == v then 1 else 0)
         == CountIn(row, v) + (if x == v then 1 else 0)
  {
    var n := |row| - 1;
    if j == n {
      assert row[j := x][..n] == row[..n];
    } else {
      assert row[j := x][..n] == row[..n][j := x];
      CountInUpdate(row[..n], j, x, v);
    }
  }

  lemma {:induction false} CountUsedUpdateRows(b: Board, i: int, j: int, x: int, v: int)
    requires 0 <= i < |b| && 0 <= j < |b[i]|
    ensures CountUsed(b[i := b[i][j := x]], v) + (if b[i][j] == v then 1 else 0)
         == CountUsed(b, v) + (if x == v then 1 else 0)
  {
    var n := |b| - 1;
    var b' := b[i := b[i][j := x]];
    if i == n {
      assert b'[..n] == b[..n];
      CountInUpdate(b[n], j, x, v);
    } else {
      assert b'[..n] == b[..n][i := b[i][j := x]];
      CountUsedUpdateRows(b[..n], i, j, x, v);
    }
  }

  /** Overwriting one cell changes each count by at most the cell's old and new value. */
  lemma CountPut(b: Board, p: Pos, x: int, v: int)
    requires WellFormed(b) && InBounds(p) && IsCell(x)
    ensures CountUsed(Put(b, p, x), v) + (if At(b, p) == v then 1 else 0)
         == CountUsed(b, v) + (if x == v then 1 else 0)
  {
    CountUsedUpdateRows(b, p.row, p.col, x, v);
  }
}
