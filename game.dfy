/**
 * The game object: a 9x9 board and the side to move, updated in place by
 * moves.  Every method is proved against the functions of Grid, Moves,
 * Sandwich, Encircle and Rules that specify it.
 */
module Game {
  import opened Grid
  import opened Moves
  import Sandwich
  import opened Encircle
  import opened Rules

  /** visited, a 9x9 matrix of flags, is set exactly on the cells of m. */
  ghost predicate Marks(visited: array2<bool>, m: set<Pos>)
    reads visited
  {
    visited.Length0 == N && visited.Length1 == N &&
    (forall r, c | 0 <= r < N && 0 <= c < N :: visited[r, c] <==> Pos(r, c) in m) &&
    (forall q | q in m :: InBounds(q))
  }

  /** The source's to_dict/from_dict dictionary: the board and the side to move. */
  datatype GameState = GameState(board: Board, player: int)

  class HasamiShogi {
    var board: Board
    var player: int

    ghost predicate Valid()
      reads this
    {
      WellFormed(board) && IsSide(player)
    }

    /** A fresh game: the starting position, PLAYER to move. */
    constructor ()
      ensures Valid() && board == InitialBoard() && player == PLAYER
    {
      board := InitialBoard();
      player := PLAYER;
    }

    /** A snapshot of the state, always one that FromDict accepts. */
    function ToDict(): (s: GameState)
      reads this
      requires Valid()
      ensures WellFormed(s.board) && IsSide(s.player)
      ensures s.board == board && s.player == player
    {
      GameState(board, player)
    }

    /** A game in the given state: a fresh game whose board and side to move are replaced. */
    static method FromDict(data: GameState) returns (game: HasamiShogi)
      requires WellFormed(data.board) && IsSide(data.player)
      ensures fresh(game) && game.Valid()
      ensures game.ToDict() == data
    {
      game := new HasamiShogi();
      game.board := data.board;
      game.player := data.player;
    }

    /** The source's get_piece_moves: nothing unless (x, y) holds a piece of the side to
        move; otherwise the empty cells along each direction in turn, nearest first. */
    method GetPieceMoves(x: int, y: int) returns (moves: seq<Pos>)
      requires Valid() && InBounds(Pos(x, y))
      ensures moves == PieceMoves(board, player, Pos(x, y))
    {
      var p := Pos(x, y);
      moves := [];
      if board[x][y] != player {
        return;
      }
      for i := 0 to |Directions|
        invariant moves == RaysUpTo(board, p, i)
      {
        var cells := CastRay(p, Directions[i]);
        assert RaysUpTo(board, p, i + 1) == RaysUpTo(board, p, i) + Ray(board, p, Directions[i]);
        moves := moves + cells;
      }
    }

    /** The inner walk of get_piece_moves: steps from p along d while the cells are on the
        board and empty, collecting them. */
    method CastRay(p: Pos, d: Dir) returns (cells: seq<Pos>)
      requires Valid() && InBounds(p)
      ensures cells == Ray(board, p, d)
    {
      var k;
      cells, k := WalkRun(p, d, EMPTY);
      WalkEnd(board, p, d, EMPTY, k, cells);
    }

    /** The source's get_possible_moves: every cell in row-major order, and for each piece of
        the side to move, its destinations in the order GetPieceMoves lists them. */
    method GetPossibleMoves() returns (moves: seq<Move>)
      requires Valid()
      ensures moves == AllMoves(board, player)
    {
      ghost var dests := Destinations(board, player);
      moves := [];
      for x := 0 to N
        invariant moves == MovesBefore(dests, x, 0)
      {
        for y := 0 to N
          invariant moves == MovesBefore(dests, x, y)
        {
          MovesBeforeNext(board, player, x, y);
          moves := AppendCellMoves(moves, x, y);
        }
        MovesBeforeNextRow(dests, x);
      }
    }

    /** One cell of get_possible_moves: the moves of the piece on (x, y), if it belongs to
        the side to move, are appended. */
    method AppendCellMoves(moves: seq<Move>, x: int, y: int) returns (r: seq<Move>)
      requires Valid() && InBounds(Pos(x, y))
      ensures r == moves + Pairs(Pos(x, y), PieceMoves(board, player, Pos(x, y)))
    {
      var p := Pos(x, y);
      if board[x][y] == player {
        var pieceMoves := GetPieceMoves(x, y);
        r := AppendMoves(moves, p, pieceMoves);
      } else {
        PairsAll(p, []);
        r := moves;
      }
    }

    /** The innermost loop of get_possible_moves: appends (p, d) for each destination d. */
    static method AppendMoves(moves: seq<Move>, p: Pos, pieceMoves: seq<Pos>) returns (r: seq<Move>)
      ensures r == moves + Pairs(p, pieceMoves)
    {
      r := moves;
      for k := 0 to |pieceMoves|
        invariant r == moves + Pairs(p, pieceMoves[..k])
      {
        PairsSnoc(p, pieceMoves, k);
        r := r + [(p, pieceMoves[k])];
      }
      PairsAll(p, pieceMoves);
    }

    /** Empties the listed cells one by one: the clearing loops of _check_sandwiched and
        _check_surround. */
    method ClearCells(cells: seq<Pos>)
      requires Valid() && forall k | 0 <= k < |cells| :: InBounds(cells[k])
      modifies this
      ensures Valid() && player == old(player)
      ensures board == Clear(old(board), Members(cells))
    {
      ghost var b0 := board;
      ClearNothing(b0);
      assert Members(cells[..0]) == {};
      for k := 0 to |cells|
        invariant Valid() && player == old(player)
        invariant board == Clear(b0, Members(cells[..k]))
      {
        ClearThenPut(b0, Members(cells[..k]), cells[k]);
        MembersSnoc(cells, k);
        board := Put(board, cells[k], EMPTY);
      }
      MembersAll(cells);
    }

    /** The walk of one direction of _check_sandwiched: from pos along d it collects the
        opponent cells, nearest first, up to the first cell that is off the board or holds
        something else; the run is flanked when that cell holds a piece of the side to move. */
    method ScanAlong(pos: Pos, d: Dir) returns (captured: seq<Pos>, flanked: bool)
      requires Valid() && InBounds(pos)
      ensures captured == Steps(pos, d, Run(board, pos, d, -player))
      ensures flanked == Sandwich.Flanked(board, player, pos, d)
    {
      var k;
      captured, k := WalkRun(pos, d, -player);
      Sandwich.ScanEnd(board, player, pos, d, k, captured);
      var q := Offset(pos, d, k);
      flanked := InBounds(q) && board[q.row][q.col] == player;
    }

    /** Steps from pos along d while the cells are on the board and hold v, collecting them;
        k is the first step that leaves the run. */
    method WalkRun(pos: Pos, d: Dir, v: int) returns (cells: seq<Pos>, k: int)
      requires Valid() && InBounds(pos)
      ensures 1 <= k && cells == Steps(pos, d, k - 1)
      ensures RunOf(board, pos, d, v, k - 1) && !RayCell(board, pos, d, k, v)
    {
      cells := [];
      var q := Offset(pos, d, 1);
      k := 1;
      while InBounds(q) && board[q.row][q.col] == v
        invariant 1 <= k <= N && q == Offset(pos, d, k)
        invariant RunOf(board, pos, d, v, k - 1)
        invariant cells == Steps(pos, d, k - 1)
        decreases N - k
      {
        cells := cells + [q];
        OffsetBound(pos, d, k);
        OffsetStep(pos, d, k);
        q := Offset(q, d, 1);
        k := k + 1;
      }
    }

    /** One direction of _check_sandwiched: the collected run is emptied when it is flanked. */
    method CaptureAlong(pos: Pos, d: Dir)
      requires Valid() && InBounds(pos)
      modifies this
      ensures Valid() && player == old(player)
      ensures board == Clear(old(board), Sandwich.DirCaptures(old(board), player, pos, d))
    {
      var captured, flanked := ScanAlong(pos, d);
      ghost var n := Run(board, pos, d, -player);
      Sandwich.StepsInBounds(board, pos, d, -player, n);
      Sandwich.StepsCells(pos, d, n);
      if flanked {
        ClearCells(captured);
      } else {
        ClearNothing(board);
      }
    }

    /** The source's _check_sandwiched: the four directions in turn, each on the board the
        previous ones left. */
    method CheckSandwiched(pos: Pos)
      requires Valid() && InBounds(pos)
      modifies this
      ensures Valid() && player == old(player)
      ensures board == Sandwich.Sandwich(old(board), player, pos)
    {
      ghost var b0 := board;
      for i := 0 to |Directions|
        invariant Valid() && player == old(player)
        invariant board == Sandwich.SandwichUpTo(b0, player, pos, i)
      {
        CaptureAlong(pos, Directions[i]);
      }
    }
 
    /** The source's _get_adjacent_positions: one step up, down, left and right in turn,
        keeping the cells that are on the board. */
    static method GetAdjacentPositions(y: int, x: int) returns (adj: seq<Pos>)
      ensures adj == AdjacentPositions(Pos(y, x))
    {
      adj := [];
      for i := 0 to |Directions|
        invariant adj == NeighboursUpTo(Pos(y, x), i)
      {
        var q := Offset(Pos(y, x), Directions[i], 1);
        if 0 <= q.row < N && 0 <= q.col < N {
          adj := adj + [q];
        }
      }
    }

    /** The source's _is_group_enclosed: every on-board neighbour of every member is checked
        in turn, and the scan fails at the first one that is empty or holds an opponent piece
        outside the group. */
    method IsGroupEnclosed(group: seq<Pos>) returns (enclosed: bool)
      requires Valid()
      ensures enclosed == Encircle.IsGroupEnclosed(board, -player, group)
    {
      EnclosedFromSpec(board, -player, group, 0);
      for i := 0 to |group|
        invariant forall k | 0 <= k < i :: MemberEnclosed(board, -player, group, group[k])
      {
        var closed := MemberEnclosedScan(group, group[i]);
        if !closed {
          return false;
        }
      }
      return true;
    }

    /** The inner loop of _is_group_enclosed for the member p: its on-board neighbours in
        turn, up to the first that is empty or holds an opponent piece outside the group. */
    method MemberEnclosedScan(group: seq<Pos>, p: Pos) returns (closed: bool)
      requires Valid()
      ensures closed == MemberEnclosed(board, -player, group, p)
    {
      var adj := GetAdjacentPositions(p.row, p.col);
      for j := 0 to |adj|
        invariant forall t | 0 <= t < j :: NeighbourHolds(board, -player, group, adj[t])
      {
        var q := adj[j];
        AdjacentPositionsAt(p, j);
        if board[q.row][q.col] == -player && q !in group {
          OpenNeighbour(board, -player, group, p, q);
          return false;
        }
        if board[q.row][q.col] == EMPTY {
          OpenNeighbour(board, -player, group, p, q);
          return false;
        }
      }
      MemberEnclosedByList(board, -player, group, p);
      return true;
    }

    /** The source's _should_start_new_group: with the visited flags set on the cells of the
        groups found so far, a new group starts exactly at an edge cell holding an opponent
        piece that none of them contains. */
    method ShouldStartNewGroup(y: int, x: int, visited: array2<bool>, ghost marked: set<Pos>) returns (start: bool)
      requires Valid() && InBounds(Pos(y, x)) && Marks(visited, marked)
      ensures start <==> IsOnEdge(Pos(y, x)) && At(board, Pos(y, x)) == -player && Pos(y, x) !in marked
    {
      start := IsOnEdge(Pos(y, x)) && board[y][x] == -player && !visited[y, x];
    }

    /** The neighbour loop of _expand_group: each on-board neighbour of p, the member just
        taken off the queue, that holds an opponent piece and is not yet visited is marked and
        queued. */
    method EnqueueNeighbours(p: Pos, visited: array2<bool>, ghost group: seq<Pos>, queue: seq<Pos>, ghost marked: set<Pos>)
      returns (queue2: seq<Pos>)
      requires Valid() && |group| > 0 && p == group[|group| - 1]
      requires Fill(board, -player, group + queue, marked)
      requires Marks(visited, marked + Members(group + queue))
      modifies visited
      ensures |queue2| >= |queue| && queue2[..|queue|] == queue
      ensures Fill(board, -player, group + queue2, marked)
      ensures Marks(visited, marked + Members(group + queue2))
      ensures Covered(board, -player, marked + Members(group + queue2), p)
    {
      var adj := GetAdjacentPositions(p.row, p.col);
      queue2 := queue;
      for j := 0 to |adj|
        invariant |queue2| >= |queue| && queue2[..|queue|] == queue
        invariant Fill(board, -player, group + queue2, marked)
        invariant Marks(visited, marked + Members(group + queue2))
        invariant forall t {:trigger Handled(board, -player, marked + Members(group + queue2), adj[t])} | 0 <= t < j ::
                    Handled(board, -player, marked + Members(group + queue2), adj[t])
      {
        var a := adj[j];
        AdjacentPositionsAt(p, j);
        var queue3 := EnqueueIfFresh(a, visited, group, queue2, marked);
        QueuePush(queue, queue2, a);
        HandledStep(board, -player, marked + Members(group + queue2), marked + Members(group + queue3), adj, j);
        queue2 := queue3;
      }
      HandledAll(board, -player, marked + Members(group + queue2), p);
    }

    /** One step of the neighbour loop: a, a neighbour of the last member, is queued and
        marked when it holds an opponent piece and is not yet visited. */
    method EnqueueIfFresh(a: Pos, visited: array2<bool>, ghost group: seq<Pos>, queue: seq<Pos>, ghost marked: set<Pos>)
      returns (queue2: seq<Pos>)
      requires Valid() && |group| > 0 && InBounds(a) && Adjacent(group[|group| - 1], a)
      requires Fill(board, -player, group + queue, marked)
      requires Marks(visited, marked + Members(group + queue))
      modifies visited
      ensures queue2 == queue || queue2 == queue + [a]
      ensures Fill(board, -player, group + queue2, marked)
      ensures Marks(visited, marked + Members(group + queue2))
      ensures marked + Members(group + queue) <= marked + Members(group + queue2)
      ensures Handled(board, -player, marked + Members(group + queue2), a)
    {
      queue2 := queue;
      if board[a.row][a.col] == -player && !visited[a.row, a.col] {
        FillPush(board, -player, group, queue, marked, a);
        Visit(visited, a, marked + Members(group + queue));
        queue2 := queue + [a];
      }
    }

    /** Marks one cell as visited. */
    static method Visit(visited: array2<bool>, a: Pos, ghost seen: set<Pos>)
      requires InBounds(a) && Marks(visited, seen)
      modifies visited
      ensures Marks(visited, seen + {a})
    {
      visited[a.row, a.col] := true;
    }

    /** One round of _expand_group's loop: the head of the queue is taken off and listed, and
        its unvisited opponent neighbours are marked and queued. */
    method ExpandRound(visited: array2<bool>, group: seq<Pos>, queue: seq<Pos>, ghost marked: set<Pos>)
      returns (group2: seq<Pos>, queue2: seq<Pos>)
      requires Valid() && |queue| > 0
      requires Fill(board, -player, group + queue, marked)
      requires Marks(visited, marked + Members(group + queue))
      requires forall i {:trigger Covered(board, -player, marked + Members(group + queue), group[i])} | 0 <= i < |group| ::
                 Covered(board, -player, marked + Members(group + queue), group[i])
      modifies visited
      ensures group2 == group + [queue[0]] && |queue2| >= |queue| - 1 && queue2[..|queue| - 1] == queue[1..]
      ensures |group2 + queue2| > 0 && (group2 + queue2)[0] == (group + queue)[0]
      ensures Fill(board, -player, group2 + queue2, marked)
      ensures Marks(visited, marked + Members(group2 + queue2))
      ensures forall i {:trigger Covered(board, -player, marked + Members(group2 + queue2), group2[i])} | 0 <= i < |group2| ::
                Covered(board, -player, marked + Members(group2 + queue2), group2[i])
      ensures AllCells() - (marked + Members(group2 + queue2)) < AllCells() - (marked + Members(group + queue)) ||
              (marked + Members(group2 + queue2) == marked + Members(group + queue) && |queue2| < |queue|)
    {
      var current := queue[0];
      PopFront(group, queue);
      queue2 := EnqueueNeighbours(current, visited, group + [current], queue[1..], marked);
      FillRound(board, -player, group, queue, queue2, marked);
      group2 := group + [current];
    }

    /** The source's _expand_group: a breadth-first flood fill from (y, x) over unvisited
        opponent pieces, marking each cell when it is queued and listing it when it is taken
        off the front of the queue. */
    method ExpandGroup(y: int, x: int, visited: array2<bool>, ghost marked: set<Pos>) returns (group: seq<Pos>)
      requires Valid() && InBounds(Pos(y, x)) && board[y][x] == -player
      requires Marks(visited, marked) && Pos(y, x) !in marked && ClosedSet(board, -player, marked)
      modifies visited
      ensures IsGroup(board, -player, group) && group[0] == Pos(y, x)
      ensures forall k | 0 <= k < |group| :: group[k] !in marked
      ensures Marks(visited, marked + Members(group))
    {
      var queue := [Pos(y, x)];
      group := [];
      visited[y, x] := true;
      assert group + queue == [Pos(y, x)];
      while queue != []
        invariant |group + queue| > 0 && (group + queue)[0] == Pos(y, x)
        invariant Fill(board, -player, group + queue, marked)
        invariant Marks(visited, marked + Members(group + queue))
        invariant forall i {:trigger Covered(board, -player, marked + Members(group + queue), group[i])} | 0 <= i < |group| ::
                    Covered(board, -player, marked + Members(group + queue), group[i])
        decreases AllCells() - (marked + Members(group + queue)), |queue|
      {
        group, queue := ExpandRound(visited, group, queue, marked);
      }
      FillDone(board, -player, group, queue, marked);
    }

    /** The source's _find_groups_on_edges: cells in row-major order, a flood fill started from
        every edge cell holding an opponent piece that no earlier fill reached. The groups found
        are the opponent's edge groups, each listed once. */
    method FindGroupsOnEdges() returns (groups: seq<seq<Pos>>)
      requires Valid()
      ensures EdgeGroups(board, -player, groups)
    {
      var visited := new bool[N, N]((_, _) => false);
      groups := [];
      for y := 0 to N
        invariant Marks(visited, AllMembers(groups))
        invariant RootedGroups(board, -player, groups) && ClosedSet(board, -player, AllMembers(groups))
        invariant EdgeCoveredBefore(board, -player, AllMembers(groups), y, 0)
      {
        groups := ScanRowForGroups(y, visited, groups);
      }
      RootedComplete(board, -player, groups);
    }

    /** One row of _find_groups_on_edges' scan. */
    method ScanRowForGroups(y: int, visited: array2<bool>, groups: seq<seq<Pos>>) returns (groups2: seq<seq<Pos>>)
      requires Valid() && 0 <= y < N
      requires Marks(visited, AllMembers(groups))
      requires RootedGroups(board, -player, groups) && ClosedSet(board, -player, AllMembers(groups))
      requires EdgeCoveredBefore(board, -player, AllMembers(groups), y, 0)
      modifies visited
      ensures Marks(visited, AllMembers(groups2))
      ensures RootedGroups(board, -player, groups2) && ClosedSet(board, -player, AllMembers(groups2))
      ensures EdgeCoveredBefore(board, -player, AllMembers(groups2), y + 1, 0)
    {
      groups2 := groups;
      for x := 0 to N
        invariant Marks(visited, AllMembers(groups2))
        invariant RootedGroups(board, -player, groups2) && ClosedSet(board, -player, AllMembers(groups2))
        invariant EdgeCoveredBefore(board, -player, AllMembers(groups2), y, x)
      {
        var groups3 := StartGroupAt(y, x, visited, groups2);
        EdgeCoveredStep(board, -player, AllMembers(groups2), AllMembers(groups3), y, x);
        groups2 := groups3;
      }
      EdgeCoveredRow(board, -player, AllMembers(groups2), y);
    }

    /** One cell of _find_groups_on_edges' scan: a new group is expanded from (y, x) when
        _should_start_new_group says so. */
    method StartGroupAt(y: int, x: int, visited: array2<bool>, groups: seq<seq<Pos>>) returns (groups2: seq<seq<Pos>>)
      requires Valid() && InBounds(Pos(y, x))
      requires Marks(visited, AllMembers(groups))
      requires RootedGroups(board, -player, groups) && ClosedSet(board, -player, AllMembers(groups))
      modifies visited
      ensures Marks(visited, AllMembers(groups2))
      ensures RootedGroups(board, -player, groups2) && ClosedSet(board, -player, AllMembers(groups2))
      ensures AllMembers(groups) <= AllMembers(groups2)
      ensures IsOnEdge(Pos(y, x)) && At(board, Pos(y, x)) == -player ==> Pos(y, x) in AllMembers(groups2)
    {
      groups2 := groups;
      var start := ShouldStartNewGroup(y, x, visited, AllMembers(groups));
      if start {
        var group := ExpandGroup(y, x, visited, AllMembers(groups));
        RootedSnoc(board, -player, groups, group);
        AllMembersSnoc(groups, group);
        ClosedUnion(board, -player, AllMembers(groups), group);
        groups2 := groups + [group];
      }
    }

    /** The source's _check_surround: each edge group of the opponent is checked on the board
        the earlier removals left, and emptied when it is enclosed. The result is the
        encirclement rule applied to the board as it was. */
    method CheckSurround()
      requires Valid()
      modifies this
      ensures Valid() && player == old(player)
      ensures board == Surround(old(board), -player)
    {
      ghost var b0 := board;
      var groups := FindGroupsOnEdges();
      ClearNothing(b0);
      for i := 0 to |groups|
        invariant Valid() && player == old(player)
        invariant board == Clear(b0, EnclosedCells(b0, -player, groups, i))
      {
        EnclosedOnCleared(b0, -player, groups, i);
        ClearIfEnclosed(b0, EnclosedCells(b0, -player, groups, i), groups[i]);
      }
      EdgeGroupsCaptureSet(b0, -player, groups);
    }

    /** One group of _check_surround's loop: it is emptied when it is enclosed on the current
        board. The current board is b0 with the cells of gone emptied, and the group is
        enclosed on it exactly when it is enclosed on b0. */
    method ClearIfEnclosed(ghost b0: Board, ghost gone: set<Pos>, group: seq<Pos>)
      requires Valid() && WellFormed(b0) && board == Clear(b0, gone)
      requires forall k | 0 <= k < |group| :: InBounds(group[k])
      requires Encircle.IsGroupEnclosed(board, -player, group) == Encircle.IsGroupEnclosed(b0, -player, group)
      modifies this
      ensures Valid() && player == old(player)
      ensures board == Clear(b0, gone + if Encircle.IsGroupEnclosed(b0, -player, group) then Members(group) else {})
    {
      var enclosed := IsGroupEnclosed(group);
      if enclosed {
        ClearCells(group);
        ClearClear(b0, gone, Members(group));
      } else {
        assert gone + {} == gone;
      }
    }

    /** The source's take_action: the move is refused, changing nothing, unless from holds a
        piece of the side to move and to is one of its destinations; otherwise the piece
        slides, both capture rules run around it, and the turn passes.  A from square off the
        board is refused too, where the source reads it through Python indexing (RawIndex). */
    method TakeAction(from: Pos, to: Pos) returns (ok: bool)
      requires Valid()
      modifies this
      ensures Valid()
      ensures ok <==> InBounds(from) && At(old(board), from) == old(player) && to in PieceMoves(old(board), old(player), from)
      ensures !ok ==> board == old(board) && player == old(player)
      ensures ok ==> InBounds(to) && board == AfterMove(old(board), old(player), from, to) && player == -old(player)
    {
      if !InBounds(from) || board[from.row][from.col] != player {
        return false;
      }
      var moves := GetPieceMoves(from.row, from.col);
      if to !in moves {
        return false;
      }
      PieceMovesAreEmptyCells(board, player, from, to);
      Play(from, to);
      return true;
    }

    /** The accepted branch of take_action: the piece on from is written to to, from is
        emptied, the capture rules run around to, and the turn passes. */
    method Play(from: Pos, to: Pos)
      requires Valid() && InBounds(from) && InBounds(to) && At(board, from) == player
      modifies this
      ensures Valid() && player == -old(player)
      ensures board == AfterMove(old(board), old(player), from, to)
    {
      Slide(from, to);
      CheckSandwiched(to);
      CheckSurround();
      player := -player;
    }

    /** The slide of take_action: to receives what from held, then from is emptied. */
    method Slide(from: Pos, to: Pos)
      requires Valid() && InBounds(from) && InBounds(to) && At(board, from) == player
      modifies this
      ensures Valid() && player == old(player)
      ensures board == Put(Put(old(board), to, player), from, EMPTY)
    {
      var piece := board[from.row][from.col];
      board := Put(Put(board, to, piece), from, EMPTY);
    }
  }
}
