/**
 * Encirclement capture: a maximal orthogonally connected group of opponent
 * pieces that touches the board edge is removed when none of its members has
 * an empty neighbour or an opponent neighbour outside the group.  Cells off
 * the board count as wall.
 */
module Encircle {
  import opened Grid

  /** Every cell of g holds opp. */
  predicate OppCells(b: Board, opp: int, g: seq<Pos>)
    requires WellFormed(b)
  {
    forall i | 0 <= i < |g| :: InBounds(g[i]) && At(b, g[i]) == opp
  }

  predicate Distinct(g: seq<Pos>) {
    forall i, j | 0 <= i < j < |g| :: g[i] != g[j]
  }

  /** Every cell after the first is adjacent to an earlier one, as a flood fill from g[0] lists them. */
  ghost predicate Connected(g: seq<Pos>) {
    forall i | 0 < i < |g| :: exists j | 0 <= j < i :: Adjacent(g[j], g[i])
  }

  /** Every opp-holding neighbour of a cell of g is itself in g: g cannot be extended. */
  ghost predicate Closed(b: Board, opp: int, g: seq<Pos>)
    requires WellFormed(b)
  {
    forall i, q | 0 <= i < |g| && InBounds(q) && Adjacent(g[i], q) && At(b, q) == opp :: q in g
  }

  /** g lists, without repetition, a maximal orthogonally connected set of opp cells. */
  ghost predicate IsGroup(b: Board, opp: int, g: seq<Pos>)
    requires WellFormed(b)
  {
    |g| > 0 && OppCells(b, opp, g) && Distinct(g) && Connected(g) && Closed(b, opp, g)
  }

  predicate TouchesEdge(g: seq<Pos>) {
    exists i | 0 <= i < |g| :: IsOnEdge(g[i])
  }

  /** A neighbour that closes the group: neither empty nor an opp cell outside the group. */
  predicate NeighbourHolds(b: Board, opp: int, group: seq<Pos>, q: Pos)
    requires WellFormed(b) && InBounds(q)
  {
    !(At(b, q) == opp && q !in group) && At(b, q) != EMPTY
  }

  /** No on-board neighbour of p is empty or holds opp without belonging to the group. */
  ghost predicate MemberEnclosed(b: Board, opp: int, group: seq<Pos>, p: Pos)
    requires WellFormed(b)
  {
    forall q | InBounds(q) && Adjacent(p, q) :: NeighbourHolds(b, opp, group, q)
  }

  /** The scan of the source's _is_group_enclosed from member i on: it stops with false at the
      first member that is not enclosed. */
  ghost predicate EnclosedFrom(b: Board, opp: int, group: seq<Pos>, i: int)
    requires WellFormed(b) && 0 <= i <= |group|
    decreases |group| - i
  {
    i == |group| || (MemberEnclosed(b, opp, group, group[i]) && EnclosedFrom(b, opp, group, i + 1))
  }

  /** The source's _is_group_enclosed. */
  ghost predicate IsGroupEnclosed(b: Board, opp: int, group: seq<Pos>)
    requires WellFormed(b)
  {
    EnclosedFrom(b, opp, group, 0)
  }

  lemma {:induction false} EnclosedFromSpec(b: Board, opp: int, group: seq<Pos>, i: int)
    requires WellFormed(b) && 0 <= i <= |group|
    ensures EnclosedFrom(b, opp, group, i) <==> forall k | i <= k < |group| :: MemberEnclosed(b, opp, group, group[k])
    decreases |group| - i
  {
    if i < |group| {
      EnclosedFromSpec(b, opp, group, i + 1);
    }
  }

  /** The scan succeeds exactly when no member has an on-board neighbour that is empty or holds
      opp outside the group; cells off the board act as wall. */
  lemma {:induction false} EnclosedSpec(b: Board, opp: int, group: seq<Pos>)
    requires WellFormed(b)
    ensures IsGroupEnclosed(b, opp, group) <==>
              forall k, q | 0 <= k < |group| && InBounds(q) && Adjacent(group[k], q) ::
                !(At(b, q) == opp && q !in group) && At(b, q) != EMPTY
  {
    EnclosedFromSpec(b, opp, group, 0);
    if IsGroupEnclosed(b, opp, group) {
      forall k, q | 0 <= k < |group| && InBounds(q) && Adjacent(group[k], q)
        ensures !(At(b, q) == opp && q !in group) && At(b, q) != EMPTY
      {
        assert MemberEnclosed(b, opp, group, group[k]);
        assert NeighbourHolds(b, opp, group, q);
      }
    }
    if forall k, q | 0 <= k < |group| && InBounds(q) && Adjacent(group[k], q) ::
         !(At(b, q) == opp && q !in group) && At(b, q) != EMPTY {
      forall k | 0 <= k < |group|
        ensures MemberEnclosed(b, opp, group, group[k])
      {
      }
    }
  }

  lemma {:induction false} AdjacentSymmetric(p: Pos, q: Pos)
    requires Adjacent(p, q)
    ensures Adjacent(q, p)
  {
  }

  /** If any member of a group lies in a closed set, so does the group's first member. */
  lemma {:induction false} RootInClosed(b: Board, opp: int, g: seq<Pos>, i: int, h: seq<Pos>)
    requires WellFormed(b) && IsGroup(b, opp, g) && Closed(b, opp, h)
    requires 0 <= i < |g| && g[i] in h
    ensures g[0] in h
    decreases i
  {
    if i > 0 {
      var j :| 0 <= j < i && Adjacent(g[j], g[i]);
      AdjacentSymmetric(g[j], g[i]);
      var k :| 0 <= k < |h| && h[k] == g[i];
      assert InBounds(g[j]) && Adjacent(h[k], g[j]) && At(b, g[j]) == opp;
      RootInClosed(b, opp, g, j, h);
    }
  }

  /** If a group's first member lies in a closed set, so does every member. */
  lemma {:induction false} ChainInClosed(b: Board, opp: int, g: seq<Pos>, i: int, h: seq<Pos>)
    requires WellFormed(b) && IsGroup(b, opp, g) && Closed(b, opp, h)
    requires 0 <= i < |g| && g[0] in h
    ensures g[i] in h
    decreases i
  {
    if i > 0 {
      var j :| 0 <= j < i && Adjacent(g[j], g[i]);
      ChainInClosed(b, opp, g, j, h);
      var k :| 0 <= k < |h| && h[k] == g[j];
      assert InBounds(g[i]) && Adjacent(h[k], g[i]) && At(b, g[i]) == opp;
    }
  }

  /** Two groups that share a cell have the same cells: groups are the connected components. */
  lemma {:induction false} SameGroup(b: Board, opp: int, g: seq<Pos>, h: seq<Pos>, x: Pos)
    requires WellFormed(b) && IsGroup(b, opp, g) && IsGroup(b, opp, h)
    requires x in g && x in h
    ensures forall y :: y in g <==> y in h
  {
    Included(b, opp, g, h, x);
    Included(b, opp, h, g, x);
  }

  lemma {:induction false} Included(b: Board, opp: int, g: seq<Pos>, h: seq<Pos>, x: Pos)
    requires WellFormed(b) && IsGroup(b, opp, g) && IsGroup(b, opp, h)
    requires x in g && x in h
    ensures forall y | y in g :: y in h
  {
    var i :| 0 <= i < |g| && g[i] == x;
    RootInClosed(b, opp, g, i, h);
    forall y | y in g
      ensures y in h
    {
      var k :| 0 <= k < |g| && g[k] == y;
      ChainInClosed(b, opp, g, k, h);
    }
  }

  /** Whether a group is enclosed depends only on which cells it has. */
  lemma {:induction false} EnclosedSameCells(b: Board, opp: int, g: seq<Pos>, h: seq<Pos>)
    requires WellFormed(b)
    requires forall y :: y in g <==> y in h
    requires IsGroupEnclosed(b, opp, g)
    ensures IsGroupEnclosed(b, opp, h)
  {
    EnclosedFromSpec(b, opp, g, 0);
    EnclosedFromSpec(b, opp, h, 0);
    forall i | 0 <= i < |h|
      ensures MemberEnclosed(b, opp, h, h[i])
    {
      assert h[i] in h;
      var k :| 0 <= k < |g| && g[k] == h[i];
      assert MemberEnclosed(b, opp, g, g[k]);
    }
  }

  /** No member of g has an empty on-board neighbour. */
  ghost predicate NoLiberty(b: Board, g: seq<Pos>)
    requires WellFormed(b)
  {
    forall i, q | 0 <= i < |g| && InBounds(q) && Adjacent(g[i], q) :: At(b, q) != EMPTY
  }

  /** For a maximal group the "opponent outside the group" test never fires: the group is
      enclosed exactly when no member has an empty on-board neighbour. */
  lemma {:induction false} EnclosedIffNoLiberty(b: Board, opp: int, g: seq<Pos>)
    requires WellFormed(b) && IsGroup(b, opp, g)
    ensures IsGroupEnclosed(b, opp, g) <==> NoLiberty(b, g)
  {
    if IsGroupEnclosed(b, opp, g) {
      EnclosedHasNoLiberty(b, opp, g);
    }
    if NoLiberty(b, g) {
      NoLibertyEnclosed(b, opp, g);
    }
  }

  lemma {:induction false} EnclosedHasNoLiberty(b: Board, opp: int, g: seq<Pos>)
    requires WellFormed(b) && IsGroupEnclosed(b, opp, g)
    ensures NoLiberty(b, g)
  {
    EnclosedSpec(b, opp, g);
  }

  lemma {:induction false} NoLibertyEnclosed(b: Board, opp: int, g: seq<Pos>)
    requires WellFormed(b) && Closed(b, opp, g) && NoLiberty(b, g)
    ensures IsGroupEnclosed(b, opp, g)
  {
    EnclosedSpec(b, opp, g);
  }

  /** Around an enclosed group of one side, every on-board neighbour outside the group holds
      the other side; the board edge also stops the group. */
  lemma {:induction false} EnclosedBySides(b: Board, opp: int, g: seq<Pos>)
    requires WellFormed(b) && IsSide(opp) && IsGroupEnclosed(b, opp, g)
    ensures forall i, q | 0 <= i < |g| && InBounds(q) && Adjacent(g[i], q) && q !in g :: At(b, q) == -opp
  {
    EnclosedSpec(b, opp, g);
  }

  /** q belongs to an edge-touching group of opp cells that is enclosed. */
  ghost predicate Captured(b: Board, opp: int, q: Pos)
    requires WellFormed(b)
  {
    exists g :: IsGroup(b, opp, g) && TouchesEdge(g) && IsGroupEnclosed(b, opp, g) && q in g
  }

  ghost function CaptureSet(b: Board, opp: int): set<Pos>
    requires WellFormed(b)
  {
    set r, c | 0 <= r < N && 0 <= c < N && Captured(b, opp, Pos(r, c)) :: Pos(r, c)
  }

  /** The board after the encirclement rule removes every enclosed edge group of opp. */
  ghost function Surround(b: Board, opp: int): Board
    requires WellFormed(b)
  {
    Clear(b, CaptureSet(b, opp))
  }

  lemma {:induction false} CaptureSetSpec(b: Board, opp: int, q: Pos)
    requires WellFormed(b)
    ensures q in CaptureSet(b, opp) <==> InBounds(q) && Captured(b, opp, q)
  {
    if q in CaptureSet(b, opp) {
      var r, c :| 0 <= r < N && 0 <= c < N && Captured(b, opp, Pos(r, c)) && q == Pos(r, c);
    } else {
      assert q == Pos(q.row, q.col);
    }
  }

  /** The rule empties captured cells and leaves every other cell as it was; in particular
      it only ever removes opp pieces. */
  lemma {:induction false} SurroundSpec(b: Board, opp: int, q: Pos)
    requires WellFormed(b) && InBounds(q)
    ensures At(Surround(b, opp), q) == if Captured(b, opp, q) then EMPTY else At(b, q)
    ensures At(Surround(b, opp), q) != At(b, q) ==> At(b, q) == opp && At(Surround(b, opp), q) == EMPTY
  {
    CaptureSetSpec(b, opp, q);
    if Captured(b, opp, q) {
      var g :| IsGroup(b, opp, g) && TouchesEdge(g) && IsGroupEnclosed(b, opp, g) && q in g;
      var i :| 0 <= i < |g| && g[i] == q;
    }
  }

  /** A cell of an edge-touching group is removed exactly when its group is enclosed. */
  lemma {:induction false} EdgeGroupCleared(b: Board, opp: int, g: seq<Pos>, q: Pos)
    requires WellFormed(b) && IsGroup(b, opp, g) && TouchesEdge(g) && q in g
    ensures InBounds(q)
    ensures At(Surround(b, opp), q) == if IsGroupEnclosed(b, opp, g) then EMPTY else opp
  {
    var i :| 0 <= i < |g| && g[i] == q;
    SurroundSpec(b, opp, q);
    if Captured(b, opp, q) {
      var h :| IsGroup(b, opp, h) && TouchesEdge(h) && IsGroupEnclosed(b, opp, h) && q in h;
      SameGroup(b, opp, h, g, q);
      EnclosedSameCells(b, opp, h, g);
    }
  }

  /** A group of opp cells that touches no edge is never removed by this rule. */
  lemma {:induction false} InteriorGroupKept(b: Board, opp: int, g: seq<Pos>, q: Pos)
    requires WellFormed(b) && IsGroup(b, opp, g) && !TouchesEdge(g) && q in g
    ensures InBounds(q) && At(Surround(b, opp), q) == opp
  {
    var i :| 0 <= i < |g| && g[i] == q;
    SurroundSpec(b, opp, q);
    if Captured(b, opp, q) {
      var h :| IsGroup(b, opp, h) && TouchesEdge(h) && IsGroupEnclosed(b, opp, h) && q in h;
      EdgeSpreads(b, opp, h, g, q);
      assert false;
    }
  }

  /** A group that shares a cell with an edge-touching group touches the edge too. */
  lemma {:induction false} EdgeSpreads(b: Board, opp: int, h: seq<Pos>, g: seq<Pos>, q: Pos)
    requires WellFormed(b) && IsGroup(b, opp, h) && IsGroup(b, opp, g)
    requires TouchesEdge(h) && q in h && q in g
    ensures TouchesEdge(g)
  {
    SameGroup(b, opp, h, g, q);
    var e :| 0 <= e < |h| && IsOnEdge(h[e]);
    assert h[e] in h;
    var k :| 0 <= k < |g| && g[k] == h[e];
  }

  /** No cell of g appears in h. */
  predicate Disjoint(g: seq<Pos>, h: seq<Pos>) {
    forall k | 0 <= k < |g| :: g[k] !in h
  }

  /** What a complete search for edge groups yields: each listed group is a group rooted at an
      edge cell, no two share a cell, and every edge cell holding opp is in one of them. */
  ghost predicate EdgeGroups(b: Board, opp: int, groups: seq<seq<Pos>>)
    requires WellFormed(b)
  {
    (forall j | 0 <= j < |groups| :: IsGroup(b, opp, groups[j]) && IsOnEdge(groups[j][0])) &&
    (forall i, j | 0 <= i < j < |groups| :: Disjoint(groups[i], groups[j])) &&
    (forall q | InBounds(q) && IsOnEdge(q) && At(b, q) == opp :: exists j | 0 <= j < |groups| :: q in groups[j])
  }

  /** The cells of those among the first i groups that are enclosed on b. */
  ghost function EnclosedCells(b: Board, opp: int, groups: seq<seq<Pos>>, i: int): set<Pos>
    requires WellFormed(b) && 0 <= i <= |groups|
  {
    if i == 0 then {}
    else EnclosedCells(b, opp, groups, i - 1) +
         (if IsGroupEnclosed(b, opp, groups[i - 1]) then Members(groups[i - 1]) else {})
  }

  /** The cells of an enclosed group among the first i are in EnclosedCells. */
  lemma {:induction false} EnclosedCellsHas(b: Board, opp: int, groups: seq<seq<Pos>>, i: int, j: int, x: Pos)
    requires WellFormed(b) && 0 <= j < i <= |groups|
    requires IsGroupEnclosed(b, opp, groups[j]) && x in groups[j]
    ensures x in EnclosedCells(b, opp, groups, i)
  {
    if j < i - 1 {
      EnclosedCellsHas(b, opp, groups, i - 1, j, x);
    }
  }

  /** Every cell of EnclosedCells comes from an enclosed group among the first i. */
  lemma {:induction false} EnclosedCellsSource(b: Board, opp: int, groups: seq<seq<Pos>>, i: int, x: Pos)
    returns (j: int)
    requires WellFormed(b) && 0 <= i <= |groups| && x in EnclosedCells(b, opp, groups, i)
    ensures 0 <= j < i && IsGroupEnclosed(b, opp, groups[j]) && x in groups[j]
  {
    if x in EnclosedCells(b, opp, groups, i - 1) {
      j := EnclosedCellsSource(b, opp, groups, i - 1, x);
    } else {
      j := i - 1;
    }
  }

  /** Removing the enclosed groups of a complete edge-group list removes exactly what the
      encirclement rule removes. */
  lemma {:induction false} EdgeGroupsCaptureSet(b: Board, opp: int, groups: seq<seq<Pos>>)
    requires WellFormed(b) && EdgeGroups(b, opp, groups)
    ensures EnclosedCells(b, opp, groups, |groups|) == CaptureSet(b, opp)
  {
    forall x | x in EnclosedCells(b, opp, groups, |groups|)
      ensures x in CaptureSet(b, opp)
    {
      var j := EnclosedCellsSource(b, opp, groups, |groups|, x);
      ListedIsCaptured(b, opp, groups, j, x);
    }
    forall x | x in CaptureSet(b, opp)
      ensures x in EnclosedCells(b, opp, groups, |groups|)
    {
      var j := CapturedIsListed(b, opp, groups, x);
      EnclosedCellsHas(b, opp, groups, |groups|, j, x);
    }
  }

  lemma {:induction false} ListedIsCaptured(b: Board, opp: int, groups: seq<seq<Pos>>, j: int, x: Pos)
    requires WellFormed(b) && EdgeGroups(b, opp, groups)
    requires 0 <= j < |groups| && IsGroupEnclosed(b, opp, groups[j]) && x in groups[j]
    ensures x in CaptureSet(b, opp)
  {
    var g := groups[j];
    assert IsGroup(b, opp, g) && IsOnEdge(g[0]);
    assert TouchesEdge(g);
    assert Captured(b, opp, x);
    CaptureSetSpec(b, opp, x);
  }

  lemma {:induction false} CapturedIsListed(b: Board, opp: int, groups: seq<seq<Pos>>, x: Pos) returns (j: int)
    requires WellFormed(b) && EdgeGroups(b, opp, groups) && x in CaptureSet(b, opp)
    ensures 0 <= j < |groups| && IsGroupEnclosed(b, opp, groups[j]) && x in groups[j]
  {
    CaptureSetSpec(b, opp, x);
    j := CapturedInList(b, opp, groups, x);
  }

  lemma {:induction false} CapturedInList(b: Board, opp: int, groups: seq<seq<Pos>>, x: Pos) returns (j: int)
    requires WellFormed(b) && EdgeGroups(b, opp, groups) && Captured(b, opp, x)
    ensures 0 <= j < |groups| && IsGroupEnclosed(b, opp, groups[j]) && x in groups[j]
  {
    var g :| IsGroup(b, opp, g) && TouchesEdge(g) && IsGroupEnclosed(b, opp, g) && x in g;
    var e :| 0 <= e < |g| && IsOnEdge(g[e]);
    assert InBounds(g[e]) && At(b, g[e]) == opp;
    j := EdgeCellListed(b, opp, groups, g[e]);
    assert g[e] in g;
    SameGroup(b, opp, g, groups[j], g[e]);
    EnclosedSameCells(b, opp, g, groups[j]);
  }

  /** Every edge cell holding opp lies in some listed group. */
  lemma {:induction false} EdgeCellListed(b: Board, opp: int, groups: seq<seq<Pos>>, q: Pos) returns (j: int)
    requires WellFormed(b) && EdgeGroups(b, opp, groups)
    requires InBounds(q) && IsOnEdge(q) && At(b, q) == opp
    ensures 0 <= j < |groups| && q in groups[j]
  {
    j :| 0 <= j < |groups| && q in groups[j];
  }

  /** Whether a group is enclosed depends only on the cells next to it. */
  lemma {:induction false} EnclosedFrame(a: Board, b: Board, opp: int, g: seq<Pos>)
    requires WellFormed(a) && WellFormed(b)
    requires forall i, q | 0 <= i < |g| && InBounds(q) && Adjacent(g[i], q) :: At(a, q) == At(b, q)
    ensures IsGroupEnclosed(a, opp, g) == IsGroupEnclosed(b, opp, g)
  {
    EnclosedFromSpec(a, opp, g, 0);
    EnclosedFromSpec(b, opp, g, 0);
    forall i | 0 <= i < |g|
      ensures MemberEnclosed(a, opp, g, g[i]) == MemberEnclosed(b, opp, g, g[i])
    {
      assert forall q | InBounds(q) && Adjacent(g[i], q) :: NeighbourHolds(a, opp, g, q) == NeighbourHolds(b, opp, g, q);
    }
  }

  /** A cell of another group is never next to a group: the group would have to contain it. */
  lemma {:induction false} GroupsApart(b: Board, opp: int, g: seq<Pos>, h: seq<Pos>, i: int, q: Pos)
    requires WellFormed(b) && Closed(b, opp, g) && OppCells(b, opp, h) && Disjoint(h, g)
    requires 0 <= i < |g| && q in h
    ensures !Adjacent(g[i], q)
  {
    var k :| 0 <= k < |h| && h[k] == q;
  }

  /** The board cleared of the enclosed groups met so far looks, around the next group, just
      like the board the groups were found on; the next group's cells are on the board. */
  lemma {:induction false} EnclosedOnCleared(b: Board, opp: int, groups: seq<seq<Pos>>, i: int)
    requires WellFormed(b) && EdgeGroups(b, opp, groups) && 0 <= i < |groups|
    ensures IsGroupEnclosed(Clear(b, EnclosedCells(b, opp, groups, i)), opp, groups[i]) ==
            IsGroupEnclosed(b, opp, groups[i])
    ensures forall k | 0 <= k < |groups[i]| :: InBounds(groups[i][k])
  {
    var g := groups[i];
    var gone := EnclosedCells(b, opp, groups, i);
    forall k, q | 0 <= k < |g| && InBounds(q) && Adjacent(g[k], q)
      ensures At(Clear(b, gone), q) == At(b, q)
    {
      if q in gone {
        var j := EnclosedCellsSource(b, opp, groups, i, q);
        assert IsGroup(b, opp, g) && IsGroup(b, opp, groups[j]) && Disjoint(groups[j], g);
        GroupsApart(b, opp, g, groups[j], k, q);
        assert false;
      }
    }
    EnclosedFrame(Clear(b, gone), b, opp, g);
  }

  /** A set of cells no opp cell borders from outside. */
  ghost predicate ClosedSet(b: Board, opp: int, m: set<Pos>)
    requires WellFormed(b)
  {
    forall p, q | p in m && InBounds(q) && Adjacent(p, q) && At(b, q) == opp :: q in m
  }

  lemma {:induction false} ClosedUnion(b: Board, opp: int, m: set<Pos>, g: seq<Pos>)
    requires WellFormed(b) && ClosedSet(b, opp, m) && Closed(b, opp, g)
    ensures ClosedSet(b, opp, m + Members(g))
  {
    forall p, q | p in m + Members(g) && InBounds(q) && Adjacent(p, q) && At(b, q) == opp
      ensures q in m + Members(g)
    {
      if p !in m {
        var k :| 0 <= k < |g| && g[k] == p;
      }
    }
  }

  /** Appending an unlisted opp cell next to a listed one keeps a list a connected, repetition-free
      list of opp cells. */
  lemma {:induction false} Extend(b: Board, opp: int, s: seq<Pos>, i: int, a: Pos)
    requires WellFormed(b) && OppCells(b, opp, s) && Distinct(s) && Connected(s)
    requires 0 <= i < |s| && Adjacent(s[i], a) && InBounds(a) && At(b, a) == opp && a !in s
    ensures OppCells(b, opp, s + [a]) && Distinct(s + [a]) && Connected(s + [a])
  {
    var t := s + [a];
    assert forall m | 0 <= m < |s| :: t[m] == s[m];
    assert forall m | 0 <= m < |t| :: InBounds(t[m]) && At(b, t[m]) == opp;
    forall m, n | 0 <= m < n < |t|
      ensures t[m] != t[n]
    {
      if n == |s| {
        assert t[m] in s;
      }
    }
    forall m | 0 < m < |t|
      ensures exists j | 0 <= j < m :: Adjacent(t[j], t[m])
    {
      if m == |s| {
        assert t[i] == s[i];
      } else {
        var j :| 0 <= j < m && Adjacent(s[j], s[m]);
        assert t[j] == s[j];
      }
    }
  }

  /** The cells of all listed groups. */
  function AllMembers(groups: seq<seq<Pos>>): set<Pos> {
    if groups == [] then {} else AllMembers(groups[..|groups| - 1]) + Members(groups[|groups| - 1])
  }

  lemma {:induction false} AllMembersHas(groups: seq<seq<Pos>>, j: int, q: Pos)
    requires 0 <= j < |groups| && q in groups[j]
    ensures q in AllMembers(groups)
  {
    var n := |groups| - 1;
    if j < n {
      assert groups[..n][j] == groups[j];
      AllMembersHas(groups[..n], j, q);
    }
  }

  lemma {:induction false} AllMembersSource(groups: seq<seq<Pos>>, q: Pos) returns (j: int)
    requires q in AllMembers(groups)
    ensures 0 <= j < |groups| && q in groups[j]
  {
    var n := |groups| - 1;
    if q in groups[n] {
      j := n;
    } else {
      j := AllMembersSource(groups[..n], q);
      assert groups[..n][j] == groups[j];
    }
  }

  lemma AllMembersSnoc(groups: seq<seq<Pos>>, g: seq<Pos>)
    ensures AllMembers(groups + [g]) == AllMembers(groups) + Members(g)
  {
    assert (groups + [g])[..|groups|] == groups;
  }

  /** Checking the listed neighbours of p is checking every on-board neighbour of p. */
  lemma {:induction false} MemberEnclosedByList(b: Board, opp: int, group: seq<Pos>, p: Pos)
    requires WellFormed(b)
    requires forall t | 0 <= t < |AdjacentPositions(p)| :: NeighbourHolds(b, opp, group, AdjacentPositions(p)[t])
    ensures MemberEnclosed(b, opp, group, p)
  {
    var adj := AdjacentPositions(p);
    AdjacentPositionsSpec(p);
    forall q | InBounds(q) && Adjacent(p, q)
      ensures NeighbourHolds(b, opp, group, q)
    {
      var t :| 0 <= t < |adj| && adj[t] == q;
    }
  }

  /** A member with an on-board neighbour that is empty, or holds opp outside the group, is
      not enclosed. */
  lemma {:induction false} OpenNeighbour(b: Board, opp: int, group: seq<Pos>, p: Pos, q: Pos)
    requires WellFormed(b) && InBounds(q) && Adjacent(p, q) && !NeighbourHolds(b, opp, group, q)
    ensures !MemberEnclosed(b, opp, group, p)
  {
  }

  /** A flood fill in progress: s lists distinct, orthogonally connected opp cells, none of
      them among the cells m taken by earlier groups. */
  ghost predicate Fill(b: Board, opp: int, s: seq<Pos>, m: set<Pos>)
    requires WellFormed(b)
  {
    OppCells(b, opp, s) && Distinct(s) && Connected(s) && forall k | 0 <= k < |s| :: s[k] !in m
  }

  /** Moving the head of the queue to the end of the listed part keeps their concatenation. */
  lemma {:induction false} PopFront(g: seq<Pos>, q: seq<Pos>)
    requires |q| > 0
    ensures (g + [q[0]]) + q[1..] == g + q
  {
    assert [q[0]] + q[1..] == q;
  }

  /** Appending to the queue appends to the concatenation. */
  lemma {:induction false} PushBack(g: seq<Pos>, q: seq<Pos>, n: seq<Pos>)
    requires |n| >= |q| && n[..|q|] == q
    ensures g + n == (g + q) + n[|q|..]
    ensures Members(g + q) <= Members(g + n)
    ensures |n| == |q| ==> n == q
  {
    assert n == q + n[|q|..];
  }

  /** Queueing an untaken, unlisted opp cell next to the last listed one keeps the fill, and
      adds exactly that cell to the cells seen. */
  lemma {:induction false} FillPush(b: Board, opp: int, g: seq<Pos>, q: seq<Pos>, m: set<Pos>, a: Pos)
    requires WellFormed(b) && Fill(b, opp, g + q, m) && |g| > 0
    requires Adjacent(g[|g| - 1], a) && InBounds(a) && At(b, a) == opp && a !in m + Members(g + q)
    ensures Fill(b, opp, g + (q + [a]), m)
    ensures m + Members(g + (q + [a])) == (m + Members(g + q)) + {a}
  {
    assert (g + q)[|g| - 1] == g[|g| - 1];
    FillExtend(b, opp, g + q, m, |g| - 1, a);
    assert g + (q + [a]) == (g + q) + [a];
  }

  /** Appending to a queue that extends q keeps it an extension of q, with the same first
      added cell if there was one. */
  lemma {:induction false} QueuePush(q: seq<Pos>, q2: seq<Pos>, a: Pos)
    requires |q2| >= |q| && q2[..|q|] == q
    ensures (q2 + [a])[..|q|] == q
  {
    assert (q2 + [a])[..|q|] == q2[..|q|];
  }

  /** A fill whose queue gained cells has seen strictly more of the board. */
  lemma {:induction false} FillGrows(b: Board, opp: int, g: seq<Pos>, q: seq<Pos>, q2: seq<Pos>, m: set<Pos>)
    requires WellFormed(b) && Fill(b, opp, g + q2, m)
    requires |q2| > |q| && q2[..|q|] == q
    ensures AllCells() - (m + Members(g + q2)) < AllCells() - (m + Members(g + q))
  {
    var x := q2[|q|];
    assert (g + q2)[|g| + |q|] == x;
    assert InBounds(x);
    assert x !in m;
    forall k | 0 <= k < |g + q|
      ensures (g + q)[k] == (g + q2)[k]
    {
      if k >= |g| {
        assert q2[..|q|][k - |g|] == q[k - |g|];
      }
    }
    assert x !in g + q;
    assert Members(g + q) <= Members(g + q2);
  }

  /** q, if it is an on-board cell holding opp, is among the cells seen. */
  ghost predicate Handled(b: Board, opp: int, seen: set<Pos>, q: Pos)
    requires WellFormed(b)
  {
    InBounds(q) && At(b, q) == opp ==> q in seen
  }

  /** Seeing more cells keeps the handled cells handled; one more handled cell extends the prefix. */
  lemma {:induction false} HandledStep(b: Board, opp: int, s1: set<Pos>, s2: set<Pos>, cells: seq<Pos>, j: int)
    requires WellFormed(b) && s1 <= s2 && 0 <= j < |cells|
    requires forall t {:trigger Handled(b, opp, s1, cells[t])} | 0 <= t < j :: Handled(b, opp, s1, cells[t])
    requires Handled(b, opp, s2, cells[j])
    ensures forall t {:trigger Handled(b, opp, s2, cells[t])} | 0 <= t < j + 1 :: Handled(b, opp, s2, cells[t])
  {
    forall t | 0 <= t < j + 1
      ensures Handled(b, opp, s2, cells[t])
    {
      if t < j {
        assert Handled(b, opp, s1, cells[t]);
      }
    }
  }

  lemma {:induction false} AdjacentPositionsAt(p: Pos, j: int)
    requires 0 <= j < |AdjacentPositions(p)|
    ensures InBounds(AdjacentPositions(p)[j]) && Adjacent(p, AdjacentPositions(p)[j])
  {
    AdjacentPositionsSpec(p);
    assert AdjacentPositions(p)[j] in AdjacentPositions(p);
  }

  /** Every opp-holding neighbour of p is among the cells seen. */
  ghost predicate Covered(b: Board, opp: int, seen: set<Pos>, p: Pos)
    requires WellFormed(b)
  {
    forall q | InBounds(q) && Adjacent(p, q) && At(b, q) == opp :: q in seen
  }

  /** Taking p off the queue once its neighbours are seen keeps every listed cell covered. */
  lemma {:induction false} CoveredStep(b: Board, opp: int, s1: set<Pos>, s2: set<Pos>, g: seq<Pos>, p: Pos)
    requires WellFormed(b) && s1 <= s2
    requires forall i {:trigger Covered(b, opp, s1, g[i])} | 0 <= i < |g| :: Covered(b, opp, s1, g[i])
    requires Covered(b, opp, s2, p)
    ensures forall i {:trigger Covered(b, opp, s2, (g + [p])[i])} | 0 <= i < |g| + 1 :: Covered(b, opp, s2, (g + [p])[i])
  {
    forall i | 0 <= i < |g| + 1
      ensures Covered(b, opp, s2, (g + [p])[i])
    {
      if i < |g| {
        assert Covered(b, opp, s1, g[i]);
        assert (g + [p])[i] == g[i];
      }
    }
  }

  /** Once every listed neighbour of p is handled, every opp neighbour of p has been seen. */
  lemma {:induction false} HandledAll(b: Board, opp: int, seen: set<Pos>, p: Pos)
    requires WellFormed(b)
    requires forall t {:trigger Handled(b, opp, seen, AdjacentPositions(p)[t])} | 0 <= t < |AdjacentPositions(p)| ::
               Handled(b, opp, seen, AdjacentPositions(p)[t])
    ensures Covered(b, opp, seen, p)
  {
    var adj := AdjacentPositions(p);
    AdjacentPositionsSpec(p);
    forall q | InBounds(q) && Adjacent(p, q) && At(b, q) == opp
      ensures q in seen
    {
      var t :| 0 <= t < |adj| && adj[t] == q;
      assert Handled(b, opp, seen, adj[t]);
    }
  }

  /** A fill grows by an untaken, unlisted opp cell next to a listed one. */
  lemma {:induction false} FillExtend(b: Board, opp: int, s: seq<Pos>, m: set<Pos>, i: int, a: Pos)
    requires WellFormed(b) && Fill(b, opp, s, m)
    requires 0 <= i < |s| && Adjacent(s[i], a) && InBounds(a) && At(b, a) == opp && a !in s && a !in m
    ensures Fill(b, opp, s + [a], m)
  {
    Extend(b, opp, s, i, a);
  }

  /** One round of the flood fill: the head of the queue q moves to the listed part g, and the
      queue becomes n, which extends the rest of q. Every listed cell stays covered, the first
      cell stays first, and either more of the board has been seen or the queue is shorter. */
  lemma {:induction false} FillRound(b: Board, opp: int, g: seq<Pos>, q: seq<Pos>, n: seq<Pos>, m: set<Pos>)
    requires WellFormed(b) && |q| > 0
    requires forall i {:trigger Covered(b, opp, m + Members(g + q), g[i])} | 0 <= i < |g| :: Covered(b, opp, m + Members(g + q), g[i])
    requires |n| >= |q[1..]| && n[..|q[1..]|] == q[1..]
    requires Fill(b, opp, g + [q[0]] + n, m)
    requires Covered(b, opp, m + Members(g + [q[0]] + n), q[0])
    ensures |g + [q[0]] + n| > 0 && (g + [q[0]] + n)[0] == (g + q)[0]
    ensures forall i {:trigger Covered(b, opp, m + Members(g + [q[0]] + n), (g + [q[0]])[i])} | 0 <= i < |g + [q[0]]| ::
              Covered(b, opp, m + Members(g + [q[0]] + n), (g + [q[0]])[i])
    ensures AllCells() - (m + Members(g + [q[0]] + n)) < AllCells() - (m + Members(g + q)) ||
            (m + Members(g + [q[0]] + n) == m + Members(g + q) && |n| < |q|)
  {
    PopFront(g, q);
    PushBack(g + [q[0]], q[1..], n);
    if |n| > |q[1..]| {
      FillGrows(b, opp, g + [q[0]], q[1..], n, m);
    }
    CoveredStep(b, opp, m + Members(g + q), m + Members(g + [q[0]] + n), g, q[0]);
  }

  /** A finished fill is a group: every opp neighbour of a member was listed or taken, and
      nothing taken borders an untaken opp cell. */
  lemma {:induction false} FillDone(b: Board, opp: int, g: seq<Pos>, q: seq<Pos>, m: set<Pos>)
    requires WellFormed(b) && |g + q| > 0 && q == [] && Fill(b, opp, g + q, m) && ClosedSet(b, opp, m)
    requires forall i {:trigger Covered(b, opp, m + Members(g + q), g[i])} | 0 <= i < |g| :: Covered(b, opp, m + Members(g + q), g[i])
    ensures g + q == g && IsGroup(b, opp, g)
  {
    assert g + q == g;
    forall i, p | 0 <= i < |g| && InBounds(p) && Adjacent(g[i], p) && At(b, p) == opp
      ensures p in g
    {
      assert Covered(b, opp, m + Members(g + q), g[i]);
      AdjacentSymmetric(g[i], p);
      assert InBounds(g[i]) && At(b, g[i]) == opp;
      assert p !in m;
    }
  }

  /** Each listed group is a group rooted at an edge cell, and no two share a cell. */
  ghost predicate RootedGroups(b: Board, opp: int, groups: seq<seq<Pos>>)
    requires WellFormed(b)
  {
    (forall j | 0 <= j < |groups| :: IsGroup(b, opp, groups[j]) && IsOnEdge(groups[j][0])) &&
    (forall i, j | 0 <= i < j < |groups| :: Disjoint(groups[i], groups[j]))
  }

  /** A new edge-rooted group that avoids every listed cell can be appended. */
  lemma {:induction false} RootedSnoc(b: Board, opp: int, groups: seq<seq<Pos>>, g: seq<Pos>)
    requires WellFormed(b) && RootedGroups(b, opp, groups)
    requires IsGroup(b, opp, g) && IsOnEdge(g[0])
    requires forall k | 0 <= k < |g| :: g[k] !in AllMembers(groups)
    ensures RootedGroups(b, opp, groups + [g])
  {
    var gs := groups + [g];
    forall i, j | 0 <= i < j < |gs|
      ensures Disjoint(gs[i], gs[j])
    {
      if j == |groups| {
        forall k | 0 <= k < |gs[i]|
          ensures gs[i][k] !in g
        {
          AllMembersHas(groups, i, groups[i][k]);
        }
      } else {
        assert gs[i] == groups[i] && gs[j] == groups[j];
      }
    }
  }

  /** Every edge cell holding opp that comes before (y, x) in row-major order is in m. */
  ghost predicate EdgeCoveredBefore(b: Board, opp: int, m: set<Pos>, y: int, x: int)
    requires WellFormed(b)
  {
    forall q | InBounds(q) && IsOnEdge(q) && At(b, q) == opp && (q.row < y || (q.row == y && q.col < x)) :: q in m
  }

  /** Passing the cell (y, x) of the scan. */
  lemma {:induction false} EdgeCoveredStep(b: Board, opp: int, m1: set<Pos>, m2: set<Pos>, y: int, x: int)
    requires WellFormed(b) && InBounds(Pos(y, x)) && EdgeCoveredBefore(b, opp, m1, y, x) && m1 <= m2
    requires IsOnEdge(Pos(y, x)) && At(b, Pos(y, x)) == opp ==> Pos(y, x) in m2
    ensures EdgeCoveredBefore(b, opp, m2, y, x + 1)
  {
    forall q | InBounds(q) && IsOnEdge(q) && At(b, q) == opp && (q.row < y || (q.row == y && q.col < x + 1))
      ensures q in m2
    {
      if q.row == y && q.col == x {
        assert q == Pos(y, x);
      }
    }
  }

  /** Passing the end of row y of the scan. */
  lemma {:induction false} EdgeCoveredRow(b: Board, opp: int, m: set<Pos>, y: int)
    requires WellFormed(b) && EdgeCoveredBefore(b, opp, m, y, N)
    ensures EdgeCoveredBefore(b, opp, m, y + 1, 0)
  {
  }

  /** Rooted groups that hold every edge cell of opp are a complete edge-group list. */
  lemma {:induction false} RootedComplete(b: Board, opp: int, groups: seq<seq<Pos>>)
    requires WellFormed(b) && RootedGroups(b, opp, groups)
    requires EdgeCoveredBefore(b, opp, AllMembers(groups), N, 0)
    ensures EdgeGroups(b, opp, groups)
  {
    forall q | InBounds(q) && IsOnEdge(q) && At(b, q) == opp
      ensures exists j | 0 <= j < |groups| :: q in groups[j]
    {
      var j := AllMembersSource(groups, q);
    }
  }
}
