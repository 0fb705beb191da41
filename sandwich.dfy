/**
 * Sandwich capture: after a piece of `player` lands on p, along each of the
 * four directions the run of opponent pieces next to p is removed when the
 * cell just past the run holds a piece of `player`.
 */
module Sandwich {
  import opened Grid
  import opened Moves

  /** The opponent run next to p along d is closed off by a piece of the mover. */
  predicate Flanked(b: Board, player: int, p: Pos, d: Dir)
    requires WellFormed(b) && InBounds(p)
  {
    RayCell(b, p, d, Run(b, p, d, -player) + 1, player)
  }

  /** The cells 1..n steps from p along d. */
  function RunCells(p: Pos, d: Dir, n: int): set<Pos>
    decreases n
  {
    if n <= 0 then {} else RunCells(p, d, n - 1) + {Offset(p, d, n)}
  }

  /** The end of the walk of one direction of the sandwich rule: the cells collected while
      walking past the opponent run are exactly that run, and the cell reached decides
      whether it is flanked. */
  lemma {:induction false} ScanEnd(b: Board, player: int, p: Pos, d: Dir, k: int, captured: seq<Pos>)
    requires WellFormed(b) && InBounds(p) && 1 <= k
    requires RunOf(b, p, d, -player, k - 1) && !RayCell(b, p, d, k, -player)
    requires captured == Steps(p, d, k - 1)
    ensures captured == Steps(p, d, Run(b, p, d, -player))
    ensures Flanked(b, player, p, d) == RayCell(b, p, d, k, player)
  {
    RunUnique(b, p, d, -player, k - 1);
  }

  /** The listed cells of a run of v-cells are on the board. */
  lemma {:induction false} StepsInBounds(b: Board, p: Pos, d: Dir, v: int, n: int)
    requires WellFormed(b) && 0 <= n && RunOf(b, p, d, v, n)
    ensures forall j | 0 <= j < n :: InBounds(Steps(p, d, n)[j])
  {
    forall j | 0 <= j < n
      ensures InBounds(Steps(p, d, n)[j])
    {
      assert RayCell(b, p, d, j + 1, v);
    }
  }

  /** Listing the cells of a run nearest first loses none and adds none. */
  lemma {:induction false} StepsCells(p: Pos, d: Dir, n: int)
    requires 0 <= n
    ensures Members(Steps(p, d, n)) == RunCells(p, d, n)
  {
    if n > 0 {
      StepsCells(p, d, n - 1);
      var s := Steps(p, d, n - 1);
      assert Steps(p, d, n) == s + [Offset(p, d, n)];
      assert Members(s + [Offset(p, d, n)]) == Members(s) + {Offset(p, d, n)};
    }
  }

  /** What the rule removes in direction d: the whole opponent run if it is flanked, else nothing. */
  function DirCaptures(b: Board, player: int, p: Pos, d: Dir): set<Pos>
    requires WellFormed(b) && InBounds(p)
  {
    if Flanked(b, player, p, d) then RunCells(p, d, Run(b, p, d, -player)) else {}
  }

  /** What the rule removes in the first i directions of Directions. */
  function CapturesUpTo(b: Board, player: int, p: Pos, i: int): set<Pos>
    requires WellFormed(b) && InBounds(p) && 0 <= i <= |Directions|
  {
    if i == 0 then {} else CapturesUpTo(b, player, p, i - 1) + DirCaptures(b, player, p, Directions[i - 1])
  }

  /** The cells the rule clears when every direction is judged on the board as it was when
      the piece landed. */
  function Captures(b: Board, player: int, p: Pos): set<Pos>
    requires WellFormed(b) && InBounds(p)
  {
    CapturesUpTo(b, player, p, |Directions|)
  }

  /** The source's _check_sandwiched over the first i directions: each direction is judged on
      the board its predecessors left, and its flanked run is emptied. */
  function SandwichUpTo(b: Board, player: int, p: Pos, i: int): (r: Board)
    requires WellFormed(b) && InBounds(p) && 0 <= i <= |Directions|
    ensures WellFormed(r)
  {
    if i == 0 then b
    else
      var a := SandwichUpTo(b, player, p, i - 1);
      Clear(a, DirCaptures(a, player, p, Directions[i - 1]))
  }

  function Sandwich(b: Board, player: int, p: Pos): Board
    requires WellFormed(b) && InBounds(p)
  {
    SandwichUpTo(b, player, p, |Directions|)
  }

  /** Judging the directions one after another clears exactly what judging them all on the
      original board clears. */
  lemma {:induction false} SandwichUpToAtOnce(b: Board, player: int, p: Pos, i: int)
    requires WellFormed(b) && InBounds(p) && 0 <= i <= |Directions|
    ensures SandwichUpTo(b, player, p, i) == Clear(b, CapturesUpTo(b, player, p, i))
  {
    if i == 0 {
      ClearNothing(b);
    } else {
      var a := SandwichUpTo(b, player, p, i - 1);
      assert SandwichUpTo(b, player, p, i) == Clear(a, DirCaptures(a, player, p, Directions[i - 1]));
      SandwichUpToAtOnce(b, player, p, i - 1);
      CapturesUpToStep(b, a, player, p, i - 1);
      assert Clear(a, DirCaptures(a, player, p, Directions[i - 1])) == Clear(b, CapturesUpTo(b, player, p, i));
    }
  }

  lemma {:induction false} SandwichAtOnce(b: Board, player: int, p: Pos)
    requires WellFormed(b) && InBounds(p)
    ensures Sandwich(b, player, p) == Clear(b, Captures(b, player, p))
  {
    SandwichUpToAtOnce(b, player, p, |Directions|);
  }

  /** Two different directions from p never reach the same cell. */
  lemma {:induction false} RaysDisjoint(p: Pos, d: Dir, e: Dir, k: int, m: int)
    requires 1 <= k && 1 <= m && d != e
    ensures Offset(p, d, k) != Offset(p, e, m)
  {
  }

  /** Everything the first i directions capture is captured by one of them. */
  lemma {:induction false} CapturesUpToOnRays(b: Board, player: int, p: Pos, i: int, x: Pos)
    requires WellFormed(b) && InBounds(p) && 0 <= i <= |Directions|
    requires x in CapturesUpTo(b, player, p, i)
    ensures exists j :: 0 <= j < i && x in DirCaptures(b, player, p, Directions[j])
  {
    if x !in DirCaptures(b, player, p, Directions[i - 1]) {
      CapturesUpToOnRays(b, player, p, i - 1, x);
    }
  }

  /** What direction d captures lies within the opponent run along d. */
  lemma {:induction false} DirCapturesOnRay(b: Board, player: int, p: Pos, d: Dir, x: Pos) returns (m: int)
    requires WellFormed(b) && InBounds(p)
    requires x in DirCaptures(b, player, p, d)
    ensures 1 <= m <= Run(b, p, d, -player) && x == Offset(p, d, m) && RayCell(b, p, d, m, -player)
  {
    m := RunCellsSource(p, d, Run(b, p, d, -player), x);
  }

  /** Every cell of RunCells(p, d, n) is m steps out for some 1 <= m <= n. */
  lemma {:induction false} RunCellsSource(p: Pos, d: Dir, n: int, x: Pos) returns (m: int)
    requires x in RunCells(p, d, n)
    ensures 1 <= m <= n && x == Offset(p, d, m)
    decreases n
  {
    if x == Offset(p, d, n) {
      m := n;
    } else {
      m := RunCellsSource(p, d, n - 1, x);
    }
  }

  /** The cell m steps out is in RunCells(p, d, n) for 1 <= m <= n. */
  lemma {:induction false} RunCellsHas(p: Pos, d: Dir, n: int, m: int)
    requires 1 <= m <= n
    ensures Offset(p, d, m) in RunCells(p, d, n)
    decreases n
  {
    if m < n {
      RunCellsHas(p, d, n - 1, m);
    }
  }

  /** The rule removes only opponent pieces. */
  lemma {:induction false} CapturesAreOpponents(b: Board, player: int, p: Pos, x: Pos)
    requires WellFormed(b) && InBounds(p)
    requires x in Captures(b, player, p)
    ensures InBounds(x) && At(b, x) == -player
  {
    CapturesUpToOnRays(b, player, p, |Directions|, x);
    var j :| 0 <= j < |Directions| && x in DirCaptures(b, player, p, Directions[j]);
    var m := DirCapturesOnRay(b, player, p, Directions[j], x);
  }

  /** The four directions are pairwise different. */
  lemma {:induction false} DirectionsDistinct(i: int, j: int)
    requires 0 <= i < |Directions| && 0 <= j < |Directions| && i != j
    ensures Directions[i] != Directions[j]
  {
  }

  /** Every direction has a place in Directions. */
  lemma DirectionIndex(d: Dir) returns (j: int)
    ensures 0 <= j < |Directions| && Directions[j] == d
  {
    j := match d case Up => 0 case Down => 1 case Left => 2 case Right => 3;
  }

  /** What direction j captures is captured by the first i directions once j < i. */
  lemma {:induction false} DirInCapturesUpTo(b: Board, player: int, p: Pos, i: int, j: int, x: Pos)
    requires WellFormed(b) && InBounds(p) && 0 <= j < i <= |Directions|
    requires x in DirCaptures(b, player, p, Directions[j])
    ensures x in CapturesUpTo(b, player, p, i)
  {
    if j < i - 1 {
      DirInCapturesUpTo(b, player, p, i - 1, j, x);
    }
  }

  /** The cell k steps out lies in the first n cells of the ray exactly when k <= n. */
  lemma {:induction false} RunCellsOnRay(p: Pos, d: Dir, n: int, k: int)
    requires 1 <= k
    ensures Offset(p, d, k) in RunCells(p, d, n) <==> k <= n
  {
    if Offset(p, d, k) in RunCells(p, d, n) {
      var m := RunCellsSource(p, d, n, Offset(p, d, k));
      assert m == k;
    }
    if k <= n {
      RunCellsHas(p, d, n, k);
    }
  }

  /** A cell on the ray along d is captured exactly when direction d captures it. */
  lemma {:induction false} CapturesOnRay(b: Board, player: int, p: Pos, d: Dir, k: int)
    requires WellFormed(b) && InBounds(p) && 1 <= k
    ensures Offset(p, d, k) in Captures(b, player, p) <==> Offset(p, d, k) in DirCaptures(b, player, p, d)
  {
    var x := Offset(p, d, k);
    if x in Captures(b, player, p) {
      CapturesUpToOnRays(b, player, p, |Directions|, x);
      var j :| 0 <= j < |Directions| && x in DirCaptures(b, player, p, Directions[j]);
      var m := DirCapturesOnRay(b, player, p, Directions[j], x);
      if Directions[j] != d {
        RaysDisjoint(p, d, Directions[j], k, m);
        assert false;
      }
    }
    if x in DirCaptures(b, player, p, d) {
      var j := DirectionIndex(d);
      DirInCapturesUpTo(b, player, p, |Directions|, j, x);
    }
  }

  /** On the ray from p along d, a cell k steps out is emptied exactly when it belongs to
      the opponent run in that direction and that run is flanked by the mover; the other
      directions never touch it. */
  lemma {:induction false} SandwichOnRay(b: Board, player: int, p: Pos, d: Dir, k: int)
    requires WellFormed(b) && InBounds(p) && 1 <= k && InBounds(Offset(p, d, k))
    ensures At(Sandwich(b, player, p), Offset(p, d, k)) ==
              if k <= Run(b, p, d, -player) && Flanked(b, player, p, d) then EMPTY
              else At(b, Offset(p, d, k))
  {
    SandwichAtOnce(b, player, p);
    CapturesOnRay(b, player, p, d, k);
    RunCellsOnRay(p, d, Run(b, p, d, -player), k);
  }

  /** Cells off the four rays from p, and p itself, are never touched. */
  lemma {:induction false} SandwichOffRays(b: Board, player: int, p: Pos, q: Pos)
    requires WellFormed(b) && InBounds(p) && InBounds(q)
    requires q == p || (q.row != p.row && q.col != p.col)
    ensures At(Sandwich(b, player, p), q) == At(b, q)
  {
    SandwichAtOnce(b, player, p);
    if q in Captures(b, player, p) {
      CapturesUpToOnRays(b, player, p, |Directions|, q);
      var j :| 0 <= j < |Directions| && q in DirCaptures(b, player, p, Directions[j]);
      var m := DirCapturesOnRay(b, player, p, Directions[j], q);
      OffRay(p, Directions[j], m, q);
      assert false;
    }
  }

  /** p itself and the cells outside its row and column are on no ray from p. */
  lemma {:induction false} OffRay(p: Pos, d: Dir, m: int, q: Pos)
    requires 1 <= m
    requires q == p || (q.row != p.row && q.col != p.col)
    ensures q != Offset(p, d, m)
  {
  }

  /** A run that ends at an empty cell or at the edge is left alone, as is an empty run. */
  lemma {:induction false} NoFalseSandwich(b: Board, player: int, p: Pos, d: Dir)
    requires WellFormed(b) && InBounds(p) && IsSide(player)
    requires var e := Offset(p, d, Run(b, p, d, -player) + 1); !InBounds(e) || At(b, e) == EMPTY
    ensures forall k | 1 <= k && InBounds(Offset(p, d, k)) ::
              At(Sandwich(b, player, p), Offset(p, d, k)) == At(b, Offset(p, d, k))
  {
    assert !Flanked(b, player, p, d);
    forall k | 1 <= k && InBounds(Offset(p, d, k))
      ensures At(Sandwich(b, player, p), Offset(p, d, k)) == At(b, Offset(p, d, k))
    {
      SandwichOnRay(b, player, p, d, k);
    }
  }

  lemma {:induction false} FlankedFrame(a: Board, b: Board, player: int, p: Pos, d: Dir)
    requires WellFormed(a) && WellFormed(b) && InBounds(p)
    requires Run(a, p, d, -player) == Run(b, p, d, -player)
    requires SameRay(a, b, p, d)
    ensures Flanked(a, player, p, d) == Flanked(b, player, p, d)
  {
    assert RayCell(a, p, d, Run(b, p, d, -player) + 1, player) == RayCell(b, p, d, Run(b, p, d, -player) + 1, player);
  }

  /** What the rule captures along d depends only on the cells of that ray. */
  lemma {:induction false} DirCapturesFrame(a: Board, b: Board, player: int, p: Pos, d: Dir)
    requires WellFormed(a) && WellFormed(b) && InBounds(p)
    requires SameRay(a, b, p, d)
    ensures DirCaptures(a, player, p, d) == DirCaptures(b, player, p, d)
  {
    RunFrame(a, b, p, d, -player);
    FlankedFrame(a, b, player, p, d);
  }

  /** Clearing cells off the ray keeps the ray as it was. */
  lemma {:induction false} ClearOffRay(b: Board, s: set<Pos>, p: Pos, d: Dir)
    requires WellFormed(b) && InBounds(p)
    requires forall k | 1 <= k :: Offset(p, d, k) !in s
    ensures SameRay(Clear(b, s), b, p, d)
  {
  }

  /** What the first i directions capture is disjoint from the ray of the next direction. */
  lemma {:induction false} EarlierCapturesOffRay(b: Board, player: int, p: Pos, i: int)
    requires WellFormed(b) && InBounds(p) && 0 <= i < |Directions|
    ensures forall k | 1 <= k :: Offset(p, Directions[i], k) !in CapturesUpTo(b, player, p, i)
  {
    forall k | 1 <= k && Offset(p, Directions[i], k) in CapturesUpTo(b, player, p, i)
      ensures false
    {
      var x := Offset(p, Directions[i], k);
      CapturesUpToOnRays(b, player, p, i, x);
      var j :| 0 <= j < i && x in DirCaptures(b, player, p, Directions[j]);
      var m := DirCapturesOnRay(b, player, p, Directions[j], x);
      DirectionsDistinct(i, j);
      RaysDisjoint(p, Directions[i], Directions[j], k, m);
    }
  }

  /** One step of the direction-by-direction rule: on the board a that the first i directions
      left, direction i captures what it captures on the original board, so clearing it gives
      the board the first i + 1 directions leave when all are judged on the original. */
  lemma {:induction false} CapturesUpToStep(b: Board, a: Board, player: int, p: Pos, i: int)
    requires WellFormed(b) && InBounds(p) && 0 <= i < |Directions|
    requires a == Clear(b, CapturesUpTo(b, player, p, i))
    ensures WellFormed(a)
    ensures Clear(a, DirCaptures(a, player, p, Directions[i])) == Clear(b, CapturesUpTo(b, player, p, i + 1))
  {
    var done := CapturesUpTo(b, player, p, i);
    var t := DirCaptures(b, player, p, Directions[i]);
    EarlierCapturesOffRay(b, player, p, i);
    ClearOffRay(b, done, p, Directions[i]);
    DirCapturesFrame(a, b, player, p, Directions[i]);
    ClearClear(b, done, t);
    assert CapturesUpTo(b, player, p, i + 1) == done + t;
  }
}
