/**
 * One complete move: the piece slides, the sandwich rule is applied around
 * the square it reaches, then the encirclement rule removes enclosed edge
 * groups of the opponent.
 */
module Rules {
  import opened Grid
  import opened Moves
  import Sandwich
  import opened Encircle

  /** The board after `player` moves the piece on `from` to `to`: `to` is written first and
      `from` emptied second, then both capture rules run. */
  ghost function AfterMove(b: Board, player: int, from: Pos, to: Pos): Board
    requires WellFormed(b) && IsSide(player) && InBounds(from) && InBounds(to)
  {
    var moved := Put(Put(b, to, player), from, EMPTY);
    Surround(Sandwich.Sandwich(moved, player, to), -player)
  }

  /** Only opponent pieces are ever cleared by the encirclement rule. */
  lemma {:induction false} CaptureSetOpponents(b: Board, opp: int, q: Pos)
    requires WellFormed(b) && q in CaptureSet(b, opp)
    ensures InBounds(q) && At(b, q) == opp
  {
    CaptureSetSpec(b, opp, q);
    var g :| IsGroup(b, opp, g) && TouchesEdge(g) && IsGroupEnclosed(b, opp, g) && q in g;
    var k :| 0 <= k < |g| && g[k] == q;
  }

  /** Emptying only cells that hold the opponent of v: each cell keeps its value or goes from
      -v to EMPTY, v keeps its count and -v does not gain. */
  lemma {:induction false} ClearOpponents(b: Board, s: set<Pos>, v: int)
    requires WellFormed(b) && IsSide(v)
    requires forall q | q in s && InBounds(q) :: At(b, q) == -v
    ensures forall q | InBounds(q) :: At(Clear(b, s), q) == At(b, q) || (At(b, q) == -v && At(Clear(b, s), q) == EMPTY)
    ensures CountUsed(Clear(b, s), v) == CountUsed(b, v)
    ensures CountUsed(Clear(b, s), -v) <= CountUsed(b, -v)
  {
    CountClear(b, s, v);
    CountClear(b, s, -v);
  }

  lemma {:induction false} SandwichOpponents(b: Board, player: int, p: Pos)
    requires WellFormed(b) && IsSide(player) && InBounds(p)
    ensures var a := Sandwich.Sandwich(b, player, p);
      (forall q | InBounds(q) :: At(a, q) == At(b, q) || (At(b, q) == -player && At(a, q) == EMPTY)) &&
      CountUsed(a, player) == CountUsed(b, player) &&
      CountUsed(a, -player) <= CountUsed(b, -player)
  {
    var s := Sandwich.Captures(b, player, p);
    Sandwich.SandwichAtOnce(b, player, p);
    forall q | q in s && InBounds(q)
      ensures At(b, q) == -player
    {
      Sandwich.CapturesAreOpponents(b, player, p, q);
    }
    ClearOpponents(b, s, player);
  }

  lemma {:induction false} SurroundOpponents(b: Board, player: int)
    requires WellFormed(b) && IsSide(player)
    ensures var a := Surround(b, -player);
      (forall q | InBounds(q) :: At(a, q) == At(b, q) || (At(b, q) == -player && At(a, q) == EMPTY)) &&
      CountUsed(a, player) == CountUsed(b, player) &&
      CountUsed(a, -player) <= CountUsed(b, -player)
  {
    var s := CaptureSet(b, -player);
    forall q | q in s && InBounds(q)
      ensures At(b, q) == -player
    {
      CaptureSetOpponents(b, -player, q);
    }
    ClearOpponents(b, s, player);
  }

  /** The slide alone: `from` empties, `to` gets the mover, counts are unchanged. */
  lemma {:induction false} SlideEffect(b: Board, player: int, from: Pos, to: Pos)
    requires WellFormed(b) && IsSide(player) && InBounds(from) && InBounds(to) && from != to
    requires At(b, from) == player && At(b, to) == EMPTY
    ensures var m := Put(Put(b, to, player), from, EMPTY);
      At(m, from) == EMPTY && At(m, to) == player &&
      (forall q | InBounds(q) && q != from && q != to :: At(m, q) == At(b, q)) &&
      CountUsed(m, player) == CountUsed(b, player) &&
      CountUsed(m, -player) == CountUsed(b, -player)
  {
    CountPut(b, to, player, player);
    CountPut(Put(b, to, player), from, EMPTY, player);
    CountPut(b, to, player, -player);
    CountPut(Put(b, to, player), from, EMPTY, -player);
  }

  /** A legal move leaves its source empty and the mover on its target; every other cell keeps
      its value or loses an opponent piece. The mover loses no piece and the opponent gains none. */
  lemma {:induction false} MoveEffect(b: Board, player: int, from: Pos, to: Pos)
    requires WellFormed(b) && IsSide(player) && InBounds(from)
    requires to in PieceMoves(b, player, from)
    ensures InBounds(to) && to != from
    ensures var a := AfterMove(b, player, from, to);
      At(a, from) == EMPTY && At(a, to) == player &&
      (forall q | InBounds(q) && q != from && q != to :: At(a, q) == At(b, q) || (At(b, q) == -player && At(a, q) == EMPTY)) &&
      CountUsed(a, player) == CountUsed(b, player) &&
      CountUsed(a, -player) <= CountUsed(b, -player)
  {
    PieceMovesAreEmptyCells(b, player, from, to);
    var m := Put(Put(b, to, player), from, EMPTY);
    SlideEffect(b, player, from, to);
    var s := Sandwich.Sandwich(m, player, to);
    SandwichOpponents(m, player, to);
    var a := Surround(s, -player);
    SurroundOpponents(s, player);
    Compose(b, m, s, a, player, from, to);
  }

  /** Chains the effects of the slide and the two capture rules. */
  lemma {:induction false} Compose(b: Board, m: Board, s: Board, a: Board, player: int, from: Pos, to: Pos)
    requires WellFormed(b) && WellFormed(m) && WellFormed(s) && WellFormed(a) && IsSide(player)
    requires InBounds(from) && InBounds(to) && from != to
    requires At(m, from) == EMPTY && At(m, to) == player
    requires forall q | InBounds(q) && q != from && q != to :: At(m, q) == At(b, q)
    requires CountUsed(m, player) == CountUsed(b, player) && CountUsed(m, -player) == CountUsed(b, -player)
    requires forall q | InBounds(q) :: At(s, q) == At(m, q) || (At(m, q) == -player && At(s, q) == EMPTY)
    requires CountUsed(s, player) == CountUsed(m, player) && CountUsed(s, -player) <= CountUsed(m, -player)
    requires forall q | InBounds(q) :: At(a, q) == At(s, q) || (At(s, q) == -player && At(a, q) == EMPTY)
    requires CountUsed(a, player) == CountUsed(s, player) && CountUsed(a, -player) <= CountUsed(s, -player)
    ensures At(a, from) == EMPTY && At(a, to) == player
    ensures forall q | InBounds(q) && q != from && q != to :: At(a, q) == At(b, q) || (At(b, q) == -player && At(a, q) == EMPTY)
    ensures CountUsed(a, player) == CountUsed(b, player) && CountUsed(a, -player) <= CountUsed(b, -player)
  {
    assert At(s, from) == EMPTY && At(s, to) == player;
  }
}
