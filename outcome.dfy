/**
 * End of game: a side that is down to fewer than half a row of pieces
 * (fewer than 9 / 2, so at most four) has lost.
 */
module Outcome {
  import opened Grid
  import opened Wrappers

  /** The source's is_finished: whether the game is over and, if so, who won. The
      source compares a count with 9 / 2 = 4.5, written here as 2 * count < N. */
  function IsFinished(b: Board): (r: (bool, Option<int>))
    ensures r.0 <==> r.1.Some?
  {
    if 2 * CountUsed(b, PLAYER) < N then (true, Some(ENEMY))
    else if 2 * CountUsed(b, ENEMY) < N then (true, Some(PLAYER))
    else (false, None)
  }

  /** The threshold is four pieces, and PLAYER is checked first, so ENEMY is named the
      winner when both sides are down to four or fewer. */
  lemma {:induction false} IsFinishedSpec(b: Board)
    ensures IsFinished(b) == (true, Some(ENEMY)) <==> CountUsed(b, PLAYER) <= 4
    ensures IsFinished(b) == (true, Some(PLAYER)) <==> CountUsed(b, PLAYER) >= 5 && CountUsed(b, ENEMY) <= 4
    ensures IsFinished(b) == (false, None) <==> CountUsed(b, PLAYER) >= 5 && CountUsed(b, ENEMY) >= 5
  {
  }

  /** A fresh game is not over. */
  lemma InitialNotFinished()
    ensures IsFinished(InitialBoard()) == (false, None)
  {
    InitialCounts();
  }
}
