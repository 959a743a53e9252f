/** The four moves a player can input, each recorded in a replay as its letter:
    L (left), R (right), D (down) and U (rotate). */
module Moves {

  predicate IsMove(c: char) {
    c == 'L' || c == 'R' || c == 'D' || c == 'U'
  }

  type Move = c: char | IsMove(c) witness 'L'

  /** Position of a move in the fixed order L, R, D, U. */
  function MoveIndex(m: Move): (i: nat)
    ensures i < 4
    ensures m == "LRDU"[i]
  {
    if m == 'L' then 0 else if m == 'R' then 1 else if m == 'D' then 2 else 3
  }
}
