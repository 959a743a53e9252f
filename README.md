# HATETRIS game core in Dafny

This project models two parts of HATETRIS, the falling-block game whose next
piece is picked to be as unhelpful as possible.

- **The well engine** (`engine.dfy`): `getNextState` of
  `src/components/Game/Game.jsx`.
  - A move L, R, D or U is applied to a well state `{well, score, piece}`.
  - A move that is out of bounds or collides (bit-mask AND of a piece row,
    shifted to its column, with the well row) is rejected.
  - A blocked D locks the pre-move piece: it is OR-ed into a copy of the well.
    When the piece's box starts at or below the bar, its complete rows are
    cleared and scored.
  - Rows are 32-bit masks (`bv32`), the bit patterns of JavaScript's bitwise
    operators.
  - The lock is modelled twice: as functions on sequences (`Stamp`,
    `ShiftDown`, `ClearRows`, `NextState`) and as array methods that do the
    source's in-place loops and are proved equal to them.
- **The timeline** (`timeline.dfy`): the `Game` class's state machine over
  `mode`, `wellStateId`, `wellStates` and `replay`.
  - Moves reuse the stored future when they repeat the logged move.
    Otherwise they cut the log and the history at the cursor.
  - Undo and redo move the cursor. Start and loading a replay reset
    everything.
  - The class invariant `Valid` says that the history agrees with the log:
    each state after the first is the `Successor` of the one before it under
    the logged move. A successor is the engine's next state, with a new piece
    placed when the old one locked and the game is not over.
- **The legacy hex replay codec** (`hex.dfy`): `src/replay-codecs/hex.ts`.
  - Encoding packs two moves per hex digit and groups the digits in fours.
  - Decoding uses the reverse table and ignores every non-hex character.
- `moves.dfy` holds the move alphabet.

Collaborators the core calls but does not define are fields of the `Game`
class, set by its constructor:
- `enemyAi`, the piece chooser, a function from a well to a piece id;
- `placeNewPiece`, the spawn rule of the rotation system.

The rotation table is part of `Config`. The model assumes that these
collaborators return a piece of the table lying inside the well (`SpawnOk`).

Two behaviours are modelled as written:
- The line-clear loop stops at row 2 (`k > 1`, Game.jsx:141). Row 1 is
  never overwritten; row 0 is blanked (`Engine.ShiftDown`).
- Loading a replay always sets the mode to Replaying, even for an empty log
  (Game.jsx:212-218). A later version of the game goes to Playing instead;
  this model follows Game.jsx.

## Model

| member | source | states |
|---|---|---|
| Moves.MoveIndex | src/replay-codecs/hex.ts:19-22 | the position of a move in the table order L, R, D, U |
| Hex.IsHexChar | src/replay-codecs/hex.ts:12 | the digit test: a character from 0 to 9 or from A to F |
| Hex.IsHexCharIsListed | src/replay-codecs/hex.ts:10-12 | a character is a hex digit exactly when it is one of the 16 listed digits |
| Hex.ForwardLookup | src/replay-codecs/hex.ts:14-23 | every pair of moves encodes to a hex digit |
| Hex.ForwardLookupRowMajor | src/replay-codecs/hex.ts:19-22 | the forward table is row-major over L, R, D, U: pair (a, b) is digit 4·index(a) + index(b) |
| Hex.ForwardLookupInjective | src/replay-codecs/hex.ts:19-22 | two pairs encode to the same digit if and only if they are the same pair |
| Hex.ReverseLookup | src/replay-codecs/hex.ts:25-44 | every digit decodes to exactly two symbols |
| Hex.ForwardOfReverse | src/replay-codecs/hex.ts:28-43 | a digit decodes to L, E exactly when it is 0; every other digit decodes to two moves that encode back to it |
| Hex.ReverseOfForward | src/replay-codecs/hex.ts:19-43 | a pair decodes back to itself, except that (L, L) comes back as L, E |
| Hex.Digits | src/replay-codecs/hex.ts:49-60 | the unspaced encoding has ceil(n/2) characters, all hex digits |
| Hex.DigitsAt | src/replay-codecs/hex.ts:50-58 | digit k encodes moves 2k and 2k+1, with D in place of a missing last move |
| Hex.Pad | src/replay-codecs/hex.ts:55-56 | padding gives even length, keeps the moves as a prefix and adds at most one D |
| Hex.DigitsPad | src/replay-codecs/hex.ts:55-58 | an odd-length sequence encodes like the same sequence with D appended |
| Hex.Group | src/replay-codecs/hex.ts:61 | grouping adds one character per complete group of four |
| Hex.GroupAt | src/replay-codecs/hex.ts:61 | in grouped text, position i is a space when i mod 5 = 4 and otherwise is ungrouped character i - i/5 |
| Hex.Encode | src/replay-codecs/hex.ts:49-61 | the length of an encoding is ceil(n/2) digits plus one space per complete group of four |
| Hex.EncodeLayout | src/replay-codecs/hex.ts:49-61 | an encoding has a space exactly at positions i mod 5 = 4 and digit i - i/5 elsewhere |
| Hex.HexDigitsOf | src/replay-codecs/hex.ts:66-68 | the kept characters are hex digits, and there are no more of them than the input has |
| Hex.Decode | src/replay-codecs/hex.ts:66-69 | decoding emits exactly two symbols per hex digit of the input |
| Hex.DecodeAppend | src/replay-codecs/hex.ts:66-69 | decoding a concatenation decodes each part and concatenates the results |
| Hex.DecodeIgnoresNonHex | src/replay-codecs/hex.ts:66-69 | decoding a text decodes its hex digits alone; every other character is dropped |
| Hex.DecodeAt | src/replay-codecs/hex.ts:66-69 | for all-hex text, symbols 2k and 2k+1 of the output are the reverse-table entry of digit k |
| Hex.DecodeGroup | src/replay-codecs/hex.ts:61-69 | the spaces the encoder inserts do not change what decodes |
| Hex.ZeroQuirk | src/replay-codecs/hex.ts:28 | the decoder's view of an even sequence: each aligned (L, L) becomes L, E; the length is kept |
| Hex.ZeroQuirkIdentity | src/replay-codecs/hex.ts:28 | the decoder's view equals the sequence if and only if no aligned pair is (L, L) |
| Hex.DecodeDigits | src/replay-codecs/hex.ts:49-69 | decoding the digits of an even sequence gives the decoder's view of it |
| Hex.RoundTrip | src/replay-codecs/hex.ts:49-69 | decoding an encoding gives the padded sequence with each aligned (L, L) as L, E |
| Hex.RoundTripExact | src/replay-codecs/hex.ts:49-69 | decoding an encoding gives back exactly the padded sequence if and only if it has no aligned (L, L) |
| Hex.DecodeExample | src/replay-codecs/hex.ts:66-69 | "A9E" decodes to D, D, D, R, U, D |
| Hex.EncodeExample | src/replay-codecs/hex.ts:49-61 | D, D, D, R, U, D encodes to "A9E"; ten Ds and an L encode to "AAAA A2" |
| Hex.ZeroDigitCounterexample | src/replay-codecs/hex.ts:28 | L, L encodes to "0", which decodes to L, E and not to L, L |
| Hex.MoveAt | src/replay-codecs/hex.ts:19-22 | the move at a position of the table order, the inverse of MoveIndex |
| Hex.HexValue | src/replay-codecs/hex.ts:10 | the position of a digit in the digit list |
| Hex.IntendedReverseLookup | src/replay-codecs/hex.ts:25-44 | corrected reverse table: each digit maps to the pair of moves that encodes to it |
| Hex.IntendedReverseLookupAgrees | src/replay-codecs/hex.ts:28-43 | the corrected table maps 0 to L, L and agrees with the written table on every other digit |
| Hex.IntendedReverseOfForward | src/replay-codecs/hex.ts:19-43 | with the corrected table, every pair of moves decodes back to itself |
| Hex.DecodeIntended | src/replay-codecs/hex.ts:66-69 | the corrected decoder emits exactly two moves per hex digit |
| Hex.DecodeIntendedAppend | src/replay-codecs/hex.ts:66-69 | the corrected decoder distributes over concatenation |
| Hex.DecodeIntendedGroup | src/replay-codecs/hex.ts:61-69 | the encoder's spaces do not change what the corrected decoder returns |
| Hex.DecodeIntendedDigits | src/replay-codecs/hex.ts:49-69 | the corrected decoder inverts the unspaced encoding of every even sequence |
| Hex.RoundTripIntended | src/replay-codecs/hex.ts:49-69 | with the corrected table, decoding an encoding gives back the sequence padded with D |
| Engine.CheckConfig | src/components/Game/Game.jsx:27-37 | the build checks in order: no pieces, then depth below bar, then width below 4; each error exactly when its own check fails and the earlier ones pass |
| Engine.OrientationOf | src/components/Game/Game.jsx:104 | the orientation of a piece has one row mask per box row |
| Engine.Translate | src/components/Game/Game.jsx:91-102 | L gives x-1, R gives x+1, D gives y+1, U gives o+1 mod 4; any other character leaves the piece as it is |
| Engine.InBounds | src/components/Game/Game.jsx:108-112 | the bounds test: the piece's box starts at column and row 0 or later and ends within the well's width and depth |
| Engine.Obstructed | src/components/Game/Game.jsx:113-115 | the collision test: some piece row, shifted to column xActual, shares a filled cell with the well row it covers |
| Engine.Fits | src/components/Game/Game.jsx:108-116 | a legal position: in bounds and not obstructed |
| Engine.ShiftRow | src/components/Game/Game.jsx:114 | a piece row shifted left to start at column xActual (`row << xActual`, also used at line 130) |
| Engine.FullRow | src/components/Game/Game.jsx:138 | the mask of a complete row, `(1 << wellWidth) - 1` |
| Engine.Stamp | src/components/Game/Game.jsx:128-131 | each row the piece covers is OR-ed with its shifted piece row; every other row is unchanged |
| Engine.ShiftDown | src/components/Game/Game.jsx:141-147 | clearing row r: rows 2..r take the row above, row 0 becomes 0, and row 1 and every row below r keep their values |
| Engine.FullCount | src/components/Game/Game.jsx:136-139 | the number of complete rows in a range is at most the range's length |
| Engine.ClearRows | src/components/Game/Game.jsx:135-151 | clearing keeps the depth of the well |
| Engine.ClearRowsCount | src/components/Game/Game.jsx:135-151 | clearing adds to the score exactly the complete piece rows when scoring (and nothing otherwise), and leaves the rows below the piece unchanged |
| Engine.ClearRowsNone | src/components/Game/Game.jsx:135-151 | with no complete piece row, or without scoring, clearing changes neither the well nor the score |
| Engine.Locked | src/components/Game/Game.jsx:117-131 | the stamped well has the depth of the old well |
| Engine.NextState | src/components/Game/Game.jsx:73-164 | every move leads to a well of full depth, with any remaining piece valid and inside the well |
| Engine.NextStateLegal | src/components/Game/Game.jsx:91-102 | a legal move changes only the one piece field it names; well and score stay the same |
| Engine.NextStateRejected | src/components/Game/Game.jsx:153-156 | an illegal move other than D returns the state unchanged, old piece included |
| Engine.NextStateLock | src/components/Game/Game.jsx:117-152 | a blocked D removes the piece and keeps the depth; the score rises by exactly the complete piece rows when the box is at or below the bar, and so by at most yDim; rows below the piece are kept; with nothing to clear the well is the old one with the piece OR-ed in |
| Engine.NextStateScore | src/components/Game/Game.jsx:135-151 | the score never falls, rises by at most yDim, and rises only on a blocked D with the box at or below the bar |
| Engine.ShiftDownInPlace | src/components/Game/Game.jsx:141-147 | the descending copy loop and the blanking of row 0 turn the array into ShiftDown of its old contents |
| Engine.StampInPlace | src/components/Game/Game.jsx:128-131 | the OR loop turns the array into Stamp of its old contents |
| Engine.ClearInPlace | src/components/Game/Game.jsx:135-151 | the clear loop turns the array and the score into ClearRows of the old ones |
| Engine.GetNextState | src/components/Game/Game.jsx:73-164 | the copy-then-mutate computation returns exactly NextState and leaves the input alone |
| Timeline.IsGameOver | src/components/Game/Game.jsx:292 | the game is over when row bar-1 is filled; a bar of 0 or less reads a row the well does not have, which the source compares as not 0, so the game counts as over |
| Timeline.EmptyWell | src/components/Game/Game.jsx:41 | the first well has full depth and every row empty |
| Timeline.Successor | src/components/Game/Game.jsx:282-305 | the stored successor has full depth and a valid piece, and lacks a piece only when the game is over |
| Timeline.SuccessorSpawns | src/components/Game/Game.jsx:298-305 | the successor keeps the next state's well and score; a new piece from placeNewPiece(width, enemyAi(well)) appears exactly when the old one locked and the game is not over |
| Timeline.SuccessorScore | src/components/Game/Game.jsx:282-305 | a move never lowers the score |
| Timeline.ChainTruncate | src/components/Game/Game.jsx:274-280 | cutting the history after the cursor and the log at the cursor, then logging a new move, keeps them in agreement |
| Timeline.ChainExtend | src/components/Game/Game.jsx:282-285 | appending the successor under the next logged move keeps history and log in agreement |
| Timeline.StoreSuccessor | src/components/Game/Game.jsx:282-305 | after the next state is stored or reused, the state after the cursor is the successor and the history still agrees with the log |
| Timeline.ComputeIfMissing | src/components/Game/Game.jsx:282-285 | the next state is computed and appended only when no stored state follows the cursor |
| Timeline.Advance | src/components/Game/Game.jsx:282-305 | the state after the cursor is the successor; the history is reused or extended by one state; the mode is GameOver if and only if row bar-1 is filled, Playing when a replay runs past the old log, and otherwise unchanged |
| Timeline.Game.constructor | src/components/Game/Game.jsx:39-55 | a new game is not started (GameOver, cursor -1, empty history and log); its first state is the empty well with score 0 and the first chosen piece |
| Timeline.Game.Create | src/components/Game/Game.jsx:27-55 | building fails exactly when a configuration check fails, with the first failing check's error, for any configuration; otherwise it gives a valid, not-started game (GameOver, cursor -1, empty history and log) holding the given collaborators and the first state: the empty well, score 0 and the first chosen piece |
| Timeline.Game.KeepOrCutFuture | src/components/Game/Game.jsx:266-280 | the log and history are kept when the log repeats the move at the cursor; otherwise the log is cut to the cursor plus the move, and the history to the states up to the cursor |
| Timeline.Game.NextTimeline | src/components/Game/Game.jsx:266-305 | the log, history and mode a move leads to, without changing the game: the move logged at the cursor, the successor stored after it, the log and history reused or cut, exactly one state appended when none followed the cursor, and the mode rule |
| Timeline.Game.HandleMove | src/components/Game/Game.jsx:252-313 | MoveApplied: the cursor advances by one and the log holds the move at the old cursor; the new state is the successor; on a repeat the log is kept and the history is kept when the next state was stored, and grows by exactly that one state when it was not; otherwise the log is cut and the move appended, and the history is cut plus one; the mode becomes GameOver if and only if row bar-1 is filled, else Playing when a replay runs past the old log, else stays; the invariant is kept |
| Timeline.Game.HandleClickStart | src/components/Game/Game.jsx:166-185 | start resets to the first well state, cursor 0, empty log, Playing |
| Timeline.Game.LoadReplay | src/components/Game/Game.jsx:207-218 | loading a replay sets the log, the first well state, cursor 0 and Replaying; a first step is scheduled if and only if the log is not empty |
| Timeline.Game.HandleDirection | src/components/Game/Game.jsx:315-349 | L, R, D and U apply the move (everything MoveApplied states, new mode included) if and only if the mode is Playing; otherwise nothing changes |
| Timeline.Game.HandleCtrlZ | src/components/Game/Game.jsx:351-377 | undo moves the cursor back and sets Playing if and only if a state precedes the cursor; otherwise nothing changes |
| Timeline.Game.HandleCtrlY | src/components/Game/Game.jsx:379-395 | redo applies the logged move at the cursor (everything MoveApplied states, new mode included, so redoing the last logged move in Replaying mode switches to Playing) if and only if the mode is Playing or Replaying and the log has a move there, and keeps the log; otherwise nothing changes, so redo at the end of the log is idempotent |
| Timeline.Game.InputReplayStep | src/components/Game/Game.jsx:221-247 | in Replaying mode a step applies the logged move at the cursor (everything MoveApplied states: new state, history and mode) and keeps the log; at the end of the log it changes nothing; it schedules the next step if and only if the mode was Replaying and the log has a move after the old cursor; in any other mode nothing changes and nothing is scheduled |
| Timeline.Game.ScoresNonDecreasing | src/components/Game/Game.jsx:266-312 | along a valid history scores never decrease |

## Left out

- Timers: `setTimeout`, `clearTimeout` and `replayTimeoutId` (Game.jsx:173-175, 198-209, 237-246, 360-365) are asynchronous scheduling. `LoadReplay` and `InputReplayStep` return whether a step would be scheduled, and undo does not model cancelling a timer.
- `window.prompt` and the dispatching replay codec of `handleClickReplay` (Game.jsx:203-205) are I/O and a collaborator whose source is not part of this model. `LoadReplay` takes the decoded moves as a parameter.
- `console.warn` diagnostics are I/O. The direction handlers, undo and redo return an `ignored` result, true exactly when they warn, and leave the state unchanged then. A replay step that is ignored (Game.jsx:241) leaves the state unchanged and schedules nothing.
- Rendering, `onKeyDown` and `componentDidMount/WillUnmount` (Game.jsx:397-506) are UI plumbing.
- The enemy AI, the rotation tables and `placeNewPiece` are not part of this model. They are parameters, and `EnemyAi(this)` (Game.jsx:39) is not modelled.
- Engine.ConfigOk: widths above 30 are not modelled. `1 << wellWidth` and row shifts must stay within 32-bit masks. The table must have four orientations per piece, and one row mask per box row.
- Timeline.SpawnOk: the model assumes that a chosen and placed piece is a piece of the table inside the well. The source does not check this.
- Timeline.Game.HandleMove: requires the mode to be Playing or Replaying. The source has no guard, but every caller (the direction handlers, redo, the replay step) calls it only in those modes.
- Line 304 sets the new piece on a well state that may already be stored. The model updates that history entry by value. A piece is only ever placed in a freshly computed state, because a stored state without a piece is always a game-over state, so the value update matches the source.
- Timeline.Game.Create: an exception thrown by the constructor is modelled as the `Failed` result carrying the first failing check.

## Findings

| source | as written | input that shows it | evidently intended | confidence | as-written member | corrected member |
|---|---|---|---|---|---|---|
| src/replay-codecs/hex.ts:28 | digit 0 decodes to L followed by E, which is not a move | the moves L, L: they encode to "0", which decodes to L, E | digit 0 decodes to L, L, the inverse of the forward table's entry for (L, L) at line 19 and of the `[Move, Move]` type of the table | high; not executed | Hex.ZeroDigitCounterexample | Hex.RoundTripIntended |

The timeline keeps its log as a sequence of characters, so it accepts what
either decoder returns. A logged E matches no move and leaves the piece where
it is, as in the source. `Hex.Decode` stays the codec as written.
`Hex.DecodeIntended` is the corrected decoder, and its round trip is exact.
