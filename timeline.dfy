/** The game's timeline: the list of well states reached so far, a cursor into
    it, the log of moves, and the mode. Moves append to the history or reuse
    the stored future when they repeat the logged move; undo and redo move the
    cursor; start and loading a replay reset everything. */
module Timeline {
  import opened Engine
  import opened Moves

  datatype Mode = Playing | Replaying | GameOver

  /** A well is finished when row bar - 1 has a filled cell. A bar of 0 (or
      below) reads a row the well does not have, which the game treats as
      finished too. */
  predicate IsGameOver(cfg: Config, well: seq<Row>) {
    !(0 <= cfg.bar - 1 < |well|) || well[cfg.bar - 1] != 0
  }

  /** The collaborators that choose and place the next piece always give a
      piece of the table, inside the well. */
  ghost predicate SpawnOk(cfg: Config, enemyAi: seq<Row> -> nat, placeNewPiece: (nat, nat) -> Piece)
    requires ConfigOk(cfg)
  {
    (forall w :: enemyAi(w) < |cfg.rotations|) &&
    (forall id :: 0 <= id < |cfg.rotations| ==>
       PieceOk(cfg, placeNewPiece(cfg.wellWidth, id)) && InBounds(cfg, placeNewPiece(cfg.wellWidth, id)))
  }

  function EmptyWell(depth: nat): (w: seq<Row>)
    ensures |w| == depth && forall i :: 0 <= i < depth ==> w[i] == 0
  {
    seq(depth, _ => 0)
  }

  /** A stored well state: full depth, any piece valid, and no piece only
      when the game is over. */
  predicate Stored(cfg: Config, ws: WellState)
    requires ConfigOk(cfg)
  {
    StateOk(cfg, ws) && (ws.piece.None? ==> IsGameOver(cfg, ws.well))
  }

  /** The state a move leads to, as stored in the history: the engine's next
      state, with a new piece placed when the old one locked and the game is
      not over. */
  function Successor(cfg: Config, enemyAi: seq<Row> -> nat, placeNewPiece: (nat, nat) -> Piece,
                     ws: WellState, move: char): (r: WellState)
    requires ConfigOk(cfg) && SpawnOk(cfg, enemyAi, placeNewPiece)
    requires StateOk(cfg, ws) && ws.piece.Some?
    ensures Stored(cfg, r)
  {
    var next := NextState(cfg, ws, move);
    if next.piece.None? && !IsGameOver(cfg, next.well) then
      next.(piece := Some(placeNewPiece(cfg.wellWidth, enemyAi(next.well))))
    else
      next
  }

  /** The stored successor is the engine's next state, with a new piece in
      place exactly when the old one locked and the game is not over. */
  lemma SuccessorSpawns(cfg: Config, enemyAi: seq<Row> -> nat, placeNewPiece: (nat, nat) -> Piece,
                        ws: WellState, move: char)
    requires ConfigOk(cfg) && SpawnOk(cfg, enemyAi, placeNewPiece)
    requires StateOk(cfg, ws) && ws.piece.Some?
    ensures var r := Successor(cfg, enemyAi, placeNewPiece, ws, move); var next := NextState(cfg, ws, move);
      r.well == next.well && r.score == next.score &&
      (next.piece.Some? ==> r.piece == next.piece) &&
      (next.piece.None? && IsGameOver(cfg, next.well) ==> r.piece.None?) &&
      (next.piece.None? && !IsGameOver(cfg, next.well) ==>
         r.piece == Some(placeNewPiece(cfg.wellWidth, enemyAi(next.well))))
  {
  }

  /** Along the history the score never decreases. */
  lemma SuccessorScore(cfg: Config, enemyAi: seq<Row> -> nat, placeNewPiece: (nat, nat) -> Piece,
                       ws: WellState, move: char)
    requires ConfigOk(cfg) && SpawnOk(cfg, enemyAi, placeNewPiece)
    requires StateOk(cfg, ws) && ws.piece.Some?
    ensures ws.score <= Successor(cfg, enemyAi, placeNewPiece, ws, move).score
  {
    NextStateScore(cfg, ws, move);
  }

  /** A history agrees with a log: at most one state more than moves, every
      state stored, and each state after the first the successor of the one
      before it under the logged move. */
  ghost predicate Chain(cfg: Config, enemyAi: seq<Row> -> nat, placeNewPiece: (nat, nat) -> Piece,
                        states: seq<WellState>, log: seq<char>)
    requires ConfigOk(cfg) && SpawnOk(cfg, enemyAi, placeNewPiece)
  {
    |states| <= |log| + 1 &&
    (forall i :: 0 <= i < |states| ==> Stored(cfg, states[i])) &&
    (forall i :: 0 <= i < |states| - 1 ==>
       states[i].piece.Some? &&
       states[i + 1] == Successor(cfg, enemyAi, placeNewPiece, states[i], log[i]))
  }

  /** Cutting the history after state id and the log at id, then logging a
      new move there, keeps the two in agreement. */
  lemma ChainTruncate(cfg: Config, enemyAi: seq<Row> -> nat, placeNewPiece: (nat, nat) -> Piece,
                      states: seq<WellState>, log: seq<char>, id: nat, move: char)
    requires ConfigOk(cfg) && SpawnOk(cfg, enemyAi, placeNewPiece)
    requires Chain(cfg, enemyAi, placeNewPiece, states, log) && id < |states|
    ensures Chain(cfg, enemyAi, placeNewPiece, states[..id + 1], log[..id] + [move])
  {
    var s', l' := states[..id + 1], log[..id] + [move];
    forall i | 0 <= i < |s'| - 1
      ensures s'[i].piece.Some? && s'[i + 1] == Successor(cfg, enemyAi, placeNewPiece, s'[i], l'[i])
    {
      assert s'[i] == states[i] && s'[i + 1] == states[i + 1] && l'[i] == log[i];
    }
  }

  /** Appending the successor of the last state under the next logged move
      keeps history and log in agreement. */
  lemma ChainExtend(cfg: Config, enemyAi: seq<Row> -> nat, placeNewPiece: (nat, nat) -> Piece,
                    states: seq<WellState>, log: seq<char>, next: WellState)
    requires ConfigOk(cfg) && SpawnOk(cfg, enemyAi, placeNewPiece)
    requires Chain(cfg, enemyAi, placeNewPiece, states, log)
    requires 0 < |states| <= |log| && states[|states| - 1].piece.Some?
    requires next == Successor(cfg, enemyAi, placeNewPiece, states[|states| - 1], log[|states| - 1])
    ensures Chain(cfg, enemyAi, placeNewPiece, states + [next], log)
  {
    var s' := states + [next];
    forall i | 0 <= i < |s'| - 1
      ensures s'[i].piece.Some? && s'[i + 1] == Successor(cfg, enemyAi, placeNewPiece, s'[i], log[i])
    {
      assert s'[i] == states[i];
    }
  }

  /** The history after a move: the kept history, with the successor of the
      state at the cursor appended when it was not stored yet, still agrees
      with the log. */
  lemma StoreSuccessor(cfg: Config, enemyAi: seq<Row> -> nat, placeNewPiece: (nat, nat) -> Piece,
                       kept: seq<WellState>, log: seq<char>, id: nat, move: char, states: seq<WellState>)
    requires ConfigOk(cfg) && SpawnOk(cfg, enemyAi, placeNewPiece)
    requires Chain(cfg, enemyAi, placeNewPiece, kept, log)
    requires id < |kept| && id < |log| && log[id] == move && kept[id].piece.Some?
    requires |kept| == id + 1 ==>
      |states| == id + 2 && states[..id + 1] == kept &&
      states[id + 1] == Successor(cfg, enemyAi, placeNewPiece, kept[id], move)
    requires |kept| > id + 1 ==> states == kept
    ensures Chain(cfg, enemyAi, placeNewPiece, states, log)
    ensures id + 1 < |states| && states[..id + 1] == kept[..id + 1]
    ensures states[id + 1] == Successor(cfg, enemyAi, placeNewPiece, kept[id], move)
  {
    if |kept| == id + 1 {
      assert states == kept + [states[id + 1]];
      ChainExtend(cfg, enemyAi, placeNewPiece, kept, log, states[id + 1]);
    } else {
      assert states == kept;
      assert 0 <= id < |kept| - 1;
    }
  }

  /** The engine's next state is computed and appended only when the
      history holds no state after the cursor. */
  method ComputeIfMissing(cfg: Config, states: seq<WellState>, id: nat, move: char) returns (r: seq<WellState>)
    requires ConfigOk(cfg) && id < |states| && StateOk(cfg, states[id]) && states[id].piece.Some?
    ensures id + 1 < |states| ==> r == states
    ensures id + 1 >= |states| ==> r == states + [NextState(cfg, states[id], move)]
  {
    r := states;
    if id + 1 >= |states| {
      var nextWellState := GetNextState(cfg, states[id], move);
      r := states + [nextWellState];
    }
  }

  /** The second half of a move, once the log holds it at the cursor: take
      the stored next state or compute it, decide the next mode (game over,
      Playing once a replay runs past the end of the log given by logLength,
      or unchanged), and place a new piece when the old one locked and the
      game goes on. */
  method Advance(cfg: Config, enemyAi: seq<Row> -> nat, placeNewPiece: (nat, nat) -> Piece,
                 kept: seq<WellState>, log: seq<char>, id: nat, move: char, mode: Mode, logLength: nat)
    returns (states: seq<WellState>, nextMode: Mode)
    requires ConfigOk(cfg) && SpawnOk(cfg, enemyAi, placeNewPiece)
    requires Chain(cfg, enemyAi, placeNewPiece, kept, log)
    requires id < |kept| && id < |log| && log[id] == move && kept[id].piece.Some?
    requires mode == Playing || mode == Replaying
    ensures Chain(cfg, enemyAi, placeNewPiece, states, log)
    ensures id + 1 < |states| && states[..id + 1] == kept[..id + 1]
    ensures states[id + 1] == Successor(cfg, enemyAi, placeNewPiece, kept[id], move)
    ensures id + 1 < |kept| ==> states == kept
    ensures id + 1 >= |kept| ==> states == kept + [states[id + 1]]
    ensures nextMode == if IsGameOver(cfg, states[id + 1].well) then GameOver
                        else if mode == Replaying && id + 1 >= logLength then Playing
                        else mode
  {
    states := ComputeIfMissing(cfg, kept, id, move);
    var nextWellState := states[id + 1];
    var gameIsOver := IsGameOver(cfg, nextWellState.well);
    nextMode := if gameIsOver then GameOver
                else if mode == Replaying && id + 1 >= logLength then Playing
                else mode;
    if nextWellState.piece.None? && nextMode != GameOver {
      var piece := placeNewPiece(cfg.wellWidth, enemyAi(nextWellState.well));
      states := states[id + 1 := nextWellState.(piece := Some(piece))];
    }
    if id + 1 >= |kept| {
      SuccessorSpawns(cfg, enemyAi, placeNewPiece, kept[id], move);
      assert states[..id + 1] == kept;
    } else {
      assert Stored(cfg, kept[id + 1]);
    }
    StoreSuccessor(cfg, enemyAi, placeNewPiece, kept, log, id, move, states);
  }

  /** The outcome of building a game: the game, or the first check it failed. */
  datatype Built = Built(game: Game) | Failed(error: ConfigError)

  class Game {
    const cfg: Config
    const enemyAi: seq<Row> -> nat
    const placeNewPiece: (nat, nat) -> Piece
    const firstWellState: WellState

    var mode: Mode
    var wellStateId: int
    var wellStates: seq<WellState>
    var replay: seq<char>

    /** The timeline invariant: the cursor indexes the history (or is -1
        before the first game), the history is at most one longer than the
        log, it starts at the first well state, and each stored state is the
        successor of the one before it under the logged move. */
    ghost predicate Valid()
      reads this
    {
      ConfigOk(cfg) && SpawnOk(cfg, enemyAi, placeNewPiece) &&
      firstWellState.piece.Some? && Stored(cfg, firstWellState) &&
      -1 <= wellStateId < |wellStates| &&
      (wellStateId == -1 <==> wellStates == []) &&
      (wellStates != [] ==> wellStates[0] == firstWellState) &&
      Chain(cfg, enemyAi, placeNewPiece, wellStates, replay) &&
      ((mode.Playing? || mode.Replaying?) ==> wellStateId >= 0 && wellStates[wellStateId].piece.Some?)
    }

    /** A fresh game: not started (mode GameOver, cursor -1), with the first
        well state built from an empty well and the first piece. */
    constructor (cfg: Config, enemyAi: seq<Row> -> nat, placeNewPiece: (nat, nat) -> Piece)
      requires ConfigOk(cfg) && SpawnOk(cfg, enemyAi, placeNewPiece)
      ensures Valid()
      ensures this.cfg == cfg && this.enemyAi == enemyAi && this.placeNewPiece == placeNewPiece
      ensures firstWellState ==
        WellState(EmptyWell(cfg.wellDepth), 0, Some(placeNewPiece(cfg.wellWidth, enemyAi(EmptyWell(cfg.wellDepth)))))
      ensures mode == GameOver && wellStateId == -1 && wellStates == [] && replay == []
    {
      this.cfg := cfg;
      this.enemyAi := enemyAi;
      this.placeNewPiece := placeNewPiece;
      var firstWell := EmptyWell(cfg.wellDepth);
      firstWellState := WellState(firstWell, 0, Some(placeNewPiece(cfg.wellWidth, enemyAi(firstWell))));
      mode := GameOver;
      wellStateId := -1;
      wellStates := [];
      replay := [];
    }

    /** Building a game runs the configuration checks first and fails with
        the first one that does not hold. */
    static method Create(cfg: Config, enemyAi: seq<Row> -> nat, placeNewPiece: (nat, nat) -> Piece)
      returns (r: Built)
      requires CheckConfig(|cfg.rotations|, cfg.bar, cfg.wellDepth, cfg.wellWidth) == None ==>
               cfg.wellWidth <= 30 && TableOk(cfg.rotations) && SpawnOk(cfg, enemyAi, placeNewPiece)
      ensures r.Failed? <==> CheckConfig(|cfg.rotations|, cfg.bar, cfg.wellDepth, cfg.wellWidth).Some?
      ensures r.Failed? ==> Some(r.error) == CheckConfig(|cfg.rotations|, cfg.bar, cfg.wellDepth, cfg.wellWidth)
      ensures r.Built? ==>
        fresh(r.game) && r.game.Valid() &&
        r.game.cfg == cfg && r.game.enemyAi == enemyAi && r.game.placeNewPiece == placeNewPiece &&
        r.game.firstWellState ==
          WellState(EmptyWell(cfg.wellDepth), 0, Some(placeNewPiece(cfg.wellWidth, enemyAi(EmptyWell(cfg.wellDepth))))) &&
        r.game.mode == GameOver && r.game.wellStateId == -1 && r.game.wellStates == [] && r.game.replay == []
    {
      var check := CheckConfig(|cfg.rotations|, cfg.bar, cfg.wellDepth, cfg.wellWidth);
      if check.Some? {
        return Failed(check.value);
      }
      var g := new Game(cfg, enemyAi, placeNewPiece);
      return Built(g);
    }

    /** The first step of a move: keep log and history when the log already
        holds this move at the cursor, otherwise cut the log to the cursor and
        append the move, and cut the history after the cursor. */
    method KeepOrCutFuture(move: char) returns (nextReplay: seq<char>, nextWellStates: seq<WellState>)
      requires Valid()
      requires mode == Playing || mode == Replaying
      ensures wellStateId < |nextWellStates| <= |nextReplay| + 1 && wellStateId < |nextReplay|
      ensures nextWellStates[wellStateId] == wellStates[wellStateId] && nextReplay[wellStateId] == move
      ensures Chain(cfg, enemyAi, placeNewPiece, nextWellStates, nextReplay)
      ensures wellStateId < |replay| && replay[wellStateId] == move ==>
                nextReplay == replay && nextWellStates == wellStates
      ensures !(wellStateId < |replay| && replay[wellStateId] == move) ==>
                nextReplay == replay[..wellStateId] + [move] &&
                nextWellStates == wellStates[..wellStateId + 1]
    {
      if wellStateId < |replay| && move == replay[wellStateId] {
        nextReplay := replay;
        nextWellStates := wellStates;
      } else {
        nextReplay := replay[..wellStateId] + [move];
        nextWellStates := wellStates[..wellStateId + 1];
        ChainTruncate(cfg, enemyAi, placeNewPiece, wellStates, replay, wellStateId, move);
      }
    }

    /** The values a move leads to, computed without changing the game: the
        log and history after the move and the next mode. */
    method NextTimeline(move: char) returns (nextReplay: seq<char>, nextWellStates: seq<WellState>, nextMode: Mode)
      requires Valid()
      requires mode == Playing || mode == Replaying
      ensures wellStateId + 1 < |nextWellStates| && wellStateId < |nextReplay|
      ensures nextReplay[wellStateId] == move
      ensures Chain(cfg, enemyAi, placeNewPiece, nextWellStates, nextReplay)
      ensures nextWellStates[..wellStateId + 1] == wellStates[..wellStateId + 1]
      ensures nextWellStates[wellStateId + 1] ==
              Successor(cfg, enemyAi, placeNewPiece, wellStates[wellStateId], move)
      ensures wellStateId < |replay| && replay[wellStateId] == move ==>
                nextReplay == replay &&
                (wellStateId + 1 < |wellStates| ==> nextWellStates == wellStates) &&
                wellStates <= nextWellStates
      ensures !(wellStateId < |replay| && replay[wellStateId] == move) ==>
                nextReplay == replay[..wellStateId] + [move] &&
                nextWellStates == wellStates[..wellStateId + 1] + [nextWellStates[wellStateId + 1]]
      ensures wellStateId + 1 == |wellStates| ==> nextWellStates == wellStates + [nextWellStates[wellStateId + 1]]
      ensures nextMode == if IsGameOver(cfg, nextWellStates[wellStateId + 1].well) then GameOver
                          else if mode == Replaying && wellStateId + 1 >= |replay| then Playing
                          else mode
    {
      var kept;
      nextReplay, kept := KeepOrCutFuture(move);
      nextWellStates, nextMode := Advance(cfg, enemyAi, placeNewPiece, kept, nextReplay, wellStateId, move,
                                          mode, |replay|);
    }

    /** What applying a move in Playing or Replaying mode does, between the
        state before it and the state after it: the cursor advances by one
        and the log holds the move at the old cursor; the new state is the
        successor of the old one. When the log already held this move, log
        and history are reused (the history grows by the one computed state
        only when none was stored); otherwise the log is cut to the cursor
        plus the move and the history to the states up to the cursor plus
        the new one. The mode becomes GameOver when row bar-1 is filled,
        Playing when a replay runs past the end of the old log, and stays
        as it was otherwise. */
    twostate predicate MoveApplied(move: char)
      reads this
    {
      old(Valid()) && (old(mode) == Playing || old(mode) == Replaying) && Valid() &&
      wellStateId == old(wellStateId) + 1 &&
      wellStateId <= |replay| && replay[old(wellStateId)] == move &&
      wellStates[wellStateId] ==
        Successor(cfg, enemyAi, placeNewPiece, old(wellStates)[old(wellStateId)], move) &&
      (old(wellStateId) < |old(replay)| && old(replay)[old(wellStateId)] == move ==>
         replay == old(replay) &&
         (old(wellStateId) + 1 < |old(wellStates)| ==> wellStates == old(wellStates)) &&
         old(wellStates) <= wellStates) &&
      (!(old(wellStateId) < |old(replay)| && old(replay)[old(wellStateId)] == move) ==>
         replay == old(replay)[..old(wellStateId)] + [move] &&
         wellStates == old(wellStates)[..old(wellStateId) + 1] + [wellStates[wellStateId]]) &&
      (old(wellStateId) + 1 == |old(wellStates)| ==>
         wellStates == old(wellStates) + [wellStates[wellStateId]]) &&
      mode == (if IsGameOver(cfg, wellStates[wellStateId].well) then GameOver
               else if old(mode) == Replaying && wellStateId >= |old(replay)| then Playing
               else old(mode))
    }

    /** Apply a move at the cursor: the game takes the log, history and mode
        the move leads to, as MoveApplied describes. */
    method HandleMove(move: char)
      requires Valid()
      requires mode == Playing || mode == Replaying
      modifies this
      ensures Valid()
      ensures MoveApplied(move)
    {
      var nextReplay, nextWellStates, nextMode := NextTimeline(move);
      assert nextWellStates[0] == wellStates[0];
      mode := nextMode;
      wellStateId := wellStateId + 1;
      wellStates := nextWellStates;
      replay := nextReplay;
    }

    /** Start a new game: one well state, cursor 0, empty log, playing. */
    method HandleClickStart()
      requires Valid()
      modifies this
      ensures Valid()
      ensures mode == Playing && wellStateId == 0 && wellStates == [firstWellState] && replay == []
    {
      mode := Playing;
      wellStateId := 0;
      wellStates := [firstWellState];
      replay := [];
    }

    /** The state reset of loading a replay: the decoded moves become the log
        and the game replays from the first well state, even when the log is
        empty. Returns whether a first replay step is to be scheduled. */
    method LoadReplay(moves: seq<char>) returns (scheduleStep: bool)
      requires Valid()
      modifies this
      ensures Valid()
      ensures mode == Replaying && wellStateId == 0 && wellStates == [firstWellState] && replay == moves
      ensures scheduleStep <==> moves != []
    {
      scheduleStep := 0 < |moves|;
      mode := Replaying;
      wellStateId := 0;
      wellStates := [firstWellState];
      replay := moves;
    }

    /** The four direction handlers: the move is applied in Playing mode
        and ignored (with a warning) in every other mode. */
    method HandleDirection(move: Move) returns (ignored: bool)
      requires Valid()
      modifies this
      ensures Valid()
      ensures ignored <==> old(mode) != Playing
      ensures ignored ==> unchanged(this)
      ensures !ignored ==> MoveApplied(move)
    {
      ignored := mode != Playing;
      if !ignored {
        HandleMove(move);
      }
    }

    /** Undo: step the cursor back and switch to Playing when there is an
        earlier state; otherwise nothing changes. */
    method HandleCtrlZ() returns (ignored: bool)
      requires Valid()
      modifies this
      ensures Valid()
      ensures ignored <==> !(0 <= old(wellStateId) - 1 < |old(wellStates)|)
      ensures ignored ==> unchanged(this)
      ensures !ignored ==>
        mode == Playing && wellStateId == old(wellStateId) - 1 &&
        wellStates == old(wellStates) && replay == old(replay)
    {
      var nextWellStateId := wellStateId - 1;
      ignored := !(0 <= nextWellStateId < |wellStates|);
      if !ignored {
        mode := Playing;
        wellStateId := nextWellStateId;
      }
    }

    /** Redo: in Playing or Replaying mode, replay the logged move at the
        cursor, which reuses the stored future; at the end of the log, or in
        any other mode, nothing changes, so redo there is idempotent. */
    method HandleCtrlY() returns (ignored: bool)
      requires Valid()
      modifies this
      ensures Valid()
      ensures ignored <==> !((old(mode) == Playing || old(mode) == Replaying) &&
                             0 <= old(wellStateId) < |old(replay)|)
      ensures ignored ==> unchanged(this)
      ensures !ignored ==> MoveApplied(old(replay[wellStateId])) && replay == old(replay)
    {
      ignored := true;
      if mode == Playing || mode == Replaying {
        if 0 <= wellStateId < |replay| {
          ignored := false;
          HandleMove(replay[wellStateId]);
        }
      }
    }

    /** One replay step, without its timer: in Replaying mode, redo and report
        whether another step is due (judged on the cursor before the step);
        at the end of the log the redo is ignored, and in any other mode
        nothing changes. */
    method InputReplayStep() returns (scheduleNext: bool)
      requires Valid()
      modifies this
      ensures Valid()
      ensures old(mode) != Replaying ==> unchanged(this) && !scheduleNext
      ensures old(mode) == Replaying ==> (scheduleNext <==> 0 <= old(wellStateId) + 1 < |old(replay)|)
      ensures old(mode) == Replaying && 0 <= old(wellStateId) < |old(replay)| ==>
        MoveApplied(old(replay[wellStateId])) && replay == old(replay)
      ensures old(mode) == Replaying && !(0 <= old(wellStateId) < |old(replay)|) ==> unchanged(this)
    {
      scheduleNext := false;
      if mode == Replaying {
        var id := wellStateId;
        var log := replay;
        var _ := HandleCtrlY();
        scheduleNext := 0 <= id + 1 < |log|;
      }
    }

    /** Scores along the history never decrease. */
    lemma {:induction false} ScoresNonDecreasing(i: nat, j: nat)
      requires Valid()
      requires i <= j < |wellStates|
      ensures wellStates[i].score <= wellStates[j].score
      decreases j - i
    {
      if i < j {
        SuccessorScore(cfg, enemyAi, placeNewPiece, wellStates[i], replay[i]);
        ScoresNonDecreasing(i + 1, j);
      }
    }
  }
}
