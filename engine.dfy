/** The well transition engine: one move applied to a well state, with the
    bounds and bit-mask collision test, locking of a piece that cannot move
    down, line clearing and scoring. Rows are 32-bit masks, the bit patterns
    of the integers the bitwise operators produce; bit x is column x. */
module Engine {

  type Row = bv32

  datatype Option<T> = None | Some(value: T)

  /** One rotation of one piece: the offset of its bounding box from the
      piece position, the box extents, and one bit mask per box row. */
  datatype Orientation = Orientation(xMin: int, yMin: int, xDim: nat, yDim: nat, rows: seq<Row>)

  /** A live piece: its type, position and rotation index. */
  datatype Piece = Piece(id: nat, x: int, y: int, o: nat)

  /** A well (row 0 at the top), the score, and the live piece if any. */
  datatype WellState = WellState(well: seq<Row>, score: nat, piece: Option<Piece>)

  /** The game's fixed properties: rotation table indexed [piece][rotation],
      the bar, and the well's depth and width. */
  datatype Config = Config(rotations: seq<seq<Orientation>>, bar: int, wellDepth: nat, wellWidth: nat)

  datatype ConfigError = NoPieces | DepthBelowBar | TooNarrow

  const MinWidth: nat := 4

  /** The checks a game makes when it is built, in the order it makes them:
      the first failing one is the error reported. */
  function CheckConfig(pieceCount: nat, bar: int, wellDepth: nat, wellWidth: nat): (r: Option<ConfigError>)
    ensures r == None <==> 1 <= pieceCount && bar <= wellDepth && MinWidth <= wellWidth
    ensures r == Some(NoPieces) <==> pieceCount < 1
    ensures r == Some(DepthBelowBar) <==> 1 <= pieceCount && wellDepth < bar
    ensures r == Some(TooNarrow) <==> 1 <= pieceCount && bar <= wellDepth && wellWidth < MinWidth
  {
    if pieceCount < 1 then Some(NoPieces)
    else if wellDepth < bar then Some(DepthBelowBar)
    else if wellWidth < MinWidth then Some(TooNarrow)
    else None
  }

  /** A rotation table the engine can index: four rotations per piece (a
      rotation index is always taken modulo 4) and one mask per box row. */
  predicate TableOk(rotations: seq<seq<Orientation>>) {
    (forall id :: 0 <= id < |rotations| ==> |rotations[id]| == 4) &&
    (forall id, o :: 0 <= id < |rotations| && 0 <= o < |rotations[id]| ==>
       |rotations[id][o].rows| == rotations[id][o].yDim)
  }

  /** A configuration that passed its checks, whose table can be indexed and
      whose rows fit the 32-bit masks without overflow (width at most 30). */
  predicate ConfigOk(cfg: Config) {
    CheckConfig(|cfg.rotations|, cfg.bar, cfg.wellDepth, cfg.wellWidth) == None &&
    cfg.wellWidth <= 30 &&
    TableOk(cfg.rotations)
  }

  predicate PieceOk(cfg: Config, p: Piece) {
    p.id < |cfg.rotations| && p.o < 4
  }

  function OrientationOf(cfg: Config, p: Piece): (orientation: Orientation)
    requires ConfigOk(cfg) && PieceOk(cfg, p)
    ensures |orientation.rows| == orientation.yDim
  {
    cfg.rotations[p.id][p.o]
  }

  /** The bounding box lies inside the well. */
  predicate InBounds(cfg: Config, p: Piece)
    requires ConfigOk(cfg) && PieceOk(cfg, p)
  {
    var orientation := OrientationOf(cfg, p);
    var xActual := p.x + orientation.xMin;
    var yActual := p.y + orientation.yMin;
    0 <= xActual && xActual + orientation.xDim <= cfg.wellWidth &&
    0 <= yActual && yActual + orientation.yDim <= cfg.wellDepth
  }

  /** Some row of the piece, shifted to its column, meets a filled cell. */
  predicate Obstructed(cfg: Config, well: seq<Row>, p: Piece)
    requires ConfigOk(cfg) && PieceOk(cfg, p) && InBounds(cfg, p) && |well| == cfg.wellDepth
  {
    var orientation := OrientationOf(cfg, p);
    var xActual := p.x + orientation.xMin;
    var yActual := p.y + orientation.yMin;
    exists y :: 0 <= y < |orientation.rows| &&
      well[yActual + y] & ShiftRow(orientation.rows[y], xActual) != 0
  }

  /** A legal position: inside the well and over empty cells only. */
  predicate Fits(cfg: Config, well: seq<Row>, p: Piece)
    requires ConfigOk(cfg) && PieceOk(cfg, p) && |well| == cfg.wellDepth
  {
    InBounds(cfg, p) && !Obstructed(cfg, well, p)
  }

  /** The position a move asks for. A character that is not one of the four
      moves leaves the piece where it is. */
  function Translate(p: Piece, move: char): (c: Piece)
    ensures c.id == p.id
    ensures move == 'L' ==> c == p.(x := p.x - 1)
    ensures move == 'R' ==> c == p.(x := p.x + 1)
    ensures move == 'D' ==> c == p.(y := p.y + 1)
    ensures move == 'U' ==> c == p.(o := (p.o + 1) % 4)
    ensures move != 'L' && move != 'R' && move != 'D' && move != 'U' ==> c == p
  {
    if move == 'L' then p.(x := p.x - 1)
    else if move == 'R' then p.(x := p.x + 1)
    else if move == 'D' then p.(y := p.y + 1)
    else if move == 'U' then p.(o := (p.o + 1) % 4)
    else p
  }

  /** A well state the engine can step: the well has one row per unit of
      depth, and a live piece is a piece of the table lying inside the well. */
  predicate StateOk(cfg: Config, ws: WellState)
    requires ConfigOk(cfg)
  {
    |ws.well| == cfg.wellDepth &&
    (ws.piece.Some? ==> PieceOk(cfg, ws.piece.value) && InBounds(cfg, ws.piece.value))
  }

  /** The well with the first n rows of a piece OR-ed into the rows below
      yActual, each shifted left by xActual. */
  function Stamp(well: seq<Row>, rows: seq<Row>, xActual: int, yActual: int, n: nat): (w: seq<Row>)
    requires 0 <= xActual <= 32 && 0 <= yActual && n <= |rows| && yActual + |rows| <= |well|
    ensures |w| == |well|
    ensures forall i :: 0 <= i < |w| && !(yActual <= i < yActual + n) ==> w[i] == well[i]
    ensures forall i :: yActual <= i < yActual + n ==> w[i] == well[i] | ShiftRow(rows[i - yActual], xActual)
  {
    seq(|well|, i requires 0 <= i < |well| =>
      if yActual <= i < yActual + n then well[i] | ShiftRow(rows[i - yActual], xActual) else well[i])
  }

  /** A piece row moved to start at column xActual. */
  function ShiftRow(row: Row, xActual: int): (shifted: Row)
    requires 0 <= xActual <= 32
  {
    row << xActual
  }

  /** The mask of a complete row. */
  function FullRow(width: nat): (full: Row)
    requires width <= 30
  {
    ((1 as Row) << width) - 1
  }

  /** The row shift that clears row r: rows 2..r take the row above them,
      row 0 becomes empty, and row 1 (like every row below r) keeps its value,
      because the descending copy stops at row 2. */
  function ShiftDown(w: seq<Row>, r: nat): (v: seq<Row>)
    requires r < |w|
    ensures |v| == |w|
    ensures v[0] == 0
    ensures forall k :: 2 <= k <= r ==> v[k] == w[k - 1]
    ensures forall k :: r < k < |w| ==> v[k] == w[k]
    ensures 1 < |w| ==> v[1] == w[1]
  {
    seq(|w|, k requires 0 <= k < |w| => if k == 0 then 0 else if 2 <= k <= r then w[k - 1] else w[k])
  }

  /** Clearing the piece's rows from `row` on: each complete row is removed
      with ShiftDown and counted, provided `scoring` (the piece's box starts at
      or below the bar). Returns the well and count + the rows cleared. */
  function ClearRows(w: seq<Row>, yActual: nat, yDim: nat, row: nat, scoring: bool, full: Row, count: nat): (r: (seq<Row>, nat))
    requires yActual + yDim <= |w| && row <= yDim
    ensures |r.0| == |w|
    decreases yDim - row
  {
    if row == yDim then (w, count)
    else if scoring && w[yActual + row] == full then
      ClearRows(ShiftDown(w, yActual + row), yActual, yDim, row + 1, scoring, full, count + 1)
    else
      ClearRows(w, yActual, yDim, row + 1, scoring, full, count)
  }

  /** The number of complete rows among rows lo..hi-1. */
  function FullCount(w: seq<Row>, lo: nat, hi: nat, full: Row): (n: nat)
    requires lo <= hi <= |w|
    ensures n <= hi - lo
    decreases hi - lo
  {
    if lo == hi then 0 else (if w[lo] == full then 1 else 0) + FullCount(w, lo + 1, hi, full)
  }

  lemma {:induction false} FullCountAgree(w: seq<Row>, v: seq<Row>, lo: nat, hi: nat, full: Row)
    requires lo <= hi <= |w| == |v|
    requires forall k :: lo <= k < hi ==> w[k] == v[k]
    ensures FullCount(w, lo, hi, full) == FullCount(v, lo, hi, full)
    decreases hi - lo
  {
    if lo < hi {
      FullCountAgree(w, v, lo + 1, hi, full);
    }
  }

  /** Clearing adds to the count exactly the number of complete piece rows
      (checked in the stamped well, since a clear only moves rows above the
      one it removes), and leaves every row below the piece as it was. */
  lemma {:induction false} ClearRowsCount(w: seq<Row>, yActual: nat, yDim: nat, row: nat, scoring: bool, full: Row, count: nat)
    requires yActual + yDim <= |w| && row <= yDim
    ensures ClearRows(w, yActual, yDim, row, scoring, full, count).1 ==
            count + (if scoring then FullCount(w, yActual + row, yActual + yDim, full) else 0)
    ensures forall k :: yActual + yDim <= k < |w| ==> ClearRows(w, yActual, yDim, row, scoring, full, count).0[k] == w[k]
    decreases yDim - row
  {
    if row < yDim {
      if scoring && w[yActual + row] == full {
        var v := ShiftDown(w, yActual + row);
        ClearRowsCount(v, yActual, yDim, row + 1, scoring, full, count + 1);
        FullCountAgree(v, w, yActual + row + 1, yActual + yDim, full);
      } else {
        ClearRowsCount(w, yActual, yDim, row + 1, scoring, full, count);
      }
    }
  }

  /** When no piece row is complete (or the piece is above the bar), the
      clear step changes nothing. */
  lemma {:induction false} ClearRowsNone(w: seq<Row>, yActual: nat, yDim: nat, row: nat, scoring: bool, full: Row, count: nat)
    requires yActual + yDim <= |w| && row <= yDim
    requires !scoring || FullCount(w, yActual + row, yActual + yDim, full) == 0
    ensures ClearRows(w, yActual, yDim, row, scoring, full, count) == (w, count)
    decreases yDim - row
  {
    if row < yDim {
      ClearRowsNone(w, yActual, yDim, row + 1, scoring, full, count);
    }
  }

  /** The well a blocked D produces before line clearing: the pre-move
      piece's rows OR-ed into the well. */
  function Locked(cfg: Config, ws: WellState): (w: seq<Row>)
    requires ConfigOk(cfg) && StateOk(cfg, ws) && ws.piece.Some?
    ensures |w| == |ws.well|
  {
    var p := ws.piece.value;
    var orientation := OrientationOf(cfg, p);
    Stamp(ws.well, orientation.rows, p.x + orientation.xMin, p.y + orientation.yMin, orientation.yDim)
  }

  /** The new well state after applying one move. */
  function NextState(cfg: Config, ws: WellState, move: char): (r: WellState)
    requires ConfigOk(cfg) && StateOk(cfg, ws) && ws.piece.Some?
    ensures StateOk(cfg, r)
  {
    var p := ws.piece.value;
    var c := Translate(p, move);
    if Fits(cfg, ws.well, c) then
      ws.(piece := Some(c))
    else if move == 'D' then
      var orientation := OrientationOf(cfg, p);
      var yActual := p.y + orientation.yMin;
      var cleared := ClearRows(Locked(cfg, ws), yActual, orientation.yDim, 0,
                               yActual >= cfg.bar, FullRow(cfg.wellWidth), ws.score);
      WellState(cleared.0, cleared.1, None)
    else
      ws
  }

  /** A move to a legal position changes only the one piece field it names
      and leaves the well and score alone. */
  lemma NextStateLegal(cfg: Config, ws: WellState, move: char)
    requires ConfigOk(cfg) && StateOk(cfg, ws) && ws.piece.Some?
    requires Fits(cfg, ws.well, Translate(ws.piece.value, move))
    ensures var r := NextState(cfg, ws, move); var p := ws.piece.value;
      r.well == ws.well && r.score == ws.score && r.piece.Some? &&
      (move == 'L' ==> r.piece.value == p.(x := p.x - 1)) &&
      (move == 'R' ==> r.piece.value == p.(x := p.x + 1)) &&
      (move == 'D' ==> r.piece.value == p.(y := p.y + 1)) &&
      (move == 'U' ==> r.piece.value == p.(o := (p.o + 1) % 4))
  {
  }

  /** A move other than D to an illegal position is rejected: the state,
      piece included, is returned unchanged. */
  lemma NextStateRejected(cfg: Config, ws: WellState, move: char)
    requires ConfigOk(cfg) && StateOk(cfg, ws) && ws.piece.Some?
    requires move != 'D' && !Fits(cfg, ws.well, Translate(ws.piece.value, move))
    ensures NextState(cfg, ws, move) == ws
  {
  }

  /** A blocked D locks the pre-move piece: the piece goes, the well keeps its
      depth, the score rises by exactly the number of complete piece rows
      when the box starts at or below the bar (and not at all otherwise), rows
      below the piece are unchanged, and with nothing to clear the new well is
      the old one with the piece OR-ed in. */
  lemma NextStateLock(cfg: Config, ws: WellState)
    requires ConfigOk(cfg) && StateOk(cfg, ws) && ws.piece.Some?
    requires !Fits(cfg, ws.well, Translate(ws.piece.value, 'D'))
    ensures var r := NextState(cfg, ws, 'D');
      var orientation := OrientationOf(cfg, ws.piece.value);
      var yActual := ws.piece.value.y + orientation.yMin;
      var completed := FullCount(Locked(cfg, ws), yActual, yActual + orientation.yDim, FullRow(cfg.wellWidth));
      r.piece == None && |r.well| == |ws.well| &&
      r.score == ws.score + (if yActual >= cfg.bar then completed else 0) &&
      r.score <= ws.score + orientation.yDim &&
      (forall k :: yActual + orientation.yDim <= k < |r.well| ==> r.well[k] == ws.well[k]) &&
      ((yActual < cfg.bar || completed == 0) ==> r.well == Locked(cfg, ws))
  {
    var p := ws.piece.value;
    var orientation := OrientationOf(cfg, p);
    var yActual := p.y + orientation.yMin;
    var full := FullRow(cfg.wellWidth);
    var locked := Locked(cfg, ws);
    var cleared := ClearRows(locked, yActual, orientation.yDim, 0, yActual >= cfg.bar, full, ws.score);
    assert NextState(cfg, ws, 'D') == WellState(cleared.0, cleared.1, None);
    ClearRowsCount(locked, yActual, orientation.yDim, 0, yActual >= cfg.bar, full, ws.score);
    if yActual < cfg.bar || FullCount(locked, yActual, yActual + orientation.yDim, full) == 0 {
      ClearRowsNone(locked, yActual, orientation.yDim, 0, yActual >= cfg.bar, full, ws.score);
    }
  }

  /** The score never decreases, and it rises only on a blocked D whose piece
      box starts at or below the bar, by at most the box height. */
  lemma NextStateScore(cfg: Config, ws: WellState, move: char)
    requires ConfigOk(cfg) && StateOk(cfg, ws) && ws.piece.Some?
    ensures var r := NextState(cfg, ws, move);
      ws.score <= r.score <= ws.score + OrientationOf(cfg, ws.piece.value).yDim &&
      (r.score > ws.score ==>
         move == 'D' && !Fits(cfg, ws.well, Translate(ws.piece.value, move)) &&
         ws.piece.value.y + OrientationOf(cfg, ws.piece.value).yMin >= cfg.bar)
  {
    if move == 'D' && !Fits(cfg, ws.well, Translate(ws.piece.value, move)) {
      NextStateLock(cfg, ws);
    }
  }

  /** Rows r..2 take the row above, in descending order, then row 0 is
      blanked. */
  method ShiftDownInPlace(a: array<Row>, r: nat)
    requires r < a.Length
    modifies a
    ensures a[..] == ShiftDown(old(a[..]), r)
  {
    ghost var w := a[..];
    var k := r;
    while k > 1
      invariant 0 <= k <= r
      invariant r >= 1 ==> k >= 1
      invariant forall j :: 0 <= j < a.Length && k < j <= r ==> a[j] == w[j - 1]
      invariant forall j :: 0 <= j < a.Length && (j <= k || r < j) ==> a[j] == w[j]
    {
      a[k] := a[k - 1];
      k := k - 1;
    }
    a[0] := 0;
  }

  /** The lock's first loop: each piece row, shifted to its column, is
      OR-ed into the well row it covers. */
  method StampInPlace(a: array<Row>, rows: seq<Row>, xActual: int, yActual: int)
    requires 0 <= xActual <= 32 && 0 <= yActual && yActual + |rows| <= a.Length
    modifies a
    ensures a[..] == Stamp(old(a[..]), rows, xActual, yActual, |rows|)
  {
    ghost var w := a[..];
    var row := 0;
    while row < |rows|
      invariant 0 <= row <= |rows|
      invariant forall i :: 0 <= i < a.Length && !(yActual <= i < yActual + row) ==> a[i] == w[i]
      invariant forall i :: yActual <= i < yActual + row ==> a[i] == w[i] | ShiftRow(rows[i - yActual], xActual)
    {
      a[yActual + row] := a[yActual + row] | ShiftRow(rows[row], xActual);
      row := row + 1;
    }
    assert a[..] == Stamp(w, rows, xActual, yActual, |rows|);
  }

  /** The lock's second loop: the piece's rows are scanned top down and each
      complete one is removed and counted, when `scoring`. */
  method ClearInPlace(a: array<Row>, yActual: nat, yDim: nat, scoring: bool, full: Row, score: nat) returns (nextScore: nat)
    requires yActual + yDim <= a.Length
    modifies a
    ensures (a[..], nextScore) == ClearRows(old(a[..]), yActual, yDim, 0, scoring, full, score)
  {
    ghost var w := a[..];
    nextScore := score;
    var row := 0;
    while row < yDim
      invariant 0 <= row <= yDim
      invariant ClearRows(a[..], yActual, yDim, row, scoring, full, nextScore) ==
                ClearRows(w, yActual, yDim, 0, scoring, full, score)
    {
      if scoring && a[yActual + row] == full {
        ShiftDownInPlace(a, yActual + row);
        nextScore := nextScore + 1;
      }
      row := row + 1;
    }
  }

  /** One move, computed as the engine does: copy the well, OR the pre-move
      piece into the copy row by row, then scan the piece's rows top down and
      remove each complete one. The input state is not changed. */
  method GetNextState(cfg: Config, ws: WellState, move: char) returns (r: WellState)
    requires ConfigOk(cfg) && StateOk(cfg, ws) && ws.piece.Some?
    ensures r == NextState(cfg, ws, move)
  {
    var p := ws.piece.value;
    var c := Translate(p, move);
    if Fits(cfg, ws.well, c) {
      return ws.(piece := Some(c));
    }
    if move != 'D' {
      return ws;
    }
    var nextWell := new Row[|ws.well|](i requires 0 <= i < |ws.well| => ws.well[i]);
    assert nextWell[..] == ws.well;
    var orientation := OrientationOf(cfg, p);
    var yActual := p.y + orientation.yMin;
    StampInPlace(nextWell, orientation.rows, p.x + orientation.xMin, yActual);
    var nextScore := ClearInPlace(nextWell, yActual, orientation.yDim, yActual >= cfg.bar,
                                  FullRow(cfg.wellWidth), ws.score);
    r := WellState(nextWell[..], nextScore, None);
  }
}
