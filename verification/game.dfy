/** A game of 2048: the board, the score, the best score and the end flag.

    `Model` is the state `Model.java` keeps. Every operation is a function
    from the state before to the state after; a tilt also returns whether
    the board changed. The observer notifications of the source carry no
    game state and are not part of the model.
 */
module Game {
  import opened Grids
  import opened MergeRule
  import opened ColumnTilt
  import opened Boards
  import opened GameOver

  /** The state of one game. `maxScore` is only brought up to date when
      `QueryGameOver` observes the end of the game. */
  datatype Model = Model(board: Board, score: nat, maxScore: nat, gameOver: bool)

  /** The state every public operation leaves behind: a square board
      addressed from NORTH. */
  predicate Valid(m: Model) {
    IsSquare(m.board.cells) && m.board.view == North
  }

  /** A tilt's new state and whether the board changed. */
  datatype TiltResult = TiltResult(model: Model, changed: bool)

  function Max(a: nat, b: nat): nat {
    if a >= b then a else b
  }

  /** `Model(size)`: an empty board, both scores 0, the game not over. */
  function New(size: nat): (m: Model)
    ensures Valid(m) && |m.board.cells| == size
    ensures forall c, r :: 0 <= c < size && 0 <= r < size ==> m.board.cells[c][r] == 0
    ensures !HasEmptySpace(m.board.cells) <==> size == 0
    ensures GridSum(m.board.cells) == 0
    ensures m.score == 0 && m.maxScore == 0 && !m.gameOver
  {
    var g := EmptyGrid(size);
    assert size > 0 ==> g[0][0] == 0;
    EmptyGridSum(size);
    Model(Board(g, North), 0, 0, false)
  }

  /** `Model(rawValues, score, maxScore, gameOver)`: the raw values are given
      row first, so the stored grid is their transpose. */
  function FromRawValues(raw: seq<seq<nat>>, score: nat, maxScore: nat, gameOver: bool): (m: Model)
    requires forall row :: 0 <= row < |raw| ==> |raw[row]| == |raw|
    ensures Valid(m) && |m.board.cells| == |raw|
    ensures forall c, r :: 0 <= c < |raw| && 0 <= r < |raw| ==> m.board.cells[c][r] == raw[r][c]
    ensures GridSum(m.board.cells) == GridSum(raw)
    ensures m.score == score && m.maxScore == maxScore && m.gameOver == gameOver
  {
    GridSumTranspose(raw, |raw|);
    Model(Board(Transpose(raw, |raw|), North), score, maxScore, gameOver)
  }

  /** `gameOver()`: recompute the end flag; once the game is over the best
      score catches up with the score. */
  function QueryGameOver(m: Model): (res: (Model, bool))
    requires IsSquare(m.board.cells)
    ensures res.1 <==> HasMaxTile(m.board.cells) || !MoveExists(m.board.cells)
    ensures res.0.gameOver == res.1
    ensures res.0.board == m.board && res.0.score == m.score
    ensures res.0.maxScore >= m.maxScore
    ensures res.1 ==> res.0.maxScore >= res.0.score
    ensures res.0.maxScore == m.maxScore || (res.1 && res.0.maxScore == m.score)
  {
    var over := IsGameOver(m.board.cells);
    var after := m.(gameOver := over);
    if over then (after.(maxScore := Max(m.score, m.maxScore)), true) else (after, false)
  }

  /** Asking twice is the same as asking once. */
  lemma QueryGameOverIdempotent(m: Model)
    requires IsSquare(m.board.cells)
    ensures QueryGameOver(QueryGameOver(m).0) == QueryGameOver(m)
  {
  }

  /** `clear()`: an empty board of the same size, score 0, game not over;
      the best score is kept. */
  function Clear(m: Model): (m': Model)
    requires IsSquare(m.board.cells)
    ensures IsSquare(m'.board.cells) && |m'.board.cells| == |m.board.cells|
    ensures m'.board.view == m.board.view
    ensures forall c, r :: 0 <= c < |m.board.cells| && 0 <= r < |m.board.cells| ==> m'.board.cells[c][r] == 0
    ensures GridSum(m'.board.cells) == 0
    ensures m'.score == 0 && !m'.gameOver && m'.maxScore == m.maxScore
  {
    EmptyGridSum(|m.board.cells|);
    Model(m.board.(cells := EmptyGrid(|m.board.cells|)), 0, m.maxScore, false)
  }

  /** `addTile(tile)`: the caller must pick an empty cell. The tile is
      placed, the end flag recomputed, and nothing else changes. */
  function AddTile(m: Model, col: nat, row: nat, value: nat): (m': Model)
    requires IsSquare(m.board.cells) && col < |m.board.cells| && row < |m.board.cells|
    requires m.board.cells[col][row] == 0 && value > 0
    ensures IsSquare(m'.board.cells) && |m'.board.cells| == |m.board.cells|
    ensures m'.board.view == m.board.view
    ensures m'.board.cells[col][row] == value
    ensures forall c, r :: 0 <= c < |m.board.cells| && 0 <= r < |m.board.cells| && (c, r) != (col, row) ==>
              m'.board.cells[c][r] == m.board.cells[c][r]
    ensures GridSum(m'.board.cells) == GridSum(m.board.cells) + value
    ensures m'.gameOver <==> HasMaxTile(m'.board.cells) || !MoveExists(m'.board.cells)
    ensures m'.score == m.score && m'.maxScore == m.maxScore
  {
    var g := SetCell(m.board.cells, col, row, value);
    GridSumUpdate(m.board.cells, col, row, value);
    m.(board := m.board.(cells := g), gameOver := IsGameOver(g))
  }

  /** `tilt_up()`: tilt the board as currently viewed toward its top. */
  function TiltUp(m: Model): (out: TiltResult)
    requires IsSquare(m.board.cells)
    ensures IsSquare(out.model.board.cells) && |out.model.board.cells| == |m.board.cells|
    ensures out.model.board.view == m.board.view
    ensures var n := |m.board.cells|;
            var before := Viewed(m.board);
            var after := Viewed(out.model.board);
            forall c :: 0 <= c < n ==>
              |MergeTiles(Tiles(before[c]))| <= n && after[c] == PackTop(MergeTiles(Tiles(before[c])), n)
    ensures out.model.score == m.score + RuleGain(Viewed(m.board))
    ensures GridSum(out.model.board.cells) == GridSum(m.board.cells)
    ensures out.changed <==> out.model.board.cells != m.board.cells
    ensures out.model.maxScore == m.maxScore && out.model.gameOver == m.gameOver
  {
    var side := m.board.view;
    var v := Viewed(m.board);
    var res := SlideColumns(v);
    SlideColumnsSpec(v);
    var cells := Unviewed(res.cells, side);
    ViewedUnviewed(res.cells, side);
    UnviewedViewed(m.board);
    UnviewedInjective(res.cells, v, side);
    UnviewedSum(res.cells, side);
    ViewedSum(m.board);
    TiltResult(m.(board := Board(cells, side), score := m.score + res.gained), res.changed)
  }

  /** `tilt(side)`: view the board from `side`, tilt up, view it from NORTH
      again and recompute the end flag. Seen from `side`, every line of the
      board is the merge rule packed against that side; the changed flag is
      exact; tile values are conserved; the score grows by the merged value;
      the best score is left alone. */
  function Tilt(m: Model, side: Side): (out: TiltResult)
    requires IsSquare(m.board.cells)
    ensures Valid(out.model) && |out.model.board.cells| == |m.board.cells|
    ensures var n := |m.board.cells|;
            var before := Viewed(Board(m.board.cells, side));
            var after := Viewed(Board(out.model.board.cells, side));
            forall c :: 0 <= c < n ==>
              |MergeTiles(Tiles(before[c]))| <= n && after[c] == PackTop(MergeTiles(Tiles(before[c])), n)
    ensures out.changed <==> out.model.board.cells != m.board.cells
    ensures GridSum(out.model.board.cells) == GridSum(m.board.cells)
    ensures out.model.score == m.score + RuleGain(Viewed(Board(m.board.cells, side)))
    ensures out.model.maxScore == m.maxScore
    ensures out.model.gameOver <==> HasMaxTile(out.model.board.cells) || !MoveExists(out.model.board.cells)
  {
    var up := TiltUp(m.(board := StartViewingFrom(m.board, side)));
    var back := up.model.(board := StartViewingFrom(up.model.board, North));
    TiltResult(back.(gameOver := IsGameOver(back.board.cells)), up.changed)
  }

  /** On a board addressed from NORTH, `tilt(NORTH)` is `tilt_up` followed
      by recomputing the end flag. */
  lemma TiltNorthIsTiltUp(m: Model)
    requires Valid(m)
    ensures Tilt(m, North).model.board == TiltUp(m).model.board
    ensures Tilt(m, North).model.score == TiltUp(m).model.score
    ensures Tilt(m, North).changed == TiltUp(m).changed
  {
    assert StartViewingFrom(m.board, North) == m.board;
  }

  /** Tilting NORTH packs each stored column against the top row. */
  lemma TiltNorthPacksColumns(m: Model)
    requires IsSquare(m.board.cells)
    ensures var g := m.board.cells;
            var g' := Tilt(m, North).model.board.cells;
            forall c :: 0 <= c < |g| ==>
              |MergeTiles(Tiles(g[c]))| <= |g| && g'[c] == PackTop(MergeTiles(Tiles(g[c])), |g|)
  {
    var out := Tilt(m, North);
    ViewedNorth(m.board.cells);
    ViewedNorth(out.model.board.cells);
  }

  /** A tilt that reports no change leaves the score as it was: with no
      tile moved, no tile merged. */
  lemma UnchangedTiltKeepsBoardAndScore(m: Model, side: Side)
    requires IsSquare(m.board.cells)
    requires !Tilt(m, side).changed
    ensures Tilt(m, side).model.board.cells == m.board.cells
    ensures Tilt(m, side).model.score == m.score
  {
    RuleGainOfPackedColumns(Viewed(Board(m.board.cells, side)));
  }

  /** Columns that the rule already leaves as they are gain nothing. */
  lemma RuleGainOfPackedColumns(v: Grid)
    requires forall c :: 0 <= c < |v| ==>
               |MergeTiles(Tiles(v[c]))| <= |v| && v[c] == PackTop(MergeTiles(Tiles(v[c])), |v|)
    requires IsSquare(v)
    ensures RuleGain(v) == 0
  {
    forall c | 0 <= c < |v|
      ensures SlideColumn(v[c]).cells == v[c]
    {
      SlideColumnMatchesRule(v[c]);
    }
    RuleGainOfFixedColumns(v);
  }

  // ---------------------------------------------------------------------
  // Sequences of player-facing calls
  // ---------------------------------------------------------------------

  /** A call a player (or the game's driver) makes on the model. */
  datatype Op = TiltOp(side: Side) | AddTileOp(col: nat, row: nat, value: nat) | ClearOp | GameOverOp

  /** The state after a run of calls, or `Halted` when some `addTile` broke
      its precondition, which the source treats as a fatal error. */
  datatype RunResult = Running(model: Model) | Halted

  /** `addTile` may be called: the cell is on the board and empty, and the tile has a value. */
  predicate CanAddTile(m: Model, col: nat, row: nat, value: nat)
    requires IsSquare(m.board.cells)
  {
    col < |m.board.cells| && row < |m.board.cells| && m.board.cells[col][row] == 0 && value > 0
  }

  function Apply(m: Model, op: Op): (res: RunResult)
    requires IsSquare(m.board.cells)
    ensures res.Halted? <==> op.AddTileOp? && !CanAddTile(m, op.col, op.row, op.value)
    ensures res.Running? ==> IsSquare(res.model.board.cells) && |res.model.board.cells| == |m.board.cells|
    ensures res.Running? && m.board.view == North ==> res.model.board.view == North
    ensures res.Running? ==> res.model.maxScore >= m.maxScore
    ensures res.Running? && !op.ClearOp? ==> res.model.score >= m.score
  {
    match op
    case TiltOp(side) => Running(Tilt(m, side).model)
    case AddTileOp(col, row, value) =>
      if CanAddTile(m, col, row, value) then Running(AddTile(m, col, row, value)) else Halted
    case ClearOp => Running(Clear(m))
    case GameOverOp => Running(QueryGameOver(m).0)
  }

  function Run(m: Model, ops: seq<Op>): RunResult
    requires IsSquare(m.board.cells)
    decreases |ops|
  {
    if |ops| == 0 then Running(m)
    else
      match Apply(m, ops[0])
      case Halted => Halted
      case Running(next) => Run(next, ops[1..])
  }

  /** Over any run that does not halt the board keeps its size, a board
      addressed from NORTH stays so, and the best score never decreases. */
  lemma {:induction false} RunKeepsBestScore(m: Model, ops: seq<Op>)
    requires IsSquare(m.board.cells)
    ensures Run(m, ops).Running? ==> IsSquare(Run(m, ops).model.board.cells)
    ensures Run(m, ops).Running? ==> |Run(m, ops).model.board.cells| == |m.board.cells|
    ensures Run(m, ops).Running? && Valid(m) ==> Valid(Run(m, ops).model)
    ensures Run(m, ops).Running? ==> Run(m, ops).model.maxScore >= m.maxScore
    decreases |ops|
  {
    if |ops| > 0 {
      match Apply(m, ops[0])
      case Halted =>
      case Running(next) =>
        RunKeepsBestScore(next, ops[1..]);
    }
  }

  /** Without a `clear`, the score never decreases over a run. */
  lemma {:induction false} RunKeepsScore(m: Model, ops: seq<Op>)
    requires IsSquare(m.board.cells)
    requires forall i :: 0 <= i < |ops| ==> !ops[i].ClearOp?
    ensures Run(m, ops).Running? ==> Run(m, ops).model.score >= m.score
    decreases |ops|
  {
    if |ops| > 0 {
      match Apply(m, ops[0])
      case Halted =>
      case Running(next) =>
        RunKeepsScore(next, ops[1..]);
    }
  }
}
