/** Worked examples of the rules: the merge cases of a single column, a
    sideways tilt of a whole board, and a deadlocked board ending the game.

    Columns are written bottom row first, so the last entry is the top row.
 */
module Scenarios {
  import opened Grids
  import opened MergeRule
  import opened ColumnTilt
  import opened Boards
  import opened GameOver
  import opened Game

  lemma TilesCons(a: nat, rest: seq<nat>)
    ensures Tiles([a] + rest) == Tiles(rest) + Occupant(a)
  {
    assert ([a] + rest)[1..] == rest;
  }

  /** The tiles of a four-row column, top first. */
  lemma TilesOfFour(a: nat, b: nat, c: nat, d: nat)
    ensures Tiles([a, b, c, d]) == Occupant(d) + Occupant(c) + Occupant(b) + Occupant(a)
  {
    TilesCons(d, []);
    assert Tiles([d]) == Occupant(d);
    TilesCons(c, [d]);
    assert Tiles([c, d]) == Occupant(d) + Occupant(c);
    TilesCons(b, [c, d]);
    assert Tiles([b, c, d]) == Occupant(d) + Occupant(c) + Occupant(b);
    TilesCons(a, [b, c, d]);
  }

  lemma MergePair(a: nat, rest: seq<nat>)
    ensures MergeTiles([a, a] + rest) == [2 * a] + MergeTiles(rest)
    ensures MergeGain([a, a] + rest) == 2 * a + MergeGain(rest)
  {
    assert ([a, a] + rest)[2..] == rest;
  }

  lemma MergeSingle(a: nat, rest: seq<nat>)
    requires |rest| == 0 || rest[0] != a
    ensures MergeTiles([a] + rest) == [a] + MergeTiles(rest)
    ensures MergeGain([a] + rest) == MergeGain(rest)
  {
    assert ([a] + rest)[1..] == rest;
  }

  lemma PackOne(a: nat)
    ensures PackTop([a], 4) == [0, 0, 0, a]
  {
    var p := PackTop([a], 4);
    assert p[0] == 0 && p[1] == 0 && p[2] == 0 && p[3] == a;
  }

  lemma PackTwo(a: nat, b: nat)
    ensures PackTop([a, b], 4) == [0, 0, b, a]
  {
    var p := PackTop([a, b], 4);
    assert p[0] == 0 && p[1] == 0 && p[2] == b && p[3] == a;
  }

  /** The column tilt of `col` is what the merge rule gives for it. */
  lemma TiltByRule(col: seq<nat>, merged: seq<nat>, packed: seq<nat>, gain: nat)
    requires MergeTiles(Tiles(col)) == merged && MergeGain(Tiles(col)) == gain
    requires |merged| <= |col| && PackTop(merged, |col|) == packed
    ensures SlideColumn(col).cells == packed && SlideColumn(col).gained == gain
  {
    SlideColumnMatchesRule(col);
  }

  /** Two equal tiles below an empty top row merge into one at the top. */
  lemma PairMergesAtTop(x: nat)
    requires x > 0
    ensures SlideColumn([x, x, 0, 0]).cells == [0, 0, 0, 2 * x]
    ensures SlideColumn([x, x, 0, 0]).gained == 2 * x
  {
    TilesOfFour(x, x, 0, 0);
    assert Tiles([x, x, 0, 0]) == [x, x] + [];
    MergePair(x, []);
    PackOne(2 * x);
    TiltByRule([x, x, 0, 0], [2 * x], [0, 0, 0, 2 * x], 2 * x);
  }

  /** Of three equal tiles the leading two merge and the trailing one only
      closes up behind the merge product. */
  lemma LeadingPairOfThreeMerges(x: nat)
    requires x > 0
    ensures SlideColumn([x, x, x, 0]).cells == [0, 0, x, 2 * x]
    ensures SlideColumn([x, x, x, 0]).gained == 2 * x
  {
    TilesOfFour(x, x, x, 0);
    assert Tiles([x, x, x, 0]) == [x, x] + [x];
    MergePair(x, [x]);
    MergeSingle(x, []);
    PackTwo(2 * x, x);
    TiltByRule([x, x, x, 0], [2 * x, x], [0, 0, x, 2 * x], 2 * x);
  }

  /** A merge product does not merge again in the same tilt, even with an
      equal tile already ahead of it. */
  lemma NoChainMerge(x: nat)
    requires x > 0
    ensures SlideColumn([x, x, 2 * x, 0]).cells == [0, 0, 2 * x, 2 * x]
    ensures SlideColumn([x, x, 2 * x, 0]).gained == 2 * x
  {
    TilesOfFour(x, x, 2 * x, 0);
    assert Tiles([x, x, 2 * x, 0]) == [2 * x] + [x, x];
    MergeSingle(2 * x, [x, x]);
    MergePair(x, []);
    PackTwo(2 * x, 2 * x);
    TiltByRule([x, x, 2 * x, 0], [2 * x, 2 * x], [0, 0, 2 * x, 2 * x], 2 * x);
  }

  /** Four equal tiles make two merges. */
  lemma FourEqualMakeTwoMerges(x: nat)
    requires x > 0
    ensures SlideColumn([x, x, x, x]).cells == [0, 0, 2 * x, 2 * x]
    ensures SlideColumn([x, x, x, x]).gained == 4 * x
  {
    TilesOfFour(x, x, x, x);
    assert Tiles([x, x, x, x]) == [x, x] + [x, x];
    MergePair(x, [x, x]);
    MergePair(x, []);
    PackTwo(2 * x, 2 * x);
    TiltByRule([x, x, x, x], [2 * x, 2 * x], [0, 0, 2 * x, 2 * x], 4 * x);
  }

  /** A tile slides up until it meets a tile of another value. */
  lemma BlockedTileStopsBelow(x: nat, y: nat)
    requires x > 0 && y > 0 && x != y
    ensures SlideColumn([x, 0, 0, y]).cells == [0, 0, x, y]
    ensures SlideColumn([x, 0, 0, y]).gained == 0
  {
    TilesOfFour(x, 0, 0, y);
    assert Tiles([x, 0, 0, y]) == [y] + [x];
    MergeSingle(y, [x]);
    MergeSingle(x, []);
    PackTwo(y, x);
    TiltByRule([x, 0, 0, y], [y, x], [0, 0, x, y], 0);
  }

  /** Two 2s side by side on the bottom row of a 2-by-2 board, tilted WEST,
      become one 4 in the lower-left corner. */
  lemma WestTiltMergesBottomRow(score: nat, maxScore: nat)
    ensures var m := Model(Board([[2, 0], [2, 0]], North), score, maxScore, false);
            var out := Tilt(m, West);
            out.model.board.cells == [[4, 0], [0, 0]] && out.changed &&
            out.model.score == score + 4 && out.model.maxScore == maxScore
  {
    var m := Model(Board([[2, 0], [2, 0]], North), score, maxScore, false);
    WestTiltOutcome(m, Tilt(m, West));
  }

  /** What `Tilt` promises, specialised to the bottom pair tilted WEST. */
  lemma WestTiltOutcome(m: Model, out: TiltResult)
    requires m.board.cells == [[2, 0], [2, 0]]
    requires Valid(out.model) && |out.model.board.cells| == |m.board.cells|
    requires var n := |m.board.cells|;
             var before := Viewed(Board(m.board.cells, West));
             var after := Viewed(Board(out.model.board.cells, West));
             forall c :: 0 <= c < n ==>
               |MergeTiles(Tiles(before[c]))| <= n && after[c] == PackTop(MergeTiles(Tiles(before[c])), n)
    requires out.changed <==> out.model.board.cells != m.board.cells
    requires out.model.score == m.score + RuleGain(Viewed(Board(m.board.cells, West)))
    ensures out.model.board.cells == [[4, 0], [0, 0]] && out.changed
    ensures out.model.score == m.score + 4
  {
    BottomPairFromWest();
    WestTiltedCells(out.model.board.cells);
    assert out.model.board.cells[0][0] != m.board.cells[0][0];
  }

  /** The only board whose WEST view packs the bottom pair as the rule says. */
  lemma WestTiltedCells(g': Grid)
    requires |g'| == 2 && IsSquare(g')
    requires var before := Viewed(Board([[2, 0], [2, 0]], West));
             var after := Viewed(Board(g', West));
             forall c :: 0 <= c < 2 ==>
               |MergeTiles(Tiles(before[c]))| <= 2 && after[c] == PackTop(MergeTiles(Tiles(before[c])), 2)
    ensures g' == [[4, 0], [0, 0]]
  {
    BottomPairFromWest();
    var w := Viewed(Board(g', West));
    assert w[0] == PackTop(MergeTiles(Tiles([2, 2])), 2);
    assert w[1] == PackTop(MergeTiles(Tiles([0, 0])), 2);
    UnviewedViewed(Board(g', West));
    LeftCornerFromWest(w);
  }

  /** Seen from WEST, the bottom row of the 2-by-2 board is the first
      line, and the rule merges its two 2s into a 4. */
  lemma BottomPairFromWest()
    ensures Viewed(Board([[2, 0], [2, 0]], West)) == [[2, 2], [0, 0]]
    ensures PackTop(MergeTiles(Tiles([2, 2])), 2) == [0, 4]
    ensures PackTop(MergeTiles(Tiles([0, 0])), 2) == [0, 0]
    ensures RuleGain([[2, 2], [0, 0]]) == 4
  {
    BottomRowFromWest();
    PairRuleOfTwo();
    EmptyRuleOfTwo();
    RuleGainOfPair();
  }

  lemma BottomRowFromWest()
    ensures Viewed(Board([[2, 0], [2, 0]], West)) == [[2, 2], [0, 0]]
  {
    var g: Grid := [[2, 0], [2, 0]];
    var v := Viewed(Board(g, West));
    assert ToStorage(West, 2, 0, 0) == (1, 0);
    assert ToStorage(West, 2, 0, 1) == (0, 0);
    assert ToStorage(West, 2, 1, 0) == (1, 1);
    assert ToStorage(West, 2, 1, 1) == (0, 1);
    assert v[0][0] == 2 && v[0][1] == 2 && v[1][0] == 0 && v[1][1] == 0;
    assert v[0] == [2, 2] && v[1] == [0, 0];
  }

  lemma PairRuleOfTwo()
    ensures MergeGain(Tiles([2, 2])) == 4
    ensures PackTop(MergeTiles(Tiles([2, 2])), 2) == [0, 4]
  {
    TwoCellTiles(2, 2);
    assert Tiles([2, 2]) == [2, 2] + [];
    MergePair(2, []);
    var p := PackTop([4], 2);
    assert p[0] == 0 && p[1] == 4;
  }

  lemma EmptyRuleOfTwo()
    ensures MergeGain(Tiles([0, 0])) == 0
    ensures PackTop(MergeTiles(Tiles([0, 0])), 2) == [0, 0]
  {
    TwoCellTiles(0, 0);
    var q := PackTop(MergeTiles(Tiles([0, 0])), 2);
    assert q[0] == 0 && q[1] == 0;
  }

  lemma RuleGainOfPair()
    ensures RuleGain([[2, 2], [0, 0]]) == 4
  {
    PairRuleOfTwo();
    EmptyRuleOfTwo();
    RuleGainOfTwo([2, 2], [0, 0]);
  }

  /** The rule's total on two lines is the sum of their merge totals. */
  lemma RuleGainOfTwo(a: seq<nat>, b: seq<nat>)
    ensures RuleGain([a, b]) == MergeGain(Tiles(a)) + MergeGain(Tiles(b))
  {
    assert [a, b][..1] == [a];
    assert [a][..0] == [];
    assert RuleGain([a]) == MergeGain(Tiles(a));
  }

  lemma TwoCellTiles(a: nat, b: nat)
    ensures Tiles([a, b]) == Occupant(b) + Occupant(a)
  {
    TilesCons(b, []);
    assert Tiles([b]) == Occupant(b);
    TilesCons(a, [b]);
  }

  /** The stored grid whose WEST view is a 4 at the far end of the first line. */
  lemma LeftCornerFromWest(w: Grid)
    requires w == [[0, 4], [0, 0]]
    ensures Unviewed(w, West) == [[4, 0], [0, 0]]
  {
    var u := Unviewed(w, West);
    assert u[0] == [4, 0] && u[1] == [0, 0];
  }

  /** Every cell differs from its four neighbours. */
  function Checkerboard(n: nat): (g: Grid)
    ensures IsSquare(g) && |g| == n
  {
    seq(n, c requires 0 <= c < n => seq(n, r requires 0 <= r < n => if (c + r) % 2 == 0 then 2 else 4))
  }

  /** A full board with no two equal neighbours ends the game, and asking
      whether the game is over brings the best score up to the score. */
  lemma DeadlockEndsGame(n: nat, score: nat, maxScore: nat)
    ensures var m := Model(Board(Checkerboard(n), North), score, maxScore, false);
            var res := QueryGameOver(m);
            res.1 && res.0.gameOver && res.0.maxScore == Max(score, maxScore)
  {
    var g := Checkerboard(n);
    forall c: nat, r: nat | c < n && r < n
      ensures g[c][r] != 0 && !MatchesNeighbour(g, c, r)
    {
      if c + 1 < n {
        assert g[c + 1][r] != g[c][r];
      }
      if r + 1 < n {
        assert g[c][r + 1] != g[c][r];
      }
    }
    assert !HasMaxTile(g);
  }

  /** The best score is a high-water mark of finished games only: during
      play the score can pass it. */
  lemma ScoreCanPassBestScore()
    ensures var m := AddTile(AddTile(New(2), 0, 0, 2), 0, 1, 2);
            var out := Tilt(m, North);
            out.model.score == 4 && out.model.maxScore == 0
  {
    var m := AddTile(AddTile(New(2), 0, 0, 2), 0, 1, 2);
    TwoTilesInFirstColumn();
    ViewedNorth(m.board.cells);
    RuleGainOfPair();
  }

  lemma TwoTilesInFirstColumn()
    ensures AddTile(AddTile(New(2), 0, 0, 2), 0, 1, 2).board.cells == [[2, 2], [0, 0]]
  {
    var m0 := New(2);
    var m1 := AddTile(m0, 0, 0, 2);
    var g := AddTile(m1, 0, 1, 2).board.cells;
    assert g[0][0] == 2 && g[0][1] == 2 && g[1][0] == 0 && g[1][1] == 0;
    assert g[0] == [2, 2] && g[1] == [0, 0];
  }
}
