/** When the game is over.

    The game ends when some tile reaches `MaxPiece`, or when no tilt could
    change the board: no cell is empty and no two orthogonally adjacent
    tiles are equal. The predicates state this directly; the methods are the
    scans of `Model.java` and are proved to compute them.

    `AtLeastOneMoveExistsAsWritten` keeps the scan exactly as written, with
    its empty-cell branch reading `tile(j, j + 1)`. That read never leaves
    the board and the answer is right on every board of size at least 2,
    but on a 1-by-1 board with an empty cell the scan answers false.
    `AtLeastOneMoveExists` is the corrected scan, used by `CheckGameOver`.
 */
module GameOver {
  import opened Grids

  /** `Model.MAX_PIECE`. */
  const MaxPiece: nat := 2048

  predicate HasEmptySpace(g: Grid) {
    exists c, r :: 0 <= c < |g| && 0 <= r < |g[c]| && g[c][r] == 0
  }

  predicate HasMaxTile(g: Grid) {
    exists c, r :: 0 <= c < |g| && 0 <= r < |g[c]| && g[c][r] == MaxPiece
  }

  /** The tile at (c, r) equals its right-hand or its upper neighbour. */
  predicate MatchesNeighbour(g: Grid, c: nat, r: nat)
    requires IsSquare(g) && c < |g| && r < |g|
  {
    var n := |g|;
    g[c][r] != 0 && ((c + 1 < n && g[c + 1][r] == g[c][r]) || (r + 1 < n && g[c][r + 1] == g[c][r]))
  }

  /** Two tiles side by side in a row, or one above the other in a column, with equal values. */
  predicate HasEqualNeighbours(g: Grid)
    requires IsSquare(g)
  {
    exists c: nat, r: nat :: c < |g| && r < |g| && MatchesNeighbour(g, c, r)
  }

  /** Some tilt could still change the board. */
  predicate MoveExists(g: Grid)
    requires IsSquare(g)
  {
    HasEmptySpace(g) || HasEqualNeighbours(g)
  }

  predicate IsGameOver(g: Grid)
    requires IsSquare(g)
  {
    HasMaxTile(g) || !MoveExists(g)
  }

  /** `emptySpaceExists`: scan columns, then rows, for an empty cell. */
  method EmptySpaceExists(g: Grid) returns (found: bool)
    requires IsSquare(g)
    ensures found <==> HasEmptySpace(g)
  {
    var size := |g|;
    for i := 0 to size
      invariant forall c, r :: 0 <= c < i && 0 <= r < size ==> g[c][r] != 0
    {
      for j := 0 to size
        invariant forall r :: 0 <= r < j ==> g[i][r] != 0
      {
        if g[i][j] == 0 {
          return true;
        }
      }
    }
    return false;
  }

  /** `maxTileExists`: visit every tile and look for `MaxPiece`. */
  method MaxTileExists(g: Grid) returns (found: bool)
    requires IsSquare(g)
    ensures found <==> HasMaxTile(g)
  {
    var size := |g|;
    for c := 0 to size
      invariant forall x, y :: 0 <= x < c && 0 <= y < size ==> g[x][y] != MaxPiece
    {
      for r := 0 to size
        invariant forall y :: 0 <= y < r ==> g[c][y] != MaxPiece
      {
        if g[c][r] != 0 && g[c][r] == MaxPiece {
          return true;
        }
      }
    }
    return false;
  }

  /** What the scan has ruled out at cell (x, y) once it moves past it: the
      cell holds a tile (on boards of size 2 or more) and its right and upper
      neighbours hold tiles of other values. */
  ghost predicate Cleared(g: Grid, x: nat, y: nat)
    requires IsSquare(g) && x < |g| && y < |g|
  {
    var n := |g|;
    && (n >= 2 ==> g[x][y] != 0)
    && (x + 1 < n ==> g[x + 1][y] != 0 && g[x + 1][y] != g[x][y])
    && (y + 1 < n ==> g[x][y + 1] != 0 && g[x][y + 1] != g[x][y])
  }

  lemma AllCleared(g: Grid)
    requires IsSquare(g) && |g| >= 2
    requires forall x, y :: 0 <= x < |g| && 0 <= y < |g| ==> Cleared(g, x, y)
    ensures !MoveExists(g)
  {
    var n := |g|;
    forall c: nat, r: nat | c < n && r < n
      ensures g[c][r] != 0 && !MatchesNeighbour(g, c, r)
    {
      assert Cleared(g, c, r);
    }
  }

  /** `atLeastOneMoveExists` as written: rows outer, columns inner, and in
      the empty-cell branch the upper neighbour is read as `tile(j, j + 1)`. */
  method AtLeastOneMoveExistsAsWritten(g: Grid) returns (found: bool)
    requires IsSquare(g)
    ensures found ==> MoveExists(g)
    ensures |g| != 1 ==> (found <==> MoveExists(g))
    ensures |g| == 1 ==> !found
  {
    var n := |g|;
    for i := 0 to n
      invariant forall x, y :: 0 <= y < i && 0 <= x < n ==> Cleared(g, x, y)
    {
      for j := 0 to n
        invariant forall x :: 0 <= x < j ==> Cleared(g, x, i)
        invariant 0 < j < n ==> g[j][i] != 0
      {
        if g[j][i] == 0 {
          if j != n - 1 {
            if g[j + 1][i] != 0 {
              return true;
            }
          }
          if i != n - 1 {
            // reads row j + 1, not i + 1; on a square board of size 2 or
            // more this branch is only reached with j < n - 1
            if g[j][j + 1] != 0 {
              return true;
            }
          }
        }
        if j != n - 1 {
          if g[j + 1][i] == 0 {
            return true;
          }
          // Java dereferences tile(j, i) here: it is never empty at this point
          assert g[j][i] != 0;
          if g[j + 1][i] == g[j][i] {
            assert MatchesNeighbour(g, j, i);
            return true;
          }
        }
        if i != n - 1 {
          if g[j][i + 1] == 0 {
            return true;
          }
          assert g[j][i] != 0;
          if g[j][i + 1] == g[j][i] {
            assert MatchesNeighbour(g, j, i);
            return true;
          }
        }
      }
    }
    if n >= 2 {
      AllCleared(g);
    } else if n == 1 {
      assert g[0][0] != 0 ==> Cleared(g, 0, 0);
    }
    return false;
  }

  /** The scan with the empty-cell branch corrected: an empty cell is a move. */
  method AtLeastOneMoveExists(g: Grid) returns (found: bool)
    requires IsSquare(g)
    ensures found <==> MoveExists(g)
  {
    var n := |g|;
    for i := 0 to n
      invariant forall x, y :: 0 <= y < i && 0 <= x < n ==> Cleared(g, x, y) && g[x][y] != 0
    {
      for j := 0 to n
        invariant forall x :: 0 <= x < j ==> Cleared(g, x, i) && g[x][i] != 0
      {
        if g[j][i] == 0 {
          return true;
        }
        if j != n - 1 {
          if g[j + 1][i] == 0 || g[j + 1][i] == g[j][i] {
            assert g[j + 1][i] != 0 ==> MatchesNeighbour(g, j, i);
            return true;
          }
        }
        if i != n - 1 {
          if g[j][i + 1] == 0 || g[j][i + 1] == g[j][i] {
            assert g[j][i + 1] != 0 ==> MatchesNeighbour(g, j, i);
            return true;
          }
        }
      }
    }
    if n >= 2 {
      AllCleared(g);
    }
    return false;
  }

  /** `checkGameOver(Board)`: a maximal tile, or no move left. */
  method CheckGameOver(g: Grid) returns (over: bool)
    requires IsSquare(g)
    ensures over <==> HasMaxTile(g) || (!HasEmptySpace(g) && !HasEqualNeighbours(g))
  {
    var maxTile := MaxTileExists(g);
    var move := AtLeastOneMoveExists(g);
    over := maxTile || !move;
  }

  /** A 1-by-1 board with its only cell empty still has a move, which the
      scan as written does not report. */
  lemma UnitBoardHasMove()
    ensures IsSquare([[0]]) && |[[0]]| == 1
    ensures MoveExists([[0]])
  {
    assert [[0]][0][0] == 0;
  }
}
