/** The board seen through a side.

    Every tilt direction reuses the upward tilt by viewing the board so that
    "up" in the view is the requested side. A view is a pure renaming of
    cells: `ToStorage` says which stored cell a view cell denotes,
    `FromStorage` undoes it, and `Viewed` / `Unviewed` carry a whole grid
    across. Viewing from NORTH is the identity.
 */
module Boards {
  import opened Grids

  datatype Side = North | East | South | West

  /** A board's stored cells together with the side it is currently viewed from. */
  datatype Board = Board(cells: Grid, view: Side)

  /** The stored cell denoted by view cell (c, r) of an n-by-n board viewed from `side`. */
  function ToStorage(side: Side, n: nat, c: nat, r: nat): (cell: (nat, nat))
    requires c < n && r < n
    ensures cell.0 < n && cell.1 < n
  {
    match side
    case North => (c, r)
    case East => (r, n - 1 - c)
    case South => (n - 1 - c, n - 1 - r)
    case West => (n - 1 - r, c)
  }

  /** The view cell that denotes stored cell (x, y). */
  function FromStorage(side: Side, n: nat, x: nat, y: nat): (cell: (nat, nat))
    requires x < n && y < n
    ensures cell.0 < n && cell.1 < n
  {
    match side
    case North => (x, y)
    case East => (n - 1 - y, x)
    case South => (n - 1 - x, n - 1 - y)
    case West => (y, n - 1 - x)
  }

  /** The stored neighbour of (x, y) one step toward `side` (it may lie off the board). */
  function Toward(side: Side, x: nat, y: nat): (int, int) {
    match side
    case North => (x, y + 1)
    case East => (x + 1, y)
    case South => (x, y - 1)
    case West => (x - 1, y)
  }

  /** The two maps are inverse bijections of the n-by-n cells. */
  lemma ViewRoundTrip(side: Side, n: nat, c: nat, r: nat)
    requires c < n && r < n
    ensures var cell := ToStorage(side, n, c, r); FromStorage(side, n, cell.0, cell.1) == (c, r)
    ensures var cell := FromStorage(side, n, c, r); ToStorage(side, n, cell.0, cell.1) == (c, r)
  {
  }

  /** One row up in the view is one step toward the viewing side in storage,
      and NORTH is the identity view. */
  lemma ViewUpIsSide(side: Side, n: nat, c: nat, r: nat)
    requires c < n && r + 1 < n
    ensures var cell := ToStorage(side, n, c, r);
            var next := ToStorage(side, n, c, r + 1);
            (next.0 as int, next.1 as int) == Toward(side, cell.0, cell.1)
    ensures ToStorage(North, n, c, r) == (c, r)
  {
  }

  /** The grid as the tilt sees it: view cell (c, r) holds the stored value it denotes. */
  function Viewed(b: Board): (v: Grid)
    requires IsSquare(b.cells)
    ensures IsSquare(v) && |v| == |b.cells|
  {
    var n := |b.cells|;
    seq(n, c requires 0 <= c < n =>
      seq(n, r requires 0 <= r < n =>
        var cell := ToStorage(b.view, n, c, r); b.cells[cell.0][cell.1]))
  }

  /** The stored grid whose view from `side` is `v`. */
  function Unviewed(v: Grid, side: Side): (g: Grid)
    requires IsSquare(v)
    ensures IsSquare(g) && |g| == |v|
  {
    var n := |v|;
    seq(n, x requires 0 <= x < n =>
      seq(n, y requires 0 <= y < n =>
        var cell := FromStorage(side, n, x, y); v[cell.0][cell.1]))
  }

  /** `Board.startViewingFrom`: change how cells are addressed, move nothing. */
  function StartViewingFrom(b: Board, side: Side): Board {
    b.(view := side)
  }

  /** Writing a view back and viewing it again gives the same view. */
  lemma ViewedUnviewed(v: Grid, side: Side)
    requires IsSquare(v)
    ensures Viewed(Board(Unviewed(v, side), side)) == v
  {
    var n := |v|;
    var w := Viewed(Board(Unviewed(v, side), side));
    forall c | 0 <= c < n
      ensures w[c] == v[c]
    {
      forall r | 0 <= r < n
        ensures w[c][r] == v[c][r]
      {
        ViewRoundTrip(side, n, c, r);
      }
    }
  }

  /** Viewing a board and writing the view back restores the stored cells. */
  lemma UnviewedViewed(b: Board)
    requires IsSquare(b.cells)
    ensures Unviewed(Viewed(b), b.view) == b.cells
  {
    var n := |b.cells|;
    var g := Unviewed(Viewed(b), b.view);
    forall x | 0 <= x < n
      ensures g[x] == b.cells[x]
    {
      forall y | 0 <= y < n
        ensures g[x][y] == b.cells[x][y]
      {
        ViewRoundTrip(b.view, n, x, y);
      }
    }
  }

  /** From NORTH the view is the stored grid itself. */
  lemma ViewedNorth(g: Grid)
    requires IsSquare(g)
    ensures Viewed(Board(g, North)) == g
    ensures Unviewed(g, North) == g
  {
    var v := Viewed(Board(g, North));
    var u := Unviewed(g, North);
    forall c | 0 <= c < |g|
      ensures v[c] == g[c] && u[c] == g[c]
    {
    }
  }

  /** Two views from the same side agree exactly when the stored grids do. */
  lemma UnviewedInjective(v: Grid, w: Grid, side: Side)
    requires IsSquare(v) && IsSquare(w) && |v| == |w|
    ensures Unviewed(v, side) == Unviewed(w, side) <==> v == w
  {
    if Unviewed(v, side) == Unviewed(w, side) {
      ViewedUnviewed(v, side);
      ViewedUnviewed(w, side);
    }
  }

  /** Viewing moves cells around but never changes the total on the board. */
  lemma ViewedSum(b: Board)
    requires IsSquare(b.cells)
    ensures GridSum(Viewed(b)) == GridSum(b.cells)
  {
    var g := b.cells;
    var n := |g|;
    var v := Viewed(b);
    match b.view
    case North =>
      ViewedNorth(g);
    case East =>
      var t := Transpose(g, n);
      forall c | 0 <= c < n
        ensures v[c] == ReverseColumns(t)[c]
      {
      }
      assert v == ReverseColumns(t);
      GridSumReverseColumns(t);
      GridSumTranspose(g, n);
    case South =>
      var f := ReverseColumns(g);
      forall c | 0 <= c < n
        ensures v[c] == FlipColumns(f)[c]
      {
      }
      assert v == FlipColumns(f);
      GridSumFlipColumns(f);
      GridSumReverseColumns(g);
    case West =>
      var t := Transpose(g, n);
      forall c | 0 <= c < n
        ensures v[c] == FlipColumns(t)[c]
      {
      }
      assert v == FlipColumns(t);
      GridSumFlipColumns(t);
      GridSumTranspose(g, n);
  }

  /** Writing a view back keeps the total as well. */
  lemma UnviewedSum(v: Grid, side: Side)
    requires IsSquare(v)
    ensures GridSum(Unviewed(v, side)) == GridSum(v)
  {
    ViewedUnviewed(v, side);
    ViewedSum(Board(Unviewed(v, side), side));
  }
}
