/** The board's contents as plain values.

    A grid is stored column-major: `g[c][r]` is the cell at column `c`,
    row `r`, with row 0 / column 0 the lower-left corner of the board.
    A cell holds the value of its tile, or 0 when it is empty.
 */
module Grids {

  type Grid = seq<seq<nat>>

  /** Every column has as many rows as there are columns. */
  predicate IsSquare(g: Grid) {
    forall c :: 0 <= c < |g| ==> |g[c]| == |g|
  }

  /** The board with no tiles on it. */
  function EmptyGrid(n: nat): (g: Grid)
    ensures IsSquare(g) && |g| == n
    ensures forall c, r :: 0 <= c < n && 0 <= r < n ==> g[c][r] == 0
  {
    seq(n, _ => seq(n, _ => 0))
  }

  /** Sum of the tile values of one column. */
  function Sum(s: seq<nat>): nat {
    if |s| == 0 then 0 else Sum(s[..|s| - 1]) + s[|s| - 1]
  }

  /** Number of occupied cells of one column. */
  function Count(s: seq<nat>): nat {
    if |s| == 0 then 0 else Count(s[..|s| - 1]) + (if s[|s| - 1] != 0 then 1 else 0)
  }

  /** Sum of all tile values on the board. */
  function GridSum(g: Grid): nat {
    if |g| == 0 then 0 else GridSum(g[..|g| - 1]) + Sum(g[|g| - 1])
  }

  lemma {:induction false} SumUpdate(s: seq<nat>, i: nat, v: nat)
    requires i < |s|
    ensures Sum(s[i := v]) + s[i] == Sum(s) + v
    decreases |s|
  {
    var t := s[i := v];
    if i < |s| - 1 {
      assert t[..|t| - 1] == s[..|s| - 1][i := v];
      SumUpdate(s[..|s| - 1], i, v);
    } else {
      assert t[..|t| - 1] == s[..|s| - 1];
    }
  }

  lemma {:induction false} CountUpdate(s: seq<nat>, i: nat, v: nat)
    requires i < |s|
    ensures Count(s[i := v]) + (if s[i] != 0 then 1 else 0) == Count(s) + (if v != 0 then 1 else 0)
    decreases |s|
  {
    var t := s[i := v];
    if i < |s| - 1 {
      assert t[..|t| - 1] == s[..|s| - 1][i := v];
      CountUpdate(s[..|s| - 1], i, v);
    } else {
      assert t[..|t| - 1] == s[..|s| - 1];
    }
  }

  lemma {:induction false} ZeroSum(s: seq<nat>)
    requires forall i :: 0 <= i < |s| ==> s[i] == 0
    ensures Sum(s) == 0
    decreases |s|
  {
    if |s| > 0 {
      ZeroSum(s[..|s| - 1]);
    }
  }

  /** The empty board holds no value. */
  lemma {:induction false} EmptyGridSum(n: nat)
    ensures GridSum(EmptyGrid(n)) == 0
  {
    var g := EmptyGrid(n);
    forall c | 0 <= c < n
      ensures Sum(g[c]) == Sum([])
    {
      ZeroSum(g[c]);
    }
    var none: seq<nat> := [];
    GridSumColumns(g, seq(n, _ => none));
    ZeroGridColumns(n);
  }

  lemma {:induction false} ZeroGridColumns(n: nat)
    ensures var none: seq<nat> := []; GridSum(seq(n, _ => none)) == 0
    decreases n
  {
    var none: seq<nat> := [];
    if n > 0 {
      ZeroGridColumns(n - 1);
      assert seq(n, _ => none)[..n - 1] == seq(n - 1, _ => none);
    }
  }

  /** The grid with cell (c, r) holding `v` and every other cell as before. */
  function SetCell(g: Grid, c: nat, r: nat, v: nat): (h: Grid)
    requires c < |g| && r < |g[c]|
    ensures |h| == |g| && forall x :: 0 <= x < |g| ==> |h[x]| == |g[x]|
    ensures h[c][r] == v
    ensures forall x, y :: 0 <= x < |g| && 0 <= y < |g[x]| && (x, y) != (c, r) ==> h[x][y] == g[x][y]
  {
    var col: seq<nat> := g[c][r := v];
    g[c := col]
  }

  /** Writing one cell changes the board sum by the difference. */
  lemma {:induction false} GridSumUpdate(g: Grid, c: nat, r: nat, v: nat)
    requires c < |g| && r < |g[c]|
    ensures GridSum(SetCell(g, c, r, v)) + g[c][r] == GridSum(g) + v
    decreases |g|
  {
    var h := SetCell(g, c, r, v);
    if c < |g| - 1 {
      assert h[..|h| - 1] == SetCell(g[..|g| - 1], c, r, v);
      GridSumUpdate(g[..|g| - 1], c, r, v);
    } else {
      assert h[..|h| - 1] == g[..|g| - 1];
      SumUpdate(g[c], r, v);
    }
  }

  /** Column sums add up to the board sum, column by column. */
  lemma {:induction false} GridSumColumns(g: Grid, h: Grid)
    requires |g| == |h|
    requires forall c :: 0 <= c < |g| ==> Sum(g[c]) == Sum(h[c])
    ensures GridSum(g) == GridSum(h)
    decreases |g|
  {
    if |g| > 0 {
      GridSumColumns(g[..|g| - 1], h[..|h| - 1]);
    }
  }

  // ---------------------------------------------------------------------
  // Rearranging a grid keeps its sum
  // ---------------------------------------------------------------------

  function Reverse(s: seq<nat>): (t: seq<nat>)
    ensures |t| == |s|
  {
    seq(|s|, i requires 0 <= i < |s| => s[|s| - 1 - i])
  }

  /** The columns in the opposite order. */
  function ReverseColumns(g: Grid): (h: Grid)
    ensures |h| == |g|
  {
    seq(|g|, i requires 0 <= i < |g| => g[|g| - 1 - i])
  }

  /** Every column turned upside down. */
  function FlipColumns(g: Grid): (h: Grid)
    ensures |h| == |g|
  {
    seq(|g|, i requires 0 <= i < |g| => Reverse(g[i]))
  }

  /** Rows become columns: `Transpose(g, m)[r][c] == g[c][r]` for a grid of column height `m`. */
  function Transpose(g: Grid, m: nat): (h: Grid)
    requires forall c :: 0 <= c < |g| ==> |g[c]| == m
    ensures |h| == m
  {
    seq(m, r requires 0 <= r < m => seq(|g|, c requires 0 <= c < |g| => g[c][r]))
  }

  lemma {:induction false} SumReverse(s: seq<nat>)
    ensures Sum(Reverse(s)) == Sum(s)
    decreases |s|
  {
    if |s| > 0 {
      var t := Reverse(s);
      var init := s[..|s| - 1];
      SumReverse(init);
      // Reverse(s) is the last element followed by Reverse(init).
      assert t[1..] == Reverse(init);
      SumFirst(t);
    }
  }

  /** Peeling the first element off a column. */
  lemma {:induction false} SumFirst(s: seq<nat>)
    requires |s| > 0
    ensures Sum(s) == s[0] + Sum(s[1..])
    decreases |s|
  {
    if |s| > 1 {
      SumFirst(s[..|s| - 1]);
      assert s[..|s| - 1][1..] == s[1..][..|s| - 2];
    } else {
      assert s[..|s| - 1] == [];
    }
  }

  lemma {:induction false} CountFirst(s: seq<nat>)
    requires |s| > 0
    ensures Count(s) == (if s[0] != 0 then 1 else 0) + Count(s[1..])
    decreases |s|
  {
    if |s| > 1 {
      CountFirst(s[..|s| - 1]);
      assert s[..|s| - 1][1..] == s[1..][..|s| - 2];
    } else {
      assert s[..|s| - 1] == [];
    }
  }

  lemma {:induction false} GridSumFirst(g: Grid)
    requires |g| > 0
    ensures GridSum(g) == Sum(g[0]) + GridSum(g[1..])
    decreases |g|
  {
    if |g| > 1 {
      GridSumFirst(g[..|g| - 1]);
      assert g[..|g| - 1][1..] == g[1..][..|g| - 2];
    } else {
      assert g[..|g| - 1] == [];
    }
  }

  lemma {:induction false} GridSumReverseColumns(g: Grid)
    ensures GridSum(ReverseColumns(g)) == GridSum(g)
    decreases |g|
  {
    if |g| > 0 {
      var h := ReverseColumns(g);
      var init := g[..|g| - 1];
      GridSumReverseColumns(init);
      assert h[1..] == ReverseColumns(init);
      GridSumFirst(h);
    }
  }

  lemma GridSumFlipColumns(g: Grid)
    ensures GridSum(FlipColumns(g)) == GridSum(g)
  {
    forall c | 0 <= c < |g|
      ensures Sum(FlipColumns(g)[c]) == Sum(g[c])
    {
      SumReverse(g[c]);
    }
    GridSumColumns(FlipColumns(g), g);
  }

  /** Adding one more column to a grid adds one more cell to each of its rows. */
  lemma {:induction false} GridSumAppendRow(h: Grid, h': Grid, x: seq<nat>)
    requires |h| == |h'| == |x|
    requires forall r :: 0 <= r < |h| ==> h'[r] == h[r] + [x[r]]
    ensures GridSum(h') == GridSum(h) + Sum(x)
    decreases |h|
  {
    if |h| > 0 {
      var k := |h| - 1;
      GridSumAppendRow(h[..k], h'[..k], x[..k]);
      assert (h[k] + [x[k]])[..|h[k]|] == h[k];
    }
  }

  /** Summing by columns or by rows gives the same total. */
  lemma {:induction false} GridSumTranspose(g: Grid, m: nat)
    requires forall c :: 0 <= c < |g| ==> |g[c]| == m
    ensures GridSum(Transpose(g, m)) == GridSum(g)
    decreases |g|
  {
    if |g| == 0 {
      ZeroRows(m);
    } else {
      var init := g[..|g| - 1];
      var last := g[|g| - 1];
      GridSumTranspose(init, m);
      var t := Transpose(g, m);
      var ti := Transpose(init, m);
      forall r | 0 <= r < m
        ensures t[r] == ti[r] + [last[r]]
      {
      }
      GridSumAppendRow(ti, t, last);
    }
  }

  lemma {:induction false} ZeroRows(m: nat)
    ensures GridSum(Transpose([], m)) == 0
    decreases m
  {
    if m > 0 {
      ZeroRows(m - 1);
      assert Transpose([], m)[..m - 1] == Transpose([], m - 1);
    }
  }
}
