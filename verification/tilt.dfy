/** The canonical upward tilt of `Model.tilt_up`, one column at a time.

    The scan visits rows `n-2` down to 0. A tile at row `r` looks for the
    nearest occupied cell above it (`Pointer`), then either slides to the
    empty top row, merges into an equal tile whose row has not received a
    merge yet in this tilt, or compacts to sit directly below the tile it
    stopped at. `Step` is one iteration of that loop; `SlideColumn` the
    whole column.

    The main results, gathered for a whole grid in `SlideColumnsSpec`:
    - the column ends up as the greedy merge rule of `MergeRule` packed
      against the top edge, and the gain is that rule's merge total;
    - the tile values are conserved and the gain equals the sum of the
      cells marked as merge destinations;
    - every marked destination received exactly one merge;
    - the changed flag is set exactly when the column differs.

    The merge markers are a set of rows here. In `Model.java` they are an
    array of four entries, so on a taller board a merge into row 4 or
    above indexes past its end; `SlideColumnAsWritten` keeps that fault,
    and the rest of the model uses the set.
 */
module ColumnTilt {
  import opened Grids
  import opened MergeRule

  /** The state of the per-column scan: the column's cells (row 0 first),
      the rows that already received a merge in this tilt, the score gained
      so far and whether anything moved. */
  datatype ColumnState = ColumnState(cells: seq<nat>, merged: set<nat>, gained: nat, changed: bool)

  /** The column's share of `Board.move`: the tile at `from` goes to `to`;
      when `to` holds a tile (always of equal value here) the two become one
      tile of twice the value. */
  function MoveTile(cells: seq<nat>, from: nat, to: nat): seq<nat>
    requires from < to < |cells|
  {
    cells[from := 0][to := cells[to] + cells[from]]
  }

  /** The nearest occupied row at or above `p`, or the top row when every
      cell from `p` up is empty. */
  function Pointer(cells: seq<nat>, p: nat): (q: nat)
    requires p < |cells|
    ensures p <= q < |cells|
    ensures forall k :: p <= k < q ==> cells[k] == 0
    ensures cells[q] != 0 || q == |cells| - 1
    decreases |cells| - p
  {
    if cells[p] == 0 && p < |cells| - 1 then Pointer(cells, p + 1) else p
  }

  /** One iteration of the row loop: process the tile (if any) at row `r`. */
  function Step(st: ColumnState, r: nat): (st': ColumnState)
    requires r + 1 < |st.cells|
    ensures |st'.cells| == |st.cells|
  {
    if st.cells[r] == 0 then st
    else
      var top := |st.cells| - 1;
      var p := Pointer(st.cells, r + 1);
      var landed :=
        if st.cells[p] == 0 && p == top then
          st.(cells := MoveTile(st.cells, r, p), changed := true)
        else if st.cells[p] != 0 && st.cells[r] == st.cells[p] then
          if p !in st.merged then
            var cells := MoveTile(st.cells, r, p);
            st.(cells := cells, merged := st.merged + {p}, gained := st.gained + cells[p], changed := true)
          else st
        else st;
      if p > r + 1 && landed.cells[r] != 0 then
        landed.(cells := MoveTile(landed.cells, r, p - 1), changed := true)
      else landed
  }

  /** Process rows `r`, `r-1`, ..., 0. */
  function SlideRows(st: ColumnState, r: int): (st': ColumnState)
    requires r < |st.cells| - 1
    ensures |st'.cells| == |st.cells|
    decreases r + 1
  {
    if r < 0 then st else SlideRows(Step(st, r), r - 1)
  }

  /** The upward tilt of one column, starting with no merge markers set. */
  function SlideColumn(col: seq<nat>): ColumnState {
    SlideRows(ColumnState(col, {}, 0, false), |col| - 2)
  }

  /** The state after the tile at `r` merged into the tile at `b`. */
  function Merged(st: ColumnState, r: nat, b: nat): ColumnState
    requires r < b < |st.cells|
  {
    var cells := MoveTile(st.cells, r, b);
    st.(cells := cells, merged := st.merged + {b}, gained := st.gained + cells[b], changed := true)
  }

  /** The state after the tile at `r` moved up to the row below the tile at `b`. */
  function Behind(st: ColumnState, r: nat, b: nat): ColumnState
    requires r < b < |st.cells|
  {
    if b > r + 1 then st.(cells := MoveTile(st.cells, r, b - 1), changed := true) else st
  }

  /** The three outcomes of a step on an occupied row, in terms of the
      pointer `b`: slide to the empty top row, merge, or stop behind `b`. */
  lemma StepShape(st: ColumnState, r: nat, b: nat)
    requires r + 1 < |st.cells|
    requires st.cells[r] != 0 && b == Pointer(st.cells, r + 1)
    ensures st.cells[b] == 0 ==>
              Step(st, r) == st.(cells := MoveTile(st.cells, r, b), changed := true)
    ensures st.cells[b] == st.cells[r] && b !in st.merged ==> Step(st, r) == Merged(st, r, b)
    ensures st.cells[b] != 0 && (st.cells[b] != st.cells[r] || b in st.merged) ==>
              Step(st, r) == Behind(st, r, b)
  {
  }

  // ---------------------------------------------------------------------
  // Conservation: value, tile count against merges, gain against markers
  // ---------------------------------------------------------------------

  /** Moving a tile upward pushes weight toward the top: every move raises it. */
  function Potential(s: seq<nat>): nat {
    if |s| == 0 then 0 else Potential(s[..|s| - 1]) + |s| * s[|s| - 1]
  }

  /** Sum of the cells whose rows are marked as merge destinations. */
  function MarkedSum(s: seq<nat>, m: set<nat>): nat {
    if |s| == 0 then 0 else MarkedSum(s[..|s| - 1], m) + (if |s| - 1 in m then s[|s| - 1] else 0)
  }

  lemma {:induction false} PotentialUpdate(s: seq<nat>, i: nat, v: nat)
    requires i < |s|
    ensures Potential(s[i := v]) + (i + 1) * s[i] == Potential(s) + (i + 1) * v
    decreases |s|
  {
    var t := s[i := v];
    if i < |s| - 1 {
      assert t[..|t| - 1] == s[..|s| - 1][i := v];
      PotentialUpdate(s[..|s| - 1], i, v);
    } else {
      assert t[..|t| - 1] == s[..|s| - 1];
    }
  }

  lemma {:induction false} MarkedSumUpdate(s: seq<nat>, m: set<nat>, i: nat, v: nat)
    requires i < |s| && i !in m
    ensures MarkedSum(s[i := v], m) == MarkedSum(s, m)
    decreases |s|
  {
    var t := s[i := v];
    if i < |s| - 1 {
      assert t[..|t| - 1] == s[..|s| - 1][i := v];
      MarkedSumUpdate(s[..|s| - 1], m, i, v);
    } else {
      assert t[..|t| - 1] == s[..|s| - 1];
    }
  }

  lemma {:induction false} MarkedSumAdd(s: seq<nat>, m: set<nat>, p: nat)
    requires p < |s| && p !in m
    ensures MarkedSum(s, m + {p}) == MarkedSum(s, m) + s[p]
    decreases |s|
  {
    if p < |s| - 1 {
      MarkedSumAdd(s[..|s| - 1], m, p);
    } else {
      MarkedSumOutside(s[..|s| - 1], m, p);
    }
  }

  lemma {:induction false} MarkedSumOutside(s: seq<nat>, m: set<nat>, p: nat)
    requires |s| <= p
    ensures MarkedSum(s, m + {p}) == MarkedSum(s, m)
    decreases |s|
  {
    if |s| > 0 {
      MarkedSumOutside(s[..|s| - 1], m, p);
    }
  }

  /** What one upward move of a tile does to the column's measures. */
  lemma MoveTileFacts(cells: seq<nat>, from: nat, to: nat, m: set<nat>)
    requires from < to < |cells|
    requires cells[from] > 0
    requires from !in m && to !in m
    ensures Sum(MoveTile(cells, from, to)) == Sum(cells)
    ensures Count(MoveTile(cells, from, to)) + (if cells[to] != 0 then 1 else 0) == Count(cells)
    ensures Potential(MoveTile(cells, from, to)) > Potential(cells)
    ensures MarkedSum(MoveTile(cells, from, to), m) == MarkedSum(cells, m)
  {
    MoveSum(cells, from, to);
    MoveCount(cells, from, to);
    MoveMarkedSum(cells, from, to, m);
    MovePotential(cells, from, to);
  }

  lemma MoveSum(cells: seq<nat>, from: nat, to: nat)
    requires from < to < |cells|
    ensures Sum(MoveTile(cells, from, to)) == Sum(cells)
  {
    LiftedSum(cells[from := 0], cells, from, to);
  }

  /** The move in two writes, with the column after the first write named. */
  lemma LiftedSum(lifted: seq<nat>, cells: seq<nat>, from: nat, to: nat)
    requires from < to < |cells| && lifted == cells[from := 0]
    ensures Sum(lifted[to := cells[to] + cells[from]]) == Sum(cells)
  {
    SumUpdate(cells, from, 0);
    SumUpdate(lifted, to, cells[to] + cells[from]);
  }

  lemma MoveCount(cells: seq<nat>, from: nat, to: nat)
    requires from < to < |cells|
    requires cells[from] > 0
    ensures Count(MoveTile(cells, from, to)) + (if cells[to] != 0 then 1 else 0) == Count(cells)
  {
    LiftedCount(cells[from := 0], cells, from, to);
  }

  lemma LiftedCount(lifted: seq<nat>, cells: seq<nat>, from: nat, to: nat)
    requires from < to < |cells| && lifted == cells[from := 0]
    requires cells[from] > 0
    ensures Count(lifted[to := cells[to] + cells[from]]) + (if cells[to] != 0 then 1 else 0) == Count(cells)
  {
    CountUpdate(cells, from, 0);
    CountUpdate(lifted, to, cells[to] + cells[from]);
  }

  lemma MoveMarkedSum(cells: seq<nat>, from: nat, to: nat, m: set<nat>)
    requires from < to < |cells|
    requires from !in m && to !in m
    ensures MarkedSum(MoveTile(cells, from, to), m) == MarkedSum(cells, m)
  {
    LiftedMarkedSum(cells[from := 0], cells, from, to, m);
  }

  lemma LiftedMarkedSum(lifted: seq<nat>, cells: seq<nat>, from: nat, to: nat, m: set<nat>)
    requires from < to < |cells| && lifted == cells[from := 0]
    requires from !in m && to !in m
    ensures MarkedSum(lifted[to := cells[to] + cells[from]], m) == MarkedSum(cells, m)
  {
    MarkedSumUpdate(cells, m, from, 0);
    MarkedSumUpdate(lifted, m, to, cells[to] + cells[from]);
  }

  lemma MovePotential(cells: seq<nat>, from: nat, to: nat)
    requires from < to < |cells|
    requires cells[from] > 0
    ensures Potential(MoveTile(cells, from, to)) > Potential(cells)
  {
    PotentialMoved(cells[from := 0], cells, from, to);
  }

  lemma PotentialMoved(s1: seq<nat>, cells: seq<nat>, from: nat, to: nat)
    requires from < to < |cells| && s1 == cells[from := 0]
    requires cells[from] > 0
    ensures Potential(s1[to := cells[to] + cells[from]]) > Potential(cells)
  {
    var v := cells[from];
    var x := cells[to];
    PotentialUpdate(cells, from, 0);
    assert Potential(s1) + (from + 1) * v == Potential(cells);
    PotentialUpdate(s1, to, x + v);
    assert Potential(s1[to := x + v]) + (to + 1) * x == Potential(s1) + (to + 1) * (x + v);
    Distribute(to + 1, x, v);
    MulStrict(from + 1, to + 1, v);
  }

  lemma Distribute(a: nat, x: nat, v: nat)
    ensures a * (x + v) == a * x + a * v
  {
  }

  lemma MulStrict(a: nat, b: nat, v: nat)
    requires a < b && v > 0
    ensures a * v < b * v
  {
  }

  /** Merge destinations lie above the rows still to be scanned and hold tiles. */
  ghost predicate WellMarked(st: ColumnState, r: int) {
    forall p :: p in st.merged ==> r < p < |st.cells| && st.cells[p] != 0
  }

  /** What one iteration keeps: the measures above, and either nothing
      happened or the flag is set and the potential rose. */
  ghost predicate StepKeeps(st: ColumnState, st': ColumnState) {
    && |st'.cells| == |st.cells|
    && Sum(st'.cells) == Sum(st.cells)
    && Count(st'.cells) + |st'.merged| == Count(st.cells) + |st.merged|
    && st'.gained + MarkedSum(st.cells, st.merged) == st.gained + MarkedSum(st'.cells, st'.merged)
    && ((st'.cells == st.cells && st'.changed == st.changed)
        || (st'.changed && Potential(st'.cells) > Potential(st.cells)))
  }

  lemma StepConserves(st: ColumnState, r: nat)
    requires r + 1 < |st.cells|
    requires WellMarked(st, r)
    ensures StepKeeps(st, Step(st, r))
    ensures WellMarked(Step(st, r), r - 1)
  {
    if st.cells[r] != 0 {
      var top := |st.cells| - 1;
      var p := Pointer(st.cells, r + 1);
      assert r !in st.merged;
      if st.cells[p] == 0 && p == top {
        StepSlidesToTop(st, r, p);
      } else if st.cells[p] != 0 && st.cells[r] == st.cells[p] && p !in st.merged {
        StepMerges(st, r, p);
      } else if p > r + 1 {
        StepCompacts(st, r, p);
      } else {
        assert Step(st, r) == st;
      }
    }
  }

  lemma StepSlidesToTop(st: ColumnState, r: nat, p: nat)
    requires r + 1 < |st.cells|
    requires WellMarked(st, r)
    requires st.cells[r] != 0
    requires p == Pointer(st.cells, r + 1)
    requires st.cells[p] == 0 && p == |st.cells| - 1
    ensures StepKeeps(st, Step(st, r))
    ensures WellMarked(Step(st, r), r - 1)
  {
    assert p !in st.merged;
    assert r !in st.merged;
    MoveTileFacts(st.cells, r, p, st.merged);
    assert Step(st, r) == st.(cells := MoveTile(st.cells, r, p), changed := true);
  }

  lemma StepMerges(st: ColumnState, r: nat, p: nat)
    requires r + 1 < |st.cells|
    requires WellMarked(st, r)
    requires st.cells[r] != 0
    requires p == Pointer(st.cells, r + 1)
    requires st.cells[p] != 0 && st.cells[r] == st.cells[p] && p !in st.merged
    ensures StepKeeps(st, Step(st, r))
    ensures WellMarked(Step(st, r), r - 1)
  {
    assert r !in st.merged;
    var cells := MoveTile(st.cells, r, p);
    MoveTileFacts(st.cells, r, p, st.merged);
    MarkedSumAdd(cells, st.merged, p);
    assert Step(st, r) == st.(cells := cells, merged := st.merged + {p}, gained := st.gained + cells[p], changed := true);
  }

  lemma StepCompacts(st: ColumnState, r: nat, p: nat)
    requires r + 1 < |st.cells|
    requires WellMarked(st, r)
    requires st.cells[r] != 0
    requires p == Pointer(st.cells, r + 1)
    requires !(st.cells[p] == 0 && p == |st.cells| - 1)
    requires !(st.cells[p] != 0 && st.cells[r] == st.cells[p] && p !in st.merged)
    requires p > r + 1
    ensures StepKeeps(st, Step(st, r))
    ensures WellMarked(Step(st, r), r - 1)
  {
    assert r !in st.merged;
    assert st.cells[p - 1] == 0;
    assert p - 1 !in st.merged;
    MoveTileFacts(st.cells, r, p - 1, st.merged);
    assert Step(st, r) == st.(cells := MoveTile(st.cells, r, p - 1), changed := true);
  }

  lemma {:induction false} SlideRowsConserves(st: ColumnState, r: int)
    requires r < |st.cells| - 1
    requires WellMarked(st, r)
    ensures StepKeeps(st, SlideRows(st, r))
    ensures WellMarked(SlideRows(st, r), -1)
    decreases r + 1
  {
    if r >= 0 {
      StepConserves(st, r);
      SlideRowsConserves(Step(st, r), r - 1);
    }
  }

  // ---------------------------------------------------------------------
  // Agreement with the merge rule
  // ---------------------------------------------------------------------

  /** Row `i` of a column of height `n` whose top `|s|` rows hold the
      entries `s`, leading entry on top; 0 in the rows below them. */
  function Slot(s: seq<Entry>, n: nat, i: nat): nat {
    if i < n && n - 1 - i < |s| then s[n - 1 - i].value else 0
  }

  /** Row `p` of a column of height `n` holds a merge product of `s`. */
  predicate IsMarked(s: seq<Entry>, n: nat, p: nat) {
    p < n && n - 1 - p < |s| && s[n - 1 - p].merged
  }

  /** The rows of a column of height `n` that hold the merge products of `s`. */
  ghost function MarkedRows(s: seq<Entry>, n: nat): set<nat> {
    set p: nat | p < n && IsMarked(s, n, p)
  }

  /** The merge rule's entries for the tiles in rows `r` and up, pushed top
      row first: `Stack(Tiles(col[r..]))`, built row by row. */
  function RowStack(col: seq<nat>, r: nat): (s: seq<Entry>)
    requires r <= |col|
    ensures |s| <= |col| - r
    decreases |col| - r
  {
    if r == |col| then []
    else if col[r] != 0 then Push(RowStack(col, r + 1), col[r])
    else RowStack(col, r + 1)
  }

  lemma {:induction false} RowStackIsStack(col: seq<nat>, r: nat)
    requires r <= |col|
    ensures RowStack(col, r) == Stack(Tiles(col[r..]))
    decreases |col| - r
  {
    if r == |col| {
      assert col[r..] == [];
    } else {
      RowStackIsStack(col, r + 1);
      assert col[r..][1..] == col[r + 1..];
      var ts := Tiles(col[r + 1..]);
      if col[r] != 0 {
        assert (ts + [col[r]])[..|ts|] == ts;
      } else {
        assert ts + [] == ts;
      }
    }
  }

  lemma {:induction false} RowStackPositive(col: seq<nat>, r: nat)
    requires r <= |col|
    ensures forall i :: 0 <= i < |RowStack(col, r)| ==> RowStack(col, r)[i].value > 0
    decreases |col| - r
  {
    if r < |col| {
      RowStackPositive(col, r + 1);
      if col[r] != 0 {
        PushPositive(RowStack(col, r + 1), col[r]);
      }
    }
  }

  /** A tile that meets an equal, unmerged leading entry merges with it. */
  lemma RowStackMerge(col: seq<nat>, r: nat)
    requires r < |col| && col[r] != 0
    requires var s := RowStack(col, r + 1);
             |s| > 0 && s[|s| - 1].value == col[r] && !s[|s| - 1].merged
    ensures var s := RowStack(col, r + 1);
            RowStack(col, r) == s[..|s| - 1] + [Entry(2 * col[r], true)] &&
            MergedSum(RowStack(col, r)) == MergedSum(s) + 2 * col[r]
  {
    var s := RowStack(col, r + 1);
    var s' := RowStack(col, r);
    assert s' == s[..|s| - 1] + [Entry(2 * col[r], true)];
    assert MergedSum(s) == MergedSum(s[..|s| - 1]);
    assert s'[..|s'| - 1] == s[..|s| - 1];
  }

  /** Any other tile becomes a new entry behind the leading ones. */
  lemma RowStackBehind(col: seq<nat>, r: nat)
    requires r < |col| && col[r] != 0
    requires var s := RowStack(col, r + 1);
             |s| == 0 || s[|s| - 1].value != col[r] || s[|s| - 1].merged
    ensures RowStack(col, r) == RowStack(col, r + 1) + [Entry(col[r], false)]
    ensures MergedSum(RowStack(col, r)) == MergedSum(RowStack(col, r + 1))
  {
    var s := RowStack(col, r + 1);
    var s' := RowStack(col, r);
    assert s' == s + [Entry(col[r], false)];
    assert s'[..|s'| - 1] == s;
  }

  /** The column once the rows from `r` up have been scanned: rows below `r`
      as they were, rows from `r` up holding the merge rule's entries for
      them, packed against the top edge. */
  ghost function ScannedCells(col: seq<nat>, r: nat): (cells: seq<nat>)
    requires r <= |col|
    ensures |cells| == |col|
  {
    var s := RowStack(col, r);
    seq(|col|, i requires 0 <= i < |col| => if i < r then col[i] else Slot(s, |col|, i))
  }

  /** The loop invariant of the row scan, once the rows from `r` up have
      been scanned: the cells are `ScannedCells`, the markers are the rows
      of the merge products and the gain is their total. */
  ghost predicate ScanInv(st: ColumnState, col: seq<nat>, r: nat) {
    && r < |col|
    && st.cells == ScannedCells(col, r)
    && st.merged == MarkedRows(RowStack(col, r), |col|)
    && st.gained == MergedSum(RowStack(col, r))
  }

  /** One cell of the column under `ScanInv`. */
  lemma ScanCell(st: ColumnState, col: seq<nat>, r: nat, i: nat)
    requires ScanInv(st, col, r) && i < |col|
    ensures |st.cells| == |col|
    ensures st.cells[i] == if i < r then col[i] else Slot(RowStack(col, r), |col|, i)
  {
    assert st.cells[i] == ScannedCells(col, r)[i];
  }

  /** One merge marker under `ScanInv`. */
  lemma ScanMark(st: ColumnState, col: seq<nat>, r: nat, p: nat)
    requires ScanInv(st, col, r)
    ensures p in st.merged <==> IsMarked(RowStack(col, r), |col|, p)
  {
  }

  /** Every cell under `ScanInv`. */
  lemma ScanCellsAt(st: ColumnState, col: seq<nat>, r: nat)
    requires ScanInv(st, col, r)
    ensures |st.cells| == |col|
    ensures forall i :: 0 <= i < |col| ==>
              st.cells[i] == if i < r then col[i] else Slot(RowStack(col, r), |col|, i)
  {
    forall i | 0 <= i < |col|
      ensures st.cells[i] == if i < r then col[i] else Slot(RowStack(col, r), |col|, i)
    {
      ScanCell(st, col, r, i);
    }
  }

  /** Every merge marker under `ScanInv`. */
  lemma ScanMarksAt(st: ColumnState, col: seq<nat>, r: nat)
    requires ScanInv(st, col, r)
    ensures forall p: nat :: p in st.merged <==> IsMarked(RowStack(col, r), |col|, p)
  {
  }

  /** Establishing `ScanInv` from single cells and markers. */
  lemma ScanInvFrom(st: ColumnState, col: seq<nat>, r: nat)
    requires r < |col| && |st.cells| == |col|
    requires forall i :: 0 <= i < |col| ==>
               st.cells[i] == if i < r then col[i] else Slot(RowStack(col, r), |col|, i)
    requires forall p: nat :: p in st.merged <==> IsMarked(RowStack(col, r), |col|, p)
    requires st.gained == MergedSum(RowStack(col, r))
    ensures ScanInv(st, col, r)
  {
    var want := ScannedCells(col, r);
    forall i | 0 <= i < |col|
      ensures st.cells[i] == want[i]
    {
    }
    assert st.cells == want;
    assert st.merged == MarkedRows(RowStack(col, r), |col|);
  }

  /** Above a packed block the pointer stops at the block's lowest tile. */
  lemma PointerAtBlock(st: ColumnState, col: seq<nat>, r: nat)
    requires r + 1 < |col|
    requires ScanInv(st, col, r + 1)
    ensures var s := RowStack(col, r + 1);
            Pointer(st.cells, r + 1) == if |s| == 0 then |col| - 1 else |col| - |s|
  {
    ScanCellsAt(st, col, r + 1);
    RowStackPositive(col, r + 1);
    BlockStart(st.cells, col, r + 1, RowStack(col, r + 1));
  }

  /** Where the pointer stops above cells holding the slots of `s`. */
  lemma BlockStart(cells: seq<nat>, col: seq<nat>, p: nat, s: seq<Entry>)
    requires p < |col| == |cells| && |s| <= |col| - p
    requires forall i :: 0 <= i < |col| ==> cells[i] == if i < p then col[i] else Slot(s, |col|, i)
    requires forall i :: 0 <= i < |s| ==> s[i].value > 0
    ensures Pointer(cells, p) == if |s| == 0 then |col| - 1 else |col| - |s|
  {
    var n := |col|;
    var b := if |s| == 0 then n - 1 else n - |s|;
    var q := Pointer(cells, p);
    if |s| > 0 {
      assert cells[b] == s[|s| - 1].value;
    }
    assert cells[q] == Slot(s, n, q);
  }

  /** An empty row leaves the scan as it was. */
  lemma EmptyRowScan(st: ColumnState, col: seq<nat>, r: nat)
    requires r + 1 < |col|
    requires ScanInv(st, col, r + 1)
    requires col[r] == 0
    ensures ScanInv(st, col, r)
  {
    ScanCellsAt(st, col, r + 1);
    assert RowStack(col, r) == RowStack(col, r + 1);
    forall i | 0 <= i < |col|
      ensures st.cells[i] == if i < r then col[i] else Slot(RowStack(col, r), |col|, i)
    {
    }
    ScanInvFrom(st, col, r);
  }

  lemma StepScan(st: ColumnState, col: seq<nat>, r: nat)
    requires r + 1 < |col|
    requires ScanInv(st, col, r + 1)
    ensures ScanInv(Step(st, r), col, r)
  {
    var s := RowStack(col, r + 1);
    ScanCell(st, col, r + 1, r);
    if col[r] == 0 {
      assert Step(st, r) == st;
      EmptyRowScan(st, col, r);
    } else if |s| == 0 {
      StepIntoEmpty(st, col, r);
    } else if s[|s| - 1].value == col[r] && !s[|s| - 1].merged {
      StepMerge(st, col, r);
    } else {
      StepBehind(st, col, r);
    }
  }

  /** With nothing above it, the tile at `r` slides to the top row. */
  lemma StepIntoEmpty(st: ColumnState, col: seq<nat>, r: nat)
    requires r + 1 < |col|
    requires ScanInv(st, col, r + 1)
    requires col[r] != 0
    requires |RowStack(col, r + 1)| == 0
    ensures ScanInv(Step(st, r), col, r)
  {
    var n := |col|;
    PointerAtBlock(st, col, r);
    ScanCell(st, col, r + 1, r);
    ScanCell(st, col, r + 1, n - 1);
    StepShape(st, r, n - 1);
    IntoEmptyScan(st, col, r);
  }

  lemma IntoEmptyScan(st: ColumnState, col: seq<nat>, r: nat)
    requires r + 1 < |col|
    requires ScanInv(st, col, r + 1)
    requires col[r] != 0
    requires |RowStack(col, r + 1)| == 0
    ensures ScanInv(st.(cells := MoveTile(st.cells, r, |col| - 1), changed := true), col, r)
  {
    ScanCellsAt(st, col, r + 1);
    ScanMarksAt(st, col, r + 1);
    RowStackBehind(col, r);
    IntoEmptyMoves(st, col, r, RowStack(col, r + 1), RowStack(col, r));
    ScanInvFrom(st.(cells := MoveTile(st.cells, r, |col| - 1), changed := true), col, r);
  }

  /** A tile sliding into an empty column top, in terms of the entries
      `s` before and `s'` after it. */
  lemma IntoEmptyMoves(st: ColumnState, col: seq<nat>, r: nat, s: seq<Entry>, s': seq<Entry>)
    requires r + 1 < |col| == |st.cells|
    requires forall i :: 0 <= i < |col| ==> st.cells[i] == if i < r + 1 then col[i] else Slot(s, |col|, i)
    requires forall p: nat :: p in st.merged <==> IsMarked(s, |col|, p)
    requires st.gained == MergedSum(s)
    requires |s| == 0 && s' == s + [Entry(col[r], false)] && MergedSum(s') == MergedSum(s)
    ensures var next := st.(cells := MoveTile(st.cells, r, |col| - 1), changed := true);
            && (forall i :: 0 <= i < |col| ==> next.cells[i] == if i < r then col[i] else Slot(s', |col|, i))
            && (forall p: nat :: p in next.merged <==> IsMarked(s', |col|, p))
            && next.gained == MergedSum(s')
  {
    var n := |col|;
    var cells := MoveTile(st.cells, r, n - 1);
    forall i | 0 <= i < n
      ensures cells[i] == if i < r then col[i] else Slot(s', n, i)
    {
      assert st.cells[i] == if i < r + 1 then col[i] else 0;
    }
    forall p: nat
      ensures p in st.merged <==> IsMarked(s', n, p)
    {
      assert IsMarked(s, n, p) == IsMarked(s', n, p);
    }
  }

  /** The tile at `r` merges into the equal tile at the block's lowest row. */
  lemma StepMerge(st: ColumnState, col: seq<nat>, r: nat)
    requires r + 1 < |col|
    requires ScanInv(st, col, r + 1)
    requires col[r] != 0
    requires var s := RowStack(col, r + 1);
             |s| > 0 && s[|s| - 1].value == col[r] && !s[|s| - 1].merged
    ensures ScanInv(Step(st, r), col, r)
  {
    var n := |col|;
    var s := RowStack(col, r + 1);
    var b := n - |s|;
    PointerAtBlock(st, col, r);
    ScanCell(st, col, r + 1, r);
    ScanCell(st, col, r + 1, b);
    ScanMark(st, col, r + 1, b);
    StepShape(st, r, b);
    MergeScan(st, col, r);
  }

  lemma MergeScan(st: ColumnState, col: seq<nat>, r: nat)
    requires r + 1 < |col|
    requires ScanInv(st, col, r + 1)
    requires col[r] != 0
    requires var s := RowStack(col, r + 1);
             |s| > 0 && s[|s| - 1].value == col[r] && !s[|s| - 1].merged
    ensures r < |col| - |RowStack(col, r + 1)|
    ensures ScanInv(Merged(st, r, |col| - |RowStack(col, r + 1)|), col, r)
  {
    ScanCellsAt(st, col, r + 1);
    ScanMarksAt(st, col, r + 1);
    RowStackMerge(col, r);
    MergeMoves(st, col, r, RowStack(col, r + 1), RowStack(col, r));
    ScanInvFrom(Merged(st, r, |col| - |RowStack(col, r + 1)|), col, r);
  }

  /** A tile merging into the leading tile of the block, in terms of the
      entries `s` before and `s'` after it. */
  lemma MergeMoves(st: ColumnState, col: seq<nat>, r: nat, s: seq<Entry>, s': seq<Entry>)
    requires r + 1 < |col| == |st.cells|
    requires forall i :: 0 <= i < |col| ==> st.cells[i] == if i < r + 1 then col[i] else Slot(s, |col|, i)
    requires forall p: nat :: p in st.merged <==> IsMarked(s, |col|, p)
    requires st.gained == MergedSum(s)
    requires 0 < |s| <= |col| - (r + 1) && s[|s| - 1].value == col[r]
    requires s' == s[..|s| - 1] + [Entry(2 * col[r], true)]
    requires MergedSum(s') == MergedSum(s) + 2 * col[r]
    ensures var next := Merged(st, r, |col| - |s|);
            && (forall i :: 0 <= i < |col| ==> next.cells[i] == if i < r then col[i] else Slot(s', |col|, i))
            && (forall p: nat :: p in next.merged <==> IsMarked(s', |col|, p))
            && next.gained == MergedSum(s')
  {
    var b := |col| - |s|;
    assert st.cells[b] == col[r];
    MergeMovesCells(st.cells, col, r, s, s');
    MergeMovesMarks(st.merged, |col|, s, s', 2 * col[r]);
  }

  lemma MergeMovesCells(cells: seq<nat>, col: seq<nat>, r: nat, s: seq<Entry>, s': seq<Entry>)
    requires r + 1 < |col| == |cells|
    requires forall i :: 0 <= i < |col| ==> cells[i] == if i < r + 1 then col[i] else Slot(s, |col|, i)
    requires 0 < |s| <= |col| - (r + 1) && s[|s| - 1].value == col[r]
    requires s' == s[..|s| - 1] + [Entry(2 * col[r], true)]
    ensures var moved := MoveTile(cells, r, |col| - |s|);
            forall i :: 0 <= i < |col| ==> moved[i] == if i < r then col[i] else Slot(s', |col|, i)
  {
    var n := |col|;
    var b := n - |s|;
    var moved := MoveTile(cells, r, b);
    assert cells[b] == col[r];
    forall i | 0 <= i < n
      ensures moved[i] == if i < r then col[i] else Slot(s', n, i)
    {
      if r < i && i != b {
        assert moved[i] == cells[i] == Slot(s, n, i);
      }
    }
  }

  lemma MergeMovesMarks(m: set<nat>, n: nat, s: seq<Entry>, s': seq<Entry>, v: nat)
    requires forall p: nat :: p in m <==> IsMarked(s, n, p)
    requires 0 < |s| <= n
    requires s' == s[..|s| - 1] + [Entry(v, true)]
    ensures forall p: nat :: p in m + {n - |s|} <==> IsMarked(s', n, p)
  {
    forall p: nat
      ensures p in m + {n - |s|} <==> IsMarked(s', n, p)
    {
      if p != n - |s| {
        assert IsMarked(s, n, p) == IsMarked(s', n, p);
      }
    }
  }

  /** The tile at `r` stays behind the block's lowest tile, moving up to
      the row just below it. */
  lemma StepBehind(st: ColumnState, col: seq<nat>, r: nat)
    requires r + 1 < |col|
    requires ScanInv(st, col, r + 1)
    requires col[r] != 0
    requires var s := RowStack(col, r + 1);
             |s| > 0 && (s[|s| - 1].value != col[r] || s[|s| - 1].merged)
    ensures ScanInv(Step(st, r), col, r)
  {
    var n := |col|;
    var s := RowStack(col, r + 1);
    var b := n - |s|;
    PointerAtBlock(st, col, r);
    RowStackPositive(col, r + 1);
    ScanCell(st, col, r + 1, r);
    ScanCell(st, col, r + 1, b);
    ScanMark(st, col, r + 1, b);
    StepShape(st, r, b);
    BehindScan(st, col, r);
  }

  lemma BehindScan(st: ColumnState, col: seq<nat>, r: nat)
    requires r + 1 < |col|
    requires ScanInv(st, col, r + 1)
    requires col[r] != 0
    requires |RowStack(col, r + 1)| > 0
    requires var s := RowStack(col, r + 1);
             s[|s| - 1].value != col[r] || s[|s| - 1].merged
    ensures r < |col| - |RowStack(col, r + 1)|
    ensures ScanInv(Behind(st, r, |col| - |RowStack(col, r + 1)|), col, r)
  {
    ScanCellsAt(st, col, r + 1);
    ScanMarksAt(st, col, r + 1);
    RowStackBehind(col, r);
    BehindMoves(st, col, r, RowStack(col, r + 1), RowStack(col, r));
    ScanInvFrom(Behind(st, r, |col| - |RowStack(col, r + 1)|), col, r);
  }

  /** A tile closing up behind the block, in terms of the entries `s`
      before and `s'` after it. */
  lemma BehindMoves(st: ColumnState, col: seq<nat>, r: nat, s: seq<Entry>, s': seq<Entry>)
    requires r + 1 < |col| == |st.cells|
    requires forall i :: 0 <= i < |col| ==> st.cells[i] == if i < r + 1 then col[i] else Slot(s, |col|, i)
    requires forall p: nat :: p in st.merged <==> IsMarked(s, |col|, p)
    requires st.gained == MergedSum(s)
    requires 0 < |s| <= |col| - (r + 1)
    requires s' == s + [Entry(col[r], false)] && MergedSum(s') == MergedSum(s)
    ensures var next := Behind(st, r, |col| - |s|);
            && |next.cells| == |col|
            && (forall i :: 0 <= i < |col| ==> next.cells[i] == if i < r then col[i] else Slot(s', |col|, i))
            && (forall p: nat :: p in next.merged <==> IsMarked(s', |col|, p))
            && next.gained == MergedSum(s')
  {
    var n := |col|;
    var b := n - |s|;
    var cells := Behind(st, r, b).cells;
    forall i | 0 <= i < n
      ensures cells[i] == if i < r then col[i] else Slot(s', n, i)
    {
      if r < i {
        assert st.cells[i] == Slot(s, n, i);
      }
    }
    forall p: nat
      ensures p in st.merged <==> IsMarked(s', n, p)
    {
      assert IsMarked(s, n, p) == IsMarked(s', n, p);
    }
  }

  /** Scanning rows `k-1` down to 0 keeps the invariant. */
  lemma {:induction false} SlideRowsScan(st: ColumnState, col: seq<nat>, k: nat)
    requires k < |col|
    requires ScanInv(st, col, k)
    ensures ScanInv(SlideRows(st, k - 1), col, 0)
    decreases k
  {
    if k > 0 {
      StepScan(st, col, k - 1);
      SlideRowsScan(Step(st, k - 1), col, k - 1);
    }
  }

  /** Only the top row has been seen before the scan starts. */
  lemma ScanStart(col: seq<nat>)
    requires |col| > 0
    ensures ScanInv(ColumnState(col, {}, 0, false), col, |col| - 1)
  {
    var n := |col|;
    var x := col[n - 1];
    assert RowStack(col, n) == [];
    assert RowStack(col, n - 1) == if x != 0 then [Entry(x, false)] else [];
    ScanInvFrom(ColumnState(col, {}, 0, false), col, n - 1);
  }

  /** Everything the finished scan of a nonempty column satisfies. */
  lemma SlideColumnInv(col: seq<nat>)
    requires |col| > 0
    ensures ScanInv(SlideColumn(col), col, 0)
    ensures StepKeeps(ColumnState(col, {}, 0, false), SlideColumn(col))
    ensures WellMarked(SlideColumn(col), -1)
  {
    var st := ColumnState(col, {}, 0, false);
    SlideColumnScan(col);
    SlideRowsConserves(st, |col| - 2);
  }

  lemma SlideColumnScan(col: seq<nat>)
    requires |col| > 0
    ensures ScanInv(SlideColumn(col), col, 0)
  {
    var st := ColumnState(col, {}, 0, false);
    var k := |col| - 1;
    ScanStart(col);
    SlideRowsScan(st, col, k);
    ScanInvOfEqual(SlideRows(st, k - 1), SlideColumn(col), col, 0);
  }

  lemma ScanInvOfEqual(a: ColumnState, b: ColumnState, col: seq<nat>, r: nat)
    requires a == b && ScanInv(a, col, r)
    ensures ScanInv(b, col, r)
  {
  }
  // ---------------------------------------------------------------------
  // The column-level theorems
  // ---------------------------------------------------------------------

  /** The scan places the tiles exactly as the greedy merge rule does,
      against the top edge, and gains exactly that rule's merge total. */
  lemma SlideColumnMatchesRule(col: seq<nat>)
    ensures |MergeTiles(Tiles(col))| <= |col|
    ensures SlideColumn(col).cells == PackTop(MergeTiles(Tiles(col)), |col|)
    ensures SlideColumn(col).gained == MergeGain(Tiles(col))
  {
    MergeTilesLength(Tiles(col));
    if |col| > 0 {
      SlideColumnScan(col);
      ScanEnd(SlideColumn(col), col);
      assert col[0..] == col;
      RowStackIsStack(col, 0);
      StackMatchesMerge(Tiles(col));
    }
  }

  /** Once every row has been scanned, the column is the merge rule's
      entries packed against the top, and the gain is their merge total. */
  lemma ScanEnd(st: ColumnState, col: seq<nat>)
    requires ScanInv(st, col, 0)
    ensures st.cells == PackTop(Values(RowStack(col, 0)), |col|)
    ensures st.gained == MergedSum(RowStack(col, 0))
  {
    ScanCellsAt(st, col, 0);
    SlotsPackTop(st.cells, RowStack(col, 0), |col|);
  }

  /** Cells holding the slots of a stack are the stack's values packed at the top. */
  lemma SlotsPackTop(cells: seq<nat>, s: seq<Entry>, n: nat)
    requires |s| <= n == |cells|
    requires forall i :: 0 <= i < n ==> cells[i] == Slot(s, n, i)
    ensures cells == PackTop(Values(s), n)
  {
    var want := PackTop(Values(s), n);
    forall i | 0 <= i < n
      ensures cells[i] == want[i]
    {
    }
  }
  /** Tilting a column conserves its total value. */
  lemma SlideColumnConservesValue(col: seq<nat>)
    ensures |SlideColumn(col).cells| == |col|
    ensures Sum(SlideColumn(col).cells) == Sum(col)
  {
    if |col| > 0 {
      SlideColumnInv(col);
    }
  }

  /** The score gained is the total value of the merge products, each
      standing in a row marked as a merge destination. */
  lemma SlideColumnGainIsMarked(col: seq<nat>)
    ensures SlideColumn(col).gained == MarkedSum(SlideColumn(col).cells, SlideColumn(col).merged)
    ensures forall p :: p in SlideColumn(col).merged ==> p < |col| && SlideColumn(col).cells[p] != 0
  {
    if |col| > 0 {
      SlideColumnInv(col);
      MarkedSumEmptySet(col);
    }
  }

  lemma {:induction false} MarkedSumEmptySet(s: seq<nat>)
    ensures MarkedSum(s, {}) == 0
    decreases |s|
  {
    if |s| > 0 {
      MarkedSumEmptySet(s[..|s| - 1]);
    }
  }

  /** Each merge removes one tile and marks a row nobody marked before:
      tiles lost equals rows marked, so no row receives two merges. */
  lemma SlideColumnOneMergePerMarker(col: seq<nat>)
    ensures Count(SlideColumn(col).cells) + |SlideColumn(col).merged| == Count(col)
  {
    if |col| > 0 {
      SlideColumnInv(col);
    }
  }

  /** The changed flag is set exactly when the column differs afterwards. */
  lemma SlideColumnChangedExact(col: seq<nat>)
    ensures SlideColumn(col).changed <==> SlideColumn(col).cells != col
  {
    if |col| > 0 {
      SlideColumnInv(col);
    }
  }

  /** After the tilt the occupied cells form one block ending at the top row. */
  lemma SlideColumnPacked(col: seq<nat>)
    ensures PackedTop(SlideColumn(col).cells)
  {
    SlideColumnMatchesRule(col);
    MergeTilesPositive(Tiles(col));
    PackTopPacked(MergeTiles(Tiles(col)), |col|);
  }

  // ---------------------------------------------------------------------
  // The column loop
  // ---------------------------------------------------------------------

  /** The outcome of tilting a whole grid upward. */
  datatype GridSlide = GridSlide(cells: Grid, gained: nat, changed: bool)

  /** The column loop of `tilt_up`: each column tilted with fresh merge markers,
      the gains added up and the changed flags or-ed together. */
  function SlideColumns(g: Grid): (res: GridSlide)
    ensures |res.cells| == |g|
  {
    if |g| == 0 then GridSlide([], 0, false)
    else
      var prev := SlideColumns(g[..|g| - 1]);
      var col := SlideColumn(g[|g| - 1]);
      GridSlide(prev.cells + [col.cells], prev.gained + col.gained, prev.changed || col.changed)
  }

  /** The total merge value the merge rule assigns to the columns of `g`. */
  function RuleGain(g: Grid): nat {
    if |g| == 0 then 0 else RuleGain(g[..|g| - 1]) + MergeGain(Tiles(g[|g| - 1]))
  }

  /** Column by column, the grid tilt is the column tilt, and the flag
      or-ed over the columns is set exactly when some column changed. */
  lemma SlideColumnsByColumn(g: Grid)
    ensures forall c :: 0 <= c < |g| ==> SlideColumns(g).cells[c] == SlideColumn(g[c]).cells
    ensures SlideColumns(g).gained == RuleGain(g)
    ensures SlideColumns(g).changed <==> SlideColumns(g).cells != g
  {
    SlideColumnsCells(g);
    SlideColumnsGain(g);
    SlideColumnsChanged(g);
  }

  lemma {:induction false} SlideColumnsCells(g: Grid)
    ensures forall c :: 0 <= c < |g| ==> SlideColumns(g).cells[c] == SlideColumn(g[c]).cells
    decreases |g|
  {
    if |g| > 0 {
      var init := g[..|g| - 1];
      SlideColumnsCells(init);
      var res := SlideColumns(g);
      assert res.cells == SlideColumns(init).cells + [SlideColumn(g[|g| - 1]).cells];
      forall c | 0 <= c < |g|
        ensures res.cells[c] == SlideColumn(g[c]).cells
      {
        if c < |init| {
          assert init[c] == g[c];
        }
      }
    }
  }

  lemma {:induction false} SlideColumnsGain(g: Grid)
    ensures SlideColumns(g).gained == RuleGain(g)
    decreases |g|
  {
    if |g| > 0 {
      SlideColumnsGain(g[..|g| - 1]);
      SlideColumnMatchesRule(g[|g| - 1]);
    }
  }

  lemma {:induction false} SlideColumnsChanged(g: Grid)
    ensures SlideColumns(g).changed <==> SlideColumns(g).cells != g
    decreases |g|
  {
    if |g| > 0 {
      var init := g[..|g| - 1];
      var last := g[|g| - 1];
      var prev := SlideColumns(init);
      var col := SlideColumn(last);
      var res := SlideColumns(g);
      SlideColumnsChanged(init);
      SlideColumnChangedExact(last);
      assert res.cells == prev.cells + [col.cells];
      assert res.changed == (prev.changed || col.changed);
      assert g == init + [last];
      if res.cells == g {
        assert res.cells[..|init|] == prev.cells;
        assert res.cells[|init|] == col.cells;
      }
    }
  }

  /** A column the tilt leaves as it is gained nothing: every merge takes a
      tile off the column. */
  lemma SlideColumnFixedGainsNothing(col: seq<nat>)
    requires SlideColumn(col).cells == col
    ensures SlideColumn(col).gained == 0
  {
    SlideColumnOneMergePerMarker(col);
    SlideColumnGainIsMarked(col);
    MarkedSumEmptySet(col);
  }

  /** Columns the tilt leaves as they are contribute no merge value. */
  lemma {:induction false} RuleGainOfFixedColumns(g: Grid)
    requires forall c :: 0 <= c < |g| ==> SlideColumn(g[c]).cells == g[c]
    ensures RuleGain(g) == 0
    decreases |g|
  {
    if |g| > 0 {
      var last := g[|g| - 1];
      RuleGainOfFixedColumns(g[..|g| - 1]);
      SlideColumnFixedGainsNothing(last);
      SlideColumnMatchesRule(last);
    }
  }

  /** The upward tilt of a grid: every column is packed against the top by
      the merge rule, the score gained is the rule's merge total, the total
      value is conserved, and the changed flag is exact. */
  lemma SlideColumnsSpec(g: Grid)
    requires IsSquare(g)
    ensures IsSquare(SlideColumns(g).cells)
    ensures forall c :: 0 <= c < |g| ==>
              |MergeTiles(Tiles(g[c]))| <= |g| &&
              SlideColumns(g).cells[c] == PackTop(MergeTiles(Tiles(g[c])), |g|)
    ensures forall c :: 0 <= c < |g| ==> PackedTop(SlideColumns(g).cells[c])
    ensures SlideColumns(g).gained == RuleGain(g)
    ensures GridSum(SlideColumns(g).cells) == GridSum(g)
    ensures SlideColumns(g).changed <==> SlideColumns(g).cells != g
  {
    var res := SlideColumns(g);
    SlideColumnsByColumn(g);
    forall c | 0 <= c < |g|
      ensures |res.cells[c]| == |g|
      ensures |MergeTiles(Tiles(g[c]))| <= |g| && res.cells[c] == PackTop(MergeTiles(Tiles(g[c])), |g|)
      ensures PackedTop(res.cells[c])
      ensures Sum(res.cells[c]) == Sum(g[c])
    {
      SlideColumnMatchesRule(g[c]);
      SlideColumnPacked(g[c]);
      SlideColumnConservesValue(g[c]);
    }
    GridSumColumns(res.cells, g);
  }

  // ---------------------------------------------------------------------
  // The four-entry marker array as written
  // ---------------------------------------------------------------------

  /** Number of entries of the `merged` array of `tilt_up`. */
  const MarkerSlots: nat := 4

  /** Step `r` reads the merge marker of a row the four-entry array does not
      have: the tile at `r` meets an equal tile at row 4 or above. */
  predicate StepReadsPastMarkers(st: ColumnState, r: nat)
    requires r + 1 < |st.cells|
  {
    st.cells[r] != 0 &&
    var p := Pointer(st.cells, r + 1);
    st.cells[p] != 0 && st.cells[r] == st.cells[p] && p >= MarkerSlots
  }

  /** A column scan that either finishes or stops at an out-of-range marker index. */
  datatype ScanOutcome = Finished(st: ColumnState) | MarkerOutOfRange

  function SlideRowsAsWritten(st: ColumnState, r: int): ScanOutcome
    requires r < |st.cells| - 1
    decreases r + 1
  {
    if r < 0 then Finished(st)
    else if StepReadsPastMarkers(st, r) then MarkerOutOfRange
    else SlideRowsAsWritten(Step(st, r), r - 1)
  }

  /** The upward tilt of one column with the four-entry marker array. */
  function SlideColumnAsWritten(col: seq<nat>): ScanOutcome {
    SlideRowsAsWritten(ColumnState(col, {}, 0, false), |col| - 2)
  }

  /** Whenever the scan as written finishes, it agrees with the scan on a
      set of markers; on columns of at most four rows it always finishes. */
  lemma {:induction false} SlideRowsAsWrittenAgrees(st: ColumnState, r: int)
    requires r < |st.cells| - 1
    ensures SlideRowsAsWritten(st, r).Finished? ==> SlideRowsAsWritten(st, r).st == SlideRows(st, r)
    ensures |st.cells| <= MarkerSlots ==> SlideRowsAsWritten(st, r) == Finished(SlideRows(st, r))
    decreases r + 1
  {
    if r >= 0 {
      SlideRowsAsWrittenAgrees(Step(st, r), r - 1);
    }
  }

  lemma SlideColumnAsWrittenAgrees(col: seq<nat>)
    ensures SlideColumnAsWritten(col).Finished? ==> SlideColumnAsWritten(col).st == SlideColumn(col)
    ensures |col| <= MarkerSlots ==> SlideColumnAsWritten(col) == Finished(SlideColumn(col))
  {
    if |col| > 0 {
      SlideRowsAsWrittenAgrees(ColumnState(col, {}, 0, false), |col| - 2);
    }
  }

  /** On a five-row column with two 2s in the top rows, the scan as written
      indexes the marker array at 4, where the merge rule gives a single 4
      at the top. */
  lemma FiveRowMergeOutOfRange()
    ensures SlideColumnAsWritten([0, 0, 0, 2, 2]) == MarkerOutOfRange
    ensures SlideColumn([0, 0, 0, 2, 2]).cells == [0, 0, 0, 0, 4]
  {
    var col: seq<nat> := [0, 0, 0, 2, 2];
    var st := ColumnState(col, {}, 0, false);
    assert Pointer(col, 4) == 4;
    assert StepReadsPastMarkers(st, 3);
    SlideColumnMatchesRule(col);
    assert Tiles(col) == [2, 2];
  }
}
