/** The 2048 merge rule for one line of tiles, stated independently of the
    row-by-row scan that implements it.

    A column is listed bottom (row 0) to top. Tilting toward the top meets
    its tiles top first; `Tiles` lists them in that order. `MergeTiles` pairs
    equal neighbours greedily from the leading edge, so in a run of three
    equal tiles the leading two merge and the trailing one does not, and no
    merge product merges again. `PackTop` lays the result against the top
    edge.

    `Stack` is the same rule applied one tile at a time, the way the scan
    meets them; `StackMatchesMerge` proves the two agree.
 */
module MergeRule {
  import opened Grids

  /** A cell's contribution to the list of tiles: its value, or nothing when empty. */
  function Occupant(v: nat): seq<nat> {
    if v != 0 then [v] else []
  }

  /** The tiles of a column, top row first, empty cells skipped. */
  function Tiles(col: seq<nat>): (ts: seq<nat>)
    ensures |ts| <= |col|
    ensures forall i :: 0 <= i < |ts| ==> ts[i] > 0
  {
    if |col| == 0 then [] else Tiles(col[1..]) + Occupant(col[0])
  }

  /** Greedy pairing from the leading edge. */
  function MergeTiles(ts: seq<nat>): seq<nat> {
    if |ts| >= 2 && ts[0] == ts[1] then [2 * ts[0]] + MergeTiles(ts[2..])
    else if |ts| >= 1 then [ts[0]] + MergeTiles(ts[1..])
    else []
  }

  /** The total value of the merge products made by `MergeTiles`. */
  function MergeGain(ts: seq<nat>): nat {
    if |ts| >= 2 && ts[0] == ts[1] then 2 * ts[0] + MergeGain(ts[2..])
    else if |ts| >= 1 then MergeGain(ts[1..])
    else 0
  }

  /** A column of height `n` whose top cells hold `vs`, leading value on top. */
  function PackTop(vs: seq<nat>, n: nat): (col: seq<nat>)
    requires |vs| <= n
    ensures |col| == n
  {
    seq(n, i requires 0 <= i < n => if n - |vs| <= i then vs[n - 1 - i] else 0)
  }

  /** The occupied cells form one block that ends at the top row. */
  predicate PackedTop(col: seq<nat>) {
    forall i, j :: 0 <= i < j < |col| && col[i] != 0 ==> col[j] != 0
  }

  // ---------------------------------------------------------------------
  // Properties of the reference rule
  // ---------------------------------------------------------------------

  /** Merging never creates tiles and halves them at best. */
  lemma {:induction false} MergeTilesLength(ts: seq<nat>)
    ensures |MergeTiles(ts)| <= |ts|
    ensures 2 * |MergeTiles(ts)| >= |ts|
    decreases |ts|
  {
    if |ts| >= 2 && ts[0] == ts[1] {
      MergeTilesLength(ts[2..]);
    } else if |ts| >= 1 {
      MergeTilesLength(ts[1..]);
    }
  }

  /** Merging keeps every value a tile value. */
  lemma {:induction false} MergeTilesPositive(ts: seq<nat>)
    requires forall i :: 0 <= i < |ts| ==> ts[i] > 0
    ensures forall i :: 0 <= i < |MergeTiles(ts)| ==> MergeTiles(ts)[i] > 0
    decreases |ts|
  {
    if |ts| >= 2 && ts[0] == ts[1] {
      MergeTilesPositive(ts[2..]);
    } else if |ts| >= 1 {
      MergeTilesPositive(ts[1..]);
    }
  }

  lemma {:induction false} SumAppend(a: seq<nat>, b: seq<nat>)
    ensures Sum(a + b) == Sum(a) + Sum(b)
    decreases |b|
  {
    if |b| == 0 {
      assert a + b == a;
    } else {
      assert (a + b)[..|a + b| - 1] == a + b[..|b| - 1];
      SumAppend(a, b[..|b| - 1]);
    }
  }

  lemma {:induction false} CountAppend(a: seq<nat>, b: seq<nat>)
    ensures Count(a + b) == Count(a) + Count(b)
    decreases |b|
  {
    if |b| == 0 {
      assert a + b == a;
    } else {
      assert (a + b)[..|a + b| - 1] == a + b[..|b| - 1];
      CountAppend(a, b[..|b| - 1]);
    }
  }

  /** Merging conserves the total value: two equal tiles become one of twice the value. */
  lemma {:induction false} MergeTilesSum(ts: seq<nat>)
    ensures Sum(MergeTiles(ts)) == Sum(ts)
    decreases |ts|
  {
    if |ts| >= 2 && ts[0] == ts[1] {
      MergeTilesSum(ts[2..]);
      SumAppend([2 * ts[0]], MergeTiles(ts[2..]));
      SumAppend([ts[0], ts[1]], ts[2..]);
      assert ts == [ts[0], ts[1]] + ts[2..];
      assert Sum([ts[0], ts[1]]) == Sum([ts[0]]) + ts[1];
    } else if |ts| >= 1 {
      MergeTilesSum(ts[1..]);
      SumAppend([ts[0]], MergeTiles(ts[1..]));
      SumAppend([ts[0]], ts[1..]);
      assert ts == [ts[0]] + ts[1..];
    }
  }

  /** The tiles of a column carry the column's whole value. */
  lemma {:induction false} TilesSum(col: seq<nat>)
    ensures Sum(Tiles(col)) == Sum(col)
    ensures |Tiles(col)| == Count(col)
    decreases |col|
  {
    if |col| > 0 {
      var rest := col[1..];
      TilesSum(rest);
      SumAppend(Tiles(rest), Occupant(col[0]));
      SumFirst(col);
      CountFirst(col);
    }
  }

  lemma {:induction false} PackTopSum(vs: seq<nat>, n: nat)
    requires |vs| <= n
    requires forall i :: 0 <= i < |vs| ==> vs[i] > 0
    ensures Sum(PackTop(vs, n)) == Sum(vs)
    ensures Count(PackTop(vs, n)) == |vs|
    decreases n
  {
    var col := PackTop(vs, n);
    if n == 0 {
    } else if |vs| == n {
      PackTopSum(vs[1..], n - 1);
      PackTopFull(vs, n);
      SumFirst(vs);
    } else {
      PackTopSum(vs, n - 1);
      PackTopShort(vs, n);
      SumFirst(col);
      CountAppend([0], col[1..]);
    }
  }

  /** With every row taken, the top cell holds the leading value and the
      rows below it pack the rest. */
  lemma PackTopFull(vs: seq<nat>, n: nat)
    requires 0 < |vs| == n
    ensures PackTop(vs, n)[..n - 1] == PackTop(vs[1..], n - 1)
    ensures PackTop(vs, n)[n - 1] == vs[0]
  {
  }

  /** With a row to spare, the bottom cell is empty and the rows above it
      pack the values into one row less. */
  lemma PackTopShort(vs: seq<nat>, n: nat)
    requires |vs| < n
    ensures PackTop(vs, n) == [0] + PackTop(vs, n - 1)
  {
    var col := PackTop(vs, n);
    assert col[1..] == PackTop(vs, n - 1);
  }

  lemma PackTopPacked(vs: seq<nat>, n: nat)
    requires |vs| <= n
    requires forall i :: 0 <= i < |vs| ==> vs[i] > 0
    ensures PackedTop(PackTop(vs, n))
  {
  }

  // ---------------------------------------------------------------------
  // The same rule, one tile at a time
  // ---------------------------------------------------------------------

  /** A tile already placed against the leading edge, and whether it is a merge product. */
  datatype Entry = Entry(value: nat, merged: bool)

  /** Place tile `t` behind the entries placed so far (leading entry first):
      it merges into the last one when that one is equal and not itself a
      merge product, and otherwise lines up behind it. */
  function Push(s: seq<Entry>, t: nat): (s': seq<Entry>)
    ensures |s'| > 0
  {
    if |s| > 0 && s[|s| - 1].value == t && !s[|s| - 1].merged then s[..|s| - 1] + [Entry(2 * t, true)]
    else s + [Entry(t, false)]
  }

  /** Push the tiles `ts`, in order, onto `s`. */
  function StackFrom(s: seq<Entry>, ts: seq<nat>): seq<Entry> {
    if |ts| == 0 then s else Push(StackFrom(s, ts[..|ts| - 1]), ts[|ts| - 1])
  }

  function Stack(ts: seq<nat>): seq<Entry> {
    StackFrom([], ts)
  }

  function Values(s: seq<Entry>): (vs: seq<nat>)
    ensures |vs| == |s|
  {
    seq(|s|, i requires 0 <= i < |s| => s[i].value)
  }

  /** Total value of the merge products among the entries. */
  function MergedSum(s: seq<Entry>): nat {
    if |s| == 0 then 0 else MergedSum(s[..|s| - 1]) + (if s[|s| - 1].merged then s[|s| - 1].value else 0)
  }

  lemma {:induction false} MergedSumAppend(a: seq<Entry>, b: seq<Entry>)
    ensures MergedSum(a + b) == MergedSum(a) + MergedSum(b)
    decreases |b|
  {
    if |b| == 0 {
      assert a + b == a;
    } else {
      assert (a + b)[..|a + b| - 1] == a + b[..|b| - 1];
      MergedSumAppend(a, b[..|b| - 1]);
    }
  }

  lemma {:induction false} StackFromNonEmpty(s: seq<Entry>, ts: seq<nat>)
    requires |s| > 0 || |ts| > 0
    ensures |StackFrom(s, ts)| > 0
  {
  }

  lemma {:induction false} StackFromSplit(s: seq<Entry>, p: seq<nat>, q: seq<nat>)
    ensures StackFrom(s, p + q) == StackFrom(StackFrom(s, p), q)
    decreases |q|
  {
    if |q| == 0 {
      assert p + q == p;
    } else {
      assert (p + q)[..|p + q| - 1] == p + q[..|q| - 1];
      StackFromSplit(s, p, q[..|q| - 1]);
    }
  }

  /** Pushing behind a nonempty tail, or behind a prefix ending in a merge
      product, leaves the prefix alone. */
  lemma PushFrozenPrefix(a: seq<Entry>, b: seq<Entry>, t: nat)
    requires |b| > 0 || |a| == 0 || a[|a| - 1].merged
    ensures Push(a + b, t) == a + Push(b, t)
  {
    if |b| > 0 {
      assert (a + b)[|a + b| - 1] == b[|b| - 1];
      assert (a + b)[..|a + b| - 1] == a + b[..|b| - 1];
    } else {
      assert a + b == a;
    }
  }

  /** A prefix that ends in a merge product (or is empty) is never touched again. */
  lemma {:induction false} StackFromFrozenPrefix(a: seq<Entry>, b: seq<Entry>, ts: seq<nat>)
    requires |b| > 0 || |a| == 0 || a[|a| - 1].merged
    ensures StackFrom(a + b, ts) == a + StackFrom(b, ts)
    decreases |ts|
  {
    if |ts| > 0 {
      var init := ts[..|ts| - 1];
      StackFromFrozenPrefix(a, b, init);
      if |b| > 0 {
        StackFromNonEmpty(b, init);
      }
      PushFrozenPrefix(a, StackFrom(b, init), ts[|ts| - 1]);
    }
  }

  lemma ValuesAppend(a: seq<Entry>, b: seq<Entry>)
    ensures Values(a + b) == Values(a) + Values(b)
  {
  }

  lemma StackFromOne(s: seq<Entry>, t: nat)
    ensures StackFrom(s, [t]) == Push(s, t)
  {
    assert [t][..0] == [];
  }

  lemma StackPair(a: nat, rest: seq<nat>)
    ensures Stack([a, a] + rest) == [Entry(2 * a, true)] + Stack(rest)
  {
    var e := [Entry(2 * a, true)];
    assert [a, a] == [a] + [a];
    StackFromSplit([], [a] + [a], rest);
    StackFromSplit([], [a], [a]);
    StackFromOne([], a);
    StackFromOne([Entry(a, false)], a);
    assert StackFrom([], [a, a]) == e;
    StackFromFrozenPrefix(e, [], rest);
    assert e + [] == e;
  }

  lemma StackFirst(t: nat, rest: seq<nat>)
    ensures Stack([t] + rest) == StackFrom([Entry(t, false)], rest)
  {
    StackFromSplit([], [t], rest);
    StackFromOne([], t);
    var empty: seq<Entry> := [];
    assert empty + [Entry(t, false)] == [Entry(t, false)];
  }

  lemma StackSingle(a: nat, rest: seq<nat>)
    requires |rest| == 0 || rest[0] != a
    ensures Stack([a] + rest) == [Entry(a, false)] + Stack(rest)
  {
    var e := [Entry(a, false)];
    StackFirst(a, rest);
    if |rest| == 0 {
      assert e + [] == e;
    } else {
      var b := rest[0];
      var more := rest[1..];
      assert rest == [b] + more;
      StackFromSplit(e, [b], more);
      StackFromOne(e, b);
      StackFromFrozenPrefix(e, [Entry(b, false)], more);
      StackFirst(b, more);
    }
  }

  /** Placing tiles one at a time yields exactly the greedy pairing. */
  lemma {:induction false} StackMatchesMerge(ts: seq<nat>)
    ensures Values(Stack(ts)) == MergeTiles(ts)
    ensures MergedSum(Stack(ts)) == MergeGain(ts)
    decreases |ts|
  {
    if |ts| >= 2 && ts[0] == ts[1] {
      var rest := ts[2..];
      var e := Entry(2 * ts[0], true);
      assert ts == [ts[0], ts[0]] + rest;
      StackPair(ts[0], rest);
      assert Stack(ts) == [e] + Stack(rest);
      StackMatchesMerge(rest);
      ValuesAppend([e], Stack(rest));
      assert Values([e]) == [2 * ts[0]];
      MergedSumAppend([e], Stack(rest));
      assert MergedSum([e]) == 2 * ts[0];
      assert MergeTiles(ts) == [2 * ts[0]] + MergeTiles(rest);
      assert MergeGain(ts) == 2 * ts[0] + MergeGain(rest);
    } else if |ts| >= 1 {
      var rest := ts[1..];
      var e := Entry(ts[0], false);
      assert ts == [ts[0]] + rest;
      StackSingle(ts[0], rest);
      assert Stack(ts) == [e] + Stack(rest);
      StackMatchesMerge(rest);
      ValuesAppend([e], Stack(rest));
      assert Values([e]) == [ts[0]];
      MergedSumAppend([e], Stack(rest));
      assert MergedSum([e]) == 0;
      assert MergeTiles(ts) == [ts[0]] + MergeTiles(rest);
      assert MergeGain(ts) == MergeGain(rest);
    }
  }

  lemma PushPositive(s: seq<Entry>, t: nat)
    requires t > 0
    requires forall i :: 0 <= i < |s| ==> s[i].value > 0
    ensures forall i :: 0 <= i < |Push(s, t)| ==> Push(s, t)[i].value > 0
  {
  }

  /** Every placed entry carries a tile. */
  lemma {:induction false} StackPositive(ts: seq<nat>)
    requires forall i :: 0 <= i < |ts| ==> ts[i] > 0
    ensures forall i :: 0 <= i < |Stack(ts)| ==> Stack(ts)[i].value > 0
    decreases |ts|
  {
    if |ts| > 0 {
      StackPositive(ts[..|ts| - 1]);
      PushPositive(Stack(ts[..|ts| - 1]), ts[|ts| - 1]);
    }
  }
}
