/** Row-level board operations of `Place.checkIsLine` and `Place.cleanLine`:
    finding the full rows and removing rows with stack-down compaction. */
module Rows {
  import opened Types

  /** `row.every(x => x > 20)`. */
  predicate IsFull(row: seq<int>) {
    forall k :: 0 <= k < |row| ==> row[k] > LockedAbove
  }

  predicate StrictlyAscending(ys: seq<nat>) {
    forall a, b :: 0 <= a < b < |ys| ==> ys[a] < ys[b]
  }

  /** Indices of the full rows from row `i` on, top to bottom. */
  function FullRowsFrom(g: Grid, i: nat): seq<nat>
    requires i <= |g|
    decreases |g| - i
  {
    if i == |g| then []
    else (if IsFull(g[i]) then [i] else []) + FullRowsFrom(g, i + 1)
  }

  /** The indices `checkIsLine` pushes: every full row, in ascending order. */
  function FullRows(g: Grid): seq<nat> {
    FullRowsFrom(g, 0)
  }

  /** One step of `FullRowsFrom`: row `i` is listed first exactly when it is full. */
  lemma FullRowsFromStep(g: Grid, i: nat)
    requires i < |g|
    ensures IsFull(g[i]) ==> FullRowsFrom(g, i) == [i] + FullRowsFrom(g, i + 1)
    ensures !IsFull(g[i]) ==> FullRowsFrom(g, i) == FullRowsFrom(g, i + 1)
  {
  }

  lemma {:induction false} FullRowsFromMembers(g: Grid, i: nat)
    requires i <= |g|
    ensures forall y: nat :: y in FullRowsFrom(g, i) <==> i <= y < |g| && IsFull(g[y])
    decreases |g| - i
  {
    if i < |g| {
      FullRowsFromMembers(g, i + 1);
      FullRowsFromStep(g, i);
    }
  }

  lemma {:induction false} FullRowsFromBounds(g: Grid, i: nat)
    requires i <= |g|
    ensures forall k :: 0 <= k < |FullRowsFrom(g, i)| ==> i <= FullRowsFrom(g, i)[k] < |g|
    decreases |g| - i
  {
    if i < |g| {
      FullRowsFromBounds(g, i + 1);
      FullRowsFromStep(g, i);
    }
  }

  lemma {:induction false} FullRowsFromAscending(g: Grid, i: nat)
    requires i <= |g|
    ensures StrictlyAscending(FullRowsFrom(g, i))
    decreases |g| - i
  {
    if i < |g| {
      FullRowsFromAscending(g, i + 1);
      FullRowsFromBounds(g, i + 1);
      FullRowsFromStep(g, i);
      var rest := FullRowsFrom(g, i + 1);
      if IsFull(g[i]) {
        var ys := [i] + rest;
        forall a, b | 0 <= a < b < |ys| ensures ys[a] < ys[b] {
          if a > 0 {
            assert ys[a] == rest[a - 1] && ys[b] == rest[b - 1];
          } else {
            assert ys[b] == rest[b - 1];
          }
        }
      }
    }
  }

  lemma FullRowsFromSpec(g: Grid, i: nat)
    requires i <= |g|
    ensures forall y: nat :: y in FullRowsFrom(g, i) <==> i <= y < |g| && IsFull(g[y])
    ensures StrictlyAscending(FullRowsFrom(g, i))
  {
    FullRowsFromMembers(g, i);
    FullRowsFromAscending(g, i);
  }

  /** A row index is listed exactly when that row is full; the list is
      strictly ascending and within the board. */
  lemma FullRowsSpec(g: Grid)
    ensures forall y: nat :: y in FullRows(g) <==> y < |g| && IsFull(g[y])
    ensures StrictlyAscending(FullRows(g))
    ensures forall k :: 0 <= k < |FullRows(g)| ==> FullRows(g)[k] < |g|
  {
    FullRowsFromSpec(g, 0);
    var ys := FullRows(g);
    assert forall k :: 0 <= k < |ys| ==> ys[k] in ys;
  }

  function ZeroRow(w: nat): seq<int> {
    seq(w, _ => 0)
  }

  function ZeroRows(k: nat, w: nat): Grid {
    seq(k, _ => ZeroRow(w))
  }

  /** `splice(y, 1)`: removes row `y` if there is one. */
  function Splice(g: Grid, y: nat): Grid {
    if y < |g| then g[..y] + g[y + 1..] else g
  }

  /** `cleanLine`'s loop: for each listed index in order, remove that row and
      put a fresh zero row on top. */
  function ClearRows(g: Grid, ys: seq<nat>, w: nat): Grid
    decreases |ys|
  {
    if |ys| == 0 then g
    else ClearRows([ZeroRow(w)] + Splice(g, ys[0]), ys[1..], w)
  }

  /** The rows of `g` with index in `lo..hi` that are not listed, in order. */
  function Survivors(g: Grid, ys: seq<nat>, lo: nat, hi: nat): Grid
    requires lo <= hi <= |g|
    decreases hi - lo
  {
    if hi == lo then []
    else Survivors(g, ys, lo, hi - 1) + (if hi - 1 in ys then [] else [g[hi - 1]])
  }

  lemma {:induction false} SurvivorsSplit(g: Grid, ys: seq<nat>, lo: nat, mid: nat, hi: nat)
    requires lo <= mid <= hi <= |g|
    ensures Survivors(g, ys, lo, hi) == Survivors(g, ys, lo, mid) + Survivors(g, ys, mid, hi)
    decreases hi - mid
  {
    if hi > mid {
      SurvivorsSplit(g, ys, lo, mid, hi - 1);
    }
  }

  lemma {:induction false} SurvivorsNoneListed(g: Grid, ys: seq<nat>, lo: nat, hi: nat)
    requires lo <= hi <= |g|
    requires forall i :: lo <= i < hi ==> i !in ys
    ensures Survivors(g, ys, lo, hi) == g[lo..hi]
    decreases hi - lo
  {
    if hi > lo {
      SurvivorsNoneListed(g, ys, lo, hi - 1);
      assert g[lo..hi] == g[lo..hi - 1] + [g[hi - 1]];
    }
  }

  lemma {:induction false} SurvivorsCongruent(g: Grid, g': Grid, ys: seq<nat>, ys': seq<nat>, lo: nat, hi: nat)
    requires lo <= hi <= |g| && hi <= |g'|
    requires forall i :: lo <= i < hi ==> g[i] == g'[i] && (i in ys <==> i in ys')
    ensures Survivors(g, ys, lo, hi) == Survivors(g', ys', lo, hi)
    decreases hi - lo
  {
    if hi > lo {
      SurvivorsCongruent(g, g', ys, ys', lo, hi - 1);
    }
  }

  /** Survivors of the whole board, seen from the least listed row `y`. */
  lemma SurvivorsAroundLeast(g: Grid, ys: seq<nat>, y: nat)
    requires y < |g| && y in ys
    requires forall i :: 0 <= i < y ==> i !in ys
    ensures Survivors(g, ys, 0, |g|) == g[..y] + Survivors(g, ys, y + 1, |g|)
  {
    assert Survivors(g, ys, 0, y) == g[..y] by {
      SurvivorsNoneListed(g, ys, 0, y);
    }
    assert Survivors(g, ys, y, y + 1) == [];
    SurvivorsSplit(g, ys, 0, y, |g|);
    SurvivorsSplit(g, ys, y, y + 1, |g|);
  }

  /** One step of the clearing loop seen through the survivors: after row `y`
      is spliced out and a zero row put on top, the survivors of the remaining
      list `rest` are that zero row, the rows above `y`, and the survivors of
      the old list below `y`. */
  lemma ClearStepSurvivors(g: Grid, ys: seq<nat>, rest: seq<nat>, y: nat, w: nat)
    requires y < |g|
    requires forall i :: 0 <= i <= y ==> i !in rest
    requires forall i :: y < i ==> (i in rest <==> i in ys)
    ensures Survivors([ZeroRow(w)] + Splice(g, y), rest, 0, |g|) == [ZeroRow(w)] + g[..y] + Survivors(g, ys, y + 1, |g|)
  {
    var g1 := [ZeroRow(w)] + Splice(g, y);
    assert |g1| == |g|;
    assert Survivors(g1, rest, 0, y + 1) == [ZeroRow(w)] + g[..y] by {
      SurvivorsNoneListed(g1, rest, 0, y + 1);
      assert g1[0..y + 1] == [ZeroRow(w)] + g[..y];
    }
    assert Survivors(g1, rest, y + 1, |g|) == Survivors(g, ys, y + 1, |g|) by {
      assert forall i :: y + 1 <= i < |g| ==> g1[i] == g[i];
      SurvivorsCongruent(g1, g, rest, ys, y + 1, |g|);
    }
    SurvivorsSplit(g1, rest, 0, y + 1, |g|);
  }

  /** For a strictly ascending list, the head is the least entry and the tail
      lists exactly the entries above it. */
  lemma HeadAndTail(ys: seq<nat>)
    requires StrictlyAscending(ys) && |ys| > 0
    ensures ys[0] in ys
    ensures forall i :: 0 <= i < ys[0] ==> i !in ys
    ensures forall i :: 0 <= i <= ys[0] ==> i !in ys[1..]
    ensures forall i :: ys[0] < i ==> (i in ys[1..] <==> i in ys)
    ensures StrictlyAscending(ys[1..])
  {
    forall i | ys[0] < i ensures i in ys[1..] <==> i in ys {
      if i in ys {
        var k :| 0 <= k < |ys| && ys[k] == i;
        assert k > 0 && ys[1..][k - 1] == i;
      }
    }
  }

  /** Clearing a strictly ascending list of row indices leaves one zero row on
      top per listed row, followed by the unlisted rows in their order. */
  lemma {:induction false} ClearRowsShape(g: Grid, ys: seq<nat>, w: nat)
    requires StrictlyAscending(ys)
    requires forall k :: 0 <= k < |ys| ==> ys[k] < |g|
    ensures ClearRows(g, ys, w) == ZeroRows(|ys|, w) + Survivors(g, ys, 0, |g|)
    decreases |ys|
  {
    if |ys| == 0 {
      SurvivorsNoneListed(g, ys, 0, |g|);
      assert ZeroRows(0, w) == [];
    } else {
      var y, ys' := ys[0], ys[1..];
      var g1 := [ZeroRow(w)] + Splice(g, y);
      assert |g1| == |g|;
      HeadAndTail(ys);
      calc {
        ClearRows(g, ys, w);
        ClearRows(g1, ys', w);
        { assert forall k :: 0 <= k < |ys'| ==> ys'[k] == ys[k + 1];
          ClearRowsShape(g1, ys', w); }
        ZeroRows(|ys'|, w) + Survivors(g1, ys', 0, |g|);
        { ClearStepSurvivors(g, ys, ys', y, w); }
        ZeroRows(|ys'|, w) + ([ZeroRow(w)] + g[..y] + Survivors(g, ys, y + 1, |g|));
        { assert ZeroRows(|ys|, w) == ZeroRows(|ys'|, w) + [ZeroRow(w)]; }
        ZeroRows(|ys|, w) + (g[..y] + Survivors(g, ys, y + 1, |g|));
        { SurvivorsAroundLeast(g, ys, y); }
        ZeroRows(|ys|, w) + Survivors(g, ys, 0, |g|);
      }
    }
  }

  /** Clearing listed rows that exist keeps the height of the board and the
      width of every row. */
  lemma {:induction false} ClearRowsKeepsSize(g: Grid, ys: seq<nat>, w: nat)
    requires forall k :: 0 <= k < |ys| ==> ys[k] < |g|
    requires forall r :: 0 <= r < |g| ==> |g[r]| == w
    ensures |ClearRows(g, ys, w)| == |g|
    ensures forall r :: 0 <= r < |g| ==> |ClearRows(g, ys, w)[r]| == w
    decreases |ys|
  {
    if |ys| > 0 {
      var g1 := [ZeroRow(w)] + Splice(g, ys[0]);
      assert forall k :: 0 <= k < |ys[1..]| ==> ys[1..][k] == ys[k + 1];
      ClearRowsKeepsSize(g1, ys[1..], w);
    }
  }

  /** The last entry of a strictly ascending list is its greatest. */
  lemma LastIsGreatest(ys: seq<nat>)
    requires StrictlyAscending(ys) && |ys| > 0
    ensures forall i :: ys[|ys| - 1] < i ==> i !in ys
  {
  }

  /** After clearing a strictly ascending list, the top rows (one per listed
      row) are zero and every row below the last listed index is untouched. */
  lemma ClearRowsTopAndBottom(g: Grid, ys: seq<nat>, w: nat)
    requires StrictlyAscending(ys) && |ys| > 0
    requires forall k :: 0 <= k < |ys| ==> ys[k] < |g|
    requires forall r :: 0 <= r < |g| ==> |g[r]| == w
    ensures var r := ClearRows(g, ys, w);
      && |r| == |g| && |ys| <= |r|
      && (forall i :: 0 <= i < |ys| ==> r[i] == ZeroRow(w))
      && (forall i :: ys[|ys| - 1] < i < |g| ==> r[i] == g[i])
  {
    var m := ys[|ys| - 1];
    var r := ClearRows(g, ys, w);
    var mid := Survivors(g, ys, 0, m + 1);
    ClearRowsKeepsSize(g, ys, w);
    calc {
      r;
      { ClearRowsShape(g, ys, w); }
      ZeroRows(|ys|, w) + Survivors(g, ys, 0, |g|);
      { SurvivorsSplit(g, ys, 0, m + 1, |g|); }
      ZeroRows(|ys|, w) + (mid + Survivors(g, ys, m + 1, |g|));
      { LastIsGreatest(ys);
        SurvivorsNoneListed(g, ys, m + 1, |g|); }
      ZeroRows(|ys|, w) + (mid + g[m + 1..]);
    }
    assert |ZeroRows(|ys|, w) + mid| == m + 1;
    forall i | 0 <= i < |ys|
      ensures r[i] == ZeroRow(w)
    {
      assert r[i] == ZeroRows(|ys|, w)[i];
    }
    forall i | m < i < |g|
      ensures r[i] == g[i]
    {
      assert r[i] == g[m + 1..][i - (m + 1)];
    }
  }
}
