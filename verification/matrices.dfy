/** Shape matrices: the quarter turn of `Piece._rotate` and the count of
    filled cells it keeps. */
module Matrices {
  import opened Types

  /** A rectangular matrix with at least one row and one column. `_rotate`
      reads the width from row 0, so it needs a first row. */
  predicate IsMatrix(m: Matrix) {
    |m| > 0 && |m[0]| > 0 && forall i :: 0 <= i < |m| ==> |m[i]| == |m[0]|
  }

  /** Every row of `m` has exactly `c` entries (no lower bound on the rows). */
  predicate HasWidth(m: Matrix, c: nat) {
    forall i :: 0 <= i < |m| ==> |m[i]| == c
  }

  /** Column `j` of `m` read bottom-up, for each `j < c`: the C×R result of
      the quarter turn when `m` has `c` columns. */
  function Columns(m: Matrix, c: nat): (r: Matrix)
    requires HasWidth(m, c)
    ensures |r| == c && HasWidth(r, |m|)
  {
    seq(c, j requires 0 <= j < c => seq(|m|, k requires 0 <= k < |m| => m[|m| - 1 - k][j]))
  }

  /** `Piece._rotate`: an R×C matrix becomes a C×R matrix whose cell
      (j, R-1-i) holds the original cell (i, j). */
  function RotateMatrix(m: Matrix): (r: Matrix)
    requires IsMatrix(m)
    ensures IsMatrix(r) && |r| == |m[0]| && |r[0]| == |m|
    ensures forall i, j :: 0 <= i < |m| && 0 <= j < |m[0]| ==> r[j][|m| - 1 - i] == m[i][j]
  {
    Columns(m, |m[0]|)
  }

  /** Number of non-zero entries of a row. */
  function RowCount(row: seq<int>): nat {
    if |row| == 0 then 0 else (if row[0] != 0 then 1 else 0) + RowCount(row[1..])
  }

  /** Number of non-zero entries of a matrix. */
  function FilledCount(m: Matrix): nat {
    if |m| == 0 then 0 else RowCount(m[0]) + FilledCount(m[1..])
  }

  lemma {:induction false} RowCountSnoc(a: seq<int>, v: int)
    ensures RowCount(a + [v]) == RowCount(a) + (if v != 0 then 1 else 0)
    decreases |a|
  {
    if |a| == 0 {
      assert a + [v] == [v];
      assert [v][1..] == [];
    } else {
      assert (a + [v])[1..] == a[1..] + [v];
      RowCountSnoc(a[1..], v);
    }
  }

  /** Appending one entry to every row adds the count of the appended column. */
  lemma {:induction false} FilledCountAppendColumn(a: Matrix, v: seq<int>)
    requires |a| == |v|
    ensures FilledCount(seq(|a|, j requires 0 <= j < |a| => a[j] + [v[j]])) == FilledCount(a) + RowCount(v)
    decreases |a|
  {
    var r := seq(|a|, j requires 0 <= j < |a| => a[j] + [v[j]]);
    if |a| > 0 {
      var r' := seq(|a| - 1, j requires 0 <= j < |a| - 1 => a[1..][j] + [v[1..][j]]);
      assert r[1..] == r';
      RowCountSnoc(a[0], v[0]);
      FilledCountAppendColumn(a[1..], v[1..]);
    }
  }

  lemma {:induction false} FilledCountEmptyRows(c: nat)
    ensures FilledCount(seq<seq<int>>(c, j => [])) == 0
  {
    if c > 0 {
      assert seq<seq<int>>(c, j => [])[1..] == seq<seq<int>>(c - 1, j => []);
      FilledCountEmptyRows(c - 1);
    }
  }

  /** Reading the columns of a matrix finds as many filled cells as reading its rows. */
  lemma {:induction false} ColumnsKeepCount(m: Matrix, c: nat)
    requires HasWidth(m, c)
    ensures FilledCount(Columns(m, c)) == FilledCount(m)
    decreases |m|
  {
    if |m| == 0 {
      assert Columns(m, c) == seq<seq<int>>(c, j => []);
      FilledCountEmptyRows(c);
    } else {
      var rest := Columns(m[1..], c);
      var top := m[0];
      forall j | 0 <= j < c
        ensures Columns(m, c)[j] == rest[j] + [top[j]]
      {
        var col := Columns(m, c)[j];
        assert |col| == |rest[j] + [top[j]]|;
        forall k | 0 <= k < |col|
          ensures col[k] == (rest[j] + [top[j]])[k]
        {
          if k < |m| - 1 {
            assert m[1..][|m| - 2 - k] == m[|m| - 1 - k];
          }
        }
      }
      assert Columns(m, c) == seq(c, j requires 0 <= j < c => rest[j] + [top[j]]);
      FilledCountAppendColumn(rest, top);
      ColumnsKeepCount(m[1..], c);
    }
  }

  /** A quarter turn keeps the number of filled cells. */
  lemma RotateKeepsCount(m: Matrix)
    requires IsMatrix(m)
    ensures FilledCount(RotateMatrix(m)) == FilledCount(m)
  {
    ColumnsKeepCount(m, |m[0]|);
  }

  /** Two quarter turns are a half turn: cell (i, j) comes from (R-1-i, C-1-j). */
  lemma RotateTwice(m: Matrix)
    requires IsMatrix(m)
    ensures var r := RotateMatrix(RotateMatrix(m));
      && IsMatrix(r) && |r| == |m| && |r[0]| == |m[0]|
      && forall i, j :: 0 <= i < |m| && 0 <= j < |m[0]| ==> r[i][j] == m[|m| - 1 - i][|m[0]| - 1 - j]
  {
    var q := RotateMatrix(m);
    var r := RotateMatrix(q);
    forall i, j | 0 <= i < |m| && 0 <= j < |m[0]|
      ensures r[i][j] == m[|m| - 1 - i][|m[0]| - 1 - j]
    {
      assert r[i][|q| - 1 - (|m[0]| - 1 - j)] == q[|m[0]| - 1 - j][i];
      assert q[|m[0]| - 1 - j][|m| - 1 - (|m| - 1 - i)] == m[|m| - 1 - i][|m[0]| - 1 - j];
    }
  }

  /** Four quarter turns give back the original matrix. */
  lemma RotateFourTimes(m: Matrix)
    requires IsMatrix(m)
    ensures RotateMatrix(RotateMatrix(RotateMatrix(RotateMatrix(m)))) == m
  {
    var h := RotateMatrix(RotateMatrix(m));
    RotateTwice(m);
    RotateTwice(h);
    var r := RotateMatrix(RotateMatrix(h));
    forall i | 0 <= i < |m|
      ensures r[i] == m[i]
    {
      forall j | 0 <= j < |m[0]|
        ensures r[i][j] == m[i][j]
      {
        assert r[i][j] == h[|m| - 1 - i][|m[0]| - 1 - j];
      }
    }
  }

  /** A square matrix stays square, of the same size, under a quarter turn. */
  lemma RotateKeepsSquare(m: Matrix)
    requires IsMatrix(m) && |m[0]| == |m|
    ensures |RotateMatrix(m)| == |m| && HasWidth(RotateMatrix(m), |m|)
  {
  }
}
