/** The scoring of `Place._calcNormalScore`: each cleared row is worth a base
    amount, raised by a fixed step for every row directly before it in the
    same run of consecutive indices. Points are exact integers: the k-th row
    (from 0) of a run is worth 100 + 20 * k. */
module Scoring {

  /** Points for a row that starts a run (`1 * 100 * 1`). */
  const RowBase: nat := 100

  /** Extra points per earlier row of the same run (`100 * 0.2`). */
  const StreakStep: nat := 20

  /** The loop's test `ys[p] + 1 === ys[p + 1]`; past the end the right side
      is `undefined`, so the test fails. */
  predicate Joined(ys: seq<int>, k: nat)
    requires k < |ys|
  {
    k + 1 < |ys| && ys[k] + 1 == ys[k + 1]
  }

  /** How many rows directly before row `k` belong to its run. */
  function Streak(ys: seq<int>, k: nat): nat
    requires k < |ys|
  {
    if k == 0 then 0
    else if Joined(ys, k - 1) then Streak(ys, k - 1) + 1
    else 0
  }

  /** Points of the first `n` listed rows, row by row. */
  function RowPointsUpTo(ys: seq<int>, n: nat): int
    requires n <= |ys|
  {
    if n == 0 then 0
    else RowPointsUpTo(ys, n - 1) + RowBase + StreakStep * Streak(ys, n - 1)
  }

  function RowPoints(ys: seq<int>): int {
    RowPointsUpTo(ys, |ys|)
  }

  /** Lengths of the runs closed among the first `n` rows, in order. */
  function RunsUpTo(ys: seq<int>, n: nat): seq<nat>
    requires n <= |ys|
  {
    if n == 0 then []
    else RunsUpTo(ys, n - 1) + (if Joined(ys, n - 1) then [] else [Streak(ys, n - 1) + 1])
  }

  /** The maximal runs of consecutive indices, as lengths. */
  function Runs(ys: seq<int>): seq<nat> {
    RunsUpTo(ys, |ys|)
  }

  /** Closed form for the points of one run of `len` rows. */
  function RunScore(len: nat): nat {
    RowBase * len + (StreakStep / 2) * len * (len - 1)
  }

  function SumRunScores(rs: seq<nat>): nat {
    if |rs| == 0 then 0 else SumRunScores(rs[..|rs| - 1]) + RunScore(rs[|rs| - 1])
  }

  function Sum(rs: seq<nat>): nat {
    if |rs| == 0 then 0 else Sum(rs[..|rs| - 1]) + rs[|rs| - 1]
  }

  /** `Math.max(...rs)` for a non-empty list; 0 for the empty one. */
  function Longest(rs: seq<nat>): (r: nat)
    ensures forall k :: 0 <= k < |rs| ==> rs[k] <= r
    ensures |rs| > 0 ==> r in rs
  {
    if |rs| == 0 then 0
    else if Longest(rs[..|rs| - 1]) < rs[|rs| - 1] then rs[|rs| - 1]
    else Longest(rs[..|rs| - 1])
  }

  datatype ScoreInfo = ScoreInfo(score: int, lineCount: int)

  /** What `_calcNormalScore` returns: nothing for an empty list; otherwise the
      points of every row and the length of the longest run. */
  function NormalScore(ys: seq<int>): ScoreInfo {
    if |ys| == 0 then ScoreInfo(0, 0) else ScoreInfo(RowPoints(ys), Longest(Runs(ys)))
  }

  /** One more row in a run adds the base plus one step per earlier row. */
  lemma RunScoreStep(len: nat)
    ensures RunScore(len + 1) == RunScore(len) + RowBase + StreakStep * len
  {
    assert (len + 1) * len - len * (len - 1) == 2 * len;
    calc {
      RunScore(len + 1);
      RowBase * (len + 1) + 10 * ((len + 1) * len);
      RowBase * len + RowBase + 10 * (len * (len - 1) + 2 * len);
      RowBase * len + 10 * (len * (len - 1)) + RowBase + StreakStep * len;
      { assert 10 * len * (len - 1) == 10 * (len * (len - 1)); }
      RunScore(len) + RowBase + StreakStep * len;
    }
  }

  lemma SumRunScoresSnoc(rs: seq<nat>, r: nat)
    ensures SumRunScores(rs + [r]) == SumRunScores(rs) + RunScore(r)
  {
    assert (rs + [r])[..|rs|] == rs;
  }

  lemma SumSnoc(rs: seq<nat>, r: nat)
    ensures Sum(rs + [r]) == Sum(rs) + r
  {
    assert (rs + [r])[..|rs|] == rs;
  }

  /** Points of the run still open after `n` rows (0 when none is open). */
  function OpenRun(ys: seq<int>, n: nat): nat
    requires n <= |ys|
  {
    if n > 0 && Joined(ys, n - 1) then Streak(ys, n - 1) + 1 else 0
  }

  /** After a row that ends its run, the next row starts a new one. */
  lemma StreakAfter(ys: seq<int>, n: nat)
    requires n < |ys|
    ensures Streak(ys, n) == OpenRun(ys, n)
  {
  }

  lemma {:induction false} RowPointsUpToByRuns(ys: seq<int>, n: nat)
    requires n <= |ys|
    ensures RowPointsUpTo(ys, n) == SumRunScores(RunsUpTo(ys, n)) + RunScore(OpenRun(ys, n))
    ensures Sum(RunsUpTo(ys, n)) + OpenRun(ys, n) == n
  {
    if n > 0 {
      var s := Streak(ys, n - 1);
      RowPointsUpToByRuns(ys, n - 1);
      StreakAfter(ys, n - 1);
      RunScoreStep(s);
      if !Joined(ys, n - 1) {
        SumRunScoresSnoc(RunsUpTo(ys, n - 1), s + 1);
        SumSnoc(RunsUpTo(ys, n - 1), s + 1);
        assert RunsUpTo(ys, n) == RunsUpTo(ys, n - 1) + [s + 1];
      } else {
        assert RunsUpTo(ys, n) == RunsUpTo(ys, n - 1);
      }
    }
  }

  /** The last listed row always closes its run. */
  lemma LastRowClosesRun(ys: seq<int>)
    requires |ys| > 0
    ensures OpenRun(ys, |ys|) == 0
    ensures |Runs(ys)| > 0
  {
  }

  lemma {:induction false} RunsArePositive(ys: seq<int>, n: nat)
    requires n <= |ys|
    ensures forall k :: 0 <= k < |RunsUpTo(ys, n)| ==> RunsUpTo(ys, n)[k] >= 1
  {
    if n > 0 {
      RunsArePositive(ys, n - 1);
    }
  }

  /** A longest run of a list of positive lengths is at least 1 and at most
      their total. */
  lemma {:induction false} SumBounds(rs: seq<nat>)
    requires |rs| > 0 && forall k :: 0 <= k < |rs| ==> rs[k] >= 1
    ensures 1 <= Longest(rs) <= Sum(rs)
  {
    if |rs| > 1 {
      SumBounds(rs[..|rs| - 1]);
    }
  }

  /** The row-by-row points equal the sum over maximal runs of
      100 * len + 10 * len * (len - 1), and the runs together cover every row
      exactly once. */
  lemma RowPointsByRuns(ys: seq<int>)
    ensures RowPoints(ys) == SumRunScores(Runs(ys))
    ensures Sum(Runs(ys)) == |ys|
    ensures forall k :: 0 <= k < |Runs(ys)| ==> Runs(ys)[k] >= 1
  {
    RowPointsUpToByRuns(ys, |ys|);
    RunsArePositive(ys, |ys|);
    if |ys| > 0 {
      LastRowClosesRun(ys);
    }
  }

  lemma {:induction false} StreakOfConsecutive(ys: seq<int>, k: nat)
    requires forall i :: 0 <= i < |ys| - 1 ==> ys[i] + 1 == ys[i + 1]
    requires k < |ys|
    ensures Streak(ys, k) == k
  {
    if k > 0 {
      StreakOfConsecutive(ys, k - 1);
    }
  }

  lemma {:induction false} RunsOfConsecutive(ys: seq<int>, n: nat)
    requires forall i :: 0 <= i < |ys| - 1 ==> ys[i] + 1 == ys[i + 1]
    requires n < |ys|
    ensures RunsUpTo(ys, n) == []
  {
    if n > 0 {
      RunsOfConsecutive(ys, n - 1);
    }
  }

  /** A list of consecutive indices is one run: it scores the closed form for
      its length and its longest run is the whole list. */
  lemma SingleRun(ys: seq<int>)
    requires |ys| > 0
    requires forall i :: 0 <= i < |ys| - 1 ==> ys[i] + 1 == ys[i + 1]
    ensures Runs(ys) == [|ys|]
    ensures NormalScore(ys) == ScoreInfo(RunScore(|ys|), |ys|)
  {
    RunsOfConsecutive(ys, |ys| - 1);
    StreakOfConsecutive(ys, |ys| - 1);
    assert Runs(ys) == [|ys|];
    RowPointsByRuns(ys);
    assert SumRunScores([|ys|]) == RunScore(|ys|) by {
      assert [|ys|][..0] == [];
    }
  }

  lemma {:induction false} RowPointsUpToBounds(ys: seq<int>, n: nat)
    requires n <= |ys|
    ensures RowPointsUpTo(ys, n) >= RowBase * n
    ensures RowPointsUpTo(ys, n) == RowBase * n <==> forall k :: 0 <= k < n - 1 ==> !Joined(ys, k)
  {
    if n > 0 {
      RowPointsUpToBounds(ys, n - 1);
      if n >= 2 && Joined(ys, n - 2) {
        assert Streak(ys, n - 1) > 0;
      }
    }
  }

  /** Every row is worth at least the base; the total is exactly the base per
      row precisely when no two listed rows are consecutive. */
  lemma StreakBonus(ys: seq<int>)
    ensures RowPoints(ys) >= RowBase * |ys|
    ensures RowPoints(ys) == RowBase * |ys| <==> forall k :: 0 <= k < |ys| - 1 ==> ys[k] + 1 != ys[k + 1]
  {
    RowPointsUpToBounds(ys, |ys|);
    assert forall k :: 0 <= k < |ys| - 1 ==> (Joined(ys, k) <==> ys[k] + 1 == ys[k + 1]);
  }

  /** The loop of `_calcNormalScore`: `bonus` is `100 * streakMultiplier`,
      `temp` the length of the current run, `runs` the `lineCount` list of
      closed runs. */
  method CalcNormalScore(ys: seq<int>) returns (score: int, lineCount: int)
    ensures |ys| == 0 ==> score == 0 && lineCount == 0
    ensures |ys| > 0 ==> score == SumRunScores(Runs(ys)) && lineCount == Longest(Runs(ys))
    ensures score == RowPoints(ys) && score >= RowBase * |ys|
  {
    if |ys| == 0 {
      return 0, 0;
    }
    score := 0;
    var pointer := 0;
    var bonus := RowBase;
    var runs: seq<nat> := [];
    var temp: nat := 1;
    while pointer < |ys|
      invariant 0 <= pointer <= |ys|
      invariant score == RowPointsUpTo(ys, pointer)
      invariant pointer < |ys| ==> temp == Streak(ys, pointer) + 1
      invariant temp >= 1 && bonus == RowBase + StreakStep * (temp - 1)
      invariant runs == RunsUpTo(ys, pointer)
      decreases |ys| - pointer
    {
      score := score + bonus;
      if pointer + 1 < |ys| && ys[pointer] + 1 == ys[pointer + 1] {
        pointer := pointer + 1;
        bonus := bonus + StreakStep;
        temp := temp + 1;
        continue;
      }
      runs := runs + [temp];
      temp := 1;
      bonus := RowBase;
      pointer := pointer + 1;
    }
    lineCount := Longest(runs);
    RowPointsByRuns(ys);
    StreakBonus(ys);
  }
}
