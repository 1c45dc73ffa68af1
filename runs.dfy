/** Runs: the maximal stretches of cut cells along one row. */
module Runs {
  import opened Pixels

  /** A run covers columns `start` to `end`, both inclusive. */
  datatype Run = Run(start: nat, end: nat)
  {
    function Length(): int
    {
      end - start + 1
    }
  }

  /** Sum of the lengths of a sequence of runs. */
  function TotalLength(runs: seq<Run>): int
  {
    if runs == [] then 0
    else TotalLength(runs[..|runs| - 1]) + runs[|runs| - 1].Length()
  }

  /** Number of runs over all the rows of a grid. */
  function RunCount(rows: seq<seq<Pixel>>): nat
  {
    if rows == [] then 0 else RunCount(rows[..|rows| - 1]) + |RunsOf(rows[|rows| - 1])|
  }

  /** The runs of a row, discovered left to right: a cut cell right after the
      last run extends it, any other cut cell opens a new run of length one. */
  function RunsOf(row: seq<Pixel>): seq<Run>
  {
    if row == [] then []
    else
      var prefix := row[..|row| - 1];
      var runs := RunsOf(prefix);
      if !IsCut(row[|row| - 1]) then runs
      else if |runs| > 0 && runs[|runs| - 1].end + 1 == |prefix| then
        runs[..|runs| - 1] + [Run(runs[|runs| - 1].start, |prefix|)]
      else runs + [Run(|prefix|, |prefix|)]
  }

  /** `run` is a maximal stretch of cut cells of `row`: it lies inside the row,
      all its cells are cut, and the cells just outside it are not (or do not exist). */
  predicate IsRunOf(row: seq<Pixel>, run: Run)
  {
    run.start <= run.end < |row| &&
    (forall c :: run.start <= c <= run.end ==> IsCut(row[c])) &&
    (run.start == 0 || !IsCut(row[run.start - 1])) &&
    (run.end == |row| - 1 || !IsCut(row[run.end + 1]))
  }

  /** Whether column `c` lies in one of `runs`. */
  predicate Covered(runs: seq<Run>, c: int)
  {
    exists i :: 0 <= i < |runs| && runs[i].start <= c <= runs[i].end
  }

  /** Every element of `runs` is a maximal run of `row`. */
  predicate AllRunsOf(row: seq<Pixel>, runs: seq<Run>)
  {
    forall i :: 0 <= i < |runs| ==> IsRunOf(row, runs[i])
  }

  /** The runs are disjoint and listed left to right. */
  predicate Ordered(runs: seq<Run>)
  {
    forall i, j :: 0 <= i < j < |runs| ==> runs[i].end < runs[j].start
  }

  /** Every cut cell of `row` lies in one of `runs`. */
  predicate CoversCuts(row: seq<Pixel>, runs: seq<Run>)
  {
    forall c :: 0 <= c < |row| && IsCut(row[c]) ==> Covered(runs, c)
  }

  /** `runs` lists every maximal run of `row`, once each, left to right. */
  predicate MaximalRuns(row: seq<Pixel>, runs: seq<Run>)
  {
    AllRunsOf(row, runs) && Ordered(runs) && CoversCuts(row, runs)
  }

  /** In a maximal decomposition, the last cell of a non-empty row is cut exactly
      when the last run reaches the end of the row. */
  lemma LastRunTouchesEnd(row: seq<Pixel>, runs: seq<Run>)
    requires MaximalRuns(row, runs)
    requires |row| > 0
    ensures IsCut(row[|row| - 1]) <==> |runs| > 0 && runs[|runs| - 1].end == |row| - 1
  {
    var last := |row| - 1;
    if |runs| > 0 {
      assert IsRunOf(row, runs[|runs| - 1]);
    }
    if IsCut(row[last]) {
      assert Covered(runs, last);
      var i :| 0 <= i < |runs| && runs[i].start <= last <= runs[i].end;
      assert IsRunOf(row, runs[i]);
    }
  }

  /** A run of `prefix` that stops before its last cell is still a run of any extension. */
  lemma RunOfExtension(prefix: seq<Pixel>, x: Pixel, run: Run)
    requires IsRunOf(prefix, run)
    requires run.end + 1 < |prefix| || !IsCut(x)
    ensures IsRunOf(prefix + [x], run)
  {
    var row := prefix + [x];
    assert forall c :: 0 <= c < |prefix| ==> row[c] == prefix[c];
  }

  /** Step of the scan on a cell that is not cut: the runs stay as they were. */
  lemma MaximalAfterGap(prefix: seq<Pixel>, x: Pixel, prev: seq<Run>)
    requires MaximalRuns(prefix, prev)
    requires !IsCut(x)
    ensures MaximalRuns(prefix + [x], prev)
  {
    var row := prefix + [x];
    forall i | 0 <= i < |prev| ensures IsRunOf(row, prev[i]) {
      RunOfExtension(prefix, x, prev[i]);
    }
    forall c | 0 <= c < |row| && IsCut(row[c]) ensures Covered(prev, c) {
      assert c < |prefix| && prefix[c] == row[c];
    }
  }

  /** The grown runs are runs of the extended row. */
  lemma GrowRuns(prefix: seq<Pixel>, x: Pixel, prev: seq<Run>)
    requires AllRunsOf(prefix, prev) && Ordered(prev)
    requires IsCut(x)
    requires |prev| > 0 && prev[|prev| - 1].end + 1 == |prefix|
    ensures AllRunsOf(prefix + [x], prev[..|prev| - 1] + [Run(prev[|prev| - 1].start, |prefix|)])
  {
    var row := prefix + [x];
    var n := |prev|;
    var grown := Run(prev[n - 1].start, |prefix|);
    var runs := prev[..n - 1] + [grown];
    assert IsRunOf(prefix, prev[n - 1]);
    forall i | 0 <= i < |runs| ensures IsRunOf(row, runs[i]) {
      if i < n - 1 {
        assert prev[i].end < prev[n - 1].start;
        RunOfExtension(prefix, x, prev[i]);
      } else {
        assert forall c :: grown.start <= c < |prefix| ==> row[c] == prefix[c];
      }
    }
  }

  /** The grown runs cover every cut cell of the extended row. */
  lemma GrowCovered(prefix: seq<Pixel>, x: Pixel, prev: seq<Run>)
    requires CoversCuts(prefix, prev)
    requires |prev| > 0 && prev[|prev| - 1].start <= prev[|prev| - 1].end
    requires prev[|prev| - 1].end + 1 == |prefix|
    ensures CoversCuts(prefix + [x], prev[..|prev| - 1] + [Run(prev[|prev| - 1].start, |prefix|)])
  {
    var row := prefix + [x];
    var n := |prev|;
    var grown := Run(prev[n - 1].start, |prefix|);
    var runs := prev[..n - 1] + [grown];
    forall c | 0 <= c < |row| && IsCut(row[c]) ensures Covered(runs, c) {
      if c < |prefix| {
        assert prefix[c] == row[c];
        assert Covered(prev, c);
        var i :| 0 <= i < n && prev[i].start <= c <= prev[i].end;
        if i < n - 1 {
          assert runs[i] == prev[i];
        } else {
          assert runs[n - 1] == grown;
        }
      } else {
        assert runs[n - 1] == grown;
      }
    }
  }

  /** Step of the scan on a cut cell right after the last run: that run grows by one. */
  lemma MaximalAfterGrow(prefix: seq<Pixel>, x: Pixel, prev: seq<Run>)
    requires MaximalRuns(prefix, prev)
    requires IsCut(x)
    requires |prev| > 0 && prev[|prev| - 1].end + 1 == |prefix|
    ensures MaximalRuns(prefix + [x], prev[..|prev| - 1] + [Run(prev[|prev| - 1].start, |prefix|)])
  {
    GrowRuns(prefix, x, prev);
    assert IsRunOf(prefix, prev[|prev| - 1]);
    OrderedReplaceLast(prev, Run(prev[|prev| - 1].start, |prefix|));
    GrowCovered(prefix, x, prev);
  }

  /** The runs with a new one-cell run at the end are runs of the extended row,
      still in order. */
  lemma OpenRuns(prefix: seq<Pixel>, x: Pixel, prev: seq<Run>)
    requires MaximalRuns(prefix, prev)
    requires IsCut(x)
    requires !(|prev| > 0 && prev[|prev| - 1].end + 1 == |prefix|)
    ensures AllRunsOf(prefix + [x], prev + [Run(|prefix|, |prefix|)])
    ensures Ordered(prev + [Run(|prefix|, |prefix|)])
  {
    var row := prefix + [x];
    var n := |prev|;
    var newRun := Run(|prefix|, |prefix|);
    var runs := prev + [newRun];
    if |prefix| > 0 {
      LastRunTouchesEnd(prefix, prev);
      assert row[|prefix| - 1] == prefix[|prefix| - 1];
    }
    forall i | 0 <= i < n ensures IsRunOf(row, runs[i]) && runs[i].end < newRun.start {
      assert runs[i] == prev[i];
      RunOfExtension(prefix, x, prev[i]);
    }
  }

  /** The runs with a new one-cell run at the end cover every cut cell of the extended row. */
  lemma OpenCovered(prefix: seq<Pixel>, x: Pixel, prev: seq<Run>)
    requires CoversCuts(prefix, prev)
    ensures CoversCuts(prefix + [x], prev + [Run(|prefix|, |prefix|)])
  {
    var row := prefix + [x];
    var n := |prev|;
    var newRun := Run(|prefix|, |prefix|);
    var runs := prev + [newRun];
    forall c | 0 <= c < |row| && IsCut(row[c]) ensures Covered(runs, c) {
      if c < |prefix| {
        assert prefix[c] == row[c];
        assert Covered(prev, c);
        var i :| 0 <= i < n && prev[i].start <= c <= prev[i].end;
        assert runs[i] == prev[i];
      } else {
        assert runs[n] == newRun;
      }
    }
  }

  /** Step of the scan on a cut cell after a gap (or at column 0): a new run of one cell. */
  lemma MaximalAfterOpen(prefix: seq<Pixel>, x: Pixel, prev: seq<Run>)
    requires MaximalRuns(prefix, prev)
    requires IsCut(x)
    requires !(|prev| > 0 && prev[|prev| - 1].end + 1 == |prefix|)
    ensures MaximalRuns(prefix + [x], prev + [Run(|prefix|, |prefix|)])
  {
    OpenRuns(prefix, x, prev);
    OpenCovered(prefix, x, prev);
  }

  /** The runs discovered left to right are exactly the maximal runs of the row. */
  lemma {:induction false} RunsOfMaximal(row: seq<Pixel>)
    ensures MaximalRuns(row, RunsOf(row))
    decreases |row|
  {
    if row != [] {
      var prefix := row[..|row| - 1];
      var x := row[|row| - 1];
      assert row == prefix + [x];
      var prev := RunsOf(prefix);
      RunsOfMaximal(prefix);
      if !IsCut(x) {
        MaximalAfterGap(prefix, x, prev);
      } else if |prev| > 0 && prev[|prev| - 1].end + 1 == |prefix| {
        MaximalAfterGrow(prefix, x, prev);
      } else {
        MaximalAfterOpen(prefix, x, prev);
      }
    }
  }

  /** Each discovered run is a maximal run of cut cells of the row. */
  lemma RunsOfElement(row: seq<Pixel>, k: nat)
    requires k < |RunsOf(row)|
    ensures IsRunOf(row, RunsOf(row)[k])
  {
    RunsOfMaximal(row);
    assert AllRunsOf(row, RunsOf(row));
  }

  /** Every cut cell of the row lies in one of the discovered runs, and no other cell does. */
  lemma CoveredIffCut(row: seq<Pixel>, c: nat)
    requires c < |row|
    ensures Covered(RunsOf(row), c) <==> IsCut(row[c])
  {
    var runs := RunsOf(row);
    RunsOfMaximal(row);
    if Covered(runs, c) {
      var i :| 0 <= i < |runs| && runs[i].start <= c <= runs[i].end;
      assert IsRunOf(row, runs[i]);
    }
  }

  /** The discovered runs together contain exactly the cut cells of the row. */
  lemma {:induction false} TotalLengthIsCutCount(row: seq<Pixel>)
    ensures TotalLength(RunsOf(row)) == CutCount(row)
    decreases |row|
  {
    if row != [] {
      var prefix := row[..|row| - 1];
      var prev := RunsOf(prefix);
      TotalLengthIsCutCount(prefix);
      if IsCut(row[|row| - 1]) {
        var n := |prev|;
        if n > 0 && prev[n - 1].end + 1 == |prefix| {
          var runs := prev[..n - 1] + [Run(prev[n - 1].start, |prefix|)];
          assert runs[..n - 1] == prev[..n - 1];
        } else {
          assert (prev + [Run(|prefix|, |prefix|)])[..n] == prev;
        }
      }
    }
  }

  /** Converse step for a cell that is not cut: no run of the extended row reaches it. */
  lemma UniqueGap(prefix: seq<Pixel>, x: Pixel, runs: seq<Run>)
    requires MaximalRuns(prefix + [x], runs)
    requires !IsCut(x)
    ensures MaximalRuns(prefix, runs)
  {
    var row := prefix + [x];
    forall i | 0 <= i < |runs| ensures IsRunOf(prefix, runs[i]) {
      assert IsRunOf(row, runs[i]);
      assert IsCut(row[runs[i].end]);
      assert forall c :: 0 <= c < |prefix| ==> row[c] == prefix[c];
    }
    forall c | 0 <= c < |prefix| && IsCut(prefix[c]) ensures Covered(runs, c) {
      assert row[c] == prefix[c];
    }
  }

  /** Converse step when the last run is the single final cell: the other runs are
      the maximal runs of the prefix, and none of them touches its end. */
  lemma UniqueOpen(prefix: seq<Pixel>, x: Pixel, runs: seq<Run>)
    requires MaximalRuns(prefix + [x], runs)
    requires |runs| > 0 && runs[|runs| - 1] == Run(|prefix|, |prefix|)
    ensures MaximalRuns(prefix, runs[..|runs| - 1])
    ensures var front := runs[..|runs| - 1]; !(|front| > 0 && front[|front| - 1].end + 1 == |prefix|)
  {
    var row := prefix + [x];
    var n := |runs|;
    var front := runs[..n - 1];
    assert IsRunOf(row, runs[n - 1]);
    forall i | 0 <= i < n - 1 ensures IsRunOf(prefix, front[i]) && front[i].end + 1 < |prefix| {
      assert front[i] == runs[i];
      assert IsRunOf(row, runs[i]);
      assert runs[i].end < runs[n - 1].start;
      assert IsCut(row[runs[i].end]);
      assert forall c :: 0 <= c < |prefix| ==> row[c] == prefix[c];
    }
    forall c | 0 <= c < |prefix| && IsCut(prefix[c]) ensures Covered(front, c) {
      assert row[c] == prefix[c];
      assert Covered(runs, c);
      var i :| 0 <= i < n && runs[i].start <= c <= runs[i].end;
      assert i < n - 1 && front[i] == runs[i];
    }
  }

  /** Replacing the last run by one with the same start keeps the runs ordered. */
  lemma OrderedReplaceLast(runs: seq<Run>, last: Run)
    requires Ordered(runs)
    requires |runs| > 0 && last.start == runs[|runs| - 1].start
    ensures Ordered(runs[..|runs| - 1] + [last])
  {
    var n := |runs|;
    var front := runs[..n - 1] + [last];
    forall i, j | 0 <= i < j < n ensures front[i].end < front[j].start {
      assert front[i] == runs[i];
      if j < n - 1 {
        assert front[j] == runs[j];
      }
    }
  }

  /** The elements of the cut-back runs are runs of the prefix. */
  lemma UniqueGrowRuns(prefix: seq<Pixel>, x: Pixel, runs: seq<Run>)
    requires AllRunsOf(prefix + [x], runs) && Ordered(runs)
    requires |runs| > 0 && runs[|runs| - 1].start < |prefix| == runs[|runs| - 1].end
    ensures AllRunsOf(prefix, runs[..|runs| - 1] + [Run(runs[|runs| - 1].start, |prefix| - 1)])
  {
    var row := prefix + [x];
    var n := |runs|;
    var shrunk := Run(runs[n - 1].start, |prefix| - 1);
    var front := runs[..n - 1] + [shrunk];
    assert IsRunOf(row, runs[n - 1]);
    assert forall c :: 0 <= c < |prefix| ==> row[c] == prefix[c];
    forall i | 0 <= i < n ensures IsRunOf(prefix, front[i]) {
      if i < n - 1 {
        assert front[i] == runs[i];
        assert IsRunOf(row, runs[i]);
        assert runs[i].end < runs[n - 1].start;
      } else {
        assert front[i] == shrunk;
      }
    }
  }

  /** The cut-back runs still cover every cut cell of the prefix. */
  lemma UniqueGrowCovered(prefix: seq<Pixel>, x: Pixel, runs: seq<Run>)
    requires CoversCuts(prefix + [x], runs)
    requires |runs| > 0 && runs[|runs| - 1].start < |prefix| == runs[|runs| - 1].end
    ensures CoversCuts(prefix, runs[..|runs| - 1] + [Run(runs[|runs| - 1].start, |prefix| - 1)])
  {
    var row := prefix + [x];
    var n := |runs|;
    var shrunk := Run(runs[n - 1].start, |prefix| - 1);
    var front := runs[..n - 1] + [shrunk];
    forall c | 0 <= c < |prefix| && IsCut(prefix[c]) ensures Covered(front, c) {
      assert row[c] == prefix[c];
      assert Covered(runs, c);
      var i :| 0 <= i < n && runs[i].start <= c <= runs[i].end;
      if i < n - 1 {
        assert front[i] == runs[i];
      } else {
        assert front[n - 1] == shrunk;
      }
    }
  }

  /** Converse step when the last run ends at the final cell and starts earlier: the
      same runs, with the last one cut back by one cell, are the maximal runs of the prefix. */
  lemma UniqueGrow(prefix: seq<Pixel>, x: Pixel, runs: seq<Run>)
    requires MaximalRuns(prefix + [x], runs)
    requires |runs| > 0 && runs[|runs| - 1].start < |prefix| == runs[|runs| - 1].end
    ensures MaximalRuns(prefix, runs[..|runs| - 1] + [Run(runs[|runs| - 1].start, |prefix| - 1)])
  {
    UniqueGrowRuns(prefix, x, runs);
    OrderedReplaceLast(runs, Run(runs[|runs| - 1].start, |prefix| - 1));
    UniqueGrowCovered(prefix, x, runs);
  }

  /** The maximal runs of a row are unique: any sequence of runs that lists exactly
      the maximal runs, in order, is the one the left-to-right discovery produces. */
  lemma {:induction false} MaximalRunsUnique(row: seq<Pixel>, runs: seq<Run>)
    requires MaximalRuns(row, runs)
    ensures runs == RunsOf(row)
    decreases |row|, 1
  {
    if row != [] {
      var prefix := row[..|row| - 1];
      var x := row[|row| - 1];
      assert row == prefix + [x];
      if !IsCut(x) {
        SnocGap(prefix, x);
        UniqueGap(prefix, x, runs);
        MaximalRunsUnique(prefix, runs);
      } else {
        LastRunTouchesEnd(row, runs);
        var n := |runs|;
        assert IsRunOf(row, runs[n - 1]);
        if runs[n - 1].start == |prefix| {
          UniqueStepOpen(prefix, x, runs);
        } else {
          UniqueStepGrow(prefix, x, runs);
        }
      }
    }
  }

  /** The discovery step on a cell that is not cut: nothing changes. */
  lemma SnocGap(prefix: seq<Pixel>, x: Pixel)
    requires !IsCut(x)
    ensures RunsOf(prefix + [x]) == RunsOf(prefix)
  {
    assert (prefix + [x])[..|prefix|] == prefix;
  }

  /** The discovery step that opens a new run at the final cell. */
  lemma SnocOpen(prefix: seq<Pixel>, x: Pixel, prev: seq<Run>)
    requires IsCut(x) && prev == RunsOf(prefix)
    requires !(|prev| > 0 && prev[|prev| - 1].end + 1 == |prefix|)
    ensures RunsOf(prefix + [x]) == prev + [Run(|prefix|, |prefix|)]
  {
    assert (prefix + [x])[..|prefix|] == prefix;
  }

  /** The discovery step that extends the last run to the final cell. */
  lemma SnocGrow(prefix: seq<Pixel>, x: Pixel, prev: seq<Run>)
    requires IsCut(x) && prev == RunsOf(prefix)
    requires |prev| > 0 && prev[|prev| - 1].end + 1 == |prefix|
    ensures RunsOf(prefix + [x]) == prev[..|prev| - 1] + [Run(prev[|prev| - 1].start, |prefix|)]
  {
    assert (prefix + [x])[..|prefix|] == prefix;
  }

  /** Uniqueness when the last run is the final cell alone. */
  lemma {:induction false} UniqueStepOpen(prefix: seq<Pixel>, x: Pixel, runs: seq<Run>)
    requires MaximalRuns(prefix + [x], runs) && IsCut(x)
    requires |runs| > 0 && runs[|runs| - 1] == Run(|prefix|, |prefix|)
    ensures runs == RunsOf(prefix + [x])
    decreases |prefix| + 1, 0
  {
    var front := runs[..|runs| - 1];
    UniqueOpen(prefix, x, runs);
    MaximalRunsUnique(prefix, front);
    SnocOpen(prefix, x, front);
    assert runs == front + [Run(|prefix|, |prefix|)];
  }

  /** Uniqueness when the last run reaches the final cell from further left. */
  lemma {:induction false} UniqueStepGrow(prefix: seq<Pixel>, x: Pixel, runs: seq<Run>)
    requires MaximalRuns(prefix + [x], runs) && IsCut(x)
    requires |runs| > 0 && runs[|runs| - 1].start < |prefix| == runs[|runs| - 1].end
    ensures runs == RunsOf(prefix + [x])
    decreases |prefix| + 1, 0
  {
    var n := |runs|;
    var front := runs[..n - 1] + [Run(runs[n - 1].start, |prefix| - 1)];
    UniqueGrow(prefix, x, runs);
    MaximalRunsUnique(prefix, front);
    SnocGrow(prefix, x, front);
    assert front[..n - 1] == runs[..n - 1];
    assert runs == front[..n - 1] + [Run(front[n - 1].start, |prefix|)];
  }

  /** A non-empty row whose cells are all cut is a single run. */
  lemma AllCutOneRun(row: seq<Pixel>)
    requires |row| > 0
    requires forall c :: 0 <= c < |row| ==> IsCut(row[c])
    ensures |RunsOf(row)| == 1 && RunsOf(row)[0].start == 0 && RunsOf(row)[0].end == |row| - 1
  {
    var whole := Run(0, |row| - 1);
    assert IsRunOf(row, whole);
    assert AllRunsOf(row, [whole]);
    forall c | 0 <= c < |row| && IsCut(row[c]) ensures Covered([whole], c) {
      assert [whole][0].start <= c <= [whole][0].end;
    }
    MaximalRunsUnique(row, [whole]);
  }

  /** Both directions together: `runs` is the sequence of maximal runs of `row`
      exactly when it is what the left-to-right discovery yields. */
  lemma MaximalRunsIff(row: seq<Pixel>, runs: seq<Run>)
    ensures MaximalRuns(row, runs) <==> runs == RunsOf(row)
  {
    RunsOfMaximal(row);
    if MaximalRuns(row, runs) {
      MaximalRunsUnique(row, runs);
    }
  }

  /** The discovery ends with an open run exactly when the row's last cell is cut. */
  lemma RunsOfTouchesEnd(row: seq<Pixel>)
    requires |row| > 0
    ensures IsCut(row[|row| - 1]) <==>
      |RunsOf(row)| > 0 && RunsOf(row)[|RunsOf(row)| - 1].end == |row| - 1
  {
    RunsOfMaximal(row);
    LastRunTouchesEnd(row, RunsOf(row));
  }
}
