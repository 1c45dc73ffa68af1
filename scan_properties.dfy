/** Properties of the commands a row scan and an image scan produce. */
module ScanProperties {
  import opened Pixels
  import opened Coordinates
  import opened Runs
  import opened Commands

  /** The E values of two blocks of commands in a row are those of each block in turn. */
  lemma {:induction false} ExtrudeValuesAppend(a: seq<Command>, b: seq<Command>)
    ensures ExtrudeValues(a + b) == ExtrudeValues(a) + ExtrudeValues(b)
    decreases |a|
  {
    if a == [] {
      assert a + b == b;
    } else {
      assert (a + b)[0] == a[0];
      assert (a + b)[1..] == a[1..] + b;
      ExtrudeValuesAppend(a[1..], b);
    }
  }

  /** Travel counts add up over two blocks of commands. */
  lemma {:induction false} TravelsAppend(a: seq<Command>, b: seq<Command>)
    ensures Travels(a + b) == Travels(a) + Travels(b)
    decreases |a|
  {
    if a == [] {
      assert a + b == b;
    } else {
      assert (a + b)[0] == a[0];
      assert (a + b)[1..] == a[1..] + b;
      TravelsAppend(a[1..], b);
    }
  }

  /** Cut counts add up over two blocks of commands. */
  lemma {:induction false} CutsAppend(a: seq<Command>, b: seq<Command>)
    ensures Cuts(a + b) == Cuts(a) + Cuts(b)
    decreases |a|
  {
    if a == [] {
      assert a + b == b;
    } else {
      assert (a + b)[0] == a[0];
      assert (a + b)[1..] == a[1..] + b;
      CutsAppend(a[1..], b);
    }
  }

  /** Two strictly increasing blocks, the second entirely above the first, chain
      into one strictly increasing sequence. */
  lemma Chain(s: seq<int>, a: seq<int>, b: seq<int>, lo: int, mid: int, hi: int)
    requires s == a + b && lo <= mid <= hi
    requires StrictlyIncreasing(a) && Within(a, lo, mid)
    requires StrictlyIncreasing(b) && Within(b, mid, hi)
    ensures StrictlyIncreasing(s) && Within(s, lo, hi)
  {
    forall i | 0 <= i < |s| ensures lo < s[i] <= hi {
      if i < |a| {
        assert s[i] == a[i];
      } else {
        assert s[i] == b[i - |a|];
      }
    }
    forall i, j | 0 <= i < j < |s| ensures s[i] < s[j] {
      if j < |a| {
        assert s[i] == a[i] && s[j] == a[j];
      } else if i < |a| {
        assert s[i] == a[i] && s[j] == b[j - |a|];
      } else {
        assert s[i] == b[i - |a|] && s[j] == b[j - |a|];
      }
    }
  }

  /** `Chain` for the E values of two blocks of commands. */
  lemma ChainCommands(a: seq<Command>, b: seq<Command>, lo: int, mid: int, hi: int)
    requires lo <= mid <= hi
    requires StrictlyIncreasing(ExtrudeValues(a)) && Within(ExtrudeValues(a), lo, mid)
    requires StrictlyIncreasing(ExtrudeValues(b)) && Within(ExtrudeValues(b), mid, hi)
    ensures StrictlyIncreasing(ExtrudeValues(a + b)) && Within(ExtrudeValues(a + b), lo, hi)
  {
    ExtrudeValuesAppend(a, b);
    Chain(ExtrudeValues(a + b), ExtrudeValues(a), ExtrudeValues(b), lo, mid, hi);
  }

  /** The same, for a program already known to split into the two parts; `top` is
      `hi` as the caller writes the upper bound of the whole program, so that the
      conclusion matches the caller's goal term for term. */
  lemma ChainSplit(cmds: seq<Command>, a: seq<Command>, b: seq<Command>, lo: int, mid: int, hi: int, top: int)
    requires cmds == a + b && lo <= mid <= hi && hi == top
    requires StrictlyIncreasing(ExtrudeValues(a)) && Within(ExtrudeValues(a), lo, mid)
    requires StrictlyIncreasing(ExtrudeValues(b)) && Within(ExtrudeValues(b), mid, hi)
    ensures StrictlyIncreasing(ExtrudeValues(cmds)) && Within(ExtrudeValues(cmds), lo, top)
  {
    ChainCommands(a, b, lo, mid, hi);
  }

  /** Two commands per run. */
  lemma {:induction false} EmitRunsLength(runs: seq<Run>, row: nat, extrude: int, frame: Frame)
    ensures |EmitRuns(runs, row, extrude, frame)| == 2 * |runs|
    decreases |runs|
  {
    if runs != [] {
      EmitRunsLength(runs[..|runs| - 1], row, extrude, frame);
    }
  }

  /** The two commands of run k: a travel to its first column, then a cut to its
      last column carrying the lengths of runs 0..k. */
  lemma {:induction false} EmitRunsPair(runs: seq<Run>, row: nat, extrude: int, frame: Frame, k: nat)
    requires k < |runs|
    ensures var cmds := EmitRuns(runs, row, extrude, frame);
      |cmds| == 2 * |runs| &&
      cmds[2 * k] == TravelTo(frame, runs[k].start, row) &&
      cmds[2 * k + 1] == CutTo(frame, runs[k].end, row, extrude + TotalLength(runs[..k + 1]))
    decreases |runs|
  {
    var n := |runs|;
    var front := runs[..n - 1];
    EmitRunsLength(runs, row, extrude, frame);
    EmitRunsLength(front, row, extrude, frame);
    if k < n - 1 {
      EmitRunsPair(front, row, extrude, frame, k);
      assert runs[k] == front[k];
      assert front[..k + 1] == runs[..k + 1];
    } else {
      assert runs[..k + 1] == runs;
    }
  }

  /** Position by position: command 2k travels to the first column of run k and
      command 2k+1 cuts to its last column, carrying the lengths of runs 0..k. */
  lemma EmitRunsAt(runs: seq<Run>, row: nat, extrude: int, frame: Frame)
    ensures var cmds := EmitRuns(runs, row, extrude, frame);
      |cmds| == 2 * |runs| &&
      forall k :: 0 <= k < |runs| ==>
        cmds[2 * k] == TravelTo(frame, runs[k].start, row) &&
        cmds[2 * k + 1] == CutTo(frame, runs[k].end, row, extrude + TotalLength(runs[..k + 1]))
  {
    EmitRunsLength(runs, row, extrude, frame);
    forall k | 0 <= k < |runs|
      ensures EmitRuns(runs, row, extrude, frame)[2 * k] == TravelTo(frame, runs[k].start, row)
      ensures EmitRuns(runs, row, extrude, frame)[2 * k + 1] ==
        CutTo(frame, runs[k].end, row, extrude + TotalLength(runs[..k + 1]))
    {
      EmitRunsPair(runs, row, extrude, frame, k);
    }
  }

  /** The E values and the command counts of one travel/cut pair. */
  lemma PairValues(t: Command, c: Command)
    requires t.Travel? && c.Cut?
    ensures ExtrudeValues([t, c]) == [c.e]
    ensures Travels([t, c]) == 1 && Cuts([t, c]) == 1
  {
    assert [t, c][1..] == [c];
    assert [c][1..] == [];
    assert ExtrudeValues([c]) == [c.e];
    assert Travels([c]) == 0 && Cuts([c]) == 1;
  }

  /** The travels and cuts of a row scan alternate, starting with a travel. */
  lemma EmitRunsAlternate(runs: seq<Run>, row: nat, extrude: int, frame: Frame)
    ensures var cmds := EmitRuns(runs, row, extrude, frame);
      forall j :: 0 <= j < |cmds| ==> (cmds[j].Travel? <==> j % 2 == 0) && (cmds[j].Cut? <==> j % 2 == 1)
  {
    var cmds := EmitRuns(runs, row, extrude, frame);
    EmitRunsAt(runs, row, extrude, frame);
    forall j | 0 <= j < |cmds|
      ensures (cmds[j].Travel? <==> j % 2 == 0) && (cmds[j].Cut? <==> j % 2 == 1)
    {
      var k := j / 2;
      assert j == 2 * k || j == 2 * k + 1;
      assert k < |runs|;
    }
  }

  /** A row scan emits as many travels, and as many cuts, as there are runs. */
  lemma {:induction false} EmitRunsCounts(runs: seq<Run>, row: nat, extrude: int, frame: Frame)
    ensures var cmds := EmitRuns(runs, row, extrude, frame);
      Travels(cmds) == |runs| && Cuts(cmds) == |runs|
    decreases |runs|
  {
    if runs != [] {
      var n := |runs|;
      var front := EmitRuns(runs[..n - 1], row, extrude, frame);
      var last := runs[n - 1];
      var pair := [TravelTo(frame, last.start, row), CutTo(frame, last.end, row, extrude + TotalLength(runs))];
      EmitRunsCounts(runs[..n - 1], row, extrude, frame);
      TravelsAppend(front, pair);
      CutsAppend(front, pair);
      PairValues(pair[0], pair[1]);
    }
  }

  /** Over non-empty runs, the E values of the cuts rise strictly, one per run,
      all above the starting amount, the last equal to it plus the total length. */
  lemma {:induction false} EmitRunsExtrude(runs: seq<Run>, row: nat, extrude: int, frame: Frame)
    requires NonEmptyRuns(runs)
    ensures var values := ExtrudeValues(EmitRuns(runs, row, extrude, frame));
      |values| == |runs| &&
      StrictlyIncreasing(values) &&
      Within(values, extrude, extrude + TotalLength(runs)) &&
      (|values| > 0 ==> values[|values| - 1] == extrude + TotalLength(runs))
    ensures TotalLength(runs) >= |runs|
    decreases |runs|
  {
    if runs != [] {
      var n := |runs|;
      var front := runs[..n - 1];
      var last := runs[n - 1];
      var total := TotalLength(runs);
      var pair := [TravelTo(frame, last.start, row), CutTo(frame, last.end, row, extrude + total)];
      var before := ExtrudeValues(EmitRuns(front, row, extrude, frame));
      assert EmitRuns(runs, row, extrude, frame) == EmitRuns(front, row, extrude, frame) + pair;
      ExtrudeValuesAppend(EmitRuns(front, row, extrude, frame), pair);
      PairValues(pair[0], pair[1]);
      assert ExtrudeValues(EmitRuns(runs, row, extrude, frame)) == before + [extrude + total];
      EmitRunsExtrude(front, row, extrude, frame);
      Chain(ExtrudeValues(EmitRuns(runs, row, extrude, frame)), before, [extrude + total],
            extrude, extrude + TotalLength(front), extrude + total);
    }
  }

  /** The discovered runs are non-empty and together hold the row's cut cells. */
  lemma RunsOfWellFormed(row: seq<Pixel>)
    ensures NonEmptyRuns(RunsOf(row))
    ensures TotalLength(RunsOf(row)) == CutCount(row)
  {
    var runs := RunsOf(row);
    RunsOfMaximal(row);
    TotalLengthIsCutCount(row);
    forall i | 0 <= i < |runs| ensures runs[i].start <= runs[i].end {
      assert IsRunOf(row, runs[i]);
    }
  }

  /** A row scan alternates travel, cut, travel, cut, ..., starting with a travel,
      and emits one travel and one cut per maximal run of cut cells. */
  lemma RowAlternates(row: seq<Pixel>, r: nat, extrude: int, frame: Frame)
    ensures var cmds := RowCommands(row, r, extrude, frame);
      |cmds| == 2 * |RunsOf(row)| &&
      Travels(cmds) == |RunsOf(row)| && Cuts(cmds) == |RunsOf(row)| &&
      forall j :: 0 <= j < |cmds| ==> (cmds[j].Travel? <==> j % 2 == 0) && (cmds[j].Cut? <==> j % 2 == 1)
  {
    EmitRunsAt(RunsOf(row), r, extrude, frame);
    EmitRunsAlternate(RunsOf(row), r, extrude, frame);
    EmitRunsCounts(RunsOf(row), r, extrude, frame);
  }

  /** The travel of the k-th run goes to its first column and its cut to its last
      column, each a maximal run of cut cells; the cut carries the accumulator
      after the lengths of runs 0..k are added. */
  lemma RowRunEndpoints(row: seq<Pixel>, r: nat, extrude: int, frame: Frame, k: nat)
    requires k < |RunsOf(row)|
    ensures var cmds := RowCommands(row, r, extrude, frame); var run := RunsOf(row)[k];
      |cmds| == 2 * |RunsOf(row)| && IsRunOf(row, run) &&
      cmds[2 * k] == TravelTo(frame, run.start, r) &&
      cmds[2 * k + 1] == CutTo(frame, run.end, r, extrude + TotalLength(RunsOf(row)[..k + 1]))
  {
    EmitRunsPair(RunsOf(row), r, extrude, frame, k);
    RunsOfElement(row, k);
  }

  /** The E values of a row's cuts rise strictly, stay above the amount before the
      row, and end at that amount plus the number of cut cells of the row. */
  lemma RowExtrude(row: seq<Pixel>, r: nat, extrude: int, frame: Frame)
    ensures var values := ExtrudeValues(RowCommands(row, r, extrude, frame));
      StrictlyIncreasing(values) &&
      Within(values, extrude, extrude + CutCount(row)) &&
      (|values| > 0 ==> values[|values| - 1] == extrude + CutCount(row))
  {
    RunsOfWellFormed(row);
    EmitRunsExtrude(RunsOf(row), r, extrude, frame);
  }

  /** A row emits nothing exactly when none of its cells is cut. */
  lemma EmptyRowEmitsNothing(row: seq<Pixel>, r: nat, extrude: int, frame: Frame)
    ensures RowCommands(row, r, extrude, frame) == [] <==> CutCount(row) == 0
  {
    RunsOfWellFormed(row);
    EmitRunsExtrude(RunsOf(row), r, extrude, frame);
    EmitRunsAt(RunsOf(row), r, extrude, frame);
  }

  /** The commands for a single run. */
  lemma SingleRunCommands(run: Run, row: nat, extrude: int, frame: Frame)
    ensures EmitRuns([run], row, extrude, frame) ==
      [TravelTo(frame, run.start, row), CutTo(frame, run.end, row, extrude + run.Length())]
  {
    assert [run][..0] == [];
    assert TotalLength([run]) == TotalLength([]) + run.Length();
    assert EmitRuns([run][..0], row, extrude, frame) == [];
  }

  /** A row all of whose w > 0 cells are cut is one run: a travel to column 0 and a
      cut to column w-1 carrying the previous amount plus w. */
  lemma FullRow(row: seq<Pixel>, r: nat, extrude: int, frame: Frame)
    requires |row| > 0
    requires forall c :: 0 <= c < |row| ==> IsCut(row[c])
    ensures RowCommands(row, r, extrude, frame) ==
      [TravelTo(frame, 0, r), CutTo(frame, |row| - 1, r, extrude + |row|)]
  {
    AllCutOneRun(row);
    var whole := RunsOf(row)[0];
    assert RunsOf(row) == [whole];
    SingleRunCommands(whole, r, extrude, frame);
  }

  /** The last command for a non-empty sequence of runs is the cut closing the last run. */
  lemma EmitRunsLast(runs: seq<Run>, row: nat, extrude: int, frame: Frame)
    requires |runs| > 0
    ensures var cmds := EmitRuns(runs, row, extrude, frame);
      |cmds| >= 2 && cmds[|cmds| - 1] == CutTo(frame, runs[|runs| - 1].end, row, extrude + TotalLength(runs))
  {
  }

  /** A run that reaches the last column is still closed: the row's final command
      is a cut to the last column carrying the row's whole total. */
  lemma LastColumnFlushed(row: seq<Pixel>, r: nat, extrude: int, frame: Frame)
    requires |row| > 0 && IsCut(row[|row| - 1])
    ensures var cmds := RowCommands(row, r, extrude, frame);
      |cmds| >= 2 && cmds[|cmds| - 1] == CutTo(frame, |row| - 1, r, extrude + CutCount(row))
  {
    RunsOfTouchesEnd(row);
    TotalLengthIsCutCount(row);
    EmitRunsLast(RunsOf(row), r, extrude, frame);
  }

  /** A row scan emits only travels and cuts. */
  lemma RowNoLayer(row: seq<Pixel>, r: nat, extrude: int, frame: Frame)
    ensures NoLayer(RowCommands(row, r, extrude, frame))
  {
    var cmds := RowCommands(row, r, extrude, frame);
    RowAlternates(row, r, extrude, frame);
    forall j | 0 <= j < |cmds| ensures !cmds[j].Layer? {
      assert cmds[j].Travel? <==> j % 2 == 0;
    }
  }

  /** An image scan is its rows' scans in row order, the accumulator threading through. */
  lemma ImageCommandsSnoc(rows: seq<seq<Pixel>>, extrude: int, frame: Frame)
    requires rows != []
    ensures ImageCommands(rows, extrude, frame) ==
      ImageCommands(rows[..|rows| - 1], extrude, frame) +
      RowCommands(rows[|rows| - 1], |rows| - 1, extrude + CutTotal(rows[..|rows| - 1]), frame)
    ensures CutTotal(rows) == CutTotal(rows[..|rows| - 1]) + CutCount(rows[|rows| - 1])
  {
  }

  /** An image scan emits one travel and one cut per run, over all its rows. */
  lemma {:induction false} ImageCounts(rows: seq<seq<Pixel>>, extrude: int, frame: Frame)
    ensures var cmds := ImageCommands(rows, extrude, frame);
      |cmds| == 2 * RunCount(rows) && Travels(cmds) == RunCount(rows) && Cuts(cmds) == RunCount(rows)
    decreases |rows|
  {
    if rows != [] {
      var front := rows[..|rows| - 1];
      var last := rows[|rows| - 1];
      var before := ImageCommands(front, extrude, frame);
      var after := RowCommands(last, |rows| - 1, extrude + CutTotal(front), frame);
      assert ImageCommands(rows, extrude, frame) == before + after;
      TravelsAppend(before, after);
      CutsAppend(before, after);
      EmitRunsLength(RunsOf(last), |rows| - 1, extrude + CutTotal(front), frame);
      EmitRunsCounts(RunsOf(last), |rows| - 1, extrude + CutTotal(front), frame);
      ImageCounts(front, extrude, frame);
    }
  }

  /** An image scan never emits a layer command: the only one is the header. */
  lemma {:induction false} ImageNoLayer(rows: seq<seq<Pixel>>, extrude: int, frame: Frame)
    ensures NoLayer(ImageCommands(rows, extrude, frame))
    decreases |rows|
  {
    if rows != [] {
      var front := rows[..|rows| - 1];
      ImageCommandsSnoc(rows, extrude, frame);
      ImageNoLayer(front, extrude, frame);
      RowNoLayer(rows[|rows| - 1], |rows| - 1, extrude + CutTotal(front), frame);
      NoLayerAppend(ImageCommands(front, extrude, frame),
                    RowCommands(rows[|rows| - 1], |rows| - 1, extrude + CutTotal(front), frame));
    }
  }

  lemma NoLayerAppend(a: seq<Command>, b: seq<Command>)
    requires NoLayer(a) && NoLayer(b)
    ensures NoLayer(a + b)
  {
    forall j | 0 <= j < |a + b| ensures !(a + b)[j].Layer? {
      if j < |a| {
        assert (a + b)[j] == a[j];
      } else {
        assert (a + b)[j] == b[j - |a|];
      }
    }
  }

  /** The rows' commands carry E values that rise strictly across the whole image,
      above the amount before it and up to that amount plus its cut cells. */
  lemma {:induction false} ImageExtrude(rows: seq<seq<Pixel>>, extrude: int, frame: Frame)
    ensures var values := ExtrudeValues(ImageCommands(rows, extrude, frame));
      StrictlyIncreasing(values) && Within(values, extrude, extrude + CutTotal(rows))
    decreases |rows|
  {
    if rows != [] {
      var front := rows[..|rows| - 1];
      var last := rows[|rows| - 1];
      var mid := extrude + CutTotal(front);
      var before := ImageCommands(front, extrude, frame);
      var after := RowCommands(last, |rows| - 1, mid, frame);
      ImageCommandsSnoc(rows, extrude, frame);
      assert ImageCommands(rows, extrude, frame) == before + after;
      assert mid + CutCount(last) == extrude + CutTotal(rows);
      ImageExtrude(front, extrude, frame);
      RowExtrude(last, |rows| - 1, mid, frame);
      ChainSplit(ImageCommands(rows, extrude, frame), before, after, extrude, mid,
                 mid + CutCount(last), extrude + CutTotal(rows));
    }
  }

  /** One layer's program: a single header at `z`, then the image's commands, whose
      cut E values rise strictly from above `extrude` to at most `extrude` plus the
      image's cut cells. */
  lemma LayerProgram(z: real, rows: seq<seq<Pixel>>, extrude: int, frame: Frame, gcode: seq<Command>)
    requires gcode == [Layer(z)] + ImageCommands(rows, extrude, frame)
    ensures gcode[0] == Layer(z) && NoLayer(gcode[1..])
    ensures StrictlyIncreasing(ExtrudeValues(gcode))
    ensures Within(ExtrudeValues(gcode), extrude, extrude + CutTotal(rows))
  {
    var body := ImageCommands(rows, extrude, frame);
    ImageNoLayer(rows, extrude, frame);
    ImageExtrude(rows, extrude, frame);
    assert gcode[1..] == body;
    ExtrudeValuesAppend([Layer(z)], body);
    assert [Layer(z)][1..] == [];
    assert ExtrudeValues([Layer(z)]) == [];
  }

  /** The accumulator is never reset, so the program of a second layer, scanned from
      where the first left off, keeps the E values rising across both layers. */
  lemma SuccessiveLayers(z1: real, rows1: seq<seq<Pixel>>, frame1: Frame, gcode1: seq<Command>,
                         z2: real, rows2: seq<seq<Pixel>>, frame2: Frame, gcode2: seq<Command>,
                         extrude: int)
    requires gcode1 == [Layer(z1)] + ImageCommands(rows1, extrude, frame1)
    requires gcode2 == [Layer(z2)] + ImageCommands(rows2, extrude + CutTotal(rows1), frame2)
    ensures StrictlyIncreasing(ExtrudeValues(gcode1 + gcode2))
    ensures Within(ExtrudeValues(gcode1 + gcode2), extrude, extrude + CutTotal(rows1) + CutTotal(rows2))
  {
    var mid := extrude + CutTotal(rows1);
    LayerProgram(z1, rows1, extrude, frame1, gcode1);
    LayerProgram(z2, rows2, mid, frame2, gcode2);
    ChainCommands(gcode1, gcode2, extrude, mid, mid + CutTotal(rows2));
  }
}
