/** `ImageRaster`: the object that scans a bordered image into motion commands,
    carrying the cumulative extrusion amount from one row, and one call, to the next. */
module Raster {
  import opened Pixels
  import opened Borders
  import opened Coordinates
  import opened Runs
  import opened Commands
  import opened ScanProperties

  class ImageRaster {
    /** Physical size of one pixel (`laser_width`). */
    const laserWidth: real
    /** Thickness of the cut frame, in pixels (`border_size`). */
    const borderSize: nat
    /** Cumulative cut length over every row scanned so far (`extrude`); never reset. */
    var extrude: int
    /** Width and height of the last bordered image (`max_x_pix`, `max_y_pix`). */
    var maxXPix: nat
    var maxYPix: nat

    /** The accumulator starts at zero.  The source sets the pixel dimensions only in
        `process`; here they start at zero. */
    constructor (laserWidth: real, borderSize: nat)
      ensures this.laserWidth == laserWidth && this.borderSize == borderSize
      ensures extrude == 0 && maxXPix == 0 && maxYPix == 0
    {
      this.laserWidth := laserWidth;
      this.borderSize := borderSize;
      extrude := 0;
      maxXPix := 0;
      maxYPix := 0;
    }

    /** The coordinate frame `_to_real` uses: the current pixel dimensions and laser width. */
    function CurrentFrame(): Frame
      reads this`maxXPix, this`maxYPix
    {
      Frame(maxXPix, maxYPix, laserWidth)
    }

    /** `process`: borders the image, records the bordered dimensions for the
        coordinate mapping, and emits one layer header at `height` followed by the
        rows' commands from top to bottom (`LayerProgram` gives the properties of
        such a program). */
    method Process(image: Image, height: real) returns (gcode: seq<Command>)
      requires image.Valid()
      modifies this`extrude, this`maxXPix, this`maxYPix
      ensures maxYPix == image.Height() + 2 * borderSize
      ensures maxXPix == image.width + 2 * borderSize
      ensures gcode == [Layer(height)] + ImageCommands(AddBorders(image, borderSize).rows, old(extrude), CurrentFrame())
      ensures extrude == old(extrude) + CutTotal(AddBorders(image, borderSize).rows)
      ensures extrude == old(extrude) + CutTotal(image.rows) + 2 * borderSize * image.Height() +
                         2 * (borderSize * (image.width + 2 * borderSize))
      ensures gcode[0] == Layer(height) && NoLayer(gcode[1..])
      ensures StrictlyIncreasing(ExtrudeValues(gcode)) && Within(ExtrudeValues(gcode), old(extrude), extrude)
    {
      var bordered := AddBorders(image, borderSize);
      AddBordersCutTotal(image, borderSize);
      maxYPix := |bordered.rows|;
      maxXPix := bordered.width;
      gcode := ProcessRows(bordered.rows, height);
    }

    /** The row loop of `process`: one layer header, then every row of the
        bordered grid in order, top row first. */
    method ProcessRows(rows: seq<seq<Pixel>>, height: real) returns (gcode: seq<Command>)
      requires maxYPix == |rows|
      modifies this`extrude
      ensures gcode == [Layer(height)] + ImageCommands(rows, old(extrude), CurrentFrame())
      ensures extrude == old(extrude) + CutTotal(rows)
      ensures gcode[0] == Layer(height) && NoLayer(gcode[1..])
      ensures StrictlyIncreasing(ExtrudeValues(gcode)) && Within(ExtrudeValues(gcode), old(extrude), extrude)
    {
      ghost var start := extrude;
      gcode := [Layer(height)];
      var y := 0;
      while y < maxYPix
        invariant y <= maxYPix == |rows|
        invariant gcode == [Layer(height)] + ImageCommands(rows[..y], start, CurrentFrame())
        invariant extrude == start + CutTotal(rows[..y])
      {
        var rowCode := ProcessColumn(rows[y], y);
        AppendRow(height, rows, y, start, CurrentFrame(), gcode, rowCode);
        gcode := gcode + rowCode;
        y := y + 1;
      }
      assert rows[..y] == rows;
      LayerProgram(height, rows, start, CurrentFrame(), gcode);
    }

    /** `_process_column`: scans one row (`column`, of any length) left to right,
        opening a run with a travel on its first cut cell and closing it with a cut
        on its last, flushing a run that is still open at the end of the row.
        Only the accumulator changes, by the row's number of cut cells. */
    method ProcessColumn(column: seq<Pixel>, currentRow: nat) returns (gcode: seq<Command>)
      modifies this`extrude
      ensures gcode == RowCommands(column, currentRow, old(extrude), CurrentFrame())
      ensures extrude == old(extrude) + CutCount(column)
    {
      ghost var start := extrude;
      // The runs of the cells scanned so far, as the discovery finds them.
      ghost var runs: seq<Run> := [];
      var state := false;
      gcode := [];
      var lastPos := 0;
      var extrudingAmount := 0;
      var columnPos := 0;
      while columnPos < |column|
        invariant columnPos <= |column|
        invariant lastPos == if columnPos == 0 then 0 else columnPos - 1
        invariant runs == RunsOf(column[..columnPos])
        invariant ScanState(runs, columnPos, currentRow, start, state, extrudingAmount, gcode, extrude, CurrentFrame())
      {
        state, extrudingAmount, gcode, runs :=
          ScanCell(column, columnPos, currentRow, state, extrudingAmount, lastPos, gcode, start, runs);
        lastPos := columnPos;
        columnPos := columnPos + 1;
      }
      assert column[..columnPos] == column;
      assert runs == RunsOf(column);
      TotalLengthIsCutCount(column);
      if state {
        Flush(runs, columnPos, currentRow, start, extrudingAmount, gcode, extrude, CurrentFrame());
        // The source reuses the loop variable, which ends on the last column.
        extrude := extrude + extrudingAmount;
        var (x, y) := ToReal(CurrentFrame(), |column| - 1, currentRow);
        gcode := gcode + [Cut(x, y, extrude)];
      }
    }

    /** The body of `_process_column`'s loop, on the cell at `columnPos`: a cut cell
        opens a run (a travel to it) or extends the open one; any other cell closes
        the open run (a cut to `lastPos`, the accumulator taking the run's length).
        `runs` follows the runs of the cells scanned so far. */
    method ScanCell(column: seq<Pixel>, columnPos: nat, currentRow: nat, state: bool,
                    extrudingAmount: int, lastPos: nat, gcode: seq<Command>,
                    ghost start: int, ghost runs: seq<Run>)
      returns (state': bool, extrudingAmount': int, gcode': seq<Command>, ghost runs': seq<Run>)
      requires columnPos < |column|
      requires lastPos == if columnPos == 0 then 0 else columnPos - 1
      requires runs == RunsOf(column[..columnPos])
      requires ScanState(runs, columnPos, currentRow, start, state, extrudingAmount, gcode, extrude, CurrentFrame())
      modifies this`extrude
      ensures runs' == RunsOf(column[..columnPos + 1])
      ensures ScanState(runs', columnPos + 1, currentRow, start, state', extrudingAmount', gcode', extrude, CurrentFrame())
    {
      state', extrudingAmount', gcode', runs' := state, extrudingAmount, gcode, runs;
      if Black == column[columnPos] {
        if state' {
          StepGrow(runs', columnPos, currentRow, start, extrudingAmount', gcode', extrude, CurrentFrame());
          DiscoverGrow(column, columnPos, runs');
          runs' := runs'[..|runs'| - 1] + [Run(runs'[|runs'| - 1].start, columnPos)];
        } else {
          StepOpen(runs', columnPos, currentRow, start, gcode', extrude, CurrentFrame());
          DiscoverOpen(column, columnPos, runs');
          runs' := runs' + [Run(columnPos, columnPos)];
        }
        extrudingAmount' := extrudingAmount' + 1;
        if !state' {
          state' := true;
          extrudingAmount' := 1;
          var (x, y) := ToReal(CurrentFrame(), columnPos, currentRow);
          gcode' := gcode' + [Travel(x, y)];
        }
      } else {
        DiscoverGap(column, columnPos);
        if state' {
          StepClose(runs', columnPos, currentRow, start, extrudingAmount', gcode', extrude, CurrentFrame());
          state' := false;
          extrude := extrude + extrudingAmount';
          extrudingAmount' := 0;
          var (x, y) := ToReal(CurrentFrame(), lastPos, currentRow);
          gcode' := gcode' + [Cut(x, y, extrude)];
        }
      }
    }
  }

  /** One iteration of `process`'s row loop: appending row y's commands extends the
      program by one row. */
  lemma AppendRow(z: real, rows: seq<seq<Pixel>>, y: nat, start: int, frame: Frame,
                  gcode: seq<Command>, rowCode: seq<Command>)
    requires y < |rows|
    requires gcode == [Layer(z)] + ImageCommands(rows[..y], start, frame)
    requires rowCode == RowCommands(rows[y], y, start + CutTotal(rows[..y]), frame)
    ensures gcode + rowCode == [Layer(z)] + ImageCommands(rows[..y + 1], start, frame)
    ensures CutTotal(rows[..y + 1]) == CutTotal(rows[..y]) + CutCount(rows[y])
  {
    var next := rows[..y + 1];
    assert next[..y] == rows[..y] && next[y] == rows[y];
    ImageCommandsSnoc(next, start, frame);
    assert ImageCommands(next, start, frame) == ImageCommands(rows[..y], start, frame) + rowCode;
  }

  /** What the row scan has produced after its first `seen` cells, whose runs are `runs`,
      with the accumulator at `start` before the row: the commands for every run
      closed so far, then a travel for the run still open (if `open`), the open
      run's length so far in `amount`, and the accumulator holding the lengths of
      the closed runs. */
  ghost predicate ScanState(runs: seq<Run>, seen: nat, row: nat, start: int, open: bool,
                            amount: int, gcode: seq<Command>, extrude: int, frame: Frame)
  {
    if open then
      |runs| > 0 && runs[|runs| - 1].end + 1 == seen && amount == runs[|runs| - 1].Length() &&
      gcode == EmitRuns(runs[..|runs| - 1], row, start, frame) +
               [TravelTo(frame, runs[|runs| - 1].start, row)] &&
      extrude == start + TotalLength(runs[..|runs| - 1])
    else
      (|runs| == 0 || runs[|runs| - 1].end + 1 < seen) &&
      amount == 0 && gcode == EmitRuns(runs, row, start, frame) &&
      extrude == start + TotalLength(runs)
  }

  /** The discovery on a cut cell that opens a run. */
  lemma DiscoverOpen(column: seq<Pixel>, pos: nat, runs: seq<Run>)
    requires pos < |column| && IsCut(column[pos]) && runs == RunsOf(column[..pos])
    requires |runs| == 0 || runs[|runs| - 1].end + 1 < pos
    ensures RunsOf(column[..pos + 1]) == runs + [Run(pos, pos)]
  {
    assert column[..pos + 1] == column[..pos] + [column[pos]];
    SnocOpen(column[..pos], column[pos], runs);
  }

  /** The discovery on a cut cell right after the last run. */
  lemma DiscoverGrow(column: seq<Pixel>, pos: nat, runs: seq<Run>)
    requires pos < |column| && IsCut(column[pos]) && runs == RunsOf(column[..pos])
    requires |runs| > 0 && runs[|runs| - 1].end + 1 == pos
    ensures RunsOf(column[..pos + 1]) == runs[..|runs| - 1] + [Run(runs[|runs| - 1].start, pos)]
  {
    assert column[..pos + 1] == column[..pos] + [column[pos]];
    SnocGrow(column[..pos], column[pos], runs);
  }

  /** The discovery on a cell that is not cut. */
  lemma DiscoverGap(column: seq<Pixel>, pos: nat)
    requires pos < |column| && !IsCut(column[pos])
    ensures RunsOf(column[..pos + 1]) == RunsOf(column[..pos])
  {
    assert column[..pos + 1] == column[..pos] + [column[pos]];
    SnocGap(column[..pos], column[pos]);
  }

  /** A cut cell outside a run opens one: a travel to its column. */
  lemma StepOpen(runs: seq<Run>, pos: nat, row: nat, start: int, gcode: seq<Command>, extrude: int, frame: Frame)
    requires ScanState(runs, pos, row, start, false, 0, gcode, extrude, frame)
    ensures ScanState(runs + [Run(pos, pos)], pos + 1, row, start, true, 1,
                      gcode + [TravelTo(frame, pos, row)], extrude, frame)
  {
    assert (runs + [Run(pos, pos)])[..|runs|] == runs;
  }

  /** A cut cell inside a run extends it by one. */
  lemma StepGrow(runs: seq<Run>, pos: nat, row: nat, start: int, amount: int, gcode: seq<Command>, extrude: int, frame: Frame)
    requires ScanState(runs, pos, row, start, true, amount, gcode, extrude, frame)
    ensures ScanState(runs[..|runs| - 1] + [Run(runs[|runs| - 1].start, pos)], pos + 1, row, start, true,
                      amount + 1, gcode, extrude, frame)
  {
    var n := |runs|;
    assert (runs[..n - 1] + [Run(runs[n - 1].start, pos)])[..n - 1] == runs[..n - 1];
  }

  /** A cell that is not cut right after a run closes it: the accumulator takes the
      run's length and a cut to the previous column carries the new total. */
  lemma StepClose(runs: seq<Run>, pos: nat, row: nat, start: int, amount: int, gcode: seq<Command>, extrude: int, frame: Frame)
    requires ScanState(runs, pos, row, start, true, amount, gcode, extrude, frame)
    ensures pos > 0
    ensures ScanState(runs, pos + 1, row, start, false, 0,
                      gcode + [CutTo(frame, pos - 1, row, extrude + amount)], extrude + amount, frame)
  {
    assert runs[..|runs|] == runs;
  }

  /** At the end of the row a run still open is closed at the last column. */
  lemma Flush(runs: seq<Run>, seen: nat, row: nat, start: int, amount: int, gcode: seq<Command>, extrude: int, frame: Frame)
    requires ScanState(runs, seen, row, start, true, amount, gcode, extrude, frame)
    ensures seen > 0
    ensures gcode + [CutTo(frame, seen - 1, row, extrude + amount)] == EmitRuns(runs, row, start, frame)
    ensures extrude + amount == start + TotalLength(runs)
  {
    assert runs[..|runs|] == runs;
  }
}
