/** The motion commands the rasterizer emits, and what a row and a whole image
    should produce, stated over the runs of each row. */
module Commands {
  import opened Pixels
  import opened Coordinates
  import opened Runs

  /** One line of the output program.  `Layer(z)` is "G1 Z<z> F1"; `Travel(x, y)` is
      "G0 F1 X<x> Y<y> E0.00" (its E field is always the literal zero); `Cut(x, y, e)`
      is "G1 F1 X<x> Y<y> E<e>" with `e` the cumulative extrusion. */
  datatype Command =
    | Layer(z: real)
    | Travel(x: real, y: real)
    | Cut(x: real, y: real, e: int)

  /** Travel to the plane position of pixel (col, row). */
  function TravelTo(frame: Frame, col: int, row: int): Command
  {
    var (x, y) := ToReal(frame, col, row);
    Travel(x, y)
  }

  /** Cut to the plane position of pixel (col, row), with cumulative extrusion `e`. */
  function CutTo(frame: Frame, col: int, row: int, e: int): Command
  {
    var (x, y) := ToReal(frame, col, row);
    Cut(x, y, e)
  }

  /** What the scan should produce for the runs of row `row`, when the accumulator
      holds `extrude` before the row: per run, a travel to its first column and a
      cut to its last, the cut carrying the total after that run is added. */
  function EmitRuns(runs: seq<Run>, row: nat, extrude: int, frame: Frame): seq<Command>
  {
    if runs == [] then []
    else
      var last := runs[|runs| - 1];
      EmitRuns(runs[..|runs| - 1], row, extrude, frame) +
        [TravelTo(frame, last.start, row), CutTo(frame, last.end, row, extrude + TotalLength(runs))]
  }

  /** The commands for one row of pixels. */
  function RowCommands(row: seq<Pixel>, r: nat, extrude: int, frame: Frame): seq<Command>
  {
    EmitRuns(RunsOf(row), r, extrude, frame)
  }

  /** The commands for rows 0 .. |rows|-1 in order, the accumulator threading through them. */
  function ImageCommands(rows: seq<seq<Pixel>>, extrude: int, frame: Frame): seq<Command>
  {
    if rows == [] then []
    else
      var front := rows[..|rows| - 1];
      ImageCommands(front, extrude, frame) +
        RowCommands(rows[|rows| - 1], |rows| - 1, extrude + CutTotal(front), frame)
  }

  /** The E values of the cut commands, in program order. */
  function ExtrudeValues(cmds: seq<Command>): seq<int>
  {
    if cmds == [] then []
    else (if cmds[0].Cut? then [cmds[0].e] else []) + ExtrudeValues(cmds[1..])
  }

  /** Number of travel commands. */
  function Travels(cmds: seq<Command>): nat
  {
    if cmds == [] then 0 else (if cmds[0].Travel? then 1 else 0) + Travels(cmds[1..])
  }

  /** Number of cut commands. */
  function Cuts(cmds: seq<Command>): nat
  {
    if cmds == [] then 0 else (if cmds[0].Cut? then 1 else 0) + Cuts(cmds[1..])
  }

  predicate StrictlyIncreasing(s: seq<int>)
  {
    forall i, j :: 0 <= i < j < |s| ==> s[i] < s[j]
  }

  /** Every value lies in the half-open interval (lo, hi]. */
  predicate Within(s: seq<int>, lo: int, hi: int)
  {
    forall i :: 0 <= i < |s| ==> lo < s[i] <= hi
  }

  /** No command of the sequence is a layer header. */
  predicate NoLayer(cmds: seq<Command>)
  {
    forall j :: 0 <= j < |cmds| ==> !cmds[j].Layer?
  }

  /** Every run of the sequence covers at least one cell. */
  predicate NonEmptyRuns(runs: seq<Run>)
  {
    forall i :: 0 <= i < |runs| ==> runs[i].start <= runs[i].end
  }
}
