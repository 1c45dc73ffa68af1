# GcodeRaster scan-line rasterizer, modelled in Dafny

This project models `ImageRaster`, the core of GcodeRaster. `ImageRaster` turns a
decoded RGB image into a G-code layer for a laser/resin printer. It works in four steps:

1. It frames the image with `border_size` black cells on every side (`_add_borders`).
2. It classifies a cell as *cut* exactly when it is `[0, 0, 0]`.
3. It maps pixel indices to plane coordinates centred on the grid (`_to_real`).
4. It scans every row left to right (`_process_column`). Each maximal run of cut cells gets:
   - a travel move (`G0 … E0.00`) to the run's first column;
   - a cut move (`G1 … E<total>`) to its last column.

   The `E` value is a cumulative extrusion total, `self.extrude`. It grows by each run's
   length as the run closes and is never reset. `process` writes one layer header
   (`G1 Z<height>`) and then scans rows top to bottom.

## How the model is built

- **Pixels** (`pixels.dfy`) holds the cell types and the cut test. `Image` keeps its width
  apart from its rows, so a grid with no rows still has a shape, as a numpy array does.
  `CutCount` and `CutTotal` count the cut cells.
- **Borders** (`borders.dfy`) models axis-1 then axis-0 `np.append` of zero blocks as
  `PadColumns` then `PadRows`. The lemmas prove:
  - the dimensions;
  - every cell of the bordered grid;
  - the `b = 0` pass-through;
  - the number of cut cells the frame adds.
- **Coordinates** (`coordinates.dfy`): `ToReal` is the source formula as written. The
  lemmas derive its closed form, its symmetry and its unit steps.
- **Runs** (`runs.dfy`): `RunsOf` finds the runs of a row left to right, the way the scan
  does. `MaximalRuns` is an independent, declarative description: every listed run is a
  maximal stretch of cut cells, the runs are ordered, and every cut cell is covered. The
  two are proved equivalent in both directions (`MaximalRunsIff`).
- **Commands** (`commands.dfy`): commands form a datatype (`Layer`, `Travel`, `Cut`),
  not formatted text. `RowCommands` and `ImageCommands` say what one row, and a whole
  grid, should produce. The accumulator threads through the rows in order.
- **ScanProperties** (`scan_properties.dfy`) proves, per row:
  - travels and cuts alternate;
  - there is one pair per run, at the run's end columns;
  - a final run is flushed;
  - E values rise strictly and are bounded by the cut count.

  Per image, it proves that the layer program has one header and rising E values,
  including across successive layers.
- **Raster** (`image_raster.dfy`): `ImageRaster` is a class with the mutable fields of the
  source (`extrude`, `maxXPix`, `maxYPix`).
  - `ProcessColumn` is the source's loop, with the same two-state machine, the same
    `last_pos` bookkeeping, and the same flush using the final loop index.
  - `ScanCell` is the loop body.
  - `ProcessRows` and `Process` are `process`.
  - Each method is proved against the functions above.
- **Examples** (`worked_examples.dfy`) holds worked examples on small images, proved by the verifier: a two-run row, a framed single
  pixel, a three-row image, and two layers on one rasterizer.

The two additive terms of `_to_real` look different (`max_x_pix - 1` against
`max_y_pix + 1`), but both axes are centred: `x = (c - (W-1)/2)·lw` and
`y = ((H-1)/2 - r)·lw` (`ToRealCentred`, `XCentred`, `YCentred`).

## Model

| member | source | states |
|---|---|---|
| Pixels.IsCut | src/peachyraster/raster.py:89 | definition, no contract: a cell is cut when it equals the black triple `[0, 0, 0]` |
| Pixels.CutCount | src/peachyraster/raster.py:89 | definition, no contract: the number of cut cells of a row |
| Coordinates.ToReal | src/peachyraster/raster.py:110-114 | definition, no contract: x and y by the two formulas of `_to_real`, term for term |
| Runs.RunsOf | src/peachyraster/raster.py:88-103 | definition, no contract: the runs of a row as the left-to-right scan finds them, one cell at a time (opened, extended, or left alone) |
| Commands.EmitRuns | src/peachyraster/raster.py:91-107 | definition, no contract: a travel to each run's first column and a cut to its last, with the running total after that run |
| Commands.RowCommands | src/peachyraster/raster.py:83-108 | definition, no contract: `_process_column`'s output, the commands of the row's discovered runs |
| Commands.ImageCommands | src/peachyraster/raster.py:77-81 | definition, no contract: the rows' commands top to bottom, each row starting from the total after the rows above it |
| Pixels.CutIffAllChannelsZero | src/peachyraster/raster.py:89 | a cell is cut exactly when all three channels are 0; a near-black triple is not cut |
| Borders.BlackRow | src/peachyraster/raster.py:117 | a zero border strip has the requested length and every cell black |
| Borders.BlackRows | src/peachyraster/raster.py:120 | the horizontal border block has `count` rows, each a black row of the given width |
| Borders.PadRow | src/peachyraster/raster.py:117-119 | a padded row is `b` longer on each side; its middle cells are the original cells shifted by `b`, the rest black |
| Borders.PadEachRow | src/peachyraster/raster.py:117-119 | every row is padded, in order, and the row count is unchanged |
| Borders.PadColumns | src/peachyraster/raster.py:117-119 | the axis-1 append keeps the height, widens by `2b`, and keeps every row the same length |
| Borders.PadRows | src/peachyraster/raster.py:120-122 | the axis-0 append keeps the width and adds `2b` rows |
| Borders.AddBorders | src/peachyraster/raster.py:116-123 | the bordered grid is rectangular, `W + 2b` wide and `H + 2b` high |
| Borders.PadColumnsCells | src/peachyraster/raster.py:117-119 | after column padding, a cell is the original cell at column `c - b` inside the band and black outside it |
| Borders.PadRowsCells | src/peachyraster/raster.py:120-122 | after row padding, a cell is the original cell at row `r - b` inside the band and black outside it |
| Borders.AddBordersCells | src/peachyraster/raster.py:116-123 | every cell within `b` of an edge is black; cell `(r + b, c + b)` is original cell `(r, c)` |
| Borders.AddBordersZero | src/peachyraster/raster.py:116-123 | with `b = 0` the grid comes back unchanged |
| Borders.PadEachRowZero | src/peachyraster/raster.py:117-119 | padding every row by zero cells changes no row |
| Borders.AddBordersEmpty | src/peachyraster/raster.py:116-123 | the 0 by 0 grid becomes a `2n` by `2n` grid of cut cells |
| Borders.AddBordersCutTotal | src/peachyraster/raster.py:116-123 | the bordered grid has the original cut cells, plus `2b` per original row, plus `2b` full rows of width `W + 2b` |
| Coordinates.ToRealCentred | src/peachyraster/raster.py:110-114 | the source formula equals `x = (c - (W-1)/2)·lw` and `y = ((H-1)/2 - r)·lw` |
| Coordinates.XCentred | src/peachyraster/raster.py:111 | columns `c` and `W - 1 - c` map to opposite x |
| Coordinates.YCentred | src/peachyraster/raster.py:112 | rows `r` and `H - 1 - r` map to opposite y |
| Coordinates.UnitSteps | src/peachyraster/raster.py:111-112 | x grows by `lw` per column and ignores the row; y falls by `lw` per row and ignores the column |
| Coordinates.TopRowHighest | src/peachyraster/raster.py:112 | with `lw > 0`, row 0 has the largest y, `(H-1)/2·lw` |
| Runs.RunsOfMaximal | src/peachyraster/raster.py:88-103 | the left-to-right discovery yields exactly maximal, ordered runs that cover every cut cell |
| Runs.MaximalRunsUnique | src/peachyraster/raster.py:88-103 | any ordered list of maximal runs covering every cut cell is the one the scan discovers |
| Runs.MaximalRunsIff | src/peachyraster/raster.py:88-103 | a run list is the scan's exactly when it is the row's maximal decomposition (both directions) |
| Runs.RunsOfElement | src/peachyraster/raster.py:88-103 | every discovered run is a maximal stretch of cut cells |
| Runs.CoveredIffCut | src/peachyraster/raster.py:89-90 | a column lies in a discovered run exactly when its cell is cut |
| Runs.TotalLengthIsCutCount | src/peachyraster/raster.py:90-93 | the discovered runs' lengths add up to the row's cut cells |
| Runs.LastRunTouchesEnd | src/peachyraster/raster.py:104 | in a maximal decomposition, the last cell is cut exactly when the last run ends on it |
| Runs.RunsOfTouchesEnd | src/peachyraster/raster.py:104-107 | the last cell is cut exactly when the scan's last run ends at the last column |
| Runs.AllCutOneRun | src/peachyraster/raster.py:88-107 | a non-empty all-cut row is a single run from column 0 to the last column |
| Runs.SnocGap | src/peachyraster/raster.py:96-103 | unfolds `RunsOf` once: a cell that is not cut adds no run |
| Runs.SnocOpen | src/peachyraster/raster.py:91-95 | unfolds `RunsOf` once: a cut cell not adjacent to the last run opens a run of length one at its column |
| Runs.SnocGrow | src/peachyraster/raster.py:89-90 | unfolds `RunsOf` once: a cut cell right after the last run extends that run to its column |
| ScanProperties.EmitRunsAt | src/peachyraster/raster.py:91-107 | command `2k` travels to run k's first column; command `2k+1` cuts to its last column with the lengths of runs 0..k added |
| ScanProperties.EmitRunsCounts | src/peachyraster/raster.py:91-107 | as many travels, and as many cuts, as runs |
| ScanProperties.EmitRunsExtrude | src/peachyraster/raster.py:99-107 | over non-empty runs, one E value per run, strictly rising, above the start, the last equal to start plus total length |
| ScanProperties.RowAlternates | src/peachyraster/raster.py:88-107 | a row's commands alternate travel, cut, … starting with a travel; travels = cuts = maximal runs |
| ScanProperties.RowRunEndpoints | src/peachyraster/raster.py:91-107 | run k's travel goes to its first column and its cut to its last; the run is maximal; the cut carries the lengths of runs 0..k |
| ScanProperties.RowExtrude | src/peachyraster/raster.py:90-107 | a row's E values rise strictly in (start, start + cut cells], the last one equal to start + cut cells |
| ScanProperties.EmptyRowEmitsNothing | src/peachyraster/raster.py:88-108 | a row emits nothing exactly when it has no cut cell |
| ScanProperties.FullRow | src/peachyraster/raster.py:88-107 | an all-cut row emits one travel to column 0 and one cut to the last column carrying start + width |
| ScanProperties.LastColumnFlushed | src/peachyraster/raster.py:104-107 | when the last cell is cut, the row's final command is a cut at the last column carrying start + cut cells |
| ScanProperties.RowNoLayer | src/peachyraster/raster.py:88-107 | a row scan emits no layer header |
| ScanProperties.ImageCommandsSnoc | src/peachyraster/raster.py:78-80 | unfolds `ImageCommands` once: the grid's commands are the earlier rows' commands followed by the last row's, started at the running total |
| ScanProperties.ImageCounts | src/peachyraster/raster.py:77-107 | the rows' commands hold exactly one travel and one cut per maximal run over all rows, and nothing else |
| ScanProperties.ImageNoLayer | src/peachyraster/raster.py:78-80 | the rows' commands hold no layer header |
| ScanProperties.ImageExtrude | src/peachyraster/raster.py:78-80 | E values rise strictly across all rows, within (start, start + grid cut cells] |
| ScanProperties.LayerProgram | src/peachyraster/raster.py:77-81 | a layer program is one header at `height` and then no other header, with strictly rising E values bounded by the cut cells |
| ScanProperties.SuccessiveLayers | src/peachyraster/raster.py:66-108 | two layers scanned with one never-reset accumulator give E values rising strictly across both programs |
| Raster.ImageRaster.constructor | src/peachyraster/raster.py:50-53 | laser width and border size are stored, and the accumulator starts at 0 |
| Raster.ImageRaster.Process | src/peachyraster/raster.py:66-81 | the dimensions are the bordered ones; output is the header and then every bordered row's commands in order, mapped with the bordered frame; `extrude` grows by the bordered grid's cut cells (original + `2b·H` + `2b·(W + 2b)`); one header, E values rising |
| Raster.ImageRaster.ProcessRows | src/peachyraster/raster.py:77-81 | the header, then rows 0..H-1 in order; `extrude` grows by their cut cells; one header, E values rising |
| Raster.ImageRaster.ProcessColumn | src/peachyraster/raster.py:83-108 | the scan emits exactly the row's specified commands, and `extrude` grows by exactly the row's cut cells |
| Raster.ImageRaster.ScanCell | src/peachyraster/raster.py:88-103 | one loop step keeps the scan state: the commands of closed runs, a travel for an open run, its length so far, and the accumulator |
| Raster.AppendRow | src/peachyraster/raster.py:78-80 | appending row y's commands extends the program from rows 0..y-1 to rows 0..y |
| Raster.DiscoverOpen | src/peachyraster/raster.py:91-95 | `Runs.SnocOpen` at the scanned prefix `column[..pos]`, by unfolding `RunsOf`: a cut cell with no run to extend opens the run `[pos, pos]` |
| Raster.DiscoverGrow | src/peachyraster/raster.py:89-90 | `Runs.SnocGrow` at the scanned prefix `column[..pos]`, by unfolding `RunsOf`: a cut cell right after the open run extends it to `pos` |
| Raster.DiscoverGap | src/peachyraster/raster.py:96-103 | `Runs.SnocGap` at the scanned prefix `column[..pos]`, by unfolding `RunsOf`: a cell that is not cut leaves the runs as they were |
| Raster.StepOpen | src/peachyraster/raster.py:91-95 | opening a run appends a travel to its column and sets the run length to 1 |
| Raster.StepGrow | src/peachyraster/raster.py:89-90 | extending the open run adds 1 to its length and emits nothing |
| Raster.StepClose | src/peachyraster/raster.py:97-102 | closing a run adds its length to the accumulator and emits a cut at the previous column with the new total |
| Raster.Flush | src/peachyraster/raster.py:104-107 | a run still open at the row's end is closed at the last column, completing the row's commands |
| Examples.TwoRunsRowRuns | src/peachyraster/raster.py:88-103 | cut, blank, cut, cut has the runs `[0, 0]` and `[2, 3]` |
| Examples.TwoRunsRow | src/peachyraster/raster.py:83-108 | that row on a 4 by 1 grid gives travel (-1.5, 0), cut (-1.5, 0) E1, travel (0.5, 0), cut (1.5, 0) E3 |
| Examples.FramedDotGrid | src/peachyraster/raster.py:116-123 | one black pixel with a one-pixel frame is a 3 by 3 black grid |
| Examples.FramedDotRow | src/peachyraster/raster.py:83-108 | a full row of that grid is a travel to x = -1 and a cut to x = 1 adding 3 |
| Examples.FramedDotCommands | src/peachyraster/raster.py:77-81 | the 3 by 3 grid's rows, from an empty accumulator, give E values 3, 6, 9 at y = 1, 0, -1 |
| Examples.FramedDot | src/peachyraster/raster.py:66-81 | `process` on the framed dot with `lw = 1` emits exactly the header and those six commands, ending with `extrude = 9` |
| Examples.FreshFramedDot | src/peachyraster/raster.py:50-53 | the same output from a freshly constructed rasterizer |
| Examples.ThreeRowCount | src/peachyraster/raster.py:89 | the 2 by 3 image (cut/blank, cut/blank, blank/cut) has 3 cut cells |
| Examples.ThreeRowGrid | src/peachyraster/raster.py:116-123 | that image with a one-pixel frame is the 4 by 5 grid of rows cut×4, cut/cut/blank/cut twice, cut/blank/cut/cut, cut×4 |
| Examples.GapRowRuns | src/peachyraster/raster.py:88-103 | cut, cut, blank, cut has the runs `[0, 1]` and `[3, 3]` |
| Examples.ThreeRowRunCount | src/peachyraster/raster.py:88-103 | that framed grid has 8 runs, 1 + 2 + 2 + 2 + 1 by row |
| Examples.ThreeRowImage | src/peachyraster/raster.py:66-81 | with a one-pixel frame, that image gives a 4 by 5 grid and `extrude = 17` from 0; 17 commands: one header, then 8 travels and 8 cuts, with rising E values in (0, 17] |
| Examples.TwoLayers | src/peachyraster/raster.py:66-81 | two `process` calls on one rasterizer give E values rising strictly across both layers |

## Left out

- `Raster` (`process_file`, `_process_file`, `process_folder`, src/peachyraster/raster.py:9-46): file and folder I/O, image decoding, wall-clock timing and printing. Only the shared accumulator that a folder run relies on is modelled, via `SuccessiveLayers` and `TwoLayers`.
- `print_ascii`, the `logging`/`print` calls in `process` and `_to_real`, and the command-line front end, src/peachyraster/peachyraster.py. The front end passes a `back_and_forth` option that `Raster.__init__` does not accept; that option has no implementation to model.
- src/raster.py and test/raster_test.py: an older stub with no rasterizing logic.
- Text output: commands are a datatype. The `{:.2f}` formatting and the feed-rate fields are not modelled. Travel commands always print `E0.00`, so `Travel` carries no E field.
- Floating point: coordinates are exact reals, so rounding in `x * laser_width` and in the division by 2.0 is not captured.
- `extrude` is an integer. In the source it is a float that only ever gains whole cell counts, so the values agree while they stay exactly representable.
- Channel counts other than 3 (for example RGBA) are not modelled. For such images the source compares 4-element cells with `[0, 0, 0]`, so nothing is ever cut, border cells included.
- `max_x_pix` / `max_y_pix` do not exist in the source before the first `process` call; the model's constructor sets them to 0. `_to_real` before `process` (an AttributeError in the source) is not modelled.
- `border_size` is a natural number. A negative value makes `np.zeros` raise in the source; that error path is not modelled.
- The float-array conversion caused by appending float zero blocks is not modelled. Cells are compared by value, and `0.0 == 0` in the source, so it does not change which cells are cut.
- `process`'s default `height=0.0` (src/peachyraster/raster.py:66): `Process` takes the height as a required argument; every caller in the repository passes one.
