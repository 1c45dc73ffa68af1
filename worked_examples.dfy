/** Worked examples of the rasterizer on small images. */
module Examples {
  import opened Pixels
  import opened Borders
  import opened Coordinates
  import opened Runs
  import opened Commands
  import opened ScanProperties
  import opened Raster

  const White := Pixel(255, 255, 255)

  /** The row cut, gap, cut, cut has two maximal runs: column 0 and columns 2 to 3. */
  lemma TwoRunsRowRuns()
    ensures RunsOf([Black, White, Black, Black]) == [Run(0, 0), Run(2, 3)]
  {
    SnocOpen([], Black, []);
    assert [] + [Black] == [Black];
    SnocGap([Black], White);
    SnocOpen([Black, White], Black, [Run(0, 0)]);
    assert [Black, White] + [Black] == [Black, White, Black];
    SnocGrow([Black, White, Black], Black, [Run(0, 0), Run(2, 2)]);
    assert [Black, White, Black] + [Black] == [Black, White, Black, Black];
  }

  /** The same row on a grid four pixels wide and one high: a travel and a cut per
      run, the second cut carrying 1 + 2. */
  lemma TwoRunsRow()
    ensures RowCommands([Black, White, Black, Black], 0, 0, Frame(4, 1, 1.0)) ==
      [Travel(-1.5, 0.0), Cut(-1.5, 0.0, 1), Travel(0.5, 0.0), Cut(1.5, 0.0, 3)]
  {
    var runs := [Run(0, 0), Run(2, 3)];
    TwoRunsRowRuns();
    assert runs[..1] == [Run(0, 0)];
    assert [Run(0, 0)][..0] == [];
  }

  /** A single cut pixel with a one-pixel frame is a 3 by 3 grid of cut cells. */
  lemma FramedDotGrid()
    ensures AddBorders(Image(1, [[Black]]), 1).rows ==
      [[Black, Black, Black], [Black, Black, Black], [Black, Black, Black]]
  {
    var bordered := AddBorders(Image(1, [[Black]]), 1);
    AddBordersCells(Image(1, [[Black]]), 1);
    forall r | 0 <= r < 3 ensures bordered.rows[r] == [Black, Black, Black] {
      assert forall c :: 0 <= c < 3 ==> bordered.rows[r][c] == Black;
    }
  }

  /** One full row of the framed dot: a travel to its left end and a cut to its right end. */
  lemma FramedDotRow(r: nat, e: int)
    ensures CutCount([Black, Black, Black]) == 3
    ensures RowCommands([Black, Black, Black], r, e, Frame(3, 3, 1.0)) ==
      [Travel(-1.0, 1.0 - r as real), Cut(1.0, 1.0 - r as real, e + 3)]
  {
    var full := [Black, Black, Black];
    assert [Black][..0] == [] && CutCount([Black]) == 1;
    assert [Black, Black][..1] == [Black] && CutCount([Black, Black]) == 2;
    assert full[..2] == [Black, Black];
    FullRow(full, r, e, Frame(3, 3, 1.0));
    assert ToReal(Frame(3, 3, 1.0), 0, r) == (-1.0, 1.0 - r as real);
    assert ToReal(Frame(3, 3, 1.0), 2, r) == (1.0, 1.0 - r as real);
  }

  /** The three full rows of the framed dot's grid, scanned from an empty
      accumulator: one travel and one cut per row, from the top row (y = 1) down,
      the accumulator rising by three per row. */
  lemma FramedDotCommands()
    ensures ImageCommands([[Black, Black, Black], [Black, Black, Black], [Black, Black, Black]],
                          0, Frame(3, 3, 1.0)) ==
      [Travel(-1.0, 1.0), Cut(1.0, 1.0, 3),
       Travel(-1.0, 0.0), Cut(1.0, 0.0, 6),
       Travel(-1.0, -1.0), Cut(1.0, -1.0, 9)]
  {
    var full := [Black, Black, Black];
    FramedDotRow(0, 0);
    FramedDotRow(1, 3);
    FramedDotRow(2, 6);
    assert [full][..0] == [];
    assert ImageCommands([full], 0, Frame(3, 3, 1.0)) == RowCommands(full, 0, 0, Frame(3, 3, 1.0));
    assert CutTotal([full]) == 3;
    assert [full, full][..1] == [full];
    assert ImageCommands([full, full], 0, Frame(3, 3, 1.0)) == ImageCommands([full], 0, Frame(3, 3, 1.0)) + RowCommands(full, 1, 3, Frame(3, 3, 1.0));
    assert CutTotal([full, full]) == 6;
    assert [full, full, full][..2] == [full, full];
    assert ImageCommands([full, full, full], 0, Frame(3, 3, 1.0)) ==
      ImageCommands([full, full], 0, Frame(3, 3, 1.0)) + RowCommands(full, 2, 6, Frame(3, 3, 1.0));
  }

  /** A rasterizer with laser width 1, a one-pixel frame and nothing extruded yet
      turns a single cut pixel into a layer header and three full rows, and ends
      with nine units extruded. */
  method FramedDot(raster: ImageRaster, image: Image) returns (gcode: seq<Command>)
    requires image == Image(1, [[Black]])
    requires raster.laserWidth == 1.0 && raster.borderSize == 1 && raster.extrude == 0
    modifies raster`extrude, raster`maxXPix, raster`maxYPix
    ensures gcode ==
      [Layer(0.0),
       Travel(-1.0, 1.0), Cut(1.0, 1.0, 3),
       Travel(-1.0, 0.0), Cut(1.0, 0.0, 6),
       Travel(-1.0, -1.0), Cut(1.0, -1.0, 9)]
    ensures raster.extrude == 9
  {
    var full := [Black, Black, Black];
    assert [[Black]][..0] == [] && CutCount([Black]) == 1;
    FramedDotGrid();
    FramedDotCommands();
    gcode := raster.Process(image, 0.0);
    assert raster.CurrentFrame() == Frame(3, 3, 1.0);
    assert gcode == [Layer(0.0)] + ImageCommands([full, full, full], 0, Frame(3, 3, 1.0));
  }

  /** The same run on a freshly constructed rasterizer. */
  method FreshFramedDot() returns (gcode: seq<Command>)
    ensures gcode ==
      [Layer(0.0),
       Travel(-1.0, 1.0), Cut(1.0, 1.0, 3),
       Travel(-1.0, 0.0), Cut(1.0, 0.0, 6),
       Travel(-1.0, -1.0), Cut(1.0, -1.0, 9)]
  {
    var raster := new ImageRaster(1.0, 1);
    gcode := FramedDot(raster, Image(1, [[Black]]));
  }

  /** The 2 by 3 image cut/blank, cut/blank, blank/cut with a one-pixel frame: a
      4 by 5 grid whose 17 cut cells (4 + 3 + 3 + 3 + 4 by row) all end up in the
      accumulator, which started empty, and whose 8 runs (1 + 2 + 2 + 2 + 1 by row)
      give 8 travels and 8 cuts after the header. */
  method ThreeRowImage(raster: ImageRaster, image: Image, height: real) returns (gcode: seq<Command>)
    requires image == Image(2, [[Black, White], [Black, White], [White, Black]])
    requires raster.borderSize == 1 && raster.extrude == 0
    modifies raster`extrude, raster`maxXPix, raster`maxYPix
    ensures raster.maxXPix == 4 && raster.maxYPix == 5
    ensures raster.extrude == 17
    ensures |gcode| == 17 && Travels(gcode) == 8 && Cuts(gcode) == 8
    ensures gcode[0] == Layer(height) && NoLayer(gcode[1..])
    ensures StrictlyIncreasing(ExtrudeValues(gcode)) && Within(ExtrudeValues(gcode), 0, 17)
  {
    ThreeRowCount();
    ThreeRowGrid();
    ThreeRowRunCount(AddBorders(image, 1).rows);
    gcode := raster.Process(image, height);
    var body := ImageCommands(AddBorders(image, 1).rows, 0, raster.CurrentFrame());
    assert gcode[1..] == body;
    ImageCounts(AddBorders(image, 1).rows, 0, raster.CurrentFrame());
  }

  /** The framed image's grid, row by row. */
  lemma ThreeRowGrid()
    ensures AddBorders(Image(2, [[Black, White], [Black, White], [White, Black]]), 1).rows ==
      [[Black, Black, Black, Black], [Black, Black, White, Black], [Black, Black, White, Black],
       [Black, White, Black, Black], [Black, Black, Black, Black]]
  {
    var image := Image(2, [[Black, White], [Black, White], [White, Black]]);
    var bordered := AddBorders(image, 1);
    AddBordersCells(image, 1);
    assert bordered.rows[0] == [Black, Black, Black, Black] by {
      assert forall c :: 0 <= c < 4 ==> bordered.rows[0][c] == Black;
    }
    assert bordered.rows[1] == [Black, Black, White, Black] by {
      assert bordered.rows[1][1] == image.rows[0][0] && bordered.rows[1][2] == image.rows[0][1];
    }
    assert bordered.rows[2] == [Black, Black, White, Black] by {
      assert bordered.rows[2][1] == image.rows[1][0] && bordered.rows[2][2] == image.rows[1][1];
    }
    assert bordered.rows[3] == [Black, White, Black, Black] by {
      assert bordered.rows[3][1] == image.rows[2][0] && bordered.rows[3][2] == image.rows[2][1];
    }
    assert bordered.rows[4] == [Black, Black, Black, Black] by {
      assert forall c :: 0 <= c < 4 ==> bordered.rows[4][c] == Black;
    }
  }

  /** The row cut, cut, gap, cut has two maximal runs: columns 0 to 1 and column 3. */
  lemma GapRowRuns()
    ensures RunsOf([Black, Black, White, Black]) == [Run(0, 1), Run(3, 3)]
  {
    SnocOpen([], Black, []);
    assert [] + [Black] == [Black];
    SnocGrow([Black], Black, [Run(0, 0)]);
    assert [Black] + [Black] == [Black, Black];
    SnocGap([Black, Black], White);
    assert [Black, Black] + [White] == [Black, Black, White];
    SnocOpen([Black, Black, White], Black, [Run(0, 1)]);
    assert [Black, Black, White] + [Black] == [Black, Black, White, Black];
  }

  /** The run count of a five-row grid, row by row. */
  lemma FiveRowRunCount(rows: seq<seq<Pixel>>)
    requires |rows| == 5
    ensures RunCount(rows) ==
      |RunsOf(rows[0])| + |RunsOf(rows[1])| + |RunsOf(rows[2])| + |RunsOf(rows[3])| + |RunsOf(rows[4])|
  {
    assert rows[..1][..0] == [];
    assert RunCount(rows[..1]) == |RunsOf(rows[0])|;
    assert rows[..2][..1] == rows[..1];
    assert RunCount(rows[..2]) == RunCount(rows[..1]) + |RunsOf(rows[1])|;
    assert rows[..3][..2] == rows[..2];
    assert RunCount(rows[..3]) == RunCount(rows[..2]) + |RunsOf(rows[2])|;
    assert rows[..4][..3] == rows[..3];
    assert RunCount(rows[..4]) == RunCount(rows[..3]) + |RunsOf(rows[3])|;
    assert rows[..5] == rows && rows[..5][..4] == rows[..4];
  }

  /** The framed image's grid has 8 runs: 1 + 2 + 2 + 2 + 1 by row. */
  lemma ThreeRowRunCount(rows: seq<seq<Pixel>>)
    requires rows == [[Black, Black, Black, Black], [Black, Black, White, Black], [Black, Black, White, Black],
                      [Black, White, Black, Black], [Black, Black, Black, Black]]
    ensures RunCount(rows) == 8
  {
    FiveRowRunCount(rows);
    AllCutOneRun([Black, Black, Black, Black]);
    GapRowRuns();
    TwoRunsRowRuns();
  }

  /** The unframed image has three cut cells, one per row. */
  lemma ThreeRowCount()
    ensures CutTotal([[Black, White], [Black, White], [White, Black]]) == 3
  {
    var rows := [[Black, White], [Black, White], [White, Black]];
    assert [Black, White][..1] == [Black] && [Black][..0] == [];
    assert [White, Black][..1] == [White] && [White][..0] == [];
    assert !IsCut(White) && CutCount([Black]) == 1 && CutCount([White]) == 0;
    assert CutCount([Black, White]) == 1 && CutCount([White, Black]) == 1;
    assert [[Black, White]][..0] == [];
    assert CutTotal([[Black, White]]) == 1;
    assert [[Black, White], [Black, White]][..1] == [[Black, White]];
    assert CutTotal([[Black, White], [Black, White]]) == 2;
    assert rows[..2] == [[Black, White], [Black, White]];
  }

  /** One rasterizer used for two layers in turn, as a folder of images is processed
      with a single `ImageRaster`: the second layer's E values continue above the first's. */
  method TwoLayers(raster: ImageRaster, first: Image, second: Image, z1: real, z2: real)
    returns (gcode: seq<Command>)
    requires first.Valid() && second.Valid()
    modifies raster`extrude, raster`maxXPix, raster`maxYPix
    ensures |gcode| > 0 && gcode[0] == Layer(z1)
    ensures StrictlyIncreasing(ExtrudeValues(gcode)) && Within(ExtrudeValues(gcode), old(raster.extrude), raster.extrude)
  {
    var one := raster.Process(first, z1);
    var middle := raster.extrude;
    var two := raster.Process(second, z2);
    gcode := one + two;
    ChainCommands(one, two, old(raster.extrude), middle, raster.extrude);
  }
}
