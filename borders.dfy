/** The frame compositor: `ImageRaster._add_borders`. */
module Borders {
  import opened Pixels

  /** A row of `n` black cells. */
  function BlackRow(n: nat): (row: seq<Pixel>)
    ensures |row| == n
    ensures forall c :: 0 <= c < n ==> row[c] == Black
  {
    if n == 0 then [] else BlackRow(n - 1) + [Black]
  }

  /** `count` rows of `width` black cells each. */
  function BlackRows(count: nat, width: nat): (rows: seq<seq<Pixel>>)
    ensures |rows| == count
    ensures forall r :: 0 <= r < count ==> rows[r] == BlackRow(width)
  {
    if count == 0 then [] else BlackRows(count - 1, width) + [BlackRow(width)]
  }

  /** One row with `b` black cells added on each side. */
  function PadRow(row: seq<Pixel>, b: nat): (padded: seq<Pixel>)
    ensures |padded| == |row| + 2 * b
    ensures forall c :: 0 <= c < |padded| ==>
      padded[c] == if b <= c < b + |row| then row[c - b] else Black
  {
    BlackRow(b) + row + BlackRow(b)
  }

  /** Appends `b` black columns on the left of every row, then `b` on the right
      (numpy append along axis 1). */
  function PadColumns(image: Image, b: nat): (padded: Image)
    requires image.Valid()
    ensures padded.Valid()
    ensures padded.width == image.width + 2 * b
    ensures padded.Height() == image.Height()
  {
    Image(image.width + 2 * b, PadEachRow(image.rows, b))
  }

  /** `PadRow` applied to every row, in order. */
  function PadEachRow(rows: seq<seq<Pixel>>, b: nat): (padded: seq<seq<Pixel>>)
    ensures |padded| == |rows|
    ensures forall r :: 0 <= r < |rows| ==> padded[r] == PadRow(rows[r], b)
  {
    if rows == [] then [] else PadEachRow(rows[..|rows| - 1], b) + [PadRow(rows[|rows| - 1], b)]
  }

  /** Appends `b` black rows above, then `b` below (numpy append along axis 0). */
  function PadRows(image: Image, b: nat): (padded: Image)
    requires image.Valid()
    ensures padded.Valid()
    ensures padded.width == image.width
    ensures padded.Height() == image.Height() + 2 * b
  {
    Image(image.width, BlackRows(b, image.width) + image.rows + BlackRows(b, image.width))
  }

  /** Whether cell (r, c) of the bordered grid lies inside the original image. */
  predicate Interior(r: int, c: int, height: nat, width: nat, b: nat)
  {
    b <= r < b + height && b <= c < b + width
  }

  /** The bordered grid: `b` black cells on every side, the original image in the
      middle, shifted by `b` in both directions. */
  function AddBorders(image: Image, b: nat): (bordered: Image)
    requires image.Valid()
    ensures bordered.Valid()
    ensures bordered.width == image.width + 2 * b
    ensures bordered.Height() == image.Height() + 2 * b
  {
    PadRows(PadColumns(image, b), b)
  }

  lemma PadColumnsCells(image: Image, b: nat)
    requires image.Valid()
    ensures var padded := PadColumns(image, b);
      forall r, c :: 0 <= r < padded.Height() && 0 <= c < padded.width ==>
        padded.rows[r][c] == if b <= c < b + image.width then image.rows[r][c - b] else Black
  {
  }

  lemma PadRowsCells(image: Image, b: nat)
    requires image.Valid()
    ensures var padded := PadRows(image, b);
      forall r, c :: 0 <= r < padded.Height() && 0 <= c < padded.width ==>
        padded.rows[r][c] == if b <= r < b + image.Height() then image.rows[r - b][c] else Black
  {
  }

  /** Every cell of the bordered grid within `b` of an edge is black (cut), and
      cell (r + b, c + b) is cell (r, c) of the original image. */
  lemma AddBordersCells(image: Image, b: nat)
    requires image.Valid()
    ensures var bordered := AddBorders(image, b);
      forall r, c :: 0 <= r < bordered.Height() && 0 <= c < bordered.width ==>
        bordered.rows[r][c] ==
          if Interior(r, c, image.Height(), image.width, b) then image.rows[r - b][c - b] else Black
  {
    PadColumnsCells(image, b);
    PadRowsCells(PadColumns(image, b), b);
  }

  /** A border of size zero leaves the image as it was. */
  lemma AddBordersZero(image: Image)
    requires image.Valid()
    ensures AddBorders(image, 0) == image
  {
    PadEachRowZero(image.rows);
    assert BlackRows(0, image.width) == [];
  }

  /** Padding every row by zero cells changes no row. */
  lemma {:induction false} PadEachRowZero(rows: seq<seq<Pixel>>)
    ensures PadEachRow(rows, 0) == rows
    decreases |rows|
  {
    if rows != [] {
      var front := rows[..|rows| - 1];
      var last := rows[|rows| - 1];
      PadEachRowZero(front);
      assert PadRow(last, 0) == last;
      assert rows == front + [last];
    }
  }

  /** Bordering the 0 by 0 image gives a 2n by 2n grid of cut cells. */
  lemma AddBordersEmpty(n: nat)
    ensures var bordered := AddBorders(Image(0, []), n);
      bordered.width == 2 * n && bordered.Height() == 2 * n &&
      forall r, c :: 0 <= r < 2 * n && 0 <= c < 2 * n ==> IsCut(bordered.rows[r][c])
  {
    AddBordersCells(Image(0, []), n);
  }

  /** Cut cells add up over two pieces of a row. */
  lemma {:induction false} CutCountAppend(a: seq<Pixel>, b: seq<Pixel>)
    ensures CutCount(a + b) == CutCount(a) + CutCount(b)
    decreases |b|
  {
    if b == [] {
      assert a + b == a;
    } else {
      var front := b[..|b| - 1];
      assert (a + b)[..|a + b| - 1] == a + front;
      CutCountAppend(a, front);
    }
  }

  /** Cut cells add up over two blocks of rows. */
  lemma {:induction false} CutTotalAppend(a: seq<seq<Pixel>>, b: seq<seq<Pixel>>)
    ensures CutTotal(a + b) == CutTotal(a) + CutTotal(b)
    decreases |b|
  {
    if b == [] {
      assert a + b == a;
    } else {
      var front := b[..|b| - 1];
      assert (a + b)[..|a + b| - 1] == a + front;
      CutTotalAppend(a, front);
    }
  }

  /** One more row of `w` cells adds `w`. */
  lemma Distribute(a: nat, w: nat)
    ensures a * w + w == (a + 1) * w
    ensures w * a + w == w * (a + 1)
  {
  }

  /** Every cell of a black row is cut. */
  lemma {:induction false} BlackRowCutCount(n: nat)
    ensures CutCount(BlackRow(n)) == n
  {
    if n > 0 {
      BlackRowCutCount(n - 1);
      assert BlackRow(n)[..n - 1] == BlackRow(n - 1);
    }
  }

  /** Every cell of a block of black rows is cut. */
  lemma {:induction false} BlackRowsCutTotal(count: nat, width: nat)
    ensures CutTotal(BlackRows(count, width)) == count * width
  {
    if count > 0 {
      BlackRowsCutTotal(count - 1, width);
      BlackRowCutCount(width);
      assert BlackRows(count, width)[..count - 1] == BlackRows(count - 1, width);
      Distribute(count - 1, width);
    }
  }

  /** Padding a row adds exactly its 2b black cells to its cut cells. */
  lemma PadRowCutCount(row: seq<Pixel>, b: nat)
    ensures CutCount(PadRow(row, b)) == CutCount(row) + 2 * b
  {
    BlackRowCutCount(b);
    CutCountAppend(BlackRow(b), row);
    CutCountAppend(BlackRow(b) + row, BlackRow(b));
  }

  /** Padding every row adds 2b cut cells per row. */
  lemma {:induction false} PadEachRowCutTotal(rows: seq<seq<Pixel>>, b: nat)
    ensures CutTotal(PadEachRow(rows, b)) == CutTotal(rows) + 2 * b * |rows|
    decreases |rows|
  {
    if rows != [] {
      var n := |rows|;
      var front := rows[..n - 1];
      var padded := PadEachRow(rows, b);
      PadEachRowCutTotal(front, b);
      PadRowCutCount(rows[n - 1], b);
      assert padded[..n - 1] == PadEachRow(front, b);
      assert CutTotal(padded) == CutTotal(PadEachRow(front, b)) + CutCount(PadRow(rows[n - 1], b));
      Distribute(n - 1, 2 * b);
    }
  }

  /** The bordered rows are the top band, the padded rows and the bottom band. */
  lemma AddBordersBands(image: Image, b: nat)
    requires image.Valid()
    ensures var band := BlackRows(b, image.width + 2 * b);
      CutTotal(AddBorders(image, b).rows) ==
        CutTotal(band) + CutTotal(PadEachRow(image.rows, b)) + CutTotal(band)
  {
    var band := BlackRows(b, image.width + 2 * b);
    var middle := PadEachRow(image.rows, b);
    assert AddBorders(image, b).rows == band + middle + band;
    CutTotalAppend(band + middle, band);
    CutTotalAppend(band, middle);
  }

  /** The frame adds exactly its own cells to the cut cells: b cells on each side
      of every original row, and b rows of the bordered width above and below. */
  lemma AddBordersCutTotal(image: Image, b: nat)
    requires image.Valid()
    ensures CutTotal(AddBorders(image, b).rows) ==
      CutTotal(image.rows) + 2 * b * image.Height() + 2 * (b * (image.width + 2 * b))
  {
    AddBordersBands(image, b);
    BlackRowsCutTotal(b, image.width + 2 * b);
    PadEachRowCutTotal(image.rows, b);
  }


}
