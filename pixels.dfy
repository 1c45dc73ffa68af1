/** Pixel grids as the rasterizer sees them: rectangular arrays of RGB triples. */
module Pixels {

  /** One 8-bit colour channel. */
  newtype byte = x: int | 0 <= x < 256

  /** One RGB cell of a decoded image. */
  datatype Pixel = Pixel(red: byte, green: byte, blue: byte)

  /** The only colour that marks a cell to be cut. */
  const Black := Pixel(0, 0, 0)

  /** A cell is cut exactly when it equals [0, 0, 0]: no threshold, no tolerance. */
  predicate IsCut(p: Pixel)
  {
    p == Black
  }

  /** A decoded image with the shape of a numpy array (rows, width, 3).  The width
      is kept apart from the rows so that an image with no rows still has one. */
  datatype Image = Image(width: nat, rows: seq<seq<Pixel>>)
  {
    function Height(): nat
    {
      |rows|
    }

    /** Every row is exactly `width` cells long. */
    predicate Valid()
    {
      forall r :: 0 <= r < |rows| ==> |rows[r]| == width
    }
  }

  /** Number of cut cells in a row. */
  function CutCount(row: seq<Pixel>): nat
  {
    if row == [] then 0
    else CutCount(row[..|row| - 1]) + (if IsCut(row[|row| - 1]) then 1 else 0)
  }

  /** Number of cut cells in a sequence of rows. */
  function CutTotal(rows: seq<seq<Pixel>>): nat
  {
    if rows == [] then 0 else CutTotal(rows[..|rows| - 1]) + CutCount(rows[|rows| - 1])
  }

  /** Cut classification looks at all three channels: a triple with any non-zero
      channel, however dark, is not cut. */
  lemma CutIffAllChannelsZero(p: Pixel)
    ensures IsCut(p) <==> p.red == 0 && p.green == 0 && p.blue == 0
  {
  }
}
