/** The coordinate mapper: `ImageRaster._to_real`. */
module Coordinates {

  /** What the mapping depends on: the bordered grid's width and height in pixels
      (`max_x_pix`, `max_y_pix`) and the physical size of one pixel (`laser_width`). */
  datatype Frame = Frame(maxXPix: nat, maxYPix: nat, laserWidth: real)

  /** Plane position of pixel (col, row), written as the source writes it. */
  function ToReal(frame: Frame, col: int, row: int): (real, real)
  {
    var lw := frame.laserWidth;
    (col as real * lw - ((frame.maxXPix - 1) as real * lw) / 2.0,
     (frame.maxYPix - row) as real * lw - ((frame.maxYPix + 1) as real * lw) / 2.0)
  }

  /** Both axes are centred on the grid: x = (col - (W-1)/2) * lw and
      y = ((H-1)/2 - row) * lw, although the source writes the two additive
      terms differently. */
  lemma ToRealCentred(frame: Frame, col: int, row: int)
    ensures ToReal(frame, col, row).0 == (col as real - (frame.maxXPix as real - 1.0) / 2.0) * frame.laserWidth
    ensures ToReal(frame, col, row).1 == ((frame.maxYPix as real - 1.0) / 2.0 - row as real) * frame.laserWidth
  {
  }

  /** Columns mirrored about the middle of the grid map to opposite x. */
  lemma XCentred(frame: Frame, col: int, row: int)
    ensures ToReal(frame, col, row).0 + ToReal(frame, frame.maxXPix - 1 - col, row).0 == 0.0
  {
  }

  /** Rows mirrored about the middle of the grid map to opposite y. */
  lemma YCentred(frame: Frame, col: int, row: int)
    ensures ToReal(frame, col, row).1 + ToReal(frame, col, frame.maxYPix - 1 - row).1 == 0.0
  {
  }

  /** x grows by one laser width per column and does not depend on the row;
      y falls by one laser width per row and does not depend on the column. */
  lemma UnitSteps(frame: Frame, col: int, row: int, col': int, row': int)
    ensures ToReal(frame, col + 1, row).0 - ToReal(frame, col, row').0 == frame.laserWidth
    ensures ToReal(frame, col, row).1 - ToReal(frame, col', row + 1).1 == frame.laserWidth
  {
  }

  /** With a positive laser width, row 0 (the top of the image) has the largest y
      (half the grid height minus a half pixel above the centre). */
  lemma TopRowHighest(frame: Frame, col: int, row: nat)
    requires frame.laserWidth > 0.0
    ensures ToReal(frame, col, row).1 <= ToReal(frame, col, 0).1
    ensures ToReal(frame, col, 0).1 == (frame.maxYPix as real - 1.0) / 2.0 * frame.laserWidth
  {
  }
}
