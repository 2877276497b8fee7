/** Row-major pixel grids: the index arithmetic shared by every pass over an image. */
module Grid {

  lemma MulAtLeast(k: nat, width: nat)
    requires 1 <= k
    ensures width <= k * width
  {
    assert k * width == width + (k - 1) * width;
  }

  lemma MulMonotone(a: nat, b: nat, width: nat)
    ensures a <= b ==> a * width <= b * width
  {
    if a <= b {
      assert b * width == a * width + (b - a) * width;
    }
  }

  /** Row y of an image with more than y rows ends at or before the image does. */
  lemma RowStartBound(width: nat, height: nat, y: nat)
    requires y < height
    ensures y * width + width <= height * width
  {
    assert height * width == y * width + (height - y) * width;
    MulAtLeast(height - y, width);
  }

  /** Flat index of pixel (x, y) in an image `width` pixels wide, stored row by row. */
  function Index(width: nat, height: nat, x: nat, y: nat): (i: nat)
    requires x < width && y < height
    ensures i < width * height
  {
    RowStartBound(width, height, y);
    y * width + x
  }

  /** Flat indices follow the row-by-row scan order: a pixel comes earlier exactly
      when it is on an earlier row, or on the same row further left. */
  lemma IndexOrder(width: nat, height: nat, x1: nat, y1: nat, x2: nat, y2: nat)
    requires x1 < width && y1 < height && x2 < width && y2 < height
    ensures Index(width, height, x1, y1) < Index(width, height, x2, y2)
            <==> y1 < y2 || (y1 == y2 && x1 < x2)
  {
    if y1 < y2 {
      RowStartBound(width, y2, y1);
    } else if y2 < y1 {
      RowStartBound(width, y1, y2);
    }
  }

  /** Every flat index names exactly one pixel: column i % width of row i / width. */
  lemma PixelOfIndex(width: nat, height: nat, i: nat)
    requires i < width * height
    ensures 0 < width && i % width < width && i / width < height
    ensures Index(width, height, i % width, i / width) == i
  {
    assert 0 < width by {
      assert width == 0 ==> width * height == 0;
    }
    var q, r := i / width, i % width;
    assert i == q * width + r;
    MulMonotone(height, q, width);
  }

  /** The value stored for pixel (x, y) of a width-by-height field. */
  function At(field: seq<real>, width: nat, height: nat, x: nat, y: nat): real
    requires |field| == width * height && x < width && y < height
  {
    field[Index(width, height, x, y)]
  }
}
