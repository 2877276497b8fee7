/** CalculateSDF: normalises each pixel's nearest-edge distance into [0, 1]. */
module DistanceField {
  import opened Grid
  import opened Roots
  import opened EdgeSearch

  /** Mathf.Clamp01. */
  function Clamp01(v: real): (r: real)
    ensures 0.0 <= r <= 1.0
    ensures 0.0 <= v <= 1.0 ==> r == v
    ensures v < 0.0 ==> r == 0.0
    ensures 1.0 < v ==> r == 1.0
  {
    if v < 0.0 then 0.0 else if v > 1.0 then 1.0 else v
  }

  /** Value of an outside pixel (alpha <= 0) whose nearest edge is d pixels away. */
  function OutsideValue(d: real, outsideDist: real): (v: real)
    requires 0.0 <= d && 0.0 < outsideDist
    ensures 0.0 <= v <= 0.5
    ensures v == 0.5 <==> d == 0.0
    ensures outsideDist <= d ==> v == 0.0
  {
    assert 0.0 <= d / outsideDist;
    assert 0.0 < d ==> 0.0 < d / outsideDist;
    assert outsideDist <= d ==> 1.0 <= d / outsideDist;
    Clamp01(0.5 - (d / outsideDist) * 0.5)
  }

  /** Value of an inside pixel (alpha >= 1) whose nearest edge is d pixels away. */
  function InsideValue(d: real, insideDist: real): (v: real)
    requires 0.0 <= d && 0.0 < insideDist
    ensures 0.5 <= v <= 1.0
    ensures v == 0.5 <==> d == 0.0
    ensures insideDist <= d ==> v == 1.0
  {
    assert 0.0 <= d / insideDist;
    assert 0.0 < d ==> 0.0 < d / insideDist;
    assert insideDist <= d ==> 1.0 <= d / insideDist;
    Clamp01(0.5 + (d / insideDist) * 0.5)
  }

  lemma DivideMonotone(d1: real, d2: real, k: real)
    requires d1 <= d2 && 0.0 < k
    ensures d1 / k <= d2 / k
    ensures d1 < d2 ==> d1 / k < d2 / k
    ensures d2 == k ==> d2 / k == 1.0
  {
    assert d2 / k - d1 / k == (d2 - d1) / k;
  }

  /** Outside values fall away from 0.5 as the edge recedes, strictly so until the
      configured outside distance is reached. */
  lemma OutsideValueFalls(d1: real, d2: real, outsideDist: real)
    requires 0.0 <= d1 <= d2 && 0.0 < outsideDist
    ensures OutsideValue(d2, outsideDist) <= OutsideValue(d1, outsideDist)
    ensures d1 < d2 && d1 < outsideDist ==> OutsideValue(d2, outsideDist) < OutsideValue(d1, outsideDist)
  {
    DivideMonotone(d1, d2, outsideDist);
    if d1 < d2 && d1 < outsideDist {
      DivideMonotone(d1, outsideDist, outsideDist);
      assert d1 / outsideDist < 1.0;
    }
  }

  /** Inside values rise away from 0.5 as the edge recedes, strictly so until the
      configured inside distance is reached. */
  lemma InsideValueRises(d1: real, d2: real, insideDist: real)
    requires 0.0 <= d1 <= d2 && 0.0 < insideDist
    ensures InsideValue(d1, insideDist) <= InsideValue(d2, insideDist)
    ensures d1 < d2 && d1 < insideDist ==> InsideValue(d1, insideDist) < InsideValue(d2, insideDist)
  {
    DivideMonotone(d1, d2, insideDist);
    if d1 < d2 && d1 < insideDist {
      DivideMonotone(d1, insideDist, insideDist);
      assert d1 / insideDist < 1.0;
    }
  }

  /** The SDF value CalculateSDF stores for pixel (x, y). */
  function PixelSdf(alpha: seq<real>, width: nat, height: nat, x: nat, y: nat,
                    insideDist: real, outsideDist: real, sqrt: nat -> real): (v: real)
    requires |alpha| == width * height && x < width && y < height
    requires 0.0 < insideDist && 0.0 < outsideDist && IsSqrt(sqrt)
    ensures 0.0 <= v <= 1.0
    ensures At(alpha, width, height, x, y) <= 0.0 ==> v <= 0.5
    ensures At(alpha, width, height, x, y) >= 1.0 ==> v >= 0.5
    ensures 0.0 < At(alpha, width, height, x, y) < 1.0 ==> v == 0.5
  {
    var a := At(alpha, width, height, x, y);
    if a <= 0.0 then OutsideValue(NearestEdgeDistance(alpha, width, height, x, y, sqrt), outsideDist)
    else if a >= 1.0 then InsideValue(NearestEdgeDistance(alpha, width, height, x, y, sqrt), insideDist)
    else 0.5
  }

  /** Within one image, of two outside pixels the one farther from its nearest edge
      gets the smaller value, and of two inside pixels the farther one gets the larger. */
  lemma SdfOrderedByEdgeDistance(alpha: seq<real>, width: nat, height: nat, x1: nat, y1: nat, x2: nat, y2: nat,
                                 insideDist: real, outsideDist: real, sqrt: nat -> real)
    requires |alpha| == width * height && x1 < width && y1 < height && x2 < width && y2 < height
    requires 0.0 < insideDist && 0.0 < outsideDist && IsSqrt(sqrt)
    requires NearestEdgeDistance(alpha, width, height, x1, y1, sqrt) <= NearestEdgeDistance(alpha, width, height, x2, y2, sqrt)
    ensures At(alpha, width, height, x1, y1) <= 0.0 && At(alpha, width, height, x2, y2) <= 0.0 ==>
              PixelSdf(alpha, width, height, x2, y2, insideDist, outsideDist, sqrt)
              <= PixelSdf(alpha, width, height, x1, y1, insideDist, outsideDist, sqrt)
    ensures At(alpha, width, height, x1, y1) >= 1.0 && At(alpha, width, height, x2, y2) >= 1.0 ==>
              PixelSdf(alpha, width, height, x1, y1, insideDist, outsideDist, sqrt)
              <= PixelSdf(alpha, width, height, x2, y2, insideDist, outsideDist, sqrt)
  {
    var d1 := NearestEdgeDistance(alpha, width, height, x1, y1, sqrt);
    var d2 := NearestEdgeDistance(alpha, width, height, x2, y2, sqrt);
    OutsideValueFalls(d1, d2, outsideDist);
    InsideValueRises(d1, d2, insideDist);
  }

  /** An image whose pixels all lie on one side of the 0.5 threshold has no edge, so
      every pixel, opaque, transparent or in between, gets exactly 0.5. */
  lemma {:induction false} OneSidedImageIsMidpoint(alpha: seq<real>, width: nat, height: nat, x: nat, y: nat,
                                                   insideDist: real, outsideDist: real, sqrt: nat -> real)
    requires |alpha| == width * height && x < width && y < height
    requires 0.0 < insideDist && 0.0 < outsideDist && IsSqrt(sqrt)
    requires (forall i :: 0 <= i < |alpha| ==> alpha[i] >= 0.5) || (forall i :: 0 <= i < |alpha| ==> alpha[i] < 0.5)
    ensures PixelSdf(alpha, width, height, x, y, insideDist, outsideDist, sqrt) == 0.5
  {
    forall nx: nat, ny: nat ensures !IsEdge(alpha, width, height, x, y, nx, ny) {
      if nx < width && ny < height {
        var i, j := Index(width, height, x, y), Index(width, height, nx, ny);
        assert alpha[i] >= 0.5 <==> alpha[j] >= 0.5;
      }
    }
    NearestEdgeDistanceIsLeast(alpha, width, height, x, y, sqrt);
  }

  /** If some edge pixel is exactly k away and none is nearer, the search reports k. */
  lemma NearestEdgeDistanceIs(alpha: seq<real>, width: nat, height: nat, x: nat, y: nat, sqrt: nat -> real,
                              nx: nat, ny: nat, k: nat)
    requires |alpha| == width * height && x < width && y < height
    requires IsSqrt(sqrt)
    requires IsEdge(alpha, width, height, x, y, nx, ny) && SqDist(x, y, nx, ny) == k * k
    requires forall mx: nat, my: nat :: IsEdge(alpha, width, height, x, y, mx, my) ==> k * k <= SqDist(x, y, mx, my)
    ensures NearestEdgeDistance(alpha, width, height, x, y, sqrt) == k as real
  {
    GridMinIsLeast(alpha, width, height, x, y, height);
    assert HasEdgeInRows(alpha, width, height, x, y, height);
    SqrtOfSquare(sqrt, k);
  }

  /** The single-row regression image [0, 0, 1, 1]. */
  function RegressionImage(): seq<real> { [0.0, 0.0, 1.0, 1.0] }

  /** In the regression image the nearest crossing pixels of pixels 0, 1, 2 and 3 are
      2, 1, 1 and 2 pixels away. */
  lemma RegressionDistances(sqrt: nat -> real, x: nat)
    requires IsSqrt(sqrt) && x < 4
    ensures NearestEdgeDistance(RegressionImage(), 4, 1, x, 0, sqrt) == [2.0, 1.0, 1.0, 2.0][x]
  {
    var row := RegressionImage();
    forall mx: nat | mx < 4 ensures At(row, 4, 1, mx, 0) == row[mx] {
    }
    var nx: nat, k: nat := [2, 2, 1, 1][x], [2, 1, 1, 2][x];
    forall mx: nat, my: nat | IsEdge(row, 4, 1, x, 0, mx, my) ensures k * k <= SqDist(x, 0, mx, my) {
      assert my == 0 && mx < 4;
    }
    NearestEdgeDistanceIs(row, 4, 1, x, 0, sqrt, nx, 0, k);
  }

  /** With inside and outside distances of 2, the regression image maps to the SDF
      row [0, 0.25, 0.75, 1]. */
  lemma RegressionRow(sqrt: nat -> real, x: nat)
    requires IsSqrt(sqrt) && x < 4
    ensures PixelSdf(RegressionImage(), 4, 1, x, 0, 2.0, 2.0, sqrt) == [0.0, 0.25, 0.75, 1.0][x]
  {
    RegressionDistances(sqrt, x);
    assert At(RegressionImage(), 4, 1, x, 0) == RegressionImage()[x];
  }

  /** Every pixel before (x, y) in scan order holds its SDF value in `field`. */
  ghost predicate FilledUpTo(field: seq<real>, alpha: seq<real>, width: nat, height: nat, x: nat, y: nat,
                             insideDist: real, outsideDist: real, sqrt: nat -> real)
    requires |alpha| == width * height
    requires 0.0 < insideDist && 0.0 < outsideDist && IsSqrt(sqrt)
  {
    && |field| == width * height
    && forall xx: nat, yy: nat | xx < width && yy < height && (yy < y || (yy == y && xx < x)) ::
         field[Index(width, height, xx, yy)] == PixelSdf(alpha, width, height, xx, yy, insideDist, outsideDist, sqrt)
  }

  /** Storing the value of (x, y) extends the filled part by one pixel. */
  lemma FillPixel(field: seq<real>, alpha: seq<real>, width: nat, height: nat, x: nat, y: nat,
                  insideDist: real, outsideDist: real, sqrt: nat -> real)
    requires |alpha| == width * height && x < width && y < height
    requires 0.0 < insideDist && 0.0 < outsideDist && IsSqrt(sqrt)
    requires FilledUpTo(field, alpha, width, height, x, y, insideDist, outsideDist, sqrt)
    ensures FilledUpTo(field[Index(width, height, x, y) := PixelSdf(alpha, width, height, x, y, insideDist, outsideDist, sqrt)],
                       alpha, width, height, x + 1, y, insideDist, outsideDist, sqrt)
  {
    forall xx: nat, yy: nat | xx < width && yy < height && (yy < y || (yy == y && xx < x))
      ensures Index(width, height, xx, yy) != Index(width, height, x, y)
    {
      IndexOrder(width, height, xx, yy, x, y);
    }
  }

  /** A finished row is the start of the next one. */
  lemma FillRow(field: seq<real>, alpha: seq<real>, width: nat, height: nat, y: nat,
                insideDist: real, outsideDist: real, sqrt: nat -> real)
    requires |alpha| == width * height
    requires 0.0 < insideDist && 0.0 < outsideDist && IsSqrt(sqrt)
    requires FilledUpTo(field, alpha, width, height, width, y, insideDist, outsideDist, sqrt)
    ensures FilledUpTo(field, alpha, width, height, 0, y + 1, insideDist, outsideDist, sqrt)
  {
  }

  /** Computes the SDF field of an alpha field: outside pixels by their distance to
      the nearest opaque pixel, inside pixels by their distance to the nearest
      transparent one, and 0.5 for every partially transparent pixel. */
  method CalculateSDF(alpha: array<real>, width: nat, height: nat, insideDist: real, outsideDist: real,
                      sqrt: nat -> real)
    returns (sdf: array<real>)
    requires alpha.Length == width * height
    requires 0.0 < insideDist && 0.0 < outsideDist && IsSqrt(sqrt)
    ensures fresh(sdf) && sdf.Length == width * height
    ensures forall x: nat, y: nat | x < width && y < height ::
              sdf[Index(width, height, x, y)] == PixelSdf(alpha[..], width, height, x, y, insideDist, outsideDist, sqrt)
    ensures forall i :: 0 <= i < sdf.Length ==> 0.0 <= sdf[i] <= 1.0
  {
    ghost var a := alpha[..];
    sdf := new real[width * height];
    for y := 0 to height
      invariant FilledUpTo(sdf[..], a, width, height, 0, y, insideDist, outsideDist, sqrt)
    {
      for x := 0 to width
        invariant FilledUpTo(sdf[..], a, width, height, x, y, insideDist, outsideDist, sqrt)
      {
        ghost var before := sdf[..];
        FillPixel(before, a, width, height, x, y, insideDist, outsideDist, sqrt);
        var index := Index(width, height, x, y);
        var alphaValue := alpha[index];
        if alphaValue <= 0.0 {
          var minDist := FindNearestEdge(alpha, x, y, width, height, sqrt);
          sdf[index] := Clamp01(0.5 - (minDist / outsideDist) * 0.5);
        } else if alphaValue >= 1.0 {
          var minDist := FindNearestEdge(alpha, x, y, width, height, sqrt);
          sdf[index] := Clamp01(0.5 + (minDist / insideDist) * 0.5);
        } else {
          sdf[index] := 0.5;
        }
        assert sdf[..] == before[index := PixelSdf(a, width, height, x, y, insideDist, outsideDist, sqrt)];
      }
      FillRow(sdf[..], a, width, height, y, insideDist, outsideDist, sqrt);
    }
    assert FilledUpTo(sdf[..], a, width, height, 0, height, insideDist, outsideDist, sqrt);
    forall i | 0 <= i < sdf.Length ensures 0.0 <= sdf[i] <= 1.0 {
      PixelOfIndex(width, height, i);
      ghost var v := PixelSdf(a, width, height, i % width, i / width, insideDist, outsideDist, sqrt);
    }
  }
}
