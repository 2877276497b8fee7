/** The full-image nearest-edge search of the SDF generator (FindNearestEdge). */
module EdgeSearch {
  import opened Grid
  import opened Roots

  datatype Option<+T> = None | Some(value: T)

  /** Whether a neighbour lies on the other side of the 0.5 alpha threshold from the
      centre pixel; a neighbour exactly at 0.5 counts as opaque. */
  predicate Crosses(centerAlpha: real, neighborAlpha: real): (b: bool)
    ensures b <==> ((centerAlpha < 0.5) != (neighborAlpha < 0.5))
  {
    (centerAlpha < 0.5 && neighborAlpha >= 0.5) || (centerAlpha >= 0.5 && neighborAlpha < 0.5)
  }

  /** Pixel (nx, ny) is an edge pixel for centre (x, y): it lies in the image, is not
      the centre itself, and is across the threshold from it. */
  predicate IsEdge(alpha: seq<real>, width: nat, height: nat, x: nat, y: nat, nx: nat, ny: nat)
    requires |alpha| == width * height && x < width && y < height
  {
    nx < width && ny < height && (nx != x || ny != y)
    && Crosses(At(alpha, width, height, x, y), At(alpha, width, height, nx, ny))
  }

  /** Squared Euclidean distance between two pixels. */
  function SqDist(x: nat, y: nat, nx: nat, ny: nat): (d: nat)
    ensures d == 0 <==> (nx == x && ny == y)
  {
    var dx := nx - x;
    var dy := ny - y;
    SumOfSquares(dx, dy);
    dx * dx + dy * dy
  }

  lemma SquareAtLeastOne(d: int)
    requires d != 0
    ensures 1 <= d * d
  {
    var m := if d < 0 then -d else d;
    assert d * d == m * m;
    assert m * m == m + m * (m - 1);
    assert 0 <= m * (m - 1);
  }

  lemma SquareNonNegative(d: int)
    ensures 0 <= d * d
  {
    if d != 0 {
      SquareAtLeastOne(d);
    }
  }

  lemma SumOfSquares(dx: int, dy: int)
    ensures 0 <= dx * dx + dy * dy
    ensures dx * dx + dy * dy == 0 <==> dx == 0 && dy == 0
  {
    SquareNonNegative(dx);
    SquareNonNegative(dy);
    if dx != 0 {
      SquareAtLeastOne(dx);
    } else if dy != 0 {
      SquareAtLeastOne(dy);
    }
  }

  /** The smaller of two optional squared distances; None stands for "none found yet". */
  function MinOpt(a: Option<nat>, b: Option<nat>): Option<nat> {
    match a
    case None => b
    case Some(s) =>
      match b
      case None => a
      case Some(t) => Some(if s <= t then s else t)
  }

  /** Squared distance of (nx, ny) if it is an edge pixel for (x, y). */
  function Candidate(alpha: seq<real>, width: nat, height: nat, x: nat, y: nat, nx: nat, ny: nat): Option<nat>
    requires |alpha| == width * height && x < width && y < height
  {
    if IsEdge(alpha, width, height, x, y, nx, ny) then Some(SqDist(x, y, nx, ny)) else None
  }

  /** Least squared edge distance among the first n pixels of row ny. */
  function RowMin(alpha: seq<real>, width: nat, height: nat, x: nat, y: nat, ny: nat, n: nat): Option<nat>
    requires |alpha| == width * height && x < width && y < height
  {
    if n == 0 then None
    else MinOpt(RowMin(alpha, width, height, x, y, ny, n - 1), Candidate(alpha, width, height, x, y, n - 1, ny))
  }

  /** Least squared edge distance among the first m rows. */
  function GridMin(alpha: seq<real>, width: nat, height: nat, x: nat, y: nat, m: nat): Option<nat>
    requires |alpha| == width * height && x < width && y < height
  {
    if m == 0 then None
    else MinOpt(GridMin(alpha, width, height, x, y, m - 1), RowMin(alpha, width, height, x, y, m - 1, width))
  }

  /** Least squared distance from (x, y) to an edge pixel anywhere in the image, if any. */
  function NearestEdgeSq(alpha: seq<real>, width: nat, height: nat, x: nat, y: nat): Option<nat>
    requires |alpha| == width * height && x < width && y < height
  {
    GridMin(alpha, width, height, x, y, height)
  }

  /** The distance FindNearestEdge reports: the root of the least squared distance,
      or 0 when the image holds no edge pixel for (x, y). */
  function NearestEdgeDistance(alpha: seq<real>, width: nat, height: nat, x: nat, y: nat, sqrt: nat -> real): (d: real)
    requires |alpha| == width * height && x < width && y < height
    requires IsSqrt(sqrt)
    ensures 0.0 <= d
  {
    match NearestEdgeSq(alpha, width, height, x, y)
    case None => 0.0
    case Some(s) => sqrt(s)
  }

  /** Some edge pixel for (x, y) lies among the first m rows. */
  ghost predicate HasEdgeInRows(alpha: seq<real>, width: nat, height: nat, x: nat, y: nat, m: nat)
    requires |alpha| == width * height && x < width && y < height
  {
    exists nx: nat, ny: nat :: ny < m && IsEdge(alpha, width, height, x, y, nx, ny)
  }

  /** r is the least squared edge distance over the first n pixels of row ny. */
  ghost predicate IsLeastInRow(alpha: seq<real>, width: nat, height: nat, x: nat, y: nat, ny: nat, n: nat, r: Option<nat>)
    requires |alpha| == width * height && x < width && y < height
  {
    match r
    case None => forall nx: nat :: nx < n ==> !IsEdge(alpha, width, height, x, y, nx, ny)
    case Some(s) =>
      && (exists nx: nat :: nx < n && IsEdge(alpha, width, height, x, y, nx, ny) && SqDist(x, y, nx, ny) == s)
      && (forall nx: nat :: nx < n && IsEdge(alpha, width, height, x, y, nx, ny) ==> s <= SqDist(x, y, nx, ny))
  }

  /** r is the least squared edge distance over the first m rows. */
  ghost predicate IsLeastInRows(alpha: seq<real>, width: nat, height: nat, x: nat, y: nat, m: nat, r: Option<nat>)
    requires |alpha| == width * height && x < width && y < height
  {
    match r
    case None => !HasEdgeInRows(alpha, width, height, x, y, m)
    case Some(s) =>
      && (exists nx: nat, ny: nat :: ny < m && IsEdge(alpha, width, height, x, y, nx, ny) && SqDist(x, y, nx, ny) == s)
      && (forall nx: nat, ny: nat :: ny < m && IsEdge(alpha, width, height, x, y, nx, ny) ==> s <= SqDist(x, y, nx, ny))
  }

  lemma {:induction false} RowMinIsLeast(alpha: seq<real>, width: nat, height: nat, x: nat, y: nat, ny: nat, n: nat)
    requires |alpha| == width * height && x < width && y < height
    ensures IsLeastInRow(alpha, width, height, x, y, ny, n, RowMin(alpha, width, height, x, y, ny, n))
  {
    if n > 0 {
      RowMinIsLeast(alpha, width, height, x, y, ny, n - 1);
      var prev := RowMin(alpha, width, height, x, y, ny, n - 1);
      if IsEdge(alpha, width, height, x, y, n - 1, ny) {
        var t := SqDist(x, y, n - 1, ny);
        match prev
        case None =>
        case Some(s) =>
          var nx0: nat :| nx0 < n - 1 && IsEdge(alpha, width, height, x, y, nx0, ny) && SqDist(x, y, nx0, ny) == s;
          if s <= t {
            assert nx0 < n;
          }
      }
    }
  }

  lemma {:induction false} GridMinIsLeast(alpha: seq<real>, width: nat, height: nat, x: nat, y: nat, m: nat)
    requires |alpha| == width * height && x < width && y < height
    ensures IsLeastInRows(alpha, width, height, x, y, m, GridMin(alpha, width, height, x, y, m))
  {
    if m > 0 {
      GridMinIsLeast(alpha, width, height, x, y, m - 1);
      RowMinIsLeast(alpha, width, height, x, y, m - 1, width);
      var prev := GridMin(alpha, width, height, x, y, m - 1);
      var row := RowMin(alpha, width, height, x, y, m - 1, width);
      if prev.None? && row.None? {
        assert !HasEdgeInRows(alpha, width, height, x, y, m - 1);
        forall nx: nat, ny: nat | ny < m ensures !IsEdge(alpha, width, height, x, y, nx, ny) {
        }
      } else if prev.None? {
        var t := row.value;
        var nx1: nat :| nx1 < width && IsEdge(alpha, width, height, x, y, nx1, m - 1) && SqDist(x, y, nx1, m - 1) == t;
        assert !HasEdgeInRows(alpha, width, height, x, y, m - 1);
        forall nx: nat, ny: nat | ny < m && IsEdge(alpha, width, height, x, y, nx, ny)
          ensures t <= SqDist(x, y, nx, ny)
        {
        }
      } else if row.None? {
        var s := prev.value;
        forall nx: nat, ny: nat | ny < m && IsEdge(alpha, width, height, x, y, nx, ny)
          ensures s <= SqDist(x, y, nx, ny)
        {
        }
      } else {
        var s, t := prev.value, row.value;
        var nx0: nat, ny0: nat :| ny0 < m - 1 && IsEdge(alpha, width, height, x, y, nx0, ny0) && SqDist(x, y, nx0, ny0) == s;
        var nx1: nat :| nx1 < width && IsEdge(alpha, width, height, x, y, nx1, m - 1) && SqDist(x, y, nx1, m - 1) == t;
        forall nx: nat, ny: nat | ny < m && IsEdge(alpha, width, height, x, y, nx, ny)
          ensures (if s <= t then s else t) <= SqDist(x, y, nx, ny)
        {
          if ny == m - 1 {
            assert nx < width;
          }
        }
      }
    }
  }

  /** FindNearestEdge's meaning: with no edge pixel anywhere the distance is 0; otherwise
      it is the Euclidean distance to some edge pixel, no edge pixel is nearer, and it is
      at least one pixel because the centre itself is never a candidate. */
  lemma NearestEdgeDistanceIsLeast(alpha: seq<real>, width: nat, height: nat, x: nat, y: nat, sqrt: nat -> real)
    requires |alpha| == width * height && x < width && y < height
    requires IsSqrt(sqrt)
    ensures var d := NearestEdgeDistance(alpha, width, height, x, y, sqrt);
      && (!HasEdgeInRows(alpha, width, height, x, y, height) ==> d == 0.0)
      && (HasEdgeInRows(alpha, width, height, x, y, height) ==>
            && 1.0 <= d
            && (exists nx: nat, ny: nat :: IsEdge(alpha, width, height, x, y, nx, ny) && d == sqrt(SqDist(x, y, nx, ny))))
      && (forall nx: nat, ny: nat :: IsEdge(alpha, width, height, x, y, nx, ny) ==> d <= sqrt(SqDist(x, y, nx, ny)))
  {
    GridMinIsLeast(alpha, width, height, x, y, height);
    match NearestEdgeSq(alpha, width, height, x, y)
    case None =>
    case Some(s) =>
      var nx0: nat, ny0: nat :| ny0 < height && IsEdge(alpha, width, height, x, y, nx0, ny0) && SqDist(x, y, nx0, ny0) == s;
      SqrtAtLeastOne(sqrt, s);
      forall nx: nat, ny: nat | IsEdge(alpha, width, height, x, y, nx, ny)
        ensures sqrt(s) <= sqrt(SqDist(x, y, nx, ny))
      {
        SqrtMonotone(sqrt, s, SqDist(x, y, nx, ny));
      }
  }

  /** Mathf.Min(minDist, dist) with float.MaxValue as "nothing found yet". */
  function MinDist(minDist: Option<real>, dist: real): (r: real)
    ensures r <= dist && (minDist.Some? ==> r <= minDist.value)
    ensures r == dist || (minDist.Some? && r == minDist.value)
  {
    match minDist
    case None => dist
    case Some(m) => if m < dist then m else dist
  }

  function Lift(sqrt: nat -> real, o: Option<nat>): Option<real> {
    match o
    case None => None
    case Some(s) => Some(sqrt(s))
  }

  /** Taking the smaller root is taking the root of the smaller square. */
  lemma LiftMinOpt(sqrt: nat -> real, a: Option<nat>, s: nat)
    requires IsSqrt(sqrt)
    ensures Lift(sqrt, MinOpt(a, Some(s))) == Some(MinDist(Lift(sqrt, a), sqrt(s)))
  {
    match a
    case None =>
    case Some(t) =>
      SqrtMonotone(sqrt, if t <= s then t else s, if t <= s then s else t);
  }

  lemma MinOptAssoc(a: Option<nat>, b: Option<nat>, c: Option<nat>)
    ensures MinOpt(MinOpt(a, b), c) == MinOpt(a, MinOpt(b, c))
  {
  }

  /** Scans the whole image for the nearest pixel across the 0.5 threshold from (x, y),
      keeping the running minimum of Euclidean distances. */
  method FindNearestEdge(alpha: array<real>, x: nat, y: nat, width: nat, height: nat, sqrt: nat -> real)
    returns (d: real)
    requires alpha.Length == width * height && x < width && y < height
    requires IsSqrt(sqrt)
    ensures d == NearestEdgeDistance(alpha[..], width, height, x, y, sqrt)
  {
    ghost var a := alpha[..];
    var minDist: Option<real> := None;
    var centerAlpha := alpha[Index(width, height, x, y)];
    for ny := 0 to height
      invariant minDist == Lift(sqrt, GridMin(a, width, height, x, y, ny))
    {
      for nx := 0 to width
        invariant minDist == Lift(sqrt, MinOpt(GridMin(a, width, height, x, y, ny), RowMin(a, width, height, x, y, ny, nx)))
      {
        ghost var before := MinOpt(GridMin(a, width, height, x, y, ny), RowMin(a, width, height, x, y, ny, nx));
        MinOptAssoc(GridMin(a, width, height, x, y, ny), RowMin(a, width, height, x, y, ny, nx),
                    Candidate(a, width, height, x, y, nx, ny));
        if nx == x && ny == y {
          continue;
        }
        var neighborAlpha := alpha[Index(width, height, nx, ny)];
        if (centerAlpha < 0.5 && neighborAlpha >= 0.5) || (centerAlpha >= 0.5 && neighborAlpha < 0.5) {
          var dist := sqrt(SqDist(x, y, nx, ny));
          LiftMinOpt(sqrt, before, SqDist(x, y, nx, ny));
          minDist := Some(MinDist(minDist, dist));
        }
      }
    }
    d := if minDist.None? then 0.0 else minDist.value;
  }
}
