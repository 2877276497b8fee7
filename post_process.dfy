/** ApplyPostProcess: the edge-band refinement pass over the SDF field. Its per-pixel
    refinement is a placeholder that hands back the value already stored. */
module PostProcess {
  import opened Grid

  /** Mathf.Abs. */
  function Abs(r: real): (a: real)
    ensures 0.0 <= a && (a == r || a == -r)
  {
    if r < 0.0 then -r else r
  }

  /** Mathf.CeilToInt: the least integer not below r. */
  function CeilToInt(r: real): (c: int)
    ensures r <= c as real < r + 1.0
  {
    if r.Floor as real == r then r.Floor else r.Floor + 1
  }

  /** Whether a value lies in the band within 0.1 of the 0.5 edge value. */
  predicate NearEdge(v: real): (b: bool)
    ensures b <==> 0.4 < v < 0.6
  {
    Abs(v - 0.5) < 0.1
  }

  /** The placeholder refinement: whatever the search radius, it returns the value the
      field already holds at (x, y). */
  function CalculateAccurateDistance(sdf: seq<real>, x: nat, y: nat, width: nat, height: nat, radius: int): (r: real)
    requires |sdf| == width * height && x < width && y < height
    ensures r == At(sdf, width, height, x, y)
  {
    sdf[Index(width, height, x, y)]
  }

  /** Overwrites every pixel in the edge band with its refined value; as the refinement
      returns the stored value, the whole field is left as it was. */
  method ApplyPostProcess(sdf: array<real>, width: nat, height: nat, postProcessDist: real)
    requires sdf.Length == width * height
    modifies sdf
    ensures sdf[..] == old(sdf[..])
  {
    var radius := CeilToInt(postProcessDist);
    for y := 0 to height
      invariant sdf[..] == old(sdf[..])
    {
      for x := 0 to width
        invariant sdf[..] == old(sdf[..])
      {
        var index := Index(width, height, x, y);
        if NearEdge(sdf[index]) {
          var refinedDist := CalculateAccurateDistance(sdf[..], x, y, width, height, radius);
          sdf[index] := refinedDist;
        }
      }
    }
  }
}
