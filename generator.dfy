/** The pixel pipeline of the SDF generator window: GenerateSDFTexture, and the pixels
    of the alpha export written by SaveSDFTextureAsAlpha. A texture is its pixel array,
    row by row, width * height long. */
module Generator {
  import opened Grid
  import opened Roots
  import opened ColorPolicy
  import opened DistanceField
  import opened PostProcess

  /** The alpha channel of a pixel sequence. */
  function Alphas(pixels: seq<Color>): (alpha: seq<real>)
    ensures |alpha| == |pixels|
  {
    seq(|pixels|, i requires 0 <= i < |pixels| => pixels[i].a)
  }

  /** Copies every source pixel's alpha into a new field of the same size. */
  method ExtractAlpha(sourcePixels: array<Color>, width: nat, height: nat) returns (alphaChannel: array<real>)
    requires sourcePixels.Length == width * height
    ensures fresh(alphaChannel) && alphaChannel.Length == width * height
    ensures forall i :: 0 <= i < alphaChannel.Length ==> alphaChannel[i] == sourcePixels[i].a
    ensures alphaChannel[..] == Alphas(sourcePixels[..])
  {
    alphaChannel := new real[width * height];
    for i := 0 to sourcePixels.Length
      invariant forall k :: 0 <= k < i ==> alphaChannel[k] == sourcePixels[k].a
    {
      alphaChannel[i] := sourcePixels[i].a;
    }
  }

  /** Packs the fill mode's RGB and the SDF value, as alpha, into new output pixels. */
  method AssemblePixels(sourcePixels: array<Color>, sdfValues: array<real>, mode: FillMode)
    returns (outputPixels: array<Color>)
    requires sdfValues.Length == sourcePixels.Length
    ensures fresh(outputPixels) && outputPixels.Length == sdfValues.Length
    ensures forall i :: 0 <= i < outputPixels.Length ==>
              outputPixels[i] == OutputPixel(mode, sdfValues[i], sourcePixels[i]) && outputPixels[i].a == sdfValues[i]
  {
    outputPixels := new Color[sdfValues.Length](_ => Color(0.0, 0.0, 0.0, 0.0));
    for i := 0 to outputPixels.Length
      invariant forall k :: 0 <= k < i ==> outputPixels[k] == OutputPixel(mode, sdfValues[k], sourcePixels[k])
    {
      var sdf := sdfValues[i];
      var rgb := GetRGBColor(mode, sdf, sourcePixels[i]);
      outputPixels[i] := Color(rgb.r, rgb.g, rgb.b, sdf);
    }
  }

  /** Packs the source RGB and the SDF value, as alpha, into new output pixels. */
  method AssembleAlphaPixels(sourcePixels: array<Color>, sdfValues: array<real>)
    returns (outputPixels: array<Color>)
    requires sdfValues.Length == sourcePixels.Length
    ensures fresh(outputPixels) && outputPixels.Length == sdfValues.Length
    ensures forall i :: 0 <= i < outputPixels.Length ==>
              outputPixels[i] == AlphaPixel(sdfValues[i], sourcePixels[i]) && outputPixels[i].a == sdfValues[i]
  {
    outputPixels := new Color[sdfValues.Length](_ => Color(0.0, 0.0, 0.0, 0.0));
    for i := 0 to outputPixels.Length
      invariant forall k :: 0 <= k < i ==> outputPixels[k] == AlphaPixel(sdfValues[k], sourcePixels[k])
    {
      outputPixels[i] := Color(sourcePixels[i].r, sourcePixels[i].g, sourcePixels[i].b, sdfValues[i]);
    }
  }

  /** The whole generator: alpha extraction, the SDF, the optional edge-band pass when
      the post-process distance is positive, and output assembly. Every output pixel
      carries its SDF value as alpha, in [0, 1], and the fill mode's RGB. */
  method GenerateSDFTexture(sourcePixels: array<Color>, width: nat, height: nat,
                            insideDist: real, outsideDist: real, postProcessDist: real,
                            mode: FillMode, sqrt: nat -> real)
    returns (outputPixels: array<Color>)
    requires sourcePixels.Length == width * height
    requires 0.0 < insideDist && 0.0 < outsideDist && IsSqrt(sqrt)
    ensures fresh(outputPixels) && outputPixels.Length == width * height
    ensures forall x: nat, y: nat | x < width && y < height ::
              outputPixels[Index(width, height, x, y)]
              == OutputPixel(mode, PixelSdf(Alphas(sourcePixels[..]), width, height, x, y, insideDist, outsideDist, sqrt),
                             sourcePixels[Index(width, height, x, y)])
    ensures forall i :: 0 <= i < outputPixels.Length ==> 0.0 <= outputPixels[i].a <= 1.0
  {
    var alphaChannel := ExtractAlpha(sourcePixels, width, height);
    var sdfValues := CalculateSDF(alphaChannel, width, height, insideDist, outsideDist, sqrt);
    if postProcessDist > 0.0 {
      ApplyPostProcess(sdfValues, width, height, postProcessDist);
    }
    outputPixels := AssemblePixels(sourcePixels, sdfValues, mode);
  }

  /** The pixels of the alpha export: the source RGB kept, the SDF value as alpha.
      This path runs no edge-band pass. */
  method SDFAlphaTexturePixels(sourcePixels: array<Color>, width: nat, height: nat,
                               insideDist: real, outsideDist: real, sqrt: nat -> real)
    returns (outputPixels: array<Color>)
    requires sourcePixels.Length == width * height
    requires 0.0 < insideDist && 0.0 < outsideDist && IsSqrt(sqrt)
    ensures fresh(outputPixels) && outputPixels.Length == width * height
    ensures forall x: nat, y: nat | x < width && y < height ::
              outputPixels[Index(width, height, x, y)]
              == AlphaPixel(PixelSdf(Alphas(sourcePixels[..]), width, height, x, y, insideDist, outsideDist, sqrt),
                            sourcePixels[Index(width, height, x, y)])
    ensures forall i :: 0 <= i < outputPixels.Length ==> 0.0 <= outputPixels[i].a <= 1.0
  {
    var alphaChannel := ExtractAlpha(sourcePixels, width, height);
    var sdfValues := CalculateSDF(alphaChannel, width, height, insideDist, outsideDist, sqrt);
    outputPixels := AssembleAlphaPixels(sourcePixels, sdfValues);
  }
}
