/** Pixels and the RGB fill policy (GetRGBColor) of the SDF generator. */
module ColorPolicy {

  /** An RGBA colour with real channels. */
  datatype Color = Color(r: real, g: real, b: real, a: real)

  /** An integer that names no fill mode: anything outside 0..3. */
  type UnnamedCode = c: int | c < 0 || 3 < c witness -1

  /** The fill modes of the RGB channels, numbered 0..3 in declaration order. A C# enum
      variable can also hold an integer that names no member (a value cast from stored
      settings, say); `Unnamed` stands for such a value, whose code is outside 0..3,
      and takes the switch's default arm. */
  datatype FillMode = SolidWhite | SolidBlack | SDF | SourceRGB | Unnamed(code: UnnamedCode)

  /** The integer a fill mode is stored as. */
  function ModeCode(mode: FillMode): (c: int)
    ensures 0 <= c <= 3 <==> !mode.Unnamed?
  {
    match mode
    case SolidWhite => 0
    case SolidBlack => 1
    case SDF => 2
    case SourceRGB => 3
    case Unnamed(code) => code
  }

  /** The cast of a stored integer back to a fill mode: 0..3 name the four declared
      modes, any other integer is kept as an unnamed value. */
  function FillModeOf(c: int): (mode: FillMode)
    ensures mode.SolidWhite? <==> c == 0
    ensures mode.SolidBlack? <==> c == 1
    ensures mode.SDF? <==> c == 2
    ensures mode.SourceRGB? <==> c == 3
    ensures mode.Unnamed? <==> (c < 0 || 3 < c)
  {
    if c == 0 then SolidWhite
    else if c == 1 then SolidBlack
    else if c == 2 then SDF
    else if c == 3 then SourceRGB
    else Unnamed(c)
  }

  /** Storing a mode and casting it back gives the same mode, and every integer is the
      code of exactly the mode it casts to. */
  lemma FillModeRoundTrip(mode: FillMode, c: int)
    ensures FillModeOf(ModeCode(mode)) == mode
    ensures ModeCode(FillModeOf(c)) == c
  {
  }

  /** Unity's three-channel Color constructor, which makes the colour opaque. */
  function Rgb(r: real, g: real, b: real): (c: Color)
    ensures c.a == 1.0 && c.r == r && c.g == g && c.b == b
  {
    Color(r, g, b, 1.0)
  }

  /** The RGB part of an output pixel for the given fill mode. */
  function GetRGBColor(mode: FillMode, sdf: real, sourceColor: Color): (c: Color)
    ensures c.a == 1.0
    ensures mode.SourceRGB? ==> c.r == sourceColor.r && c.g == sourceColor.g && c.b == sourceColor.b
    ensures mode.SolidBlack? ==> c.r == c.g == c.b == 1.0 - sdf
    ensures !mode.SourceRGB? && !mode.SolidBlack? ==> c.r == c.g == c.b == sdf
  {
    match mode
    case SolidWhite => Rgb(sdf, sdf, sdf)
    case SolidBlack => Rgb(1.0 - sdf, 1.0 - sdf, 1.0 - sdf)
    case SDF => Rgb(sdf, sdf, sdf)
    case SourceRGB => Rgb(sourceColor.r, sourceColor.g, sourceColor.b)
    case _ => Rgb(sdf, sdf, sdf)
  }

  /** An output pixel: the fill mode's RGB with the SDF value as alpha. */
  function OutputPixel(mode: FillMode, sdf: real, sourceColor: Color): (p: Color)
    ensures p.a == sdf
    ensures var rgb := GetRGBColor(mode, sdf, sourceColor); p.r == rgb.r && p.g == rgb.g && p.b == rgb.b
  {
    var rgb := GetRGBColor(mode, sdf, sourceColor);
    Color(rgb.r, rgb.g, rgb.b, sdf)
  }

  /** A pixel of the alpha export: the source RGB with the SDF value as alpha. */
  function AlphaPixel(sdf: real, sourceColor: Color): (p: Color)
    ensures p.a == sdf
    ensures p.r == sourceColor.r && p.g == sourceColor.g && p.b == sourceColor.b
  {
    Color(sourceColor.r, sourceColor.g, sourceColor.b, sdf)
  }

  predicate InUnit(v: real) { 0.0 <= v <= 1.0 }

  /** SolidBlack is SolidWhite inverted, channel by channel. */
  lemma SolidBlackInvertsSolidWhite(sdf: real, sourceColor: Color)
    ensures var w, k := GetRGBColor(SolidWhite, sdf, sourceColor), GetRGBColor(SolidBlack, sdf, sourceColor);
      k.r == 1.0 - w.r && k.g == 1.0 - w.g && k.b == 1.0 - w.b
  {
  }

  /** SDF mode and every unnamed mode paint exactly what SolidWhite paints. */
  lemma GrayscaleModesAgree(mode: FillMode, sdf: real, sourceColor: Color)
    requires mode.SDF? || mode.Unnamed?
    ensures GetRGBColor(mode, sdf, sourceColor) == GetRGBColor(SolidWhite, sdf, sourceColor)
  {
  }

  /** With an SDF value and source channels in [0, 1], every output channel is in [0, 1]. */
  lemma OutputPixelInUnit(mode: FillMode, sdf: real, sourceColor: Color)
    requires InUnit(sdf) && InUnit(sourceColor.r) && InUnit(sourceColor.g) && InUnit(sourceColor.b)
    ensures var p := OutputPixel(mode, sdf, sourceColor); InUnit(p.r) && InUnit(p.g) && InUnit(p.b) && InUnit(p.a)
  {
  }

  /** The alpha export paints what SourceRGB mode paints. */
  lemma AlphaPixelIsSourceRgbOutput(sdf: real, sourceColor: Color)
    ensures AlphaPixel(sdf, sourceColor) == OutputPixel(SourceRGB, sdf, sourceColor)
  {
  }
}
