# SDF texture generator — pixel pipeline model

This project models the pixel pipeline of the Unity editor window `SDFGenerator`
(`Assets/Editor/SDFGenerator.cs`). The window turns a source texture into a signed
distance field texture:

1. the alpha channel of every source pixel is copied into a float field;
2. `CalculateSDF` classifies each pixel by its alpha: outside (`alpha <= 0`), inside
   (`alpha >= 1`) or partially transparent (anything else, which gets exactly 0.5);
3. for outside and inside pixels, `FindNearestEdge` searches the *whole* image for the
   nearest other pixel on the other side of the 0.5 alpha threshold and returns its
   Euclidean distance, or 0 when there is none; the distance is normalised to
   `clamp01(0.5 - d / outsideDistance * 0.5)` or `clamp01(0.5 + d / insideDistance * 0.5)`;
4. when the post-process distance is positive, `ApplyPostProcess` rewrites every pixel
   whose value is within 0.1 of 0.5 with a "refined" value, which is at present the
   value already stored;
5. output pixels carry the fill mode's RGB (`GetRGBColor`) and the SDF value as alpha;
   the alpha export keeps the source RGB instead.

Images are row-major arrays of `width * height` pixels, pixel `(x, y)` at index
`y * width + x`. Channels and SDF values are `real`s.

Modules, one file each:

- `Grid` (grid.dfy): the row-major index, its bounds and its agreement with the scan order.
- `Roots` (roots.dfy): the square root, taken as a parameter `sqrt: nat -> real`
  that must be the non-negative root of its argument (`IsSqrt`); monotonicity is proved.
- `EdgeSearch` (edge_search.dfy): the threshold test, the reference definition of the
  least squared distance to an edge pixel (a fold over rows and columns), the lemmas
  that it is the least, and `FindNearestEdge`, whose loops keep the running minimum of
  roots with an `Option` in place of the `float.MaxValue` sentinel.
- `DistanceField` (distance_field.dfy): `Clamp01`, the outside and inside
  normalisations and their monotonicity, the value of one pixel (`PixelSdf`), and
  `CalculateSDF` over arrays.
- `PostProcess` (post_process.dfy): `ApplyPostProcess` and its placeholder refinement.
- `ColorPolicy` (color_policy.dfy): colours, fill modes and their integer codes, `GetRGBColor`, output pixels.
- `Generator` (generator.dfy): alpha extraction, output assembly, and the two entry points.

Notes on the code:

- The code never checks that the inside and outside distances are positive (the sliders
  go down to 0); there is no configuration error. The model states positivity as a
  precondition of every member that divides by them.
- The alpha export (`SaveSDFTextureAsAlpha`) skips the edge-band pass; as that pass
  leaves the field unchanged, its pixels equal those of `SourceRGB` mode.
- Zero width or height is not rejected; the model then produces an empty field.

## Model

| member | source | states |
|---|---|---|
| Grid.Index | Assets/Editor/SDFGenerator.cs:261 | the row-major index `y * width + x` of an in-image pixel lies below `width * height` |
| Grid.PixelOfIndex | Assets/Editor/SDFGenerator.cs:257-261 | every flat index below `width * height` is the index of exactly the pixel (i % width, i / width), so the nested loops reach every entry |
| Grid.IndexOrder | Assets/Editor/SDFGenerator.cs:257-261 | one pixel's index is below another's exactly when it comes earlier in the row-by-row scan, so distinct pixels never share an entry |
| Roots.SqrtMonotone | Assets/Editor/SDFGenerator.cs:307-308 | a larger squared distance never has a smaller root, so the minimum of roots is the root of the minimum |
| EdgeSearch.Crosses | Assets/Editor/SDFGenerator.cs:302-303 | a neighbour is an edge pixel exactly when it and the centre lie on different sides of the 0.5 threshold, 0.5 itself counting as opaque |
| EdgeSearch.SqDist | Assets/Editor/SDFGenerator.cs:305-307 | the squared distance `dx * dx + dy * dy` is 0 exactly at the centre pixel, so every other pixel is at least 1 away |
| EdgeSearch.MinDist | Assets/Editor/SDFGenerator.cs:308 | `Mathf.Min` of the running minimum (None for the `float.MaxValue` sentinel) and a new distance is one of the two and no larger than either |
| EdgeSearch.NearestEdgeDistance | Assets/Editor/SDFGenerator.cs:313 | the reported distance, the root of the least squared distance or 0 in place of the sentinel, is never negative |
| EdgeSearch.RowMinIsLeast | Assets/Editor/SDFGenerator.cs:295-310 | over the first n pixels of a row, the fold is None iff none is an edge pixel, else the squared distance of one of them and no larger than any |
| EdgeSearch.GridMinIsLeast | Assets/Editor/SDFGenerator.cs:293-311 | over the first m rows, the fold is None iff no edge pixel is there, else the squared distance of one of them and no larger than any |
| EdgeSearch.NearestEdgeDistanceIsLeast | Assets/Editor/SDFGenerator.cs:287-314 | with no pixel across the threshold the distance is 0; otherwise it is the Euclidean distance to some edge pixel, at least 1, and no edge pixel (self excluded) is nearer |
| EdgeSearch.LiftMinOpt | Assets/Editor/SDFGenerator.cs:308 | `Mathf.Min` of the running root and a new root is the root of the smaller squared distance |
| EdgeSearch.FindNearestEdge | Assets/Editor/SDFGenerator.cs:287-314 | the full-image scan returns exactly the nearest-edge distance (0 when no edge pixel exists) |
| DistanceField.Clamp01 | Assets/Editor/SDFGenerator.cs:268 | the result is in [0, 1], equals the input inside it, 0 below it and 1 above it |
| DistanceField.OutsideValue | Assets/Editor/SDFGenerator.cs:268 | an outside value lies in [0, 0.5], is 0.5 exactly at distance 0, and is 0 at or beyond the outside distance |
| DistanceField.InsideValue | Assets/Editor/SDFGenerator.cs:274 | an inside value lies in [0.5, 1], is 0.5 exactly at distance 0, and is 1 at or beyond the inside distance |
| DistanceField.OutsideValueFalls | Assets/Editor/SDFGenerator.cs:264-269 | outside values never rise as the distance grows, and strictly fall until the outside distance |
| DistanceField.InsideValueRises | Assets/Editor/SDFGenerator.cs:270-275 | inside values never fall as the distance grows, and strictly rise until the inside distance |
| DistanceField.PixelSdf | Assets/Editor/SDFGenerator.cs:262-280 | a pixel's value is in [0, 1], at most 0.5 for outside pixels, at least 0.5 for inside pixels, and exactly 0.5 for 0 < alpha < 1 whatever the distances |
| DistanceField.SdfOrderedByEdgeDistance | Assets/Editor/SDFGenerator.cs:264-275 | of two outside pixels the one farther from an edge has no larger value; of two inside pixels, no smaller value |
| DistanceField.OneSidedImageIsMidpoint | Assets/Editor/SDFGenerator.cs:264-313 | when every alpha is on one side of 0.5 (wholly opaque or wholly transparent images among them), every pixel's value is 0.5 |
| DistanceField.RegressionDistances | Assets/Editor/SDFGenerator.cs:287-314 | in the row [0, 0, 1, 1] the nearest crossing pixels are 2, 1, 1 and 2 pixels away |
| DistanceField.RegressionRow | Assets/Editor/SDFGenerator.cs:251-285 | the row [0, 0, 1, 1] with both distances 2 gives the field [0, 0.25, 0.75, 1] |
| DistanceField.CalculateSDF | Assets/Editor/SDFGenerator.cs:251-285 | a new field of the image's size whose every pixel holds its `PixelSdf` value, all in [0, 1] |
| PostProcess.Abs | Assets/Editor/SDFGenerator.cs:328 | the result is non-negative and is the input or its negation |
| PostProcess.NearEdge | Assets/Editor/SDFGenerator.cs:328 | a value is in the edge band exactly when it lies strictly between 0.4 and 0.6 |
| PostProcess.CeilToInt | Assets/Editor/SDFGenerator.cs:319 | the result is the least integer not below the input |
| PostProcess.CalculateAccurateDistance | Assets/Editor/SDFGenerator.cs:338-342 | the placeholder refinement hands back the value the field holds at (x, y), whatever the radius |
| PostProcess.ApplyPostProcess | Assets/Editor/SDFGenerator.cs:316-336 | after the edge-band pass the field is exactly what it was before |
| ColorPolicy.FillModeOf | Assets/Editor/SDFGenerator.cs:28-34 | the integers 0, 1, 2, 3 cast to SolidWhite, SolidBlack, SDF, SourceRGB in declaration order, and every other integer to an unnamed mode |
| ColorPolicy.ModeCode | Assets/Editor/SDFGenerator.cs:541 | a mode is stored as an integer in 0..3 exactly when it is one of the four declared modes |
| ColorPolicy.FillModeRoundTrip | Assets/Editor/SDFGenerator.cs:533-541 | storing a mode as an integer and casting it back gives the same mode, and casting an integer and storing it gives the same integer |
| ColorPolicy.Rgb | Assets/Editor/SDFGenerator.cs:348 | the three-channel colour constructor keeps the three channels and makes the colour opaque |
| ColorPolicy.GetRGBColor | Assets/Editor/SDFGenerator.cs:344-353 | SourceRGB keeps the source RGB, SolidBlack gives 1 - sdf in each channel, SolidWhite, SDF and the default arm give sdf; the colour is opaque |
| ColorPolicy.SolidBlackInvertsSolidWhite | Assets/Editor/SDFGenerator.cs:348-349 | each SolidBlack channel is one minus the SolidWhite channel |
| ColorPolicy.GrayscaleModesAgree | Assets/Editor/SDFGenerator.cs:350-352 | the SDF mode and the default arm paint exactly what SolidWhite paints |
| ColorPolicy.OutputPixel | Assets/Editor/SDFGenerator.cs:240-242 | an output pixel has the SDF value as alpha and the fill mode's RGB |
| ColorPolicy.OutputPixelInUnit | Assets/Editor/SDFGenerator.cs:237-243 | with the SDF value and source RGB in [0, 1], all four output channels are in [0, 1] |
| ColorPolicy.AlphaPixel | Assets/Editor/SDFGenerator.cs:474 | an alpha-export pixel has the source RGB and the SDF value as alpha |
| ColorPolicy.AlphaPixelIsSourceRgbOutput | Assets/Editor/SDFGenerator.cs:471-475 | an alpha-export pixel equals the output pixel of SourceRGB mode |
| Generator.ExtractAlpha | Assets/Editor/SDFGenerator.cs:218-225 | a new field of the image's size with entry i equal to the alpha of source pixel i |
| Generator.AssemblePixels | Assets/Editor/SDFGenerator.cs:237-243 | a new pixel array with entry i the output pixel of sdf[i] and source pixel i, so its alpha is sdf[i] |
| Generator.AssembleAlphaPixels | Assets/Editor/SDFGenerator.cs:469-475 | a new pixel array with entry i the source RGB of pixel i and alpha sdf[i] |
| Generator.GenerateSDFTexture | Assets/Editor/SDFGenerator.cs:210-249 | every output pixel is the fill mode's colour for its `PixelSdf` value with that value as alpha, all alphas in [0, 1] |
| Generator.SDFAlphaTexturePixels | Assets/Editor/SDFGenerator.cs:455-475 | every alpha-export pixel keeps the source RGB and has its `PixelSdf` value, in [0, 1], as alpha |

## Left out

- The editor window (`ShowWindow`, `OnGUI`, `DrawPreviewArea`, `UpdatePreviews`, `OnEnable`, `OnDisable`, the progress bar): interface calls with no logic of their own.
- Asset-pipeline side effects (making the source readable and restoring it, `SaveAndReimport`, `ImportAsset`, the importer settings after saving): engine calls.
- File output (`SaveFilePanel`, `EncodeToPNG`, `File.WriteAllBytes`, the `Application.dataPath` prefix handling) of `SaveSDFTexture` and `SaveSDFTextureAsAlpha`: I/O; only the pixels these write are modelled.
- `LoadSettings` and `SaveSettings`: key/value persistence in the editor preferences; only the integer cast of the fill mode is modelled (`ColorPolicy.FillModeOf`, `ColorPolicy.ModeCode`).
- `Texture2D` construction, `GetPixels`, `SetPixels` and `Apply`: a texture is its pixel array here, which `GetPixels` returns with `width * height` entries.
- IEEE-754 single precision: channels, distances and SDF values are reals, so rounding is not modelled.
- Roots.IsSqrt: the engine's `Mathf.Sqrt` is taken as the exact non-negative root, supplied as a parameter.
- DistanceField.CalculateSDF: requires positive inside and outside distances; with a distance of 0 the code divides by zero (a NaN value for a pixel without an edge), which is not modelled.
- The unused `maxDist` of `CalculateSDF`.
- The intended radius-bounded refinement of `CalculateAccurateDistance`: the code has only the placeholder, which is what is modelled.
- 32-bit overflow of `width * height` and of the index arithmetic: texture sizes keep them far below the limit.
- `Assets/Scripts/TentacleInteract.cs` and `Assets/Scripts/SimpleCharacterController.cs`: per-frame engine glue, not part of this model.
