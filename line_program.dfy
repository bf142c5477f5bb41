/**
 * Shader-variant and uniform selection for one line draw call: which of the
 * four line shader defines are enabled, and the flat uniform records of the
 * solid/dashed/gradient variant and of the pattern variant.
 *
 * Matrices and the reciprocal scale factors are floating-point values
 * computed by the camera and the painter; here they are opaque values that
 * these collaborators supply, and the model states where each one goes.
 */
module LineProgram {
  import opened PropertyValues

  /**
   * A 4x4 tile-to-clip matrix (a Float32Array of 16 entries); this module's
   * view of the gl-matrix `mat4`, also declared opaque in `QueryRasterValues`.
   */
  type Mat4
  /** The 2x2 pixels-to-tile-units matrix. */
  type Mat2
  /** An evaluated, cross-faded `line-dasharray` constant. */
  type DashArray
  /** The `line-gradient` colour ramp expression. */
  type ColorRamp
  /** An evaluated, cross-faded `line-pattern` image. */
  type ResolvedImage

  type Vec2 = (real, real)
  type Vec3 = (real, real, real)

  datatype TranslateAnchor = Map | Viewport

  /** The paint properties the two builders read, as the layer's evaluated paint snapshot gives them. */
  datatype LinePaint = LinePaint(
    lineDasharray: PropertyValue<Option<DashArray>>,
    lineGradient: Option<ColorRamp>,
    lineTrimOffset: Vec2,
    linePattern: PropertyValue<Option<ResolvedImage>>,
    lineOpacity: PropertyValue<real>,
    lineTranslate: Vec2,
    lineTranslateAnchor: TranslateAnchor)

  datatype LineStyleLayer = LineStyleLayer(paint: LinePaint)

  /**
   * This module's view of the tile class of `source/tile.js` (also seen, with
   * other fields, by `TileSort`): `uid` is the tile object's identity, the
   * rest are the fields read here.
   */
  datatype Tile = Tile(uid: nat, projMatrix: Mat4, lineAtlasSize: Vec2, imageAtlasSize: Vec2)

  /**
   * The camera: this module's view of the transform class of `geo/transform.js`
   * (opaque in `QueryRasterValues`). `unitsToPixels` is the pair 1 / pixelsToGLUnits[i] and
   * `tileZoomRatio(tile)` is 1 / pixelsToTileUnits(tile, 1, tileZoom); both
   * are floating-point reciprocals and stay opaque.
   */
  datatype Transform = Transform(
    calculatePixelsToTileUnitsMatrix: Tile -> Mat2,
    unitsToPixels: Vec2,
    tileZoomRatio: Tile -> real)

  datatype Painter = Painter(
    transform: Transform,
    translatePosMatrix: (Mat4, Tile, Vec2, TranslateAnchor) -> Mat4)

  datatype CrossfadeParameters = CrossfadeParameters(fromScale: real, toScale: real, t: real)

  datatype LineDefine =
    | RenderLineDash
    | RenderLineGradient
    | RenderLineTrimOffset
    | RenderLineAlphaDiscard

  /** Uniform values of the solid, dashed and gradient line program. */
  datatype LineUniformRecord = LineUniformRecord(
    uMatrix: Mat4,
    uPixelsToTileUnits: Mat2,
    uDevicePixelRatio: real,
    uUnitsToPixels: Vec2,
    uDashImage: int,
    uGradientImage: int,
    uImageHeight: real,
    uTexsize: Vec2,
    uScale: Vec3,
    uMix: real,
    uAlphaDiscardThreshold: real,
    uTrimOffset: Vec2)

  /** Uniform values of the line-pattern program. */
  datatype LinePatternUniformRecord = LinePatternUniformRecord(
    uMatrix: Mat4,
    uTexsize: Vec2,
    uPixelsToTileUnits: Mat2,
    uDevicePixelRatio: real,
    uImage: int,
    uScale: Vec3,
    uFade: real,
    uUnitsToPixels: Vec2,
    uAlphaDiscardThreshold: real)

  /** Texture units: the dash and gradient images may be bound in the same draw call. */
  const DashImageUnit: int := 0
  const GradientImageUnit: int := 1
  const PatternImageUnit: int := 0

  /** Position of each define in the order `lineDefinesValues` pushes them. */
  function Rank(d: LineDefine): nat
  {
    match d
    case RenderLineDash => 0
    case RenderLineGradient => 1
    case RenderLineTrimOffset => 2
    case RenderLineAlphaDiscard => 3
  }

  /**
   * `hasDash`: the truthiness of the dasharray constant, or-ed with "the value
   * is not a constant". A data-driven value carries no constant, so it
   * contributes nothing to the first operand.
   */
  function HasDash(layer: LineStyleLayer): (r: bool)
    ensures r <==> layer.paint.lineDasharray.DataDriven? || layer.paint.lineDasharray.value.Some?
  {
    var dash := layer.paint.lineDasharray;
    (dash.Constant? && dash.value.Some?) || !dash.Constant?
  }

  /** `calculateTileRatio`: the opaque ratio the camera reports for the tile. */
  function CalculateTileRatio(tile: Tile, transform: Transform): real
  {
    transform.tileZoomRatio(tile)
  }

  /**
   * `calculateMatrix`: the painter's translate step applied to the explicit
   * matrix when the caller supplies one, and to the tile's projection matrix
   * otherwise, with the layer's `line-translate` and its anchor.
   */
  function CalculateMatrix(painter: Painter, tile: Tile, layer: LineStyleLayer, matrix: Option<Mat4>): (r: Mat4)
    ensures matrix.Some? ==>
      r == painter.translatePosMatrix(matrix.value, tile, layer.paint.lineTranslate, layer.paint.lineTranslateAnchor)
    ensures matrix.None? ==>
      r == painter.translatePosMatrix(tile.projMatrix, tile, layer.paint.lineTranslate, layer.paint.lineTranslateAnchor)
  {
    var m := if matrix.Some? then matrix.value else tile.projMatrix;
    painter.translatePosMatrix(m, tile, layer.paint.lineTranslate, layer.paint.lineTranslateAnchor)
  }

  /**
   * `lineDefinesValues`: grows the list of enabled defines one `push` at a
   * time. Each define is present exactly when its condition holds, and the
   * list is strictly ordered by rank, so it has no duplicates and the four
   * conditions determine it completely.
   */
  method LineDefinesValues(layer: LineStyleLayer) returns (values: seq<LineDefine>)
    ensures RenderLineDash in values <==>
      layer.paint.lineDasharray.DataDriven? || layer.paint.lineDasharray.value.Some?
    ensures RenderLineGradient in values <==> layer.paint.lineGradient.Some?
    ensures RenderLineTrimOffset in values <==> layer.paint.lineTrimOffset != (0.0, 0.0)
    ensures RenderLineAlphaDiscard in values <==>
      && layer.paint.linePattern.Constant? && layer.paint.linePattern.value.None?
      && layer.paint.lineOpacity.Constant? && layer.paint.lineOpacity.value != 1.0
    ensures forall i, j :: 0 <= i < j < |values| ==> Rank(values[i]) < Rank(values[j])
  {
    values := [];
    if HasDash(layer) {
      values := values + [RenderLineDash];
    }
    if layer.paint.lineGradient.Some? {
      values := values + [RenderLineGradient];
    }

    var trimOffset := layer.paint.lineTrimOffset;
    if trimOffset.0 != 0.0 || trimOffset.1 != 0.0 {
      values := values + [RenderLineTrimOffset];
    }

    // `constantOr(1)`: the sentinel 1 is truthy, so a data-driven pattern counts as present.
    var hasPattern := Truthiness(layer.paint.linePattern).ConstantOr(true);
    var hasOpacity := layer.paint.lineOpacity.ConstantOr(1.0) != 1.0;
    if !hasPattern && hasOpacity {
      values := values + [RenderLineAlphaDiscard];
    }
  }

  /**
   * `lineUniformValues`: builds the record with the zero sentinels in
   * `u_texsize`, `u_scale` and `u_mix`, then overwrites those three when the
   * layer has a dash. The matrix and transform uniforms are the ones the
   * pattern variant computes from the same inputs.
   */
  method LineUniformValues(
    painter: Painter,
    tile: Tile,
    layer: LineStyleLayer,
    crossfade: CrossfadeParameters,
    matrix: Option<Mat4>,
    imageHeight: real,
    pixelRatio: real,
    trimOffset: Vec2
  ) returns (values: LineUniformRecord)
    ensures values.uMatrix == CalculateMatrix(painter, tile, layer, matrix)
    ensures values.uPixelsToTileUnits == painter.transform.calculatePixelsToTileUnitsMatrix(tile)
    ensures values.uUnitsToPixels == painter.transform.unitsToPixels
    ensures values.uDevicePixelRatio == pixelRatio
    ensures values.uDashImage == 0 && values.uGradientImage == 1
    ensures values.uImageHeight == imageHeight
    ensures values.uAlphaDiscardThreshold == 0.0
    ensures values.uTrimOffset == trimOffset
    ensures !HasDash(layer) ==>
      values.uTexsize == (0.0, 0.0) && values.uScale == (0.0, 0.0, 0.0) && values.uMix == 0.0
    ensures HasDash(layer) ==>
      && values.uTexsize == tile.lineAtlasSize
      && values.uScale == (painter.transform.tileZoomRatio(tile), crossfade.fromScale, crossfade.toScale)
      && values.uMix == crossfade.t
    ensures var pattern := LinePatternUniformValues(painter, tile, layer, crossfade, matrix, pixelRatio);
      && values.uMatrix == pattern.uMatrix
      && values.uPixelsToTileUnits == pattern.uPixelsToTileUnits
      && values.uUnitsToPixels == pattern.uUnitsToPixels
      && values.uDevicePixelRatio == pattern.uDevicePixelRatio
      && (HasDash(layer) ==> values.uScale == pattern.uScale && values.uMix == pattern.uFade)
  {
    var transform := painter.transform;
    var pixelsToTileUnits := transform.calculatePixelsToTileUnitsMatrix(tile);

    values := LineUniformRecord(
      uMatrix := CalculateMatrix(painter, tile, layer, matrix),
      uPixelsToTileUnits := pixelsToTileUnits,
      uDevicePixelRatio := pixelRatio,
      uUnitsToPixels := transform.unitsToPixels,
      uDashImage := DashImageUnit,
      uGradientImage := GradientImageUnit,
      uImageHeight := imageHeight,
      uTexsize := (0.0, 0.0),
      uScale := (0.0, 0.0, 0.0),
      uMix := 0.0,
      uAlphaDiscardThreshold := 0.0,
      uTrimOffset := trimOffset);
    if HasDash(layer) {
      var tileZoomRatio := CalculateTileRatio(tile, painter.transform);
      values := values.(uTexsize := tile.lineAtlasSize);
      values := values.(uScale := (tileZoomRatio, crossfade.fromScale, crossfade.toScale));
      values := values.(uMix := crossfade.t);
    }
  }

  /**
   * `linePatternUniformValues`: one record literal. The texture size comes
   * from the image atlas, the scale always crossfades, and the fade is the
   * crossfade position.
   */
  function LinePatternUniformValues(
    painter: Painter,
    tile: Tile,
    layer: LineStyleLayer,
    crossfade: CrossfadeParameters,
    matrix: Option<Mat4>,
    pixelRatio: real
  ): (r: LinePatternUniformRecord)
    ensures r.uMatrix == CalculateMatrix(painter, tile, layer, matrix)
    ensures r.uTexsize == tile.imageAtlasSize
    ensures r.uPixelsToTileUnits == painter.transform.calculatePixelsToTileUnitsMatrix(tile)
    ensures r.uDevicePixelRatio == pixelRatio
    ensures r.uImage == 0
    ensures r.uScale == (painter.transform.tileZoomRatio(tile), crossfade.fromScale, crossfade.toScale)
    ensures r.uFade == crossfade.t
    ensures r.uUnitsToPixels == painter.transform.unitsToPixels
    ensures r.uAlphaDiscardThreshold == 0.0
  {
    var transform := painter.transform;
    var tileZoomRatio := CalculateTileRatio(tile, transform);
    LinePatternUniformRecord(
      uMatrix := CalculateMatrix(painter, tile, layer, matrix),
      uTexsize := tile.imageAtlasSize,
      uPixelsToTileUnits := transform.calculatePixelsToTileUnitsMatrix(tile),
      uDevicePixelRatio := pixelRatio,
      uImage := PatternImageUnit,
      uScale := (tileZoomRatio, crossfade.fromScale, crossfade.toScale),
      uFade := crossfade.t,
      uUnitsToPixels := transform.unitsToPixels,
      uAlphaDiscardThreshold := 0.0)
  }

  /**
   * A layer with a gradient, no dasharray, no trim offset, no pattern and
   * opacity 0.5: the gradient and alpha-discard variants, and no dash
   * crossfade in the uniforms, since the flags are independent.
   */
  method GradientWithoutDashExample(
    gradient: ColorRamp,
    painter: Painter,
    tile: Tile,
    crossfade: CrossfadeParameters
  ) returns (defines: seq<LineDefine>, uniforms: LineUniformRecord)
    ensures defines == [RenderLineGradient, RenderLineAlphaDiscard]
    ensures uniforms.uMix == 0.0 && uniforms.uScale == (0.0, 0.0, 0.0) && uniforms.uTexsize == (0.0, 0.0)
  {
    var layer := LineStyleLayer(LinePaint(
      lineDasharray := Constant(None),
      lineGradient := Some(gradient),
      lineTrimOffset := (0.0, 0.0),
      linePattern := Constant(None),
      lineOpacity := Constant(0.5),
      lineTranslate := (0.0, 0.0),
      lineTranslateAnchor := Map));
    defines := LineDefinesValues(layer);
    uniforms := LineUniformValues(painter, tile, layer, crossfade, None, 1.0, 1.0, (0.0, 0.0));
    assert forall d :: d in defines ==> d == RenderLineGradient || d == RenderLineAlphaDiscard;
    var g :| 0 <= g < |defines| && defines[g] == RenderLineGradient;
    var al :| 0 <= al < |defines| && defines[al] == RenderLineAlphaDiscard;
    assert g < al;
    // The strict rank order leaves room for one gradient and one alpha-discard entry only.
    forall i | 0 <= i < |defines|
      ensures (defines[i] == RenderLineGradient && i == g) || (defines[i] == RenderLineAlphaDiscard && i == al)
    {
      assert defines[i] in defines;
    }
    assert defines[0] == defines[g] && defines[1] == defines[al];
    assert defines[|defines| - 1] == defines[al];
  }
}
