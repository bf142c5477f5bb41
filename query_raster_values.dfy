/**
 * Raster query aggregation: the tiles that intersect a query region are
 * sorted into a fixed order and each is asked for its sampled values, with a
 * matrix from tile coordinates to viewport pixels.
 *
 * Tile intersection, per-tile sampling, the wrap-normalised tile key and the
 * pixel matrix are computed by collaborators outside this core; they are
 * opaque functions here, and the model states what each receives.
 */
module QueryRasterValues {
  import opened TileSort

  /** The gl-matrix `mat4`, opaque here as in `LineProgram`. */
  type Mat4
  /** The camera: the transform class of `geo/transform.js`, whose fields this core does not read. */
  type Transform
  type QueryGeometry
  /** The style layers by id, and their serialized forms. */
  type StyleLayers
  type SerializedLayers
  /** The source cache's render-state snapshot (`_state`). */
  type SourceState
  /** `{filter, layers, availableImages}`. */
  type QueryParams
  /** The matches one tile reports. */
  type QueryFeatures

  /** The source cache as this core sees it; `tilesIn` enumerates the intersecting tiles. */
  datatype SourceCache = SourceCache(
    transform: Transform,
    state: SourceState,
    tilesIn: (QueryGeometry, bool, bool) -> seq<TileResult>)

  /** The arguments of one `tile.queryRasterValues` call, in order. */
  datatype TileQuery = TileQuery(
    styleLayers: StyleLayers,
    serializedLayers: SerializedLayers,
    sourceState: SourceState,
    tileResult: TileResult,
    params: QueryParams,
    transform: Transform,
    pixelPosMatrix: Mat4,
    visualizeQueryGeometry: bool)

  /**
   * Collaborators: the tile's sampler, `tileID.wrapped().key`, and
   * `getPixelPosMatrix`, whose gl-matrix arithmetic stays opaque: it is a
   * function of the transform and the tile ID and of nothing else.
   */
  datatype TileServices = TileServices(
    queryRasterValues: (Tile, TileQuery) -> QueryFeatures,
    wrappedKey: OverscaledTileID -> int,
    getPixelPosMatrix: (Transform, OverscaledTileID) -> Mat4)

  datatype QueryResultEntry = QueryResultEntry(wrappedTileID: int, queryResults: QueryFeatures)

  /**
   * The arguments `queryRasterSource` passes to the sampler of one tile result:
   * the caller's layers, serialized layers, params and transform, the source's
   * state, the tile result itself, the pixel matrix of the source cache's
   * transform (not the caller's) and the tile's ID, and the visualize flag.
   */
  function TileQueryFor(
    services: TileServices,
    sourceCache: SourceCache,
    styleLayers: StyleLayers,
    serializedLayers: SerializedLayers,
    params: QueryParams,
    transform: Transform,
    visualizeQueryGeometry: bool,
    tileResult: TileResult
  ): TileQuery
  {
    TileQuery(styleLayers, serializedLayers, sourceCache.state, tileResult, params, transform,
      services.getPixelPosMatrix(sourceCache.transform, tileResult.tile.tileID),
      visualizeQueryGeometry)
  }

  /** The tile results of `tilesIn` in a fresh array, sorted in place with `sortTilesIn`. */
  method SortedTileResults(tiles: seq<TileResult>) returns (tileResults: array<TileResult>)
    ensures fresh(tileResults)
    ensures tileResults[..] == StableSort(tiles)
  {
    tileResults := new TileResult[|tiles|](k requires 0 <= k < |tiles| => tiles[k]);
    assert tileResults[..] == tiles;
    SortInPlace(tileResults);
  }

  /**
   * `queryRasterSource`: enumerates the tiles, sorts them in place with
   * `sortTilesIn`, and pushes one entry per tile in sorted order. The mode
   * flags reach `tilesIn` unchanged; every tile is sampled with the caller's
   * arguments, the source's state, its own tile result and the pixel matrix
   * built from the source cache's transform (not the caller's) and its ID.
   */
  method QueryRasterSource(
    services: TileServices,
    sourceCache: SourceCache,
    styleLayers: StyleLayers,
    serializedLayers: SerializedLayers,
    queryGeometry: QueryGeometry,
    params: QueryParams,
    transform: Transform,
    use3DQuery: bool,
    visualizeQueryGeometry: bool := false
  ) returns (results: seq<QueryResultEntry>)
    ensures var tiles := sourceCache.tilesIn(queryGeometry, use3DQuery, visualizeQueryGeometry);
      var sorted := StableSort(tiles);
      && Sorted(sorted) && multiset(sorted) == multiset(tiles)
      && |results| == |sorted| == |tiles|
      && forall i :: 0 <= i < |results| ==>
        && results[i].wrappedTileID == services.wrappedKey(sorted[i].tile.tileID)
        && results[i].queryResults == services.queryRasterValues(sorted[i].tile,
          TileQueryFor(services, sourceCache, styleLayers, serializedLayers, params, transform,
            visualizeQueryGeometry, sorted[i]))
  {
    var tiles := sourceCache.tilesIn(queryGeometry, use3DQuery, visualizeQueryGeometry);
    var tileResults := SortedTileResults(tiles);
    ghost var sorted := tileResults[..];
    results := [];
    for i := 0 to tileResults.Length
      invariant tileResults[..] == sorted
      invariant |results| == i
      invariant forall k :: 0 <= k < i ==>
        results[k] == QueryResultEntry(
          services.wrappedKey(sorted[k].tile.tileID),
          services.queryRasterValues(sorted[k].tile,
            TileQueryFor(services, sourceCache, styleLayers, serializedLayers, params, transform,
              visualizeQueryGeometry, sorted[k])))
    {
      var tileResult := tileResults[i];
      var queryResults := services.queryRasterValues(tileResult.tile,
        TileQueryFor(services, sourceCache, styleLayers, serializedLayers, params, transform,
          visualizeQueryGeometry, tileResult));
      results := results + [QueryResultEntry(services.wrappedKey(tileResult.tile.tileID), queryResults)];
    }
    StableSortCorrect(tiles);
  }
}
