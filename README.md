# Line shader selection and raster query ordering

A Dafny model of two small parts of a tiled map renderer.

1. **Line program parameters** (`src/render/program/line_program.js`). This part decides which of the four line shader defines a line layer enables:
   - `RENDER_LINE_DASH`
   - `RENDER_LINE_GRADIENT`
   - `RENDER_LINE_TRIM_OFFSET`
   - `RENDER_LINE_ALPHA_DISCARD`

   It also builds the flat uniform records of the solid/dashed/gradient program and of the pattern program. Paint properties are a tagged `PropertyValue = Constant(v) | DataDriven`, and `constantOr(default)` is `ConstantOr`. The JavaScript truthiness of a constant that may be unset (the dasharray, the pattern, the gradient) is modelled as `Option` presence.
2. **Raster query aggregation** (`src/source/query_raster_values.js`). The tiles from `tilesIn` are sorted in place with the `sortTilesIn` comparator. A `for` loop then emits one `{wrappedTileID, queryResults}` entry per tile, in sorted order.

Modules:
- `PropertyValues` (`property_values.dfy`): `Option`, `PropertyValue`, `ConstantOr`, and truthiness.
- `LineProgram` (`line_program.dfy`): `hasDash`, `calculateMatrix` and `lineDefinesValues`. Also `lineUniformValues`, an imperative method that overwrites the three dash uniforms when the layer has a dash, and `linePatternUniformValues`.
- `TileSort` (`tile_sort.dfy`):
  - the comparator and its order laws;
  - `StableSort`, the stable sort specification, with its lemmas: sorted, permutation, stable and unique. Its key sequence does not change when the input is reordered, and neither does the list itself when no two tiles share a key;
  - `SortInPlace`, an in-place insertion sort on an `array`, proved equal to `StableSort`.
- `QueryRasterValues` (`query_raster_values.dfy`): `queryRasterSource`, as a method that sorts an array and loops over it.

Collaborators are opaque. They are function-valued fields of `Painter`, `Transform`, `SourceCache` and `TileServices`, or opaque types:
- matrices: `translatePosMatrix`, `calculatePixelsToTileUnitsMatrix`, `getPixelPosMatrix`;
- the floating reciprocals;
- `tilesIn`, `tile.queryRasterValues` and `tileID.wrapped().key`.

The model states which arguments each collaborator receives and where its result goes.

`hasDash` tests the truthiness of the dasharray constant (`line_program.js:176`). An explicitly set empty array is truthy, so it enables `RENDER_LINE_DASH`; `HasDash` is therefore "data-driven, or a constant is present". `GradientWithoutDashExample` uses an unset dasharray.

## Model

| member | source | states |
|---|---|---|
| `PropertyValues.PropertyValue.ConstantOr` | src/render/program/line_program.js:166-167 | `constantOr(d)` yields the constant of a constant property and `d` for a data-driven one |
| `PropertyValues.Truthiness` | src/render/program/line_program.js:166 | a constant property's truthiness is whether its value is present; data-driven stays data-driven |
| `LineProgram.HasDash` | src/render/program/line_program.js:174-177 | `hasDash` holds iff the dasharray is data-driven or its constant is present (truthy) |
| `LineProgram.CalculateMatrix` | src/render/program/line_program.js:147-154 | the translate step is applied to the supplied matrix when one is given, else to the tile's projection matrix, with the layer's translate and anchor |
| `LineProgram.LineDefinesValues` | src/render/program/line_program.js:156-172 | DASH iff data-driven or present dasharray; GRADIENT iff a gradient is set; TRIM_OFFSET iff the trim offset is not (0,0); ALPHA_DISCARD iff the pattern is a constant that is absent and the opacity is a constant other than 1.0; the list is strictly ordered DASH, GRADIENT, TRIM_OFFSET, ALPHA_DISCARD, so it has no duplicates and is fully determined |
| `LineProgram.LineUniformValues` | src/render/program/line_program.js:77-114 | dash unit 0 and gradient unit 1; alpha-discard threshold 0.0; image height, pixel ratio and trim offset passed through; matrix, pixels-to-tile-units and units-to-pixels from the camera; without a dash texsize (0,0), scale (0,0,0), mix 0; with a dash the line atlas size, (tile ratio, fromScale, toScale) and crossfade t; the shared uniforms equal the pattern variant's |
| `LineProgram.LinePatternUniformValues` | src/render/program/line_program.js:116-141 | image unit 0, fade = crossfade t, texsize = image atlas size, scale = (tile ratio, fromScale, toScale) always, threshold 0.0, matrix from `calculateMatrix` |
| `LineProgram.GradientWithoutDashExample` | src/render/program/line_program.js:156-172 | a gradient layer with opacity 0.5, no dash, no trim offset and no pattern gets exactly [GRADIENT, ALPHA_DISCARD] and the zero dash uniforms |
| `TileSort.SortTilesInZero` | src/source/query_raster_values.js:71-80 | the comparator is 0 iff all four keys (overscaledZ, y, wrap, x) are equal |
| `TileSort.SortTilesInNegative` | src/source/query_raster_values.js:71-80 | the comparator is negative iff a's key tuple is lexicographically smaller |
| `TileSort.SortTilesInReflexive` | src/source/query_raster_values.js:71-80 | cmp(a, a) = 0 |
| `TileSort.SortTilesInAntisymmetric` | src/source/query_raster_values.js:71-80 | cmp(a, b) = -cmp(b, a) |
| `TileSort.SortTilesInTransitive` | src/source/query_raster_values.js:71-80 | "compares at most" is transitive, and strictly so when either step is strict |
| `TileSort.StableSortCorrect` | src/source/query_raster_values.js:47 | the sorted list is non-decreasing under the comparator and a permutation of the input |
| `TileSort.StableSortStable` | src/source/query_raster_values.js:47 | tiles with equal keys keep their input order |
| `TileSort.StableSortOfSorted` | src/source/query_raster_values.js:47 | sorting an already ordered list leaves it unchanged |
| `TileSort.StableSortUnique` | src/source/query_raster_values.js:47 | any non-decreasing arrangement keeping equal-keyed tiles in input order is the model's sort, so any stable sort gives the same list |
| `TileSort.SortedSameKeys` | src/source/query_raster_values.js:71-80 | two sorted lists with the same elements carry the same key at every position |
| `TileSort.SortPermutationInvariant` | src/source/query_raster_values.js:42-47 | reordering the enumerated tiles changes the sorted list only among tiles with equal keys |
| `TileSort.SortDeterministic` | src/source/query_raster_values.js:42-47 | when no two tiles share a key, the sorted list does not depend on enumeration order |
| `TileSort.OrderExample` | src/source/query_raster_values.js:71-80 | (z2,y1,x3), (z1,y5,x0), (z2,y0,x9) sort to z1 first, then z2 y0, then z2 y1 |
| `TileSort.InsertInPlace` | src/source/query_raster_values.js:47 | one insertion step on the array equals inserting the element into the sorted prefix |
| `TileSort.SortInPlace` | src/source/query_raster_values.js:47 | the in-place array sort leaves the array equal to the stable sort of its old contents |
| `QueryRasterValues.SortedTileResults` | src/source/query_raster_values.js:42-47 | the tile results end up in a fresh array equal to the stable sort of the enumerated list |
| `QueryRasterValues.QueryRasterSource` | src/source/query_raster_values.js:28-69 | one entry per tile from `tilesIn` (called with `use3DQuery` and `visualizeQueryGeometry`, default false), in stable sorted order: entry i has tile i's wrapped key and the tile's samples for the caller's layers, serialized layers, params and transform, the source's state, the tile result, the pixel matrix of the source cache's transform and the tile's ID, and the same visualize flag |

## Left out

- `lineUniforms` and `linePatternUniforms`: they create GPU uniform bindings over a GL context, which is resource plumbing with nothing to compute.
- CalculateTileRatio: the value `1 / pixelsToTileUnits(tile, 1, tileZoom)` is a floating-point reciprocal of a function in another file. `Transform.tileZoomRatio` supplies it as an opaque value, so the function has no contract of its own.
- `u_units_to_pixels`: the reciprocals `1 / pixelsToGLUnits[i]` are floating point. `Transform.unitsToPixels` supplies them as an opaque value.
- `translatePosMatrix`, `calculatePixelsToTileUnitsMatrix` and the tile's projection matrix: camera and painter code in other files. They are opaque functions and values.
- `getPixelPosMatrix`: its scale, translate and multiply go through gl-matrix. It is the opaque `TileServices.getPixelPosMatrix`, a function of the transform and the tile ID only.
- `tilesIn`, `tile.queryRasterValues` and `tileID.wrapped().key`: tile intersection, sampling and key computation live in files that are not part of this model. They are opaque total functions. The claim that wrap copies of one tile share a key cannot be stated, because `wrapped()` is not visible.
- Sampler failure: an exception thrown by a tile's sampler and propagating out of the loop is not modelled, because the collaborators are total functions.
- Sort algorithm: `Array.prototype.sort` runs the engine's own algorithm, which is required to be stable. The model sorts with an insertion sort. `StableSortUnique` shows that every stable sort with this comparator returns the same array.
- Number semantics: floating-point values are `real`, so NaN, -0 and infinities are not modelled. Tile coordinates are `int`; their differences are exact in JavaScript for coordinates below 2^53.
- Object identity: tiles and tile results are values, and `uid` stands for the tile object's identity. In the model, the array being sorted is filled from the list `tilesIn` returns. In the source, that list itself is sorted; it is fresh per call and no one else sees it.
- Flow type declarations and imports.
