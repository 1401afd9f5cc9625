# Map utilities of the Common Mapping Client, in Dafny

This project models the computational core of the Common Mapping Client, a
web map client that drives a 2D (OpenLayers) map and a 3D (Cesium) globe.
It proves properties of that core.

The model covers three parts of the client.

- `MapUtil`, the map helper class:
  - Coordinate normalisation (`constrainCoordinates`).
  - Stitching of arcs that were split at the antimeridian (`deconstrainArcCoordinates`).
  - Great-circle densification of a drawn line (`generateGeodesicArcsForLineString`).
  - Measurement dispatch and label placement (`measureGeometry`, `getLabelPosition`).
  - Formatting of distances, areas and grouped numbers (`formatDistance`, `formatArea`, `formatNumber`, `formatMeasurement`).
  - Construction of WMTS GetTile URLs (`buildTileUrl`). These follow the OGC WMTS 1.0.0 Implementation Standard (OGC 07-057r7), in both its URL-template (RESTful) encoding and its KVP encoding.
  - Parsing of a bounding box given as four strings (`parseStringExtent`).
- `MapWrapperCesium.getActiveLayerIds`: the 3D map's report of the data layers it shows.
- `MapReducer.updateLayerOrder`: the state update that ranks the data layers in the order the 3D map reports.

How JavaScript is modelled:

- Results that JavaScript signals with `false`, `null` or an exception are constructors of `Completion` (`Returned`, `ReturnedFalse`, `ReturnedNull`, `Threw`).
- A JavaScript value of unknown shape is a `JsAny`.
- Numbers are reals. The remainder operator `%` is the truncating remainder `JsRem`.
- Built-ins the helpers call are parameters of the model, grouped in the `Builtins` record: `toFixed`, `parseFloat`, `encodeURIComponent`, and the query-string joiner `objectToUrlParams`.
- Libraries are also parameters, grouped in the `Primitives` record: the great-circle arc generator, and turf's length, area and centroid (each including its proj4 reprojection).

| file | module | models |
|---|---|---|
| js_values.dfy | JsValues | JavaScript values, completions, built-in capabilities |
| coordinate_normalizer.dfy | CoordinateNormalizer | `constrainCoordinates`, `deconstrainArcCoordinates` |
| geodesic_arc_generator.dfy | GeodesicArcGenerator | `generateGeodesicArcsForLineString` |
| measurement_formatting.dfy | MeasurementFormatting | `formatNumber`, `formatDistance`, `formatArea`, `formatMeasurement` |
| geometry_measurement.dfy | GeometryMeasurement | `measureGeometry`, `getLabelPosition`, the `calculate*` wrappers |
| tile_addressing.dfy | TileAddressing | `buildTileUrl`, `parseStringExtent` |
| cesium_wrapper.dfy | CesiumWrapper | class `MapWrapperCesium`, `getActiveLayerIds` |
| layer_order.dfy | LayerOrder | `MapReducer.updateLayerOrder` |

Three operations contain loops in the source, so they are methods proved equal to a specification function:

- `deconstrainArcCoordinates`
- `generateGeodesicArcsForLineString`
- `parseStringExtent`

`buildTileUrl` reassigns its `row` and `url` variables, and that is modelled as a method over `TileRow`, `TileMatrix`, `FillTemplate` and `KvpQuery`. The other `MapUtil` helpers are branch-and-call expressions, so they are functions.

`getActiveLayerIds` is a method of a `MapWrapperCesium` class whose fields are the two Cesium layer collections. `updateLayerOrder` is a method that calls it.

## Model

| member | source | states |
|---|---|---|
| CoordinateNormalizer.JsRem | src/_core/utils/MapUtil.js:59-67 | JavaScript `%` by the half period: the result has the dividend's sign and a magnitude below the half period, and it is zero exactly when the dividend is a whole multiple |
| CoordinateNormalizer.JsRemIsRemainder | src/_core/utils/MapUtil.js:59-67 | what `%` removes is a whole number of half periods, so with the sign and bound of `JsRem` the remainder is the one JavaScript computes |
| CoordinateNormalizer.WrapAxis | src/_core/utils/MapUtil.js:54-72 | the wrapped coordinate lies in [-h, h] (h = 180 for longitude, 90 for latitude), and a coordinate already inside is returned unchanged |
| CoordinateNormalizer.WrapAxisCongruent | src/_core/utils/MapUtil.js:54-72 | the wrapped coordinate names the same place as the input modulo 2h; the one exception is a negative exact multiple of h below -h, which lands h away (-360 becomes 180) |
| CoordinateNormalizer.ClampLatitude | src/_core/utils/MapUtil.js:75-81 | the latitude is clamped into [-90, 90]: unchanged inside, 90 above, -90 below |
| CoordinateNormalizer.ConstrainCoordinates | src/_core/utils/MapUtil.js:41-104 | throws exactly on `null`; returns `false` exactly on anything that is not an array of two numbers; otherwise the point lies in [-180, 180] x [-90, 90], components already in range are kept, and the latitude is clamped when `constrainY` is set |
| CoordinateNormalizer.ConstrainIdempotent | src/_core/utils/MapUtil.js:41-104 | constraining an already constrained point changes nothing |
| CoordinateNormalizer.ConstrainExamples | src/_core/utils/MapUtil.js:41-104 | 200 wraps to -160 and -200 to 160; 170 is kept; latitude 100 clamps to 90 or folds to -80; -360 lands on 180; a one-element array gives `false` |
| CoordinateNormalizer.ShiftLine | src/_core/utils/MapUtil.js:132-136 | a shifted line keeps its length, and every point moves by the same longitude offset with its latitude kept |
| CoordinateNormalizer.SeamShift | src/_core/utils/MapUtil.js:129-159 | a later line moves by -360 exactly when the reference end is at or west of 0 and the line starts at or east of 0; by +360 exactly when the reference end is east of 0 and the line starts at or west of 0; otherwise it stays |
| CoordinateNormalizer.AppendShifted | src/_core/utils/MapUtil.js:127-159 | one pass of the loop appends exactly the later line's `Tail`: its points after the first, moved by the seam shift |
| CoordinateNormalizer.DeconstrainArcCoordinates | src/_core/utils/MapUtil.js:115-162 | the loop computes `Deconstrained`: fewer than two lines come back unchanged, otherwise the first line followed by every later line, shifted and without its first point |
| CoordinateNormalizer.JoinTailsLength | src/_core/utils/MapUtil.js:125-160 | every later line contributes exactly its length minus one points |
| CoordinateNormalizer.JoinTailsAt | src/_core/utils/MapUtil.js:125-160 | point k of later line j sits at a fixed position in the joined tail, moved by the shift of the first line's end and that line's start, with its latitude kept |
| CoordinateNormalizer.DeconstrainedShape | src/_core/utils/MapUtil.js:115-162 | for two or more lines the result is one line whose prefix is the first line verbatim, of length len(first) + the sum over the later lines of (len - 1) |
| CoordinateNormalizer.DeconstrainedSeamExample | src/_core/utils/MapUtil.js:115-162 | an arc split at the antimeridian, [170, 179] then [-179, -170], is stitched to 170, 179, 190: the second line moves east by 360 and loses its first point |
| GeodesicArcGenerator.PieceShift | src/_core/utils/MapUtil.js:614-634 | an arc piece moves east (+360) exactly when it starts at or west of 0 and the line so far ends at or east of 0, and moves west exactly when it starts east of 0 and the line ends west of 0; otherwise it stays |
| GeodesicArcGenerator.ShiftPieces | src/_core/utils/MapUtil.js:619-640 | every piece keeps its length and each of its points moves by 360 times the piece's shift, latitudes kept |
| GeodesicArcGenerator.MergedArc | src/_core/utils/MapUtil.js:648-651 | the merged arc of a segment is never empty |
| GeodesicArcGenerator.GeodesicArcs | src/_core/utils/MapUtil.js:598-655 | fewer than two points give the empty line |
| GeodesicArcGenerator.GenerateGeodesicArcsForLineString | src/_core/utils/MapUtil.js:598-655 | the loop computes `GeodesicArcs`, including the `continue` on a segment that does not move, an exception from the arc library, and the exception on line 614 |
| GeodesicArcGenerator.ThrowStays | src/_core/utils/MapUtil.js:600-653 | once a segment throws, the whole line throws |
| GeodesicArcGenerator.SegmentThrows | src/_core/utils/MapUtil.js:600-653 | a segment whose arc or whose read of the last point throws makes the whole densification throw |
| GeodesicArcGenerator.PrefixOutcome | src/_core/utils/MapUtil.js:600-653 | the first n segments return exactly when none of them fails (the arc library throws on it, or it is the first moving segment but not segment 0); the line so far is empty exactly when none of them moves |
| GeodesicArcGenerator.GeodesicThrowsIff | src/_core/utils/MapUtil.js:598-655 | the densification never answers `false` or `null`; it throws exactly when some segment fails |
| GeodesicArcGenerator.GeodesicThrowsIffTotalArc | src/_core/utils/MapUtil.js:598-655 | with an arc library that never throws, the densification throws exactly when there are three or more points, the first two coincide, and some later segment moves |
| GeodesicArcGenerator.MergedArcCount | src/_core/utils/MapUtil.js:648-652 | a merged arc has as many points as its first piece plus each later piece less one |
| GeodesicArcGenerator.ShiftKeepsCount | src/_core/utils/MapUtil.js:619-640 | shifting the pieces leaves the merged point count unchanged |
| GeodesicArcGenerator.PrefixCount | src/_core/utils/MapUtil.js:600-653 | the line after n segments has exactly the merged point counts of its moving segments, joined with no point dropped |
| GeodesicArcGenerator.GeodesicCount | src/_core/utils/MapUtil.js:598-655 | the densified line's length is the sum of the merged point counts of the moving segments |
| GeodesicArcGenerator.PrefixGrows | src/_core/utils/MapUtil.js:652 | segments only ever append: the line after m segments is a prefix of the line after n >= m segments |
| GeodesicArcGenerator.TailCountByLengths | src/_core/utils/MapUtil.js:125-160 | the stitched length depends only on the pieces' lengths, so a uniform shift cannot change it |
| MeasurementFormatting.RemoveCommasAppend | src/_core/utils/MapUtil.js:439 | removing the grouping commas distributes over concatenation |
| MeasurementFormatting.GroupingRoundTrip | src/_core/utils/MapUtil.js:438-440 | removing the commas that `GroupThousands` inserts into a digit string gives back the digits |
| MeasurementFormatting.GroupedLength | src/_core/utils/MapUtil.js:439 | `GroupThousands` on n > 0 digits inserts (n - 1) / 3 commas |
| MeasurementFormatting.GroupedAt | src/_core/utils/MapUtil.js:439 | a grouped character is a comma exactly when it is not the first and its distance from the end is a multiple of four; every other character is a digit |
| MeasurementFormatting.GroupingShape | src/_core/utils/MapUtil.js:433-441 | the leading group has 1 to 3 digits and every later group exactly 3, separated by single commas |
| MeasurementFormatting.FormatNumberSpec | src/_core/utils/MapUtil.js:433-441 | for digit strings from `toFixed`, deleting the commas from the result gives `toFixed`'s rendering back; the result starts with "-" exactly for a negative number; an integer part of n > 0 digits gains (n - 1) / 3 commas |
| MeasurementFormatting.FormatNumberExamples | src/_core/utils/MapUtil.js:433-441 | 1234.50 renders as "1,234.50", -1234567.00 as "-1,234,567.00", 999.00 as "999.00" |
| MeasurementFormatting.DistanceScale | src/_core/utils/MapUtil.js:346-371 | an unknown unit system gives nothing; otherwise the number times the unit's size is the distance, metric switches from m to km at 1000 and imperial from ft to mi at 5280, nautical and schoolbus pass the value through as "nmi" and "school buses" |
| MeasurementFormatting.AreaScale | src/_core/utils/MapUtil.js:392-417 | the same for areas: thresholds 1,000,000 and 27,878,400, and every label ends in `<sup>2</sup>` |
| MeasurementFormatting.SquareThreshold | src/_core/utils/MapUtil.js:346-417 | a side reaches a bound exactly when its square reaches the bound squared |
| MeasurementFormatting.AreaOfSquareMatchesSide | src/_core/utils/MapUtil.js:346-417 | the area of a square is labelled with its side's unit squared, and its number is the square of the side's number |
| MeasurementFormatting.FormatDistance | src/_core/utils/MapUtil.js:340-374 | `null` exactly for a non-number or an unknown unit system; otherwise the formatted scaled number, a space and the unit label |
| MeasurementFormatting.FormatArea | src/_core/utils/MapUtil.js:386-420 | `null` exactly for a non-number or an unknown unit system; otherwise the formatted scaled number, a space and the squared unit label |
| MeasurementFormatting.FormatMeasurement | src/_core/utils/MapUtil.js:721-733 | a distance is formatted as a distance, an area as an area, anything else gives `false` |
| MeasurementFormatting.FormatDistanceExamples | src/_core/utils/MapUtil.js:340-374 | 1500 metric reads "1.50 km", 999 metric "999.00 m"; an unknown system or a string gives `null` |
| GeometryMeasurement.CalculatePolylineDistance | src/_core/utils/MapUtil.js:502-524 | a failing reprojection or length computation is caught and answers 0 |
| GeometryMeasurement.CalculatePolygonArea | src/_core/utils/MapUtil.js:536-553 | a failure escapes as an exception |
| GeometryMeasurement.CalculatePolygonCenter | src/_core/utils/MapUtil.js:565-587 | a failure escapes as an exception |
| GeometryMeasurement.MeasureGeometry | src/_core/utils/MapUtil.js:672-709 | a circle gives `false`; a value is returned only for the distance of a line or the area of a polygon, and every other combination gives `false`; the densification runs first, so its exception escapes even where the answer would be `false` |
| GeometryMeasurement.GetLabelPosition | src/_core/utils/MapUtil.js:749-771 | a line is labelled at its constrained last vertex (`false` when it has none), a polygon at its constrained centroid, anything else gives `false`; a returned position always lies in [-180, 180] x [-90, 90], and a polygon's label throws exactly when the densification or the centroid does |
| GeometryMeasurement.LineDistanceAlwaysMeasured | src/_core/utils/MapUtil.js:672-684 | with an arc library that never throws, the distance of a line whose first segment moves is always returned |
| TileAddressing.IndexFrom | src/_core/utils/MapUtil.js:299 | the search answers the first occurrence at or after the start, or -1 when there is none |
| TileAddressing.ReplaceFirst | src/_core/utils/MapUtil.js:301-323 | a string replacement with no occurrence of the pattern returns the string unchanged; otherwise the text before the first occurrence is kept, the replacement follows it, then the text after the occurrence, and the length changes by the difference of replacement and pattern |
| TileAddressing.NoMarkUnchanged | src/_core/utils/MapUtil.js:301-305 | a pattern whose first character the string lacks is not found, and replacing it changes nothing |
| TileAddressing.ReplaceAtFirstMark | src/_core/utils/MapUtil.js:301-305 | in x + pattern + y with no occurrence of the pattern starting inside x, that occurrence is the one found, and the replacement gives x + replacement + y, whatever x and y hold |
| TileAddressing.IndexOfChar | src/_core/utils/MapUtil.js:299-323 | a one-character search succeeds exactly when the string holds the character |
| TileAddressing.IntToString | src/_core/utils/MapUtil.js:297-305 | an integer's decimal form is never empty and holds no "{" and no "?" |
| TileAddressing.NatToStringValue | src/_core/utils/MapUtil.js:297-305 | the digits of a natural number read back as that number, with no leading zero |
| TileAddressing.IntToStringValue | src/_core/utils/MapUtil.js:297-305 | an integer's decimal form starts with "-" exactly when it is negative, and its digits read back as its magnitude with no leading zero |
| TileAddressing.TileRow | src/_core/utils/MapUtil.js:291-294 | for the 2D map the row becomes -row - 1; other maps keep it |
| TileAddressing.TileMatrix | src/_core/utils/MapUtil.js:296-297 | with labels, the label of the level, or the text "undefined" when the level has none; without labels, the level's digits |
| TileAddressing.KvpQuery | src/_core/utils/MapUtil.js:308-319 | ten parameters in the fixed order SERVICE, REQUEST, VERSION, LAYER, STYLE, TILEMATRIXSET, TILEMATRIX, TILEROW, TILECOL, FORMAT, with WMTS, GetTile, 1.0.0, an empty style and the URI-encoded format |
| TileAddressing.BuildTileUrl | src/_core/utils/MapUtil.js:280-328 | a URL holding "{" is filled as a template, first occurrences only and in the fixed order; any other URL loses its first "?" and gains "?" and the KVP query |
| TileAddressing.FillTemplate | src/_core/utils/MapUtil.js:299-305 | a URL without "{" is left as it is by the four substitutions |
| TileAddressing.TemplateFilled | src/_core/utils/MapUtil.js:299-305 | any template, with its placeholders in any order, repeated or missing and other "{...}" tokens among them, is filled as its parts with the first token of each placeholder turned into its value, in the order TileMatrixSet, TileMatrix, TileRow, TileCol, when the first three values hold no "{" |
| TileAddressing.ReplaceFirstParts | src/_core/utils/MapUtil.js:301-305 | replacing "{name}" in a rendered template turns the first token called name into its value and leaves every other part as it is; with no such token nothing matches |
| TileAddressing.TemplateFilledCompletely | src/_core/utils/MapUtil.js:299-305 | a template holding each of the four placeholders at most once keeps none of them once filled, when the values hold no "{" |
| TileAddressing.KvpBaseWithoutQuestionMark | src/_core/utils/MapUtil.js:323-324 | a base URL without "?" gets the query after a single "?" |
| TileAddressing.KvpBaseWithQuestionMark | src/_core/utils/MapUtil.js:323-324 | a base URL ending in its only "?" keeps exactly one "?" before the query |
| TileAddressing.ParseStringExtent | src/_core/utils/MapUtil.js:781-798 | the reduce computes `ParsedExtent`, the failure flag sticking once set |
| TileAddressing.ParseAllSpec | src/_core/utils/MapUtil.js:787-797 | the fold succeeds exactly when every element parses, and then holds each element's number, in order |
| TileAddressing.ParsedExtentSpec | src/_core/utils/MapUtil.js:781-798 | an extent is returned exactly for an array of four elements that all parse, and then it holds those four numbers in order; everything else gives `false` |
| TileAddressing.ParsedExtentExamples | src/_core/utils/MapUtil.js:781-798 | ["1","2","3","4"] gives [1, 2, 3, 4]; an unparsable element, three elements, or `undefined` give `false` |
| CesiumWrapper.MapWrapperCesium.GetActiveLayerIds | src/utils/3d-only/MapWrapperCesium.js:14-37 | the two loops report the data layers of the imagery collection, then those of the data sources, each in collection order |
| CesiumWrapper.DataLayerIds | src/utils/3d-only/MapWrapperCesium.js:20-34 | a collection yields at most one id per layer |
| CesiumWrapper.DataLayerIdsMembership | src/utils/3d-only/MapWrapperCesium.js:20-34 | an id is reported exactly when some layer of the data group carries it |
| CesiumWrapper.DataLayerIdsLength | src/utils/3d-only/MapWrapperCesium.js:20-34 | at most one id per layer; every layer's id when all are data layers, none when none are |
| CesiumWrapper.DataLayerIdsAppend | src/utils/3d-only/MapWrapperCesium.js:19-34 | filtering two collections one after the other equals filtering them laid end to end |
| CesiumWrapper.ActiveLayerIdsSpec | src/utils/3d-only/MapWrapperCesium.js:14-37 | the answer is the filter of both collections in order, no longer than the two together, and empty when both are empty |
| LayerOrder.UpdateLayerOrder | src/reducers/MapReducer.js:37-77 | the new data layers are `Reordered`: the 3D map's order, completed with the missing active vector ids, ranked from its length down to 1 |
| LayerOrder.ActiveVectorIds | src/reducers/MapReducer.js:47-54 | the filter yields at most one id per data layer |
| LayerOrder.ActiveVectorIdsMembership | src/reducers/MapReducer.js:42-54 | an id is collected exactly when an active layer handled as GeoJSON, TopoJSON or KML carries it |
| LayerOrder.AppendMissing | src/reducers/MapReducer.js:61-66 | the reduce only appends, and at most one id per id it is given |
| LayerOrder.AppendMissingPrefix | src/reducers/MapReducer.js:61-66 | the 3D map's order survives unchanged as a prefix of the merged order |
| LayerOrder.AppendMissingMembership | src/reducers/MapReducer.js:61-66 | the merged order holds exactly the map's ids and the appended ids |
| LayerOrder.AppendMissingNoDuplicates | src/reducers/MapReducer.js:61-66 | a duplicate-free map order stays duplicate-free |
| LayerOrder.MergedOrderSpec | src/reducers/MapReducer.js:47-66 | the merged order starts with the map's order, contains every active vector layer, and has no duplicates if the map's order had none |
| LayerOrder.SetDisplayIndex | src/reducers/MapReducer.js:70-73 | one write adds a record exactly when none is stored under the id, and otherwise keeps the number of records |
| LayerOrder.SetDisplayIndexFind | src/reducers/MapReducer.js:70-73 | one write changes only the display index of the record under its id, creating a bare entry when there was none, and leaves every other id as it was |
| LayerOrder.RankPrefixUntouched | src/reducers/MapReducer.js:69-74 | an id the loop has not reached yet reads as before |
| LayerOrder.RankPrefixReindex | src/reducers/MapReducer.js:69-74 | earlier writes to an id's display index leave no trace once it is written again |
| LayerOrder.RankPrefixRanked | src/reducers/MapReducer.js:69-74 | the id at position i, once passed and not met again, has display index n - i and otherwise its old fields |
| LayerOrder.ReorderedLastWins | src/reducers/MapReducer.js:69-74 | with no assumption on the map's order, an id ends with the index of its last position in the merged order: for an id listed twice the later, smaller index wins |
| LayerOrder.DuplicateExample | src/reducers/MapReducer.js:69-74 | a map order ["a", "b", "a"] leaves "a" with display index 1, not 3 |
| LayerOrder.ReorderedSpec | src/reducers/MapReducer.js:37-77 | for a map order without duplicates, after the update the layer at merged position i has display index n - i, so the indices run from n down to 1, with no other field changed; every id outside the merged order is unchanged |

## Left out

- `parseCapabilities`, `getWmtsOptions` and `prepProjection` are not modelled. They parse XML through OpenLayers and change proj4's global projection registry.
- `convertDistanceUnits` and `convertAreaUnits` are not modelled. They convert through js-quantities and a scale table that is not part of this model.
- The great-circle arc generator (`assets/arc/arc`), turf's length, area and centroid, and the proj4 reprojection are not modelled. They are parameters, and so is whether they fail: the arc generator answers `None` where it throws.
- `Number.prototype.toFixed`, `parseFloat` and `encodeURIComponent` are parameters. Their floating-point rendering and parsing are not modelled.
- `MiscUtil.objectToUrlParams` is a parameter, taken to join the KVP parameters in the order given.
- TileMatrix: a level with no label is `undefined` in the source. The model passes the text "undefined" on, which is what the template replacement inserts. For the KVP query, `objectToUrlParams` is taken to render `undefined` the same way.
- NaN and the infinities are not modelled, since numbers are reals.
- FormatNumber: only the `trim: false` rendering the formatters use is modelled. `trimFloatString` and the `fixedLen` option are left out, because they are floating-point rendering.
- ConstrainCoordinates: an object that is not an array but has a `length` of 2 and numeric keys `0` and `1` passes the source's check; the model's inputs are JSON-like values, so it is not represented.
- DeconstrainArcCoordinates: requires every line to be non-empty when there are two or more. The source throws on an empty line. Its only caller passes arc pieces, which are never empty.
- TemplateFilled: stated for values holding no "{". A tile-matrix-set name or label that itself spells a later placeholder would be replaced again by the source, and the lemma does not describe that case. Templates are taken as sequences of text and `{name}` tokens, so a "{" never closed by "}" is outside the lemma too; `FillTemplate` itself handles it.
- ReplaceFirst: `$` patterns in a replacement string are not interpreted. Tile-matrix names and numbers in practice hold none.
- TileRow: rows and columns given as strings are not modelled. The 2D row inversion would then coerce them.
- The Immutable.js state of `updateLayerOrder` is reduced to the data-layer map, as a sequence of records in insertion order. The rest of the state is untouched by this operation.
- Finding the 3D map in the state, and failing when it is absent, are not modelled. `UpdateLayerOrder` takes the map as an argument.
- `MapReducer.initializeMap` is not modelled. It calls map creation, which is not part of this model, and its failure path reads the browser's `alert` global.
- The React UI containers are not modelled, nor are the `console.warn` diagnostics, which are I/O.
- The base class `MapWrapperCesiumCore` is not part of this model. The model's constructor only records the two collections `getActiveLayerIds` reads, in place of the Cesium viewer.
