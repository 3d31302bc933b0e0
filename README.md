# Hex grid and nearest-measurement model

A Dafny model of `generateHexGrid` in `server.js`, the one real piece of logic in a small cellular-coverage backend. A query gives a centre point, an area in kilometres, a hex size, a user location and an operator name. The function does three things:

1. It tessellates the area into flat-top hexagons. The steps are `dx = 1.5 * side` and `dy = sqrt(3) * side`. It walks a `cols x rows` lattice column by column, raising odd columns by `dy / 2`. It keeps a candidate only if it is not above the box's maximum longitude and latitude.
2. Among the loaded measurements, it finds the one nearest to the user (haversine distance) whose operator equals the filter, ignoring case. A strictly-smaller test means the earliest of several equally near ones wins.
3. It returns a `FeatureCollection`. Each kept centre becomes a polygon with a closed 7-point ring. Its properties are `value` (the match's RSRP or `null`), `center` and `isNearest`. The top level also has a `nearest` entry (`{center, value}` or `null`).

Modules, one per component:

- `Wrappers` (`wrappers.dfy`): `Option`, used for the source's `null`.
- `Geodesy` (`geodesy.dfy`): `toRadians` and `haversine`. `Math.PI`, `sin`, `cos`, `sqrt` and `atan2` are not interpreted. They are fields of a `Numerics` value passed in by the caller, and the `Sin`/`Cos`/`Sqrt`/`Atan2` functions apply them.
- `GridLayout` (`grid_layout.dfy`): the km-to-degree layout, the candidate centres, the clip, and the nested enumeration loops. `EnumerateCenters` is proved equal to the specification function `GridCenters`.
- `Nearest` (`nearest.dfy`): operator matching and the scan for the nearest measurement. `FindNearest` is proved equal to `NearestMatch`, which is the unique first-nearest matching measurement, or `None`.
- `Features` (`features.dfy`): the vertex loop (`BuildRing`), the per-centre properties, and the `map` over the centres (`AssembleFeatures`).
- `HexGrid` (`hex_grid.dfy`): `GenerateHexGrid`, proved equal to `HexGridResult`, and lemmas about the whole result.

Coordinates are `real`. Inputs the source gets from I/O are parameters: the measurement list replaces the module-level array filled from the CSV file, and the trig primitives come in as `Numerics`.

Three details of the code that are easy to misread:

- `isNearest` is `nearestData && lon === … && lat === …`. With no match, that is `null`, not `false`, so the model uses `Option<bool>`.
- The code has only the single global match (nearest to the user, applied to every hex). A per-hex matching variant does not exist in `server.js` and is not modelled.
- The hex size defaults through `hexSizeKm || 0.05`. So among numbers only 0 (and NaN) fall back; a negative size is used as given.

## Model

| member | source | states |
|---|---|---|
| `Geodesy.ToRadians` | server.js:12-14 | 0 degrees is 0 radians and 180 degrees is pi radians |
| `Geodesy.Haversine` | server.js:16-27 | the haversine distance R * 2 atan2(sqrt a, sqrt(1 - a)) with a = sin²(Δφ/2) + cos φ1 cos φ2 sin²(Δλ/2), R = 6371000 m, composed from the supplied primitives; the property proved about it is `HaversineSamePoint` |
| `Geodesy.HaversineSamePoint` | server.js:16-27 | a point is at haversine distance 0 from itself, once sin 0 = 0 and atan2(sqrt 0, sqrt 1) = 0 |
| `GridLayout.EffectiveHexSize` | server.js:51 | a hex size of 0 becomes 0.05 km, any other size is kept, and the result is never 0 |
| `GridLayout.DegPerKmLat` | server.js:49 | degrees per km of latitude, 1/111; used by `Layout` for the latitude span and side |
| `GridLayout.DegPerKmLon` | server.js:50 | for a non-zero cosine of the centre latitude, degrees per km of longitude are never 0, and positive when the cosine is |
| `GridLayout.Layout` | server.js:49-68 | the box is centred on the query centre and spans width and height converted at 1/111 deg/km (latitude) and 1/(111 cos lat) (longitude); sides are the effective hex size in degrees; the flat-top steps are dx = 1.5 * sideLon and dy = sqrt(3) * sideLat, never 0; cols and rows are floor(span / step) + 2 |
| `GridLayout.ZeroAreaBox` | server.js:53-59 | a 0 km x 0 km area collapses the box onto the centre |
| `GridLayout.EnumerateCenters` | server.js:70-78 | the nested column/row loops produce exactly `GridCenters`: the candidates of the kept cells, in column-major order |
| `GridLayout.KeptCellsMembers` | server.js:71-76 | for the walk's keep-test (in the grid: the candidate is not above maxLon/maxLat, `KeepOf`), a cell is kept if and only if 0 <= col < cols, 0 <= row < rows and it passes the test |
| `GridLayout.KeptCellsSorted` | server.js:71-72 | whatever the keep-test, kept cells come in strictly increasing column-major order (column first, then row) |
| `GridLayout.KeptCellsCount` | server.js:67-78 | whatever the keep-test, at most cols * rows cells are kept |
| `GridLayout.JsRem` | server.js:75 | JavaScript's truncating `%`: the Euclidean remainder for a non-negative dividend; for a negative one a remainder in (-b, 0] with a = trunc(a/b) * b + r |
| `GridLayout.OddColumnTest` | server.js:75 | `col % 2 === 1` holds exactly for non-negative odd columns |
| `GridLayout.Candidate` | server.js:73-75 | the candidate centre of a cell; its coordinates are stated by `CandidateCoordinates` |
| `GridLayout.WithinUpperBounds` | server.js:76 | the clip: lon <= maxLon and lat <= maxLat; `GridCentersShape` and `GridCentersComplete` show it is exactly what decides retention |
| `GridLayout.CandidateCoordinates` | server.js:73-75 | a candidate lies at lon = minLon + col*dx, lat = minLat + row*dy, plus dy/2 exactly in non-negative odd columns |
| `GridLayout.GridCentersShape` | server.js:70-78 | as many centres as kept cells, at most cols * rows; each is its cell's candidate on the lattice; each is within the upper bounds; the cells are in column-major order |
| `GridLayout.CentersAboveLowerBounds` | server.js:73-76 | with positive steps, no retained centre is below minLon or minLat, although the clip tests only the upper bounds |
| `GridLayout.GridCentersComplete` | server.js:71-76 | every lattice candidate that passes the clip appears among the centres |
| `GridLayout.CornerCellFirst` | server.js:53-76 | with a non-negative area and hex size, a positive cosine of the centre latitude and a positive sqrt(3), the grid is non-empty and its first centre is (minLon, minLat) |
| `Nearest.LowerChar` | server.js:83 | 'A'..'Z' become the letter 32 code points up ('a'..'z'); every other character is unchanged |
| `Nearest.ToLower` | server.js:83 | lowering keeps the length, moves every ASCII upper-case letter 32 code points up to its lower-case form, leaves no upper-case letter and keeps every other character |
| `Nearest.OperatorMatches` | server.js:83 | the operator filter, lower-cased names equal; `OperatorMatchesIgnoringCase` states it as agreement ignoring ASCII case |
| `Nearest.LowerCharSame` | server.js:83 | two characters lower-case alike if and only if they are equal or one is the upper-case form of the other |
| `Nearest.ToLowerSame` | server.js:83 | two strings lower-case alike if and only if they have the same length and agree at every position ignoring ASCII case |
| `Nearest.OperatorMatchesIgnoringCase` | server.js:83 | the operator filter holds if and only if the stored and requested names agree character by character ignoring ASCII case |
| `Nearest.ToLowerIdempotent` | server.js:83 | lower-casing twice equals lower-casing once |
| `Nearest.OperatorMatchIgnoresCase` | server.js:83 | the filter "EE" matches a stored "ee" and does not match "Vodafone" |
| `Nearest.FirstNearestStart` | server.js:84-88 | the first matching measurement is the first-nearest of the prefix it ends |
| `Nearest.FirstNearestStep` | server.js:83-88 | one more measurement replaces the choice exactly when it matches and is strictly nearer |
| `Nearest.FirstNearestExists` | server.js:80-90 | when some measurement matches, a first-nearest one exists |
| `Nearest.FirstNearestUnique` | server.js:85 | at most one index is first-nearest, so the result is determined |
| `Nearest.NearestMatch` | server.js:80-90 | none exactly when no operator matches; otherwise a matching measurement no farther than any matching one and strictly nearer than every earlier matching one |
| `Nearest.FindNearest` | server.js:80-90 | the scan returns none exactly when nothing matches, and otherwise equals `NearestMatch` |
| `Features.HexRing` | server.js:94-100 | the ring has 7 points; points 0-5 are the vertices at 60*j degrees; the last point equals the first |
| `Features.Vertex` | server.js:95-98 | vertex j at lon + sideLon cos(60 j deg), lat + sideLat sin(60 j deg); `HexRing` and `BuildRing` state the ring built from it |
| `Features.BuildRing` | server.js:93-100 | pushing six vertices and then the first gives exactly `HexRing` |
| `Features.MatchedValue` | server.js:105 | `value` is null if and only if there is no match, and otherwise is the match's RSRP |
| `Features.NearestFlag` | server.js:107 | `isNearest` is null if and only if there is no match, and true if and only if the centre equals the match's (lon, lat) |
| `Features.FeaturesForFields` | server.js:92-110 | one feature per centre, in order: feature i has centre i, the ring of centre i, the matched value and the flag |
| `Features.BuildFeature` | server.js:93-109 | the `map` callback builds the ring with the loop and the properties with the two `null`-propagating tests, giving exactly the feature of that centre |
| `Features.AssembleFeatures` | server.js:92-110 | the `map` over the centres returns exactly the assembled list `FeaturesFor` |
| `Features.RingsClosed` | server.js:94-100 | every assembled ring has 7 points and ends where it starts |
| `HexGrid.NearestEntry` | server.js:115 | the top-level `nearest` is null if and only if there is no match, and otherwise is {center: [lon, lat], value: rsrp} of the match |
| `HexGrid.GenerateHexGrid` | server.js:48-117 | the whole function returns exactly `HexGridResult`: the features of `GridCenters` with the value, the `nearest` entry and `NearestMatch` |
| `HexGrid.OneFeaturePerCenter` | server.js:92-106 | one feature per retained centre, in the same order; at most cols * rows features; every centre within the upper bounds; every ring closed with 7 points |
| `HexGrid.NearestNullIffNoMatch` | server.js:80-115 | `nearest` is null if and only if no operator matches case-insensitively; otherwise it is the point and RSRP of the earliest nearest matching measurement |
| `HexGrid.ValuesFollowMatch` | server.js:105-107 | every feature's value is null exactly when `nearest` is, and otherwise is `nearest`'s value; `isNearest` is null exactly without a match and true exactly at the match's point |
| `HexGrid.ZeroHexSizeDefaults` | server.js:51 | a hex size of 0 gives the identical result to 0.05 km |
| `HexGrid.CornerFeatureFirst` | server.js:53-76 | with a positive cosine of the centre latitude and a positive sqrt(3), a non-negative area and hex size give at least one feature, the first at (minLon, minLat); for a 0 x 0 km area that is the centre itself |
| `HexGrid.OnlyMatchingOperatorReported` | server.js:80-90 | with one "EE" record (RSRP -90) and a "Vodafone" record anywhere, an "EE" query reports RSRP -90 at the EE point, whatever the distances |

## Left out

- Express setup, CORS, JSON parsing, the `/api/generate-hexgrid` route with its `typeof` validation, the `console.log` calls and `app.listen` (server.js:1-9, 119-139): HTTP and process plumbing.
- The CSV load into the module-level `measurements` array (server.js:30-45): asynchronous file I/O. Measurements are an input sequence instead.
- Floating point: `Math.sin`, `cos`, `sqrt`, `atan2` and `PI` are uninterpreted, and arithmetic is exact on `real`. Rounding, NaN and `Infinity` are therefore not modelled. That includes `isNearest`'s exact float equality, which here is equality of reals.
- HaversineSamePoint: the only property proved about `Haversine`; it states only that identical points are at distance 0 under two facts about the primitives. Symmetry, non-negativity and metric accuracy depend on the numerics, which are left abstract.
- `DegPerKmLon` requires the cosine of the centre latitude to be non-zero; `Layout` and everything built on it also require sqrt(3) to be non-zero. In the source a zero divisor would give `Infinity` or NaN for the longitude factor, the steps and the column count. That path is not modelled.
- The `||` in `hexSizeKm || 0.05` also replaces NaN with the default. With `real` inputs only 0 falls back.
- `toLowerCase` is modelled on ASCII letters only. Unicode case mapping of other characters is not modelled.
- The unused `network` argument, and the crash when `operator` is undefined: JavaScript runtime behaviour, not part of the computation.
- The constant tags `type: "Feature"`, `type: "Polygon"`, `type: "FeatureCollection"` and the one-ring `coordinates: [hexCoords]` nesting: the model keeps the single ring directly on each feature.
- The closing vertex is the same array object as the first vertex (`hexCoords.push(hexCoords[0])`). The model has value semantics, so this aliasing is not visible. It makes no difference to the serialised JSON.
- The candidate centre is computed through the function `Candidate`, and each vertex through `Vertex`. The loop bodies call these functions rather than repeating the arithmetic inline; the arithmetic is the same as at server.js:73-75 and 95-98.
