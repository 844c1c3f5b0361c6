# Document scanning core of the ONE Record logistics client, in Dafny

This project models the decision logic of the application's document
scanner and of the in-memory logistics-object store behind its CRUD
screens, and proves properties of that model.

- **One-shot scan** (`document-scan.service.ts`):
  - `ScanGeometry` models the integer contour geometry. That is corner ordering by x+y and x−y (`orderContour`), squared distances, the shoelace `polygonArea`, and `Math.round(Math.sqrt(…))` of a whole number.
  - `ScanContours` models which polygon approximations survive the 4-vertex and minimum-area filter and how they are ranked by area. It also covers which one `processDocument` picks, and the output size and destination rectangle of `warpPerspective`.
- **Interactive scanner** (`document-scanner.component.ts`):
  - `ScannerGeometry` models `orderPoints`: a stable sort by y, then by x within the top and bottom pairs.
  - `ScannerDetection` models `evaluateContour` (convexity and aspect score) and the best-contour loop of `detectDocumentCorners`.
  - `CornerEditor` models the corner editor: hit test, drag, mouse up, active corner, arrow-key nudges, clamping to a 10-pixel margin, and the default, loaded and detected corners.
  - `SignatureInk` models the loop that turns every non-transparent signature pixel opaque black.
- **Store** (`mock-data.service.ts`): `MockStore` models id normalisation, lookup by id and by type, creation, update by field merge, and deletion.
- **List view** (`list.component.ts`): `ListView` models `extractId` and its round trip with the store's id normalisation.
- `Arrays` holds the stable insertion sort and the filter used for JavaScript's `Array.prototype.sort` and `filter`. `Wrappers` holds `Option` and `Result`.

Behaviours of the code a reader might not expect, all modelled as written:

- Convexity is `area / hullArea`, which exceeds 1 when the contour's area is larger than its hull's.
- The aspect test divides the width by the height of the approximation as listed, with the width taken from sides 0-1 and 2-3. It therefore depends on which vertex comes first (`ScannerDetection.AspectDependsOnStartVertex`).
- The one-shot path's default minimum area is the fixed constant 15000, independent of the frame size.
- Unless the caller gives a size, `warpPerspective` sizes its target from the ordered corners, taking the longer of two opposite sides. The width is then 0 only when both the top and the bottom side have length 0, and likewise the height for the left and right sides (`ScanContours.PlanWarpZeroSize`). There is no separate check for degenerate geometry.
- `orderContour` can fail to be a permutation when the least or greatest x+y or x−y is shared by two vertices, because each slot takes the first vertex attaining its extreme. For a square turned by 45 degrees it repeats the top vertex and drops the left one (`ScanGeometry.OrderContourDiamondRepeatsCorner`).

## Model

Paths are relative to the repository root.

| member | source | states |
|---|---|---|
| `ScanGeometry.OrderContour` | libs/data-access/src/lib/services/document-scan.service.ts:247-258 | slot 0 is the first point of least x+y, slot 1 the first of greatest x−y, slot 2 the first of greatest x+y, slot 3 the first of least x−y (`indexOf` of `Math.min`/`Math.max`) |
| `ScanGeometry.OrderContourRectangle` | libs/data-access/src/lib/services/document-scan.service.ts:247-258 | any arrangement of the four corners of a proper axis-aligned rectangle is ordered as top-left, top-right, bottom-right, bottom-left |
| `ScanGeometry.OrderContourIdempotent` | libs/data-access/src/lib/services/document-scan.service.ts:247-258 | when each extreme is attained by a single point, ordering an ordered contour again changes nothing |
| `ScanGeometry.OrderContourDiamondRepeatsCorner` | libs/data-access/src/lib/services/document-scan.service.ts:251-256 | on a square turned by 45 degrees, top-left and top-right are both the top vertex and the left vertex is missing |
| `ScanGeometry.SqDistAxisAligned` | libs/data-access/src/lib/services/document-scan.service.ts:261-265 | along a horizontal or vertical side the squared distance is the square of the coordinate gap |
| `ScanGeometry.LoopSumIsClosedSum` | libs/data-access/src/lib/services/document-scan.service.ts:268-273 | the loop with the `(i + 1) % length` successor adds exactly the cross terms of the closed polygon |
| `ScanGeometry.PolygonArea` | libs/data-access/src/lib/services/document-scan.service.ts:267-275 | the area is never negative, and twice the area is the absolute value of the closed path's cross-term sum (`ClosedSum`), an independent shoelace definition without the `%` successor |
| `ScanGeometry.PolygonAreaDegenerate` | libs/data-access/src/lib/services/document-scan.service.ts:267-275 | fewer than three vertices have area zero |
| `ScanGeometry.PolygonAreaRotate` | libs/data-access/src/lib/services/document-scan.service.ts:267-275 | starting the vertex list at another vertex keeps the area |
| `ScanGeometry.PolygonAreaReverse` | libs/data-access/src/lib/services/document-scan.service.ts:267-275 | listing the vertices in reverse keeps the area, because `Math.abs` removes the orientation |
| `ScanGeometry.PolygonAreaRectangle` | libs/data-access/src/lib/services/document-scan.service.ts:267-275 | an axis-aligned rectangle's area is its width times its height |
| `ScanGeometry.PolygonAreaUnitSquare` | libs/data-access/src/lib/services/document-scan.service.ts:267-275 | a unit square anywhere has area 1 |
| `ScanGeometry.RoundSqrt` | libs/data-access/src/lib/services/document-scan.service.ts:214-215 | the result is the integer nearest the square root of the whole number given |
| `ScanGeometry.RoundSqrtOfSquare` | libs/data-access/src/lib/services/document-scan.service.ts:214-215 | a perfect square rounds to its exact root |
| `ScanGeometry.RoundSqrtZero` | libs/data-access/src/lib/services/document-scan.service.ts:214-215 | the rounded square root is 0 exactly for 0 |
| `ScanContours.ExtractContours` | libs/data-access/src/lib/services/document-scan.service.ts:165-197 | the result holds exactly the approximations with four vertices and area at least the minimum, with their multiplicities, in order of non-increasing area |
| `ScanContours.ExtractContoursHead` | libs/data-access/src/lib/services/document-scan.service.ts:194-196 | the first candidate is the earliest qualifying approximation of greatest area, since the sort is stable |
| `ScanContours.ExtractContoursIdempotent` | libs/data-access/src/lib/services/document-scan.service.ts:165-197 | extracting from the extracted list gives the same list |
| `ScanContours.MinArea` | libs/data-access/src/lib/services/document-scan.service.ts:148 | the caller's minimum contour area when given, otherwise 15000 |
| `ScanContours.TargetSize` | libs/data-access/src/lib/services/document-scan.service.ts:214-215 | a size given by the caller wins, otherwise it is the integer nearest the side's length |
| `ScanContours.PlanWarp` | libs/data-access/src/lib/services/document-scan.service.ts:205-232 | the source corners are the ordered contour, the width comes from the longer of the top and bottom sides, and the height from the longer of the left and right sides |
| `ScanContours.PlanWarpRectangle` | libs/data-access/src/lib/services/document-scan.service.ts:205-232 | an axis-aligned rectangle given in any order is warped to exactly its own width and height, with its corners in the conventional order |
| `ScanContours.PlanWarpZeroSize` | libs/data-access/src/lib/services/document-scan.service.ts:205-215 | without a size from the caller, the width is 0 exactly when the top and bottom sides both have length 0, and the height exactly when the left and right sides do |
| `ScanContours.Destination` | libs/data-access/src/lib/services/document-scan.service.ts:218-232 | four corners: (0, 0), then (W-1, 0), (W-1, H-1) and (0, H-1), sharing coordinates as an axis-aligned rectangle does |
| `ScanContours.DestinationOrdered` | libs/data-access/src/lib/services/document-scan.service.ts:218-232 | for a target of at least 2 by 2 pixels the destination is already in `orderContour`'s order, so the ordered source corner k is sent to target corner k |
| `ScanContours.DestinationArea` | libs/data-access/src/lib/services/document-scan.service.ts:218-232 | the destination of a non-empty target has area (W-1)(H-1) |
| `ScanContours.ProcessDocument` | libs/data-access/src/lib/services/document-scan.service.ts:148-153 | there is no result exactly when no approximation qualifies; otherwise the contour is the earliest qualifying one of greatest area, warped by `PlanWarp` |
| `ScanContours.ScanSingleRectangle` | libs/data-access/src/lib/services/document-scan.service.ts:132-163 | a frame whose only approximation is a large enough rectangle scans to a warp of that rectangle's exact size |
| `ScannerGeometry.OrderPoints` | admin/src/app/remote-entry/document-scanner.component.ts:412-433 | a list not of four points is returned as it is; four points come back rearranged, with the top pair left to right and the bottom pair right to left |
| `ScannerGeometry.PairsOfSorted` | admin/src/app/remote-entry/document-scanner.component.ts:418-432 | splitting a y-sorted list into top and bottom pairs and sorting each by x gives a rearrangement in corner layout |
| `ScannerGeometry.OrderPointsKeepsLayout` | admin/src/app/remote-entry/document-scanner.component.ts:412-433 | four points already in corner layout are returned unchanged |
| `ScannerGeometry.OrderPointsIdempotent` | admin/src/app/remote-entry/document-scanner.component.ts:412-433 | ordering the ordered points again changes nothing |
| `ScannerGeometry.OrderPointsTieBreak` | admin/src/app/remote-entry/document-scanner.component.ts:415-432 | the four corners, named by their positions in the input, satisfy `TieBroken`: each top corner comes before each bottom corner by y, with equal y going to the one listed first. The top pair runs left to right and the bottom pair right to left, with equal x again ordered by y and then by input position |
| `ScannerGeometry.TieBrokenUnique` | admin/src/app/remote-entry/document-scanner.component.ts:415-432 | at most one naming of the corners meets `TieBroken`, so it determines the result completely |
| `ScannerGeometry.OrderPointsDiamond` | admin/src/app/remote-entry/document-scanner.component.ts:415-432 | a 45-degree diamond listed top, left, bottom, right comes back left, top, right, bottom, because the left vertex ties with the right one on y and is listed first |
| `Arrays.SortStable` | admin/src/app/remote-entry/document-scanner.component.ts:416 | `sort` with a key-difference comparator is stable: the result lists the input by key, and equal keys keep their input order |
| `ScannerDetection.Convexity` | admin/src/app/remote-entry/document-scanner.component.ts:374-380 | with a positive hull area the score times the hull area is the contour area; otherwise it is 0 |
| `ScannerDetection.Aspect` | admin/src/app/remote-entry/document-scanner.component.ts:384-394 | 1 exactly when width / height lies in [0.7, 1.4], else 0.5; a zero height never passes |
| `ScannerDetection.AcceptableIsRatio` | admin/src/app/remote-entry/document-scanner.component.ts:384-394 | for non-negative lengths w and h, the squared test on w² and h² holds exactly when h > 0 and 0.7 ≤ w / h ≤ 1.4 |
| `ScannerDetection.AspectOfLengths` | admin/src/app/remote-entry/document-scanner.component.ts:384-394 | with any non-negative width and height whose squares are the squared width and height of the approximation, the aspect score is 1 exactly when 0.7 ≤ width / height ≤ 1.4 with a positive height |
| `ScannerDetection.Combine` | admin/src/app/remote-entry/document-scanner.component.ts:396 | the weights sum to one, so equal components give that value; components in their ranges give a score in [0.15, 1] |
| `ScannerDetection.CombineMonotone` | admin/src/app/remote-entry/document-scanner.component.ts:396 | the score does not decrease when convexity or aspect grows |
| `ScannerDetection.Score` | admin/src/app/remote-entry/document-scanner.component.ts:371-397 | a contour with non-negative areas scores at least 0.15, and one whose area does not exceed its hull's scores at most 1 |
| `ScannerDetection.ScoreOfConvexProportioned` | admin/src/app/remote-entry/document-scanner.component.ts:371-397 | a convex contour with proportioned sides scores exactly 1 |
| `ScannerDetection.AspectDependsOnStartVertex` | admin/src/app/remote-entry/document-scanner.component.ts:384-394 | the same 7 by 10 rectangle passes the aspect test from one start vertex and fails it from the next |
| `ScannerDetection.DetectDocumentCorners` | admin/src/app/remote-entry/document-scanner.component.ts:321-363 | with no candidate of positive score the result is undetected with no corners. Otherwise the corners are the ordered approximation of the earliest candidate of highest score, and detection holds exactly when that score exceeds 0.3 |
| `ScannerDetection.DetectSingleDocument` | admin/src/app/remote-entry/document-scanner.component.ts:325-361 | one convex, proportioned contour inside the area band is the best contour and is detected |
| `ScannerDetection.BestUnique` | admin/src/app/remote-entry/document-scanner.component.ts:344-347 | the best contour is unique: the strict `score > bestScore` test fixes it from the scores and the order |
| `CornerEditor.Clamp` | admin/src/app/remote-entry/document-scanner.component.ts:620-621 | the result is at least 10; a value below 10 goes to 10; on a canvas of at least 20 pixels the result is at most the size minus 10 and a value above that goes to it; on a narrower canvas every value goes to 10; a value already in range is kept |
| `CornerEditor.ClampIdempotent` | admin/src/app/remote-entry/document-scanner.component.ts:620-621 | clamping a clamped coordinate again changes nothing |
| `CornerEditor.AdjustCorner` | admin/src/app/remote-entry/document-scanner.component.ts:614-624 | an index outside the corners changes nothing; otherwise only that corner moves, by the clamped offset, keeping its flags |
| `CornerEditor.SetActiveCorner` | admin/src/app/remote-entry/document-scanner.component.ts:602-612 | exactly the corner at the index is active afterwards; points and drag flags are untouched |
| `CornerEditor.SetActiveCornerTwice` | admin/src/app/remote-entry/document-scanner.component.ts:602-612 | activating one corner then another is the same as activating only the second |
| `CornerEditor.ClosestCorner` | admin/src/app/remote-entry/document-scanner.component.ts:536-549 | -1 exactly when no corner is within 15 pixels; otherwise the earliest corner of least distance, which is within 15 pixels |
| `CornerEditor.MouseDown` | admin/src/app/remote-entry/document-scanner.component.ts:524-562 | outside the edit step or with no corner hit nothing changes. Otherwise the nearest corner is dragged from the cursor and flagged, and it becomes the only active corner |
| `CornerEditor.MouseMove` | admin/src/app/remote-entry/document-scanner.component.ts:564-591 | without a drag nothing changes; with one, the dragged corner moves by the cursor's movement, clamped, and the cursor becomes the new reference |
| `CornerEditor.DragTwice` | admin/src/app/remote-entry/document-scanner.component.ts:576-585 | two drag moves clear of the borders equal one move to the final cursor position |
| `CornerEditor.MouseUp` | admin/src/app/remote-entry/document-scanner.component.ts:593-600 | the drag ends (no drag, index -1) and the dragged corner loses its flag; every other field of the editor and the points and active flags of the corners are kept |
| `CornerEditor.FirstActive` | admin/src/app/remote-entry/document-scanner.component.ts:630-634 | the index of the first active corner, or -1 when none is active |
| `CornerEditor.KeyDown` | admin/src/app/remote-entry/document-scanner.component.ts:627-654 | on the edit step an arrow key moves the first active corner 5 pixels in its direction, clamped; otherwise nothing changes |
| `CornerEditor.KeyUpThenDown` | admin/src/app/remote-entry/document-scanner.component.ts:636-644 | up then down restores the editor when the active corner is clear of the top and bottom margins |
| `CornerEditor.DefaultPoints` | admin/src/app/remote-entry/document-scanner.component.ts:53-58 | four corners of an axis-aligned rectangle from (100, 100) to (400, 300), in the corner layout |
| `CornerEditor.DefaultPointsOrdered` | admin/src/app/remote-entry/document-scanner.component.ts:53-58 | the initial corners are already in the layout `orderPoints` produces |
| `CornerEditor.LoadPoints` | admin/src/app/remote-entry/document-scanner.component.ts:236-245 | the loaded corners form the rectangle 10% in from each border |
| `CornerEditor.LoadImage` | admin/src/app/remote-entry/document-scanner.component.ts:230-245 | loading sets the canvas size and four inactive, undragged corners at the loaded positions; every other field of the editor is kept |
| `CornerEditor.LoadPointsOrdered` | admin/src/app/remote-entry/document-scanner.component.ts:236-245 | the loaded corners are already in the layout `orderPoints` produces |
| `CornerEditor.ApplyDetection` | admin/src/app/remote-entry/document-scanner.component.ts:272-280 | the corners are replaced by the detected ones, all inactive, only when detection succeeded with four corners |
| `SignatureInk.Pixel` | admin/src/app/remote-entry/document-scanner.component.ts:1093-1098 | a pixel becomes opaque black exactly when its alpha is positive; with zero alpha it is kept |
| `SignatureInk.Ink` | admin/src/app/remote-entry/document-scanner.component.ts:1091-1099 | the reference pass, pixel by pixel with a trailing partial pixel kept, keeps the length; `Recolour` is proved equal to it and `InkPixel` and `InkOfPixel` describe each of its pixels |
| `SignatureInk.Recolour` | admin/src/app/remote-entry/document-scanner.component.ts:1091-1099 | the per-byte loop, stepping four bytes at a time and rewriting the buffer held as a value, returns exactly `Ink` of its input |
| `SignatureInk.InkPixel` | admin/src/app/remote-entry/document-scanner.component.ts:1091-1099 | every complete pixel of the result is that pixel of the input after the pass |
| `SignatureInk.InkOfPixel` | admin/src/app/remote-entry/document-scanner.component.ts:1093-1098 | a complete pixel with zero alpha keeps its four bytes; any other becomes 0, 0, 0, 255 |
| `SignatureInk.InkAlphaBinary` | admin/src/app/remote-entry/document-scanner.component.ts:1091-1099 | after the pass every complete pixel has alpha 0 or 255 |
| `SignatureInk.InkIdempotent` | admin/src/app/remote-entry/document-scanner.component.ts:1091-1099 | recolouring twice equals recolouring once |
| `MockStore.IncludesIff` | libs/data-access/src/lib/services/mock-data.service.ts:100 | `includes` holds exactly when the text occurs at some position |
| `MockStore.NormalizeId` | libs/data-access/src/lib/services/mock-data.service.ts:100 | an id containing "http" is kept; any other gets the base URI in front; the result always contains "http" |
| `MockStore.NormalizeIdempotent` | libs/data-access/src/lib/services/mock-data.service.ts:100 | normalising a normalised id changes nothing |
| `MockStore.FindIndex` | libs/data-access/src/lib/services/mock-data.service.ts:128 | the first index whose `@id` equals the id, or -1 exactly when there is none |
| `MockStore.GetById` | libs/data-access/src/lib/services/mock-data.service.ts:99-103 | absent exactly when no record has the normalised id; otherwise the first record that has it |
| `MockStore.ByType` | libs/data-access/src/lib/services/mock-data.service.ts:108-111 | exactly the records whose `@type` is that one string, never more than the store holds; the empty store lists nothing |
| `MockStore.ByTypeAppend` | libs/data-access/src/lib/services/mock-data.service.ts:108-111 | appending a record appends it to the listing of its type when its `@type` is that type, and leaves the listing unchanged otherwise; with the empty store's empty listing this fixes the listing and its order |
| `MockStore.Create` | libs/data-access/src/lib/services/mock-data.service.ts:116-121 | the store gains the new record at its end; the record has the given fields with `@id` overridden by the time-based id |
| `MockStore.Update` | libs/data-access/src/lib/services/mock-data.service.ts:126-136 | fails with "Logistics object not found" and no change exactly when the id is absent. Otherwise the first matching record is replaced by the merge, whose fields from `data` win and whose other fields are kept |
| `MockStore.Delete` | libs/data-access/src/lib/services/mock-data.service.ts:141-151 | `false` and no change exactly when the id is absent; otherwise the first matching record is removed and the rest keep their order |
| `MockStore.DecimalHasNoScheme` | libs/data-access/src/lib/services/mock-data.service.ts:117 | the decimal digits of a timestamp never contain "http" |
| `MockStore.GetAfterCreate` | libs/data-access/src/lib/services/mock-data.service.ts:116-121 | a created record is found again by its full id and by its short decimal id |
| `MockStore.GetAfterUpdate` | libs/data-access/src/lib/services/mock-data.service.ts:126-136 | after a successful update that leaves `@id` alone, looking up the id returns the merged record |
| `MockStore.GetAfterDelete` | libs/data-access/src/lib/services/mock-data.service.ts:141-151 | in a store of unique ids, a deleted id is no longer found |
| `MockStore.ByTypeAfterCreate` | libs/data-access/src/lib/services/mock-data.service.ts:108-121 | creating a record appends it to the listing of its own type and leaves every other listing unchanged |
| `ListView.ExtractId` | logisticsObjects/src/app/list/list.component.ts:232-234 | the text after the last '/', or the whole uri when that text is empty |
| `ListView.ExtractIdIsSuffix` | logisticsObjects/src/app/list/list.component.ts:232-234 | the id is a suffix of the uri |
| `ListView.ExtractIdHasNoSlash` | logisticsObjects/src/app/list/list.component.ts:232-234 | the id holds a '/' only when it is the whole uri, which then ends in '/' |
| `ListView.ExtractIdNoSlash` | logisticsObjects/src/app/list/list.component.ts:232-234 | a uri without '/' is its own id |
| `ListView.ExtractIdRoundTrip` | logisticsObjects/src/app/list/list.component.ts:232-234 | a short id without '/' or "http" normalised by the store is extracted back unchanged, and normalising that again gives the same full id |
| `ListView.ExtractIdOfNewId` | logisticsObjects/src/app/list/list.component.ts:232-234 | the list shows a created record by the decimal time of its creation |

## Left out

- The OpenCV operators are not part of this model. These are greyscale conversion, blur, Canny edges, dilation, contour finding, `approxPolyDP`, `convexHull`, `contourArea` of a raw contour, `getPerspectiveTransform` and `warpPerspective` resampling. Their results are inputs: the list of approximations, or one `Observation` per contour.
- `contourArea` of a four-vertex integer approximation is modelled as the shoelace area `ScanGeometry.PolygonArea`. That is the value OpenCV computes for such a polygon.
- `extractCorners` reads an integer approximation through its float view (`data32F`). The model takes the corner coordinates as given and does not model that reinterpretation. Read as float32 bits, a small whole coordinate n is the denormal n·2^-149. Ratios, and so the aspect test and the score, are unaffected, but the detected corners then lie next to (0, 0). This consequence is derived from the code, not observed.
- Floating point is not modelled.
  - The interactive scanner uses exact reals.
  - Distances are compared through their squares, which is exact for square roots of non-negative numbers.
  - `Math.round(Math.sqrt(n))` is modelled exactly for whole n, as `ScanGeometry.RoundSqrt`.
- `ScanGeometry.OrderContour` requires a non-empty list. On an empty list the source indexes with -1 and yields undefined entries, which have no model here.
- `CornerEditor.MouseMove` requires a valid editor. The source would throw on a drag index past the four corners, and no sequence of events produces one.
- `CornerEditor.MouseUp` requires a valid editor, for the same reason as `MouseMove`.
- The camera, the canvases, drawing of the overlay and the grid, and the conversion from client to canvas coordinates are left out. Cursor positions are given in canvas coordinates.
- The step changes outside the editor are left out, and so is the enhancement filter chain: black-and-white, colour and enhanced modes.
- The signature is reduced to its recolouring loop. Drawing strokes and compositing onto the document are drawing calls.
- `Date.now()` becomes the parameter `now`. The artificial response delays and the observable wrappers of the store are not modelled.
- `MockStore.Update` models the thrown "Logistics object not found" error as a `Failure` result.
- Fields a `Partial` update sets to `undefined` are not modelled. A record's fields are a map from names to present values.
- The catch paths of `detectDocumentCorners` and `autoDetectDocument` are not modelled. They log the error and report no detection.
