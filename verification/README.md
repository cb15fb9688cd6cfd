# Zone counting and timed emission, modelled in Dafny

A people-counting pipeline detects and tracks people in video frames. It then
feeds each frame's tracks (an id plus a bounding box) to two kinds of counting
zones, and it emits metrics at most once per interval. This project models those
three parts and proves properties about them:

- **Line counter** (`LineZone`). Each track's box centre is classified to side
  +1, -1 or 0 of the oriented line A→B, using the signed perpendicular
  distance and a dead band of 2 units. The counter remembers the last side per
  id and reports, per frame, the crossings from -1 to +1 (`aToB`) and from +1
  to -1 (`bToA`). A reading inside the dead band never overwrites a known side.
- **Region-of-interest counter** (`RoiZone`). Each frame, the counter tests every
  track's centre against a polygon with an inclusive point-in-polygon test. It
  reports how many distinct ids are inside now, and how many distinct ids
  have ever been inside.
- **Point-in-polygon test** (`PolygonTest`). This is the substitute for
  `cv2.pointPolygonTest` that the repository's test suite installs. A point
  on an edge scores 0. Otherwise a rightward ray is cast and the even-odd rule
  applies: an odd number of crossings scores +1, an even number -1.
- **Interval emitter** (`Metrics`). Each tick reads the clock and fires when
  at least `interval` seconds have passed since the last firing. The clock
  reading is a parameter.

`Geometry` holds points, the track record and the box centre, plus small
facts about real arithmetic. `Errors` holds the configuration errors that the
constructors raise in the source.

Coordinates are mathematical reals. Integer-valued inputs are exact, and no
float rounding is modelled.

## Model

| member | source | states |
|---|---|---|
| Geometry.Center | src/zones.py:78-79 | the reference point of a track is the centre of its box: equidistant from both sides on each axis, and inside the box when the box is well ordered |
| LineZone.NewLineCounter | src/zones.py:39-54 | the counter is refused (DegenerateLine) exactly when A equals B, and exactly when the squared length of AB is zero; otherwise it holds A and B and no stored sides |
| LineZone.SideMatchesSignedDistance | src/zones.py:81-87 | the square-root-free classification is +1 iff cross/abs(AB) >= 2, -1 iff it is <= -2, and 0 iff it lies strictly between, for any len > 0 whose square is the squared length of AB |
| LineZone.Step | src/zones.py:86-103 | one reading counts A→B iff the stored side is -1 and the reading is +1, and B→A iff the stored side is +1 and the reading is -1; at most one count; a 0 reading leaves a known id untouched and stores 0 for a new id; a non-zero reading is stored |
| LineZone.Update | src/zones.py:69-105 | a frame's deltas are at most the number of tracks; afterwards the stored ids are the old ones plus the frame's ids; ids outside the frame keep their side; the line is unchanged and stored sides stay in {-1, 0, 1} |
| LineZone.UpdateStoresReadings | src/zones.py:86-103 | when no id repeats in a frame, every id of the frame is stored afterwards with its reading if that is non-zero; a dead-band reading keeps the side already known, or stores 0 for a new id |
| LineZone.UpdateCountsMovers | src/zones.py:25-28 | when no id repeats in a frame, aToB is the number of the frame's tracks stored at -1 that now read +1, and bToA the number stored at +1 that now read -1 |
| LineZone.MoversAgree | src/zones.py:95-101 | whether a track counts depends only on the sides stored for the frame's own ids |
| LineZone.SingleTrackCrossing | src/zones.py:95-103 | a single-track frame counts A→B or B→A exactly when the stored side is the opposite non-zero side of the new reading |
| LineZone.AmbiguousFrameChangesNothing | src/zones.py:88-93 | a frame in which every known track reads inside the dead band leaves the counter unchanged and counts nothing |
| LineZone.FrameOnHomeSideCountsNothing | src/zones.py:95-103 | tracks reading only 0 or their own side count nothing, and the stored sides stay 0 or that side |
| LineZone.StayingOnOneSideCountsNothing | src/zones.py:86-103 | over any number of frames, tracks that keep to one side (or the dead band) add nothing to either total |
| LineZone.UpdateWithoutStayer | src/zones.py:95-103 | within one frame, a track stored and read only on its own side or 0 counts nothing, and removing it changes neither the counts nor the other ids' stored sides |
| LineZone.StayingTrackAddsNothing | src/zones.py:95-103 | over any number of frames, removing a track that keeps to one side (or the dead band) from every frame leaves both totals unchanged, whatever the other tracks do |
| LineZone.FixtureCountsAToB | tests/test_zones.py:22-29 | on the line (0,0)→(100,0), a track at y = -20 then y = 25 counts 0, then one A→B |
| LineZone.FixtureCountsBToA | tests/test_zones.py:32-39 | a track at y = 20 then y = -30 counts 0, then one B→A |
| LineZone.FixtureSameSideCountsNothing | tests/test_zones.py:42-47 | a track at y = -30 then y = -10 counts nothing |
| LineZone.FixtureRepeatedIdInFrame | src/zones.py:86-103 | a frame holding id 1 at y = -20 and then at y = 20 counts one A→B: the side stored by the first entry is read by the second |
| RoiZone.NewRoiCounter | src/zones.py:123-126 | the counter is refused (TooFewVertices) exactly when the polygon has fewer than three vertices, including none; otherwise nothing has been seen |
| RoiZone.Update | src/zones.py:143-163 | present is the number of distinct ids whose centre the inclusive test places inside; the seen set grows by exactly those ids; unique_ids is its size; present never exceeds unique_ids; the polygon, and with it the three-vertex invariant, is kept |
| RoiZone.InsideIdsExtend | src/zones.py:144-160 | one more track adds its id to the ids inside exactly when its centre is inside |
| RoiZone.ReturningTracksAddNothing | src/zones.py:158-162 | a frame whose inside tracks were all seen before leaves unique_ids unchanged |
| RoiZone.BoundaryTrackIsPresent | src/zones.py:155-159 | a track whose centre lies on an edge is present (edges are inclusive) |
| RoiZone.SquareScenario | tests/test_zones.py:50-63 | on the square (0,0)–(100,100): entering gives (1, 1), moving inside gives (1, 1), leaving gives (0, 1) |
| RoiZone.SquareEdgeScenario | tests/test_zones.py:66-70 | a track centred at (0, 40) on the left side gives (1, 1) |
| RoiZone.SingletonInsideIds | src/zones.py:156-160 | for a single track, the ids inside are its id when its centre is inside, otherwise none |
| PolygonTest.OnSegmentCases | tests/conftest.py:19-24 | a cross product beyond 1e-6 rejects the point; on the line itself the test accepts exactly the points with non-positive dot product; both endpoints are accepted |
| PolygonTest.BetweenIsOnSegment | tests/conftest.py:10-24 | every point of the closed segment passes the on-segment test |
| PolygonTest.CollinearOnSegmentIsBetween | tests/conftest.py:10-24 | for a point exactly on the line through an edge, the test accepts the point iff it lies on the closed segment; for a degenerate edge that is the repeated point alone |
| PolygonTest.DegenerateSegmentPoint | tests/conftest.py:23-24 | on an edge whose endpoints coincide, only that point passes the dot-product test |
| PolygonTest.CrossesIffRayHits | tests/conftest.py:46-48 | the crossing condition holds iff the edge straddles the point's horizontal line and the rightward ray from the point meets the edge |
| PolygonTest.StraddlePoint | tests/conftest.py:46-48 | for a straddling edge, the interpolation fraction lies in [0, 1], and the compared abscissa is that of the point where the edge meets the horizontal line |
| PolygonTest.PointPolygonTest | tests/conftest.py:27-52 | the result is 0, 1 or -1; 0 iff the point is on some edge, including the closing edge; 1 iff it is off every edge and the crossing count is odd; non-negative iff the point is contained |
| PolygonTest.OnAnyEdge | tests/conftest.py:35-39 | the first pass finds an edge iff the point is on the boundary |
| PolygonTest.CrossingParity | tests/conftest.py:41-52 | the flag flipped at each crossed edge ends set iff the number of crossed edges is odd |
| PolygonTest.FlipsIsOddCount | tests/conftest.py:49-50 | after k edges, the flipped flag equals the parity of the crossings among them |
| PolygonTest.ClosingEdgeOnBoundary | tests/conftest.py:35-39 | a point on the edge from the last vertex back to the first is on the boundary and contained |
| PolygonTest.VertexOnBoundary | tests/conftest.py:35-39 | every vertex is on the boundary |
| PolygonTest.HorizontalEdgeNeverToggles | tests/conftest.py:46-50 | a horizontal edge never changes the crossing count |
| PolygonTest.SquareInterior | tests/test_zones.py:50-59 | a point at least one unit inside the square is off its edges, crosses exactly one edge and is contained |
| PolygonTest.SquareBeyondCorner | tests/test_zones.py:61-63 | a point beyond the square's top-right corner crosses no edge and is not contained |
| PolygonTest.SquareLeftEdge | tests/test_zones.py:66-70 | a point on the square's left side is on the boundary through the closing edge |
| Metrics.NewEmitter | src/metrics.py:18-28 | the emitter is refused (IntervalTooShort) exactly when the interval is below 1; otherwise the last firing time starts at 0 |
| Metrics.Tick | src/metrics.py:30-43 | a tick fires iff at least the interval has passed since the last firing; firing records the reading as the last firing time; not firing changes nothing; afterwards less than one interval separates the reading from the last firing |
| Metrics.Run | src/metrics.py:30-43 | a sequence of ticks fires at no more readings than there are ticks, and only at readings from the sequence; the last firing time is the last reading that fired |
| Metrics.RunSnoc | src/metrics.py:40-43 | appending a reading to a run fires it exactly when it is at least one interval after the run's last firing time, and then appends it to the firings and makes it the last firing time; otherwise the firings and the state are unchanged |
| Metrics.FiringsSpaced | src/metrics.py:41-43 | consecutive firings are at least one interval apart, and the first is at least one interval after the starting last-firing time |
| Metrics.FiringsSpread | src/metrics.py:41-43 | n firings span at least n - 1 intervals: the emitter fires at most once per interval |
| Metrics.FiresAtTestReadings | tests/test_metrics.py:15-41 | with interval 1 and clock readings 0.0, 0.5, 1.2, 1.8, 2.3, the emitter fires twice, at 1.2 and 2.3 |

## Left out

- The rest of the pipeline is not modelled: video capture, detection, tracking, drawing and the command-line application (src/app.py, src/detect.py, src/track.py, src/draw.py). Those are I/O and foreign-library code.
- The CSV and JSON writers (`append_to_csv`, `write_summary_json` in src/metrics.py) are left out because they only do file I/O.
- Float precision is not modelled. The source casts line endpoints to float32 and polygon vertices to int32, and computes in floating point. The model uses exact reals. So rounding is not modelled, including the zero-length test on distinct integer points beyond 2^24 that collapse in float32.
- LineZone.NewLineCounter: the source rejects a line whose float norm is exactly zero. The model rejects A == B, which is the same condition over exact reals.
- LineZone.SideOf: the source divides the cross product by the square root of the squared length. The model compares squares instead. SideMatchesSignedDistance proves that the two rules agree for any positive length whose square is the squared length.
- PolygonTest.Crosses: the source adds 1e-9 to the denominator `y2 - y1`. The model divides by `y2 - y1` exactly. The straddle test already makes the denominator non-zero, and the offset only shifts the compared abscissa by a rounding-sized amount.
- RoiZone.Update: the containment test is the ray-casting substitute for `cv2.pointPolygonTest` from the repository's tests (tests/conftest.py), not OpenCV's own implementation. OpenCV is foreign code. The substitute keeps the same 0 / +1 / -1 contract.
- Tracks given as dictionaries rather than records are the same data in another shape. The model has one `Track` record. The confidence score is dropped because no counter reads it.
- Metrics.Tick: `time.time()` becomes the parameter `now`, and invoking the callback becomes the returned `fired` flag.
- LineZone.Run: sums the per-frame deltas, as a caller would. The source keeps no running totals itself, so this contract states only that the line and the invariant are kept.
- LineZone.UpdateCountsMovers and LineZone.UpdateStoresReadings: they characterise only frames in which no id repeats, which the tracker guarantees (one entry per id per frame). `Update` itself takes any frame and, like the source, carries the stored side forward within the frame: id 1 read at y = -20 and then at y = 20 in one frame counts one A→B (FixtureRepeatedIdInFrame). StayingTrackAddsNothing needs no such restriction.
