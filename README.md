# Fill bucket packing and the piecewise-constant cross-fade, in Dafny

This project models two parts of the renderer of a vector-tile map library.

1. The buffer bookkeeping of the fill bucket (`FillBucket` in
   `src/mbgl/renderer/fill_bucket.cpp`). `addGeometry` collects the non-empty
   rings of a geometry and then runs a tessellation pass over the polygon
   union's output. The pass does the following:
   - It estimates the stroke mesh at 8 vertices and 4 triples per boundary
     point. It fails with "geometry too long" when the estimate exceeds 65536
     vertices.
   - It reuses or starts a line group under the 16-bit capacity rule.
   - It appends every boundary point to the fill vertex buffer.
   - It appends a quad-and-bevel stroke mesh around every point to the stroke
     buffers.
   - On the tessellator's success it gives the tessellator's new (Steiner)
     vertices fresh indices and appends the fill triangles whose corners are
     all defined. It also reuses or starts a triangle group.

   `drawElements` and `drawVertices` walk the groups in order and accumulate
   the byte offsets of each draw.
2. The piecewise-constant style function
   (`src/mbgl/style/piecewisefunction_properties.cpp`):
   - `getBiggestStopLessThan`, a linear floor-stop search over (zoom, value)
     stops;
   - `PiecewiseConstantFunction::evaluate`, which picks the stops to fade
     from and to, their scales and the blend weight.

Modules:

- `Geometry` (`geometry.dfy`): integer points and rings, index triples, and
  the records of the fill vertex buffer.
- `StrokeMesh` (`stroke_mesh.dfy`): the cyclic neighbour indices and the
  eight stroke vertices and four triples built per boundary point. A stroke
  vertex records the points it is built from, which makes the choice of
  neighbours observable. The two float dot-product sign tests per point are
  given as booleans.
- `Tessellation` (`tessellation.dfy`): the tessellator's output as data, the
  Steiner pass as a function (`Remap`, `SteinerVertices`) and the emitted
  fill triangles (`FillTriangles`).
- `Groups` (`groups.dfy`): line and triangle groups, the rules for starting a
  new group, and the byte offsets of each draw.
- `Bucket` (`fill_bucket.dfy`): the class `FillBucket`.
  - Its fields are the buffers and groups as sequences, the `hasVertices`
    flag and the rings pending for the union.
  - `State()` views the buffers and groups as one `Buffers` value. Each
    method states its new state as a function of the old one (`Stroked`,
    `Filled`, `Packed`).
  - Lemmas prove that these functions keep the bucket's bookkeeping
    (`Accounted`) and append exactly what the source appends.
- `PiecewiseFunction` (`piecewise_function.dfy`): the stop search as a
  recursive function and the evaluation as a pure function of the stops, the
  parameters and the current time `now`.

The model keeps the following behaviours of the code exactly as written:

- The estimate check rejects only estimates above 65536 vertices, not those
  above the 16-bit group capacity of 65535. A call of 65536 estimated
  vertices is accepted and makes a line group of 65536 vertices
  (`Groups.FullEstimateExceedsCapacity`).
- The triangle-group rule checks only the vertex count against 65535. The
  line-group rule checks the triple count as well.
- The successor of a ring's last point is point 1, where a cyclic successor
  would be point 0.
- Triangles dropped for an undefined index still count in the group's
  triangle count, so the count can exceed the triples in the buffer.
- The fade progress is capped at 1 but not clamped below at 0.
- At the start of a fade (t = 0) the weight is 1 − fraction when not zooming
  in, not 1.

## Model

| member | source | states |
|---|---|---|
| Bucket.FillBucket.constructor | src/mbgl/renderer/fill_bucket.cpp:31-58 | the bucket records the current lengths of the buffers it shares as its base offsets; it starts with no groups and nothing pending, and its bookkeeping holds |
| Bucket.NonEmptyRings | src/mbgl/renderer/fill_bucket.cpp:74-83 | every ring handed to the union is a non-empty ring of the geometry, and every non-empty ring of the geometry is handed over |
| Bucket.NonEmptyRingsCounts | src/mbgl/renderer/fill_bucket.cpp:78-79 | each non-empty ring is handed to the union exactly as many times as it occurs in the geometry, and an empty ring never |
| Bucket.FillBucket.Accumulate | src/mbgl/renderer/fill_bucket.cpp:74-83 | every non-empty ring, in order, joins the pending rings; hasVertices is set iff something was pending or a non-empty ring arrived; no buffer or group changes |
| Bucket.FillBucket.AddGeometry | src/mbgl/renderer/fill_bucket.cpp:73-86 | afterwards nothing is pending; if something was pending or a non-empty ring arrived, the result and new state are those of a tessellation pass; otherwise nothing changes |
| Bucket.FillBucket.Tessellate | src/mbgl/renderer/fill_bucket.cpp:98-302 | with nothing pending nothing changes; otherwise the pending rings are cleared, an empty union changes nothing, an estimate above 65536 fails with GeometryTooLong before any write, and otherwise the state becomes Packed of the old state; the bookkeeping invariant is kept |
| Bucket.FillBucket.Estimate | src/mbgl/renderer/fill_bucket.cpp:112-119 | the estimate is the total number of boundary points, 8 stroke vertices and 4 stroke triples per point |
| Bucket.FillBucket.Pack | src/mbgl/renderer/fill_bucket.cpp:125-301 | the packing part of a pass leaves the buffers and groups equal to Packed of their previous values |
| Bucket.FillBucket.OpenLineGroup | src/mbgl/renderer/fill_bucket.cpp:125-134 | a line group is appended iff there is none or the last cannot take the vertex or the triple estimate within 65535; the group used is the last |
| Bucket.FillBucket.GrowLineGroup | src/mbgl/renderer/fill_bucket.cpp:238 | the last line group grows by the given counts and nothing else changes (also used for line 301) |
| Groups.AddToLastInSteps | src/mbgl/renderer/fill_bucket.cpp:238-301 | growing the line group by the triple estimate and, after the fill part, by the vertex estimate grows it by both |
| Groups.LineGroupsAfterKeepsBounds | src/mbgl/renderer/fill_bucket.cpp:121-129 | a call adds at most one line group and keeps the earlier ones; every group holds at most 65536 vertices and 65535 triples; a reused group stays within 65535 |
| Groups.FullEstimateExceedsCapacity | src/mbgl/renderer/fill_bucket.cpp:121-129 | an estimate of exactly 65536 vertices passes the check and yields a line group of 65536 vertices, above the 16-bit capacity |
| Groups.AddToLast | src/mbgl/renderer/fill_bucket.cpp:289-290 | growing the last group keeps the other groups and raises the vertex and triple sums by exactly the growth |
| Groups.OpenGroup | src/mbgl/renderer/fill_bucket.cpp:255-258 | starting a group appends one empty group and leaves the sums unchanged; otherwise nothing changes |
| Bucket.FillBucket.EmitRings | src/mbgl/renderer/fill_bucket.cpp:137-236 | the ring loop appends every boundary point to the fill buffer and the stroke mesh of every point to the stroke buffers: the state becomes Stroked of the old state |
| Bucket.FillBucket.EmitRing | src/mbgl/renderer/fill_bucket.cpp:141-231 | one ring appends its points to the fill buffer and its corners' stroke mesh, indexed from the stroke buffer's length, to the stroke buffers; nothing else changes |
| Bucket.FillBucket.EmitRingPoints | src/mbgl/renderer/fill_bucket.cpp:142-146 | every point of the ring is appended once to the fill buffer, in order |
| Bucket.FillBucket.EmitRingStroke | src/mbgl/renderer/fill_bucket.cpp:148-231 | every point appends its corner's 8 stroke vertices and 4 triples, in order |
| Bucket.FillBucket.EmitCorner | src/mbgl/renderer/fill_bucket.cpp:156-229 | point i appends the edge quad from its predecessor, the bevel at the predecessor and the bevel at the point, with triples from the stroke buffer's previous length; each bevel triple attaches to the quad corner its sign test selects |
| Geometry.BoundaryVerticesAreRingPoints | src/mbgl/renderer/fill_bucket.cpp:137-146 | every fill record of a pass's rings is a point of one of the rings, and every point of every ring is among them |
| StrokeMesh.PrevIndex | src/mbgl/renderer/fill_bucket.cpp:149 | the predecessor index lies in the ring, wraps to the last point at 0 and is i - 1 otherwise |
| StrokeMesh.NextIndex | src/mbgl/renderer/fill_bucket.cpp:157 | the successor index lies in the ring (two or more points), is i + 1 before the last point and 1 (not 0) at the last point |
| StrokeMesh.CornerStroke | src/mbgl/renderer/fill_bucket.cpp:169-220 | a boundary point contributes exactly 8 stroke vertices |
| StrokeMesh.CornerTriples | src/mbgl/renderer/fill_bucket.cpp:173-228 | a boundary point contributes exactly 4 stroke triples |
| StrokeMesh.CornerTriplesWithin | src/mbgl/renderer/fill_bucket.cpp:165-228 | every index of a point's four triples lies in [curIndex, curIndex + 7] |
| StrokeMesh.StrokeVertices | src/mbgl/renderer/fill_bucket.cpp:148-231 | a run of corners contributes 8 stroke vertices per corner |
| StrokeMesh.StrokeTriples | src/mbgl/renderer/fill_bucket.cpp:148-231 | a run of corners contributes 4 stroke triples per corner |
| StrokeMesh.StrokeVerticesAppend | src/mbgl/renderer/fill_bucket.cpp:137-231 | the stroke vertices of two runs of corners are those of the first followed by those of the second |
| StrokeMesh.StrokeTriplesAppend | src/mbgl/renderer/fill_bucket.cpp:137-231 | the triples of two runs are those of the first followed by those of the second, indexed 8 vertices per corner further on |
| StrokeMesh.StrokeOfCorner | src/mbgl/renderer/fill_bucket.cpp:165-229 | corner j owns stroke vertices [8j, 8j+8) and triples [4j, 4j+4), its triples indexed from base + 8j |
| StrokeMesh.StrokeTriplesWithin | src/mbgl/renderer/fill_bucket.cpp:165-229 | every stroke triple indexes only the eight vertices of its own corner, and so only vertices of the run |
| StrokeMesh.BevelsAgreeBetweenNeighbours | src/mbgl/renderer/fill_bucket.cpp:177-219 | for every point but the last, the bevel it builds towards its successor is the bevel the next point builds at its predecessor |
| StrokeMesh.LastBevelUsesSecondPoint | src/mbgl/renderer/fill_bucket.cpp:157-219 | the last point's bevel is built towards point 1, so it differs from point 0's bevel at the same corner iff points 0 and 1 differ |
| Bucket.FillBucket.AppendSteinerVertices | src/mbgl/renderer/fill_bucket.cpp:247-253 | the Steiner pass leaves the index array equal to Remap, the vertex count equal to the boundary count plus the Undef count, and appends SteinerVertices to the fill buffer |
| Bucket.FillBucket.SteinerEntry | src/mbgl/renderer/fill_bucket.cpp:248-252 | one entry: an Undef entry gets the next fresh index and appends one rounded vertex; a defined entry is kept |
| Tessellation.SteinerVertices | src/mbgl/renderer/fill_bucket.cpp:247-253 | the Steiner pass appends exactly one fill record per Undef entry |
| Tessellation.SteinerVerticesAreUndefEntries | src/mbgl/renderer/fill_bucket.cpp:247-249 | every record the pass appends is a rounded vertex for an Undef entry, and every Undef entry has its record |
| Tessellation.RemapAt | src/mbgl/renderer/fill_bucket.cpp:247-252 | after the pass a defined entry is kept and an Undef entry is the start plus the number of Undef entries before it |
| Tessellation.RemapFresh | src/mbgl/renderer/fill_bucket.cpp:247-253 | after the pass no entry is Undef; the fresh indices lie in [start, start + Undef count) and increase with the entries' positions |
| Bucket.FillBucket.EmitFill | src/mbgl/renderer/fill_bucket.cpp:240-290 | the fill part of a successful pass leaves the buffers and groups equal to Filled of their previous values |
| Bucket.FillBucket.OpenTriangleGroup | src/mbgl/renderer/fill_bucket.cpp:255-264 | a triangle group is appended iff there is none or the last cannot take the call's vertices within 65535 (the triangle count is not checked) |
| Bucket.FillBucket.EmitTriangles | src/mbgl/renderer/fill_bucket.cpp:266-287 | the triangle loop appends exactly FillTriangles: triangle i, offset by the group's previous vertex count, iff its three slots and their three indices are defined |
| Bucket.FillBucket.GrowTriangleGroup | src/mbgl/renderer/fill_bucket.cpp:289-290 | the last triangle group grows by the call's vertices and its full triangle count; nothing else changes |
| Tessellation.FillTriangles | src/mbgl/renderer/fill_bucket.cpp:266-287 | at most one fill triangle per tessellator triangle |
| Tessellation.FillTrianglesAllResolved | src/mbgl/renderer/fill_bucket.cpp:269-275 | with every index defined and every slot defined, no triangle is dropped |
| Tessellation.FillTrianglesWithin | src/mbgl/renderer/fill_bucket.cpp:270-275 | if all indices lie below a bound, every emitted triangle lies in [base, base + bound) |
| Tessellation.FillTrianglesOfCall | src/mbgl/renderer/fill_bucket.cpp:247-275 | after the Steiner pass every emitted fill triangle indexes a vertex of this call, counted from the group's previous vertex count |
| Bucket.StrokedKeepsAccounted | src/mbgl/renderer/fill_bucket.cpp:125-238 | the ring part of a pass keeps the bookkeeping: line groups sum exactly to the stroke records, groups stay bounded, every stroke triple indexes an existing stroke vertex |
| Bucket.FilledKeepsAccounted | src/mbgl/renderer/fill_bucket.cpp:247-290 | the fill part keeps the bookkeeping: triangle groups cover at most the fill vertices and at least the fill triples |
| Bucket.PackedKeepsAccounted | src/mbgl/renderer/fill_bucket.cpp:98-302 | a whole tessellation pass keeps the bookkeeping |
| Bucket.StrokedGrowth | src/mbgl/renderer/fill_bucket.cpp:112-238 | the ring part keeps every earlier record and adds one fill vertex, 8 stroke vertices and 4 stroke triples per point; the line groups grow by exactly the two estimates, by at most one group |
| Bucket.FilledGrowth | src/mbgl/renderer/fill_bucket.cpp:247-290 | the fill part keeps every earlier record and adds one fill vertex per Steiner point and at most one triple per triangle; the triangle groups grow by every vertex of the call and by the full triangle count, dropped triangles included; a reused group stays within 65535 |
| Bucket.FilledTrianglesInGroup | src/mbgl/renderer/fill_bucket.cpp:255-290 | every new fill triple indexes a vertex within the range the call adds to the last triangle group |
| Bucket.FillBucket.HasData | src/mbgl/renderer/fill_bucket.cpp:322-324 | true iff a triangle or line group exists; a bucket without groups has added no stroke record and no fill triple |
| Bucket.FillBucket.DrawElements | src/mbgl/renderer/fill_bucket.cpp:326-336 | one draw per triangle group, in order, of 3 indices per triple, at the base offset plus the earlier groups' counts times the item sizes |
| Groups.OffsetsAbut | src/mbgl/renderer/fill_bucket.cpp:333-334 | each group's offsets start where the previous group's range ends |
| Bucket.FillBucket.DrawVertices | src/mbgl/renderer/fill_bucket.cpp:363-373 | one entry per line group, in order, at the accumulated offsets; the draw is issued iff offset + 16 bytes per triple < 65536, and the offsets advance either way; the last group ends where the stroke records end |
| PiecewiseFunction.ScanFrom | src/mbgl/style/piecewisefunction_properties.cpp:10-15 | the scan returns an index of a non-empty list, no earlier than one before its start, and the wrapped size_t maximum on an empty one |
| PiecewiseFunction.BiggestStopLessThan | src/mbgl/style/piecewisefunction_properties.cpp:9-16 | for non-empty stops the result is an index of the stops; for none it wraps to the size_t maximum |
| PiecewiseFunction.ScanFromSpec | src/mbgl/style/piecewisefunction_properties.cpp:10-15 | the scan from i, past stops at or below z, returns 0 if the first stop exceeds z, and otherwise the end of the leading run at or below z |
| PiecewiseFunction.BiggestStopLessThanSpec | src/mbgl/style/piecewisefunction_properties.cpp:10-15 | 0 when the first stop exceeds z, although that stop is above z; otherwise all stops up to the result are at or below z and the next one is above |
| PiecewiseFunction.NoneAboveGivesLast | src/mbgl/style/piecewisefunction_properties.cpp:15 | when no stop exceeds z the result is the last index |
| PiecewiseFunction.FirstAboveGivesPrevious | src/mbgl/style/piecewisefunction_properties.cpp:10-13 | when stop j is the first above z the result is j - 1, or 0 for j = 0 |
| PiecewiseFunction.BiggestStopIsFloor | src/mbgl/style/piecewisefunction_properties.cpp:9-16 | for ascending stops starting at or below z the result is the greatest index whose zoom is at or below z |
| PiecewiseFunction.BiggestStopMonotone | src/mbgl/style/piecewisefunction_properties.cpp:9-16 | the result never decreases as z grows |
| PiecewiseFunction.Trunc | src/mbgl/style/piecewisefunction_properties.cpp:23 | the whole part of z rounded toward zero: integral, within one of z, on z's side of zero |
| PiecewiseFunction.FMod1 | src/mbgl/style/piecewisefunction_properties.cpp:23 | fmod(z, 1) differs from z by a whole number and lies in [0, 1) for z >= 0 and in (-1, 0] for z < 0 |
| PiecewiseFunction.FadeProgress | src/mbgl/style/piecewisefunction_properties.cpp:25 | progress is at most 1, equals 1 iff the duration has elapsed, is non-negative for non-negative elapsed time, and is elapsed / duration before that |
| PiecewiseFunction.BlendWeightFadeComplete | src/mbgl/style/piecewisefunction_properties.cpp:31-37 | a complete fade gives weight 1 in both directions |
| PiecewiseFunction.BlendWeightFadeStart | src/mbgl/style/piecewisefunction_properties.cpp:31-37 | at t = 0 the weight is fraction zooming in and 1 - fraction otherwise |
| PiecewiseFunction.BlendWeightInUnitInterval | src/mbgl/style/piecewisefunction_properties.cpp:31-37 | for fraction and t in [0, 1] the weight lies in [0, 1] |
| PiecewiseFunction.BlendWeightMonotone | src/mbgl/style/piecewisefunction_properties.cpp:31-37 | the weight grows with the progress of the fade |
| PiecewiseFunction.Evaluate | src/mbgl/style/piecewisefunction_properties.cpp:19-49 | zooming in: from is the floor stop of z - 1 at scale 2 and to the floor stop of z; otherwise from is the floor stop of z + 1 at scale 1/2; both take the stop's `to` value; toScale is 1 |
| PiecewiseFunction.EvaluateOwnDurationIgnoresDefault | src/mbgl/style/piecewisefunction_properties.cpp:24-25 | with its own positive duration, the evaluation does not depend on the default duration |
| PiecewiseFunction.EvaluateDefaultDuration | src/mbgl/style/piecewisefunction_properties.cpp:24-37 | without its own duration the evaluation equals the one with the default as its own, and the weight is the blend weight at progress elapsed / default |
| PiecewiseFunction.EvaluateStopOrder | src/mbgl/style/piecewisefunction_properties.cpp:30-40 | zooming in the fade starts at a stop no later than it ends at; otherwise no earlier |
| PiecewiseFunction.EvaluateZoomingInUsesFloors | src/mbgl/style/piecewisefunction_properties.cpp:30-45 | for ascending stops, zooming in fades from the greatest stop at or below z - 1 to the greatest stop at or below z |
| PiecewiseFunction.EvaluateWeight | src/mbgl/style/piecewisefunction_properties.cpp:23-37 | once the duration has elapsed the weight is 1; for z >= 0 and a clock not behind the last integer zoom time it lies in [0, 1] |
| PiecewiseFunction.EvaluateFadeStart | src/mbgl/style/piecewisefunction_properties.cpp:23-37 | right after crossing a zoom level the weight is fraction zooming in and 1 - fraction otherwise; at an integer zoom it is the progress zooming in and 1 otherwise |

## Left out

- The polygon union (ClipperLib, `src/mbgl/renderer/fill_bucket.cpp:79`, `105`) and the tessellator (libtess2, lines 235 and 240-245) are foreign libraries. Their outputs are parameters of `Tessellate`. Clipping and triangulation are not checked, and the union's output is taken to have at least three points per ring, as the code asserts.
- Float geometry is not computed:
  - `norml`, `sqrtf` and `LINE_WIDTH`;
  - the width and bevel vectors;
  - the dot-product sign tests, which are booleans given per point;
  - `::round` of the Steiner coordinates.

  Stroke vertices record which points they are built from. Steiner records are identified by their tessellator index.
- Allocator shims, `TESSalloc` setup and teardown, and the destructor (lines 19-71) are memory plumbing.
- Upload, `render`, VAO binding, `glDrawElements` and `Log` calls are GPU and logging I/O. A draw is recorded as its offsets, its index count and whether it is issued.
- The `PatternShader` overload of `drawElements` (lines 338-348) repeats the `PlainShader` loop with another shader. `DrawElements` models both.
- The commented-out line element buffer and its start offset are not modelled.
- Element buffer entries are stored as 16-bit values in the library, but `elements_buffer.hpp` is not part of this model. Indices are unbounded integers.
- The vertex, element and stroke buffers are shared with other buckets in the library. Here the bucket owns them, and their initial contents are constructor parameters.
- `vertices_per_group` and `vertexSize` are defined in a header that is not part of this model. They are taken as 3 and 2, which is how the element and vertex arrays are indexed.
- Integer widths are not modelled: `size_t` and `uint32_t` counters, the `uint32_t` stop loop counter, the `TESSindex` cast and the `int` triangle count. Counters are unbounded naturals.
- Bucket.FillBucket.Tessellate: the fatal exception is modelled as the result `GeometryTooLong`. As in the code, the pending rings are already cleared when it is raised.
- PiecewiseFunction.Evaluate: requires a positive fade duration. A zero duration divides by zero in float arithmetic, which gives infinities or NaN; that is not modelled.
- PiecewiseFunction.Evaluate: zooms and times are reals, so float rounding of `fmod`, the subtraction and the division is not modelled. The clock read is the parameter `now`.
- The Qt platform files (`platform/qt/qmapboxgl.cpp`, `platform/qt/qmapboxgl_p.hpp`, `include/mbgl/platform/qt/qmapboxgl.hpp`, `qt/*`) and `include/mbgl/storage/response.hpp` are outside the modelled core.
