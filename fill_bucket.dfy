/** The buffer-packing bookkeeping of a fill bucket: it accumulates rings, hands
    them to the polygon union, appends the union's boundary points and their
    stroke mesh to the buffers, packs the results into line and triangle
    groups under a 16-bit capacity rule, and walks the groups to compute the
    byte offsets of each draw.

    The union's output, the tessellator's output and the float sign tests of
    the stroke mesh are parameters of `Tessellate`. */
module Bucket {
  import opened Geometry
  import opened StrokeMesh
  import opened Tessellation
  import opened Groups

  /** How a tessellation pass ends: normally, or by the "geometry too long"
      failure raised when the stroke-mesh estimate exceeds 65536 vertices. */
  datatype Outcome = Done | GeometryTooLong

  /** The rings of `geometry` that are handed to the union: the non-empty ones, in order. */
  function NonEmptyRings(geometry: seq<seq<Point>>): (rs: seq<seq<Point>>)
    ensures forall r :: r in rs ==> r != [] && r in geometry
    ensures forall r :: r in geometry && r != [] ==> r in rs
  {
    if geometry == [] then []
    else
      var n := |geometry| - 1;
      assert geometry == geometry[..n] + [geometry[n]];
      NonEmptyRings(geometry[..n]) + (if geometry[n] != [] then [geometry[n]] else [])
  }

  /** Each non-empty ring is handed to the union exactly as many times as it
      occurs in the geometry, and the empty ring never. */
  lemma {:induction false} NonEmptyRingsCounts(geometry: seq<seq<Point>>)
    ensures multiset(NonEmptyRings(geometry)) == multiset(geometry)[[] := 0]
  {
    if geometry != [] {
      var n := |geometry| - 1;
      NonEmptyRingsCounts(geometry[..n]);
      assert geometry == geometry[..n] + [geometry[n]];
      assert multiset(geometry) == multiset(geometry[..n]) + multiset{geometry[n]};
    }
  }

  /** The bucket's buffers and groups, as values. */
  datatype Buffers = Buffers(
    vertices: seq<FillVertex>,
    triangleElements: seq<Triple>,
    strokeVertices: seq<StrokeVertex>,
    strokeElements: seq<Triple>,
    lineGroups: seq<Group>,
    triangleGroups: seq<Group>)

  /** The buffers' lengths when a bucket was created: its own records follow them. */
  datatype Offsets = Offsets(vertices: nat, triangleElements: nat, strokeVertices: nat, strokeElements: nat)

  /** The bookkeeping a bucket keeps over its own records: they follow the base
      offsets; the line groups account exactly for the stroke records; the
      triangle groups account for at most the fill vertices (a failed
      tessellation leaves boundary points no group covers) and for at least
      the fill triples (dropped triangles are still counted); line groups
      stay within bounds; every stroke triple indexes an existing stroke vertex. */
  predicate Accounted(b: Buffers, s: Offsets)
  {
    s.vertices <= |b.vertices| && s.triangleElements <= |b.triangleElements|
    && s.strokeVertices <= |b.strokeVertices| && s.strokeElements <= |b.strokeElements|
    && SumVertices(b.lineGroups) == |b.strokeVertices| - s.strokeVertices
    && SumElements(b.lineGroups) == |b.strokeElements| - s.strokeElements
    && SumVertices(b.triangleGroups) <= |b.vertices| - s.vertices
    && |b.triangleElements| - s.triangleElements <= SumElements(b.triangleGroups)
    && LineGroupsBounded(b.lineGroups)
    && forall k :: s.strokeElements <= k < |b.strokeElements| ==> b.strokeElements[k].Within(0, |b.strokeVertices|)
  }

  /** A union output the tessellation pass packs: non-empty, with a stroke
      estimate of at most 65536 vertices. */
  predicate Admitted(union: seq<Ring>)
  {
    union != [] && 8 * TotalPoints(union) <= EstimateLimit
  }

  /** The result of a tessellation pass that found rings pending. */
  function PassResult(union: seq<Ring>): Outcome
  {
    if union != [] && 8 * TotalPoints(union) > EstimateLimit then GeometryTooLong else Done
  }

  /** The ring part of a tessellation pass: the fill buffer receives every
      boundary point and the stroke buffers the stroke mesh of every point,
      indexed from the stroke buffer's previous length. */
  function Stroked(b: Buffers, union: seq<Ring>, signs: seq<seq<BevelSigns>>): Buffers
    requires ClipperRings(union) && SignsFit(union, signs)
  {
    var cs := Corners(union, signs);
    b.(vertices := b.vertices + BoundaryVertices(union),
       strokeVertices := b.strokeVertices + StrokeVertices(cs),
       strokeElements := b.strokeElements + StrokeTriples(cs, |b.strokeVertices|))
  }

  /** The fill part of a successful tessellation pass over `boundary` boundary
      points: one fill vertex per Steiner point; the last triangle group is
      reused, or a new one started when there is none or the last cannot take
      every vertex of the call; the fill triangles are appended relative to
      that group's previous vertex count; the group grows by every vertex of
      the call and by the full triangle count, dropped triangles included. */
  function Filled(b: Buffers, tess: TessOutput, boundary: nat): Buffers
    requires Conforms(tess)
  {
    var total := boundary + UndefCount(tess.vertexIndices);
    var started := OpenGroup(b.triangleGroups, NeedsNewTriangleGroup(b.triangleGroups, total));
    b.(vertices := b.vertices + SteinerVertices(tess.vertexIndices),
       triangleElements := b.triangleElements
         + FillTriangles(tess.elements, Remap(tess.vertexIndices, boundary),
                         started[|started| - 1].vertexLength, tess.elementCount),
       triangleGroups := AddToLast(started, total, tess.elementCount))
  }

  /** The buffers and groups after a tessellation pass that found rings pending.
      An empty or over-long union changes nothing. Otherwise the line groups
      grow as LineGroupsAfter says, the rings are Stroked and, on the
      tessellator's success, Filled. */
  function Packed(b: Buffers, union: seq<Ring>, signs: seq<seq<BevelSigns>>, tess: TessOutput): Buffers
    requires ClipperRings(union) && SignsFit(union, signs) && (tess.success ==> Conforms(tess))
  {
    if !Admitted(union) then b
    else
      var n := TotalPoints(union);
      var stroked := Stroked(b, union, signs).(lineGroups := LineGroupsAfter(b.lineGroups, 8 * n, 4 * n));
      if tess.success then Filled(stroked, tess, n) else stroked
  }

  /** The ring part of a pass, with its line group bookkeeping, keeps the
      bucket's bookkeeping, and leaves the new boundary points uncovered by
      any triangle group. */
  lemma StrokedKeepsAccounted(b: Buffers, s: Offsets, union: seq<Ring>, signs: seq<seq<BevelSigns>>)
    requires Accounted(b, s)
    requires ClipperRings(union) && SignsFit(union, signs) && 8 * TotalPoints(union) <= EstimateLimit
    ensures var n := TotalPoints(union);
            var r := Stroked(b, union, signs).(lineGroups := LineGroupsAfter(b.lineGroups, 8 * n, 4 * n));
            Accounted(r, s) && SumVertices(r.triangleGroups) + n <= |r.vertices| - s.vertices
  {
    var n := TotalPoints(union);
    var cs := Corners(union, signs);
    var r := Stroked(b, union, signs).(lineGroups := LineGroupsAfter(b.lineGroups, 8 * n, 4 * n));
    LineGroupsAfterKeepsBounds(b.lineGroups, 8 * n, 4 * n);
    var added := StrokeTriples(cs, |b.strokeVertices|);
    StrokeTriplesWithin(cs, |b.strokeVertices|);
    assert forall t :: t in added ==> t.Within(0, |r.strokeVertices|);
    AppendedTriplesWithin(b.strokeElements, added, s.strokeElements, |b.strokeVertices|, |r.strokeVertices|);
  }

  /** The fill part of a pass keeps the bucket's bookkeeping, provided the
      `boundary` points it covers are already in the fill buffer and not yet
      covered by a triangle group. */
  lemma FilledKeepsAccounted(b: Buffers, s: Offsets, tess: TessOutput, boundary: nat)
    requires Accounted(b, s) && Conforms(tess)
    requires SumVertices(b.triangleGroups) + boundary <= |b.vertices| - s.vertices
    ensures Accounted(Filled(b, tess, boundary), s)
  {
  }

  /** A tessellation pass keeps the bucket's bookkeeping. */
  lemma PackedKeepsAccounted(b: Buffers, s: Offsets, union: seq<Ring>, signs: seq<seq<BevelSigns>>, tess: TessOutput)
    requires Accounted(b, s)
    requires ClipperRings(union) && SignsFit(union, signs) && (tess.success ==> Conforms(tess))
    ensures Accounted(Packed(b, union, signs, tess), s)
  {
    if Admitted(union) {
      var n := TotalPoints(union);
      StrokedKeepsAccounted(b, s, union, signs);
      if tess.success {
        FilledKeepsAccounted(Stroked(b, union, signs).(lineGroups := LineGroupsAfter(b.lineGroups, 8 * n, 4 * n)), s, tess, n);
      }
    }
  }

  /** What the ring part of a pass, with its line group bookkeeping, appends:
      the stroke buffers keep their records and grow by 8 vertices and 4
      triples per boundary point, the fill buffer keeps its records and grows
      by every boundary point; the fill triples and triangle groups are
      untouched; the line groups grow by exactly the two estimates; at most
      one line group is started, the groups before the last are kept, and a
      line group exists afterwards. */
  lemma StrokedGrowth(b: Buffers, union: seq<Ring>, signs: seq<seq<BevelSigns>>)
    requires ClipperRings(union) && SignsFit(union, signs) && 8 * TotalPoints(union) <= EstimateLimit
    requires LineGroupsBounded(b.lineGroups)
    ensures var n := TotalPoints(union);
            var r := Stroked(b, union, signs).(lineGroups := LineGroupsAfter(b.lineGroups, 8 * n, 4 * n));
            r.strokeVertices[..|b.strokeVertices|] == b.strokeVertices
            && |r.strokeVertices| == |b.strokeVertices| + 8 * n
            && r.strokeElements[..|b.strokeElements|] == b.strokeElements
            && |r.strokeElements| == |b.strokeElements| + 4 * n
            && r.vertices[..|b.vertices|] == b.vertices
            && |r.vertices| == |b.vertices| + n
            && r.triangleElements == b.triangleElements && r.triangleGroups == b.triangleGroups
            && r.lineGroups != []
            && SumVertices(r.lineGroups) == SumVertices(b.lineGroups) + 8 * n
            && SumElements(r.lineGroups) == SumElements(b.lineGroups) + 4 * n
            && |b.lineGroups| <= |r.lineGroups| <= |b.lineGroups| + 1
            && (b.lineGroups != [] ==> r.lineGroups[..|b.lineGroups| - 1] == b.lineGroups[..|b.lineGroups| - 1])
  {
    var n := TotalPoints(union);
    LineGroupsAfterKeepsBounds(b.lineGroups, 8 * n, 4 * n);
    var r := Stroked(b, union, signs);
    assert r.strokeVertices[..|b.strokeVertices|] == b.strokeVertices;
    assert r.strokeElements[..|b.strokeElements|] == b.strokeElements;
    assert r.vertices[..|b.vertices|] == b.vertices;
  }

  /** What the fill part of a pass appends: the fill buffer keeps its records
      and grows by one vertex per Steiner point, the fill triples keep theirs;
      the stroke side is untouched; the triangle groups grow by every vertex
      of the call and by the full triangle count; at most one is started,
      the groups before the last are kept; a reused group stays within the
      16-bit capacity, a new one holds exactly the vertices of the call. */
  lemma FilledGrowth(b: Buffers, tess: TessOutput, boundary: nat)
    requires Conforms(tess)
    ensures var r := Filled(b, tess, boundary);
            var total := boundary + UndefCount(tess.vertexIndices);
            var last := r.triangleGroups[|r.triangleGroups| - 1];
            r.vertices[..|b.vertices|] == b.vertices
            && |r.vertices| == |b.vertices| + UndefCount(tess.vertexIndices)
            && r.triangleElements[..|b.triangleElements|] == b.triangleElements
            && |r.triangleElements| <= |b.triangleElements| + tess.elementCount
            && r.strokeVertices == b.strokeVertices && r.strokeElements == b.strokeElements
            && r.lineGroups == b.lineGroups
            && SumVertices(r.triangleGroups) == SumVertices(b.triangleGroups) + total
            && SumElements(r.triangleGroups) == SumElements(b.triangleGroups) + tess.elementCount
            && |b.triangleGroups| <= |r.triangleGroups| <= |b.triangleGroups| + 1
            && (b.triangleGroups != [] ==>
                  r.triangleGroups[..|b.triangleGroups| - 1] == b.triangleGroups[..|b.triangleGroups| - 1])
            && (|r.triangleGroups| == |b.triangleGroups| ==> last.vertexLength <= GroupCapacity)
            && (|r.triangleGroups| > |b.triangleGroups| ==> last.vertexLength == total)
  {
    var r := Filled(b, tess, boundary);
    var total := boundary + UndefCount(tess.vertexIndices);
    var started := OpenGroup(b.triangleGroups, NeedsNewTriangleGroup(b.triangleGroups, total));
    assert r.vertices[..|b.vertices|] == b.vertices;
    assert r.triangleElements[..|b.triangleElements|] == b.triangleElements;
    if b.triangleGroups != [] {
      var m := |b.triangleGroups| - 1;
      assert r.triangleGroups[..m] == started[..m] == b.triangleGroups[..m];
    }
  }

  /** With the tessellator's defined vertex indices naming the `boundary`
      points of the call, every fill triangle the fill part appends indexes a
      vertex of the call, counted from the start of its triangle group: it
      lies within the vertex range the call adds to the last triangle group. */
  lemma FilledTrianglesInGroup(b: Buffers, tess: TessOutput, boundary: nat)
    requires Conforms(tess)
    requires forall k :: 0 <= k < |tess.vertexIndices| ==>
               tess.vertexIndices[k] == Undef || 0 <= tess.vertexIndices[k] < boundary
    ensures var r := Filled(b, tess, boundary);
            var last := r.triangleGroups[|r.triangleGroups| - 1];
            var total := boundary + UndefCount(tess.vertexIndices);
            total <= last.vertexLength
            && forall k :: |b.triangleElements| <= k < |r.triangleElements| ==>
                 r.triangleElements[k].Within(last.vertexLength - total, last.vertexLength)
  {
    var r := Filled(b, tess, boundary);
    var total := boundary + UndefCount(tess.vertexIndices);
    var started := OpenGroup(b.triangleGroups, NeedsNewTriangleGroup(b.triangleGroups, total));
    var base := started[|started| - 1].vertexLength;
    FillTrianglesOfCall(tess, boundary, base);
    var added := FillTriangles(tess.elements, Remap(tess.vertexIndices, boundary), base, tess.elementCount);
    assert r.triangleElements == b.triangleElements + added;
    forall k | |b.triangleElements| <= k < |r.triangleElements|
      ensures r.triangleElements[k].Within(base, base + total)
    {
      assert r.triangleElements[k] == added[k - |b.triangleElements|];
      assert added[k - |b.triangleElements|] in added;
    }
  }

  class FillBucket {
    /** The fill vertex buffer (boundary points and rounded Steiner points). */
    var vertices: seq<FillVertex>
    /** The fill triangle element buffer. */
    var triangleElements: seq<Triple>
    /** The stroke vertex buffer. */
    var strokeVertices: seq<StrokeVertex>
    /** The stroke element buffer. */
    var strokeElements: seq<Triple>
    var lineGroups: seq<Group>
    var triangleGroups: seq<Group>
    /** Set when a ring was handed to the union and not yet tessellated. */
    var hasVertices: bool
    /** The rings handed to the union since the last tessellation pass. */
    var pending: seq<seq<Point>>

    /** The buffers' lengths when the bucket was created: its own records follow them. */
    const vertexStart: nat
    const triangleElementsStart: nat
    const strokeVertexStart: nat
    const strokeElementsStart: nat
    /** Bytes per vertex record and per element triple of the buffers. */
    const vertexItemSize: nat
    const elementsItemSize: nat

    /** The buffers and groups as values. */
    function State(): Buffers
      reads this
    {
      Buffers(vertices, triangleElements, strokeVertices, strokeElements, lineGroups, triangleGroups)
    }

    function Base(): Offsets
    {
      Offsets(vertexStart, triangleElementsStart, strokeVertexStart, strokeElementsStart)
    }

    /** hasVertices tells whether rings are pending, pending rings are not
        empty, and the buffers and groups are accounted for. */
    ghost predicate Valid()
      reads this
    {
      (hasVertices <==> pending != [])
      && (forall r :: r in pending ==> r != [])
      && Accounted(State(), Base())
    }

    /** A bucket over buffers that already hold records of other buckets: it
        records their current lengths as its base offsets. */
    constructor (vertices0: seq<FillVertex>, triangleElements0: seq<Triple>,
                 strokeVertices0: seq<StrokeVertex>, strokeElements0: seq<Triple>,
                 vertexItemSize: nat, elementsItemSize: nat)
      ensures Valid()
      ensures vertices == vertices0 && triangleElements == triangleElements0
      ensures strokeVertices == strokeVertices0 && strokeElements == strokeElements0
      ensures vertexStart == |vertices0| && triangleElementsStart == |triangleElements0|
      ensures strokeVertexStart == |strokeVertices0| && strokeElementsStart == |strokeElements0|
      ensures this.vertexItemSize == vertexItemSize && this.elementsItemSize == elementsItemSize
      ensures lineGroups == [] && triangleGroups == [] && !hasVertices && pending == []
    {
      vertices, triangleElements := vertices0, triangleElements0;
      strokeVertices, strokeElements := strokeVertices0, strokeElements0;
      vertexStart, triangleElementsStart := |vertices0|, |triangleElements0|;
      strokeVertexStart, strokeElementsStart := |strokeVertices0|, |strokeElements0|;
      this.vertexItemSize, this.elementsItemSize := vertexItemSize, elementsItemSize;
      lineGroups, triangleGroups := [], [];
      hasVertices, pending := false, [];
    }

    /** True iff some triangle or line group exists. A bucket without groups
        has added no stroke record and no fill triple. */
    function HasData(): (r: bool)
      reads this
      ensures Valid() && !r ==>
                |strokeVertices| == strokeVertexStart && |strokeElements| == strokeElementsStart
                && |triangleElements| == triangleElementsStart
    {
      triangleGroups != [] || lineGroups != []
    }

    /** The ring loop of addGeometry: each non-empty ring goes to the union
        accumulator and sets hasVertices; empty rings are skipped. */
    method Accumulate(geometry: seq<seq<Point>>)
      requires Valid()
      modifies this
      ensures Valid()
      ensures pending == old(pending) + NonEmptyRings(geometry)
      ensures hasVertices == (old(hasVertices) || NonEmptyRings(geometry) != [])
      ensures State() == old(State())
    {
      for k := 0 to |geometry|
        invariant hasVertices <==> pending != []
        invariant forall r :: r in pending ==> r != []
        invariant pending == old(pending) + NonEmptyRings(geometry[..k])
        invariant hasVertices == (old(hasVertices) || NonEmptyRings(geometry[..k]) != [])
        invariant State() == old(State())
      {
        assert geometry[..k + 1][..k] == geometry[..k];
        var line := geometry[k];
        if line != [] {
          pending := pending + [line];
          hasVertices := true;
        }
      }
      assert geometry[..|geometry|] == geometry;
    }

    /** addGeometry: accumulate the rings, then run a tessellation pass over
        the union's output. Afterwards nothing is pending; the pass runs iff
        rings were pending or the call brought a non-empty ring. */
    method AddGeometry(geometry: seq<seq<Point>>, union: seq<Ring>, signs: seq<seq<BevelSigns>>, tess: TessOutput)
      returns (res: Outcome)
      requires Valid()
      requires ClipperRings(union) && SignsFit(union, signs)
      requires tess.success ==> Conforms(tess)
      modifies this
      ensures Valid() && !hasVertices && pending == []
      ensures old(hasVertices) || NonEmptyRings(geometry) != [] ==>
                res == PassResult(union) && State() == Packed(old(State()), union, signs, tess)
      ensures !old(hasVertices) && NonEmptyRings(geometry) == [] ==> res == Done && State() == old(State())
    {
      Accumulate(geometry);
      res := Tessellate(union, signs, tess);
    }

    /** The per-ring part of a tessellation pass: every point is appended to the
        fill buffer, then every point appends its stroke mesh. */
    method EmitRing(ring: Ring, signs: seq<BevelSigns>)
      requires |ring| >= 3 && |signs| == |ring|
      modifies this
      ensures vertices == old(vertices) + RingVertices(ring)
      ensures strokeVertices == old(strokeVertices) + StrokeVertices(RingCorners(ring, signs))
      ensures strokeElements == old(strokeElements) + StrokeTriples(RingCorners(ring, signs), |old(strokeVertices)|)
      ensures triangleElements == old(triangleElements) && lineGroups == old(lineGroups)
      ensures triangleGroups == old(triangleGroups) && hasVertices == old(hasVertices) && pending == old(pending)
    {
      EmitRingPoints(ring);
      EmitRingStroke(ring, signs);
    }

    /** Every point of the ring is appended to the fill buffer, in order. */
    method EmitRingPoints(ring: Ring)
      modifies this
      ensures State() == old(State()).(vertices := old(vertices) + RingVertices(ring))
      ensures hasVertices == old(hasVertices) && pending == old(pending)
    {
      ghost var b0 := State();
      for k := 0 to |ring|
        invariant State() == b0.(vertices := b0.vertices + RingVertices(ring)[..k])
        invariant hasVertices == old(hasVertices) && pending == old(pending)
      {
        assert RingVertices(ring)[..k + 1] == RingVertices(ring)[..k] + [Boundary(ring[k])];
        vertices := vertices + [Boundary(ring[k])];
      }
      assert RingVertices(ring)[..|ring|] == RingVertices(ring);
    }

    /** Every point of the ring appends its stroke mesh, in order. */
    method EmitRingStroke(ring: Ring, signs: seq<BevelSigns>)
      requires |ring| >= 3 && |signs| == |ring|
      modifies this
      ensures State() == old(State()).(strokeVertices := old(strokeVertices) + StrokeVertices(RingCorners(ring, signs)),
                                       strokeElements := old(strokeElements)
                                         + StrokeTriples(RingCorners(ring, signs), |old(strokeVertices)|))
      ensures hasVertices == old(hasVertices) && pending == old(pending)
    {
      ghost var b0 := State();
      ghost var cs := RingCorners(ring, signs);
      for i := 0 to |ring|
        invariant State() == b0.(strokeVertices := b0.strokeVertices + StrokeVertices(cs[..i]),
                                 strokeElements := b0.strokeElements + StrokeTriples(cs[..i], |b0.strokeVertices|))
        invariant hasVertices == old(hasVertices) && pending == old(pending)
      {
        ghost var sv1, se1 := strokeVertices, strokeElements;
        EmitCorner(ring, signs, i);
        VerticesSnocStep(b0.strokeVertices, sv1, strokeVertices, cs, i);
        TriplesSnocStep(b0.strokeElements, se1, strokeElements, cs, i, |b0.strokeVertices|, |sv1|);
      }
      assert cs[..|ring|] == cs;
    }

    /** The stroke mesh of point i: the quad of the edge from its predecessor,
        the bevel at the predecessor and the bevel at the point, eight vertices
        and four triples indexed from the stroke buffer's length before it. */
    method EmitCorner(ring: Ring, signs: seq<BevelSigns>, i: nat)
      requires |ring| >= 3 && |signs| == |ring| && i < |ring|
      modifies this
      ensures strokeVertices == old(strokeVertices) + CornerStroke(CornerAt(ring, signs, i))
      ensures strokeElements == old(strokeElements) + CornerTriples(|old(strokeVertices)|, signs[i])
      ensures vertices == old(vertices)
      ensures triangleElements == old(triangleElements) && lineGroups == old(lineGroups)
      ensures triangleGroups == old(triangleGroups) && hasVertices == old(hasVertices) && pending == old(pending)
    {
      var g := |ring|;
      var prev := PrevIndex(i, g);
      var pprev := PrevIndex(prev, g);
      var next := NextIndex(i, g);
      var cur := |strokeVertices|;
      // the edge quad from the previous point to this one
      strokeVertices := strokeVertices + [Extruded(ring[prev], ring[prev], ring[i], true),
                                          Extruded(ring[prev], ring[prev], ring[i], false),
                                          Extruded(ring[i], ring[prev], ring[i], true),
                                          Extruded(ring[i], ring[prev], ring[i], false)];
      strokeElements := strokeElements + [Triple(cur, cur + 1, cur + 2), Triple(cur + 1, cur + 3, cur + 2)];
      // the bevel at the previous point
      strokeVertices := strokeVertices + [Beveled(ring[prev], ring[i], ring[pprev]), Exact(ring[prev])];
      if signs[i].trailing {
        strokeElements := strokeElements + [Triple(cur + 5, cur + 4, cur)];
      } else {
        strokeElements := strokeElements + [Triple(cur + 5, cur + 4, cur + 1)];
      }
      // the bevel at this point
      strokeVertices := strokeVertices + [Beveled(ring[i], ring[next], ring[prev]), Exact(ring[i])];
      if signs[i].leading {
        strokeElements := strokeElements + [Triple(cur + 7, cur + 6, cur + 2)];
      } else {
        strokeElements := strokeElements + [Triple(cur + 7, cur + 6, cur + 3)];
      }
    }

    /** The Steiner pass: every Undef entry of the index array, in order, gets
        the next fresh index and appends one rounded vertex to the fill buffer. */
    method AppendSteinerVertices(vertexIndices: seq<int>, start: nat) returns (remapped: seq<int>, total: nat)
      modifies this
      ensures remapped == Remap(vertexIndices, start)
      ensures total == start + UndefCount(vertexIndices)
      ensures State() == old(State()).(vertices := old(vertices) + SteinerVertices(vertexIndices))
      ensures hasVertices == old(hasVertices) && pending == old(pending)
    {
      ghost var b0 := State();
      remapped, total := vertexIndices, start;
      for i := 0 to |vertexIndices|
        invariant remapped == Remap(vertexIndices[..i], start) + vertexIndices[i..]
        invariant total == start + UndefCount(vertexIndices[..i])
        invariant State() == b0.(vertices := b0.vertices + SteinerVertices(vertexIndices[..i]))
        invariant hasVertices == old(hasVertices) && pending == old(pending)
      {
        remapped, total := SteinerEntry(vertexIndices, start, i, remapped, total);
        SteinerVerticesSnoc(vertexIndices, i);
        AppendTwice(b0.vertices, SteinerVertices(vertexIndices[..i]),
                    if vertexIndices[i] == Undef then [Rounded(i)] else []);
      }
      assert vertexIndices[..|vertexIndices|] == vertexIndices;
    }

    /** One entry of the Steiner pass: an Undef entry gets the next fresh index
        and appends one rounded vertex; a defined entry is kept. */
    method SteinerEntry(vertexIndices: seq<int>, start: nat, i: nat, remapped: seq<int>, total: nat)
      returns (remapped': seq<int>, total': nat)
      requires i < |vertexIndices| && remapped == Remap(vertexIndices[..i], start) + vertexIndices[i..]
      requires total == start + UndefCount(vertexIndices[..i])
      modifies this
      ensures remapped' == Remap(vertexIndices[..i + 1], start) + vertexIndices[i + 1..]
      ensures total' == start + UndefCount(vertexIndices[..i + 1])
      ensures State() == old(State()).(vertices := old(vertices)
                                         + if vertexIndices[i] == Undef then [Rounded(i)] else [])
      ensures hasVertices == old(hasVertices) && pending == old(pending)
    {
      RemapStep(vertexIndices, start, i, remapped);
      remapped', total' := remapped, total;
      if remapped[i] == Undef {
        vertices := vertices + [Rounded(i)];
        remapped' := remapped[i := total];
        total' := total + 1;
      }
    }

    /** The triangle loop: triangle i is appended, each corner offset by `base`,
        iff its three element slots and their three indices are defined. */
    method EmitTriangles(elements: seq<int>, vertexIndices: seq<int>, count: nat, base: nat)
      requires 3 * count <= |elements| && ElementsIndex(elements, vertexIndices)
      modifies this
      ensures State() == old(State()).(triangleElements := old(triangleElements)
                                         + FillTriangles(elements, vertexIndices, base, count))
      ensures hasVertices == old(hasVertices) && pending == old(pending)
    {
      ghost var b0 := State();
      for i := 0 to count
        invariant State() == b0.(triangleElements := b0.triangleElements + FillTriangles(elements, vertexIndices, base, i))
        invariant hasVertices == old(hasVertices) && pending == old(pending)
      {
        var e0, e1, e2 := elements[3 * i], elements[3 * i + 1], elements[3 * i + 2];
        if e0 != Undef && e1 != Undef && e2 != Undef {
          var a, b, c := vertexIndices[e0], vertexIndices[e1], vertexIndices[e2];
          if a != Undef && b != Undef && c != Undef {
            triangleElements := triangleElements + [Triple(base + a, base + b, base + c)];
          }
        }
      }
    }

    /** The stroke-mesh estimate of a union output: its boundary point count,
        8 stroke vertices and 4 stroke triples per point. */
    static method Estimate(union: seq<Ring>) returns (total: nat, lineVertexCount: nat, lineIndexCount: nat)
      ensures total == TotalPoints(union)
      ensures lineVertexCount == 8 * total && lineIndexCount == 4 * total
    {
      total, lineVertexCount, lineIndexCount := 0, 0, 0;
      for k := 0 to |union|
        invariant total == TotalPoints(union[..k])
        invariant lineVertexCount == 8 * total && lineIndexCount == 4 * total
      {
        assert union[..k + 1][..k] == union[..k];
        total := total + |union[k]|;
        lineVertexCount := lineVertexCount + |union[k]| * 8;
        lineIndexCount := lineIndexCount + |union[k]| * 4;
      }
      assert union[..|union|] == union;
    }

    /** A tessellation pass over the union's output `union`, with the sign tests
        `signs` and the tessellator's output `tess`. With nothing pending
        nothing changes; otherwise the pending rings are dropped and the
        buffers and groups become Packed of their previous values. */
    method Tessellate(union: seq<Ring>, signs: seq<seq<BevelSigns>>, tess: TessOutput) returns (res: Outcome)
      requires Valid()
      requires ClipperRings(union) && SignsFit(union, signs)
      requires tess.success ==> Conforms(tess)
      modifies this
      ensures Valid()
      ensures !old(hasVertices) ==> res == Done && unchanged(this)
      ensures old(hasVertices) ==>
                !hasVertices && pending == []
                && res == PassResult(union) && State() == Packed(old(State()), union, signs, tess)
    {
      if !hasVertices {
        return Done;
      }
      hasVertices := false;
      pending := [];

      if |union| == 0 {
        return Done;
      }

      var totalVertexCount, lineVertexCount, lineIndexCount := Estimate(union);
      if lineVertexCount > EstimateLimit {
        return GeometryTooLong;
      }

      ghost var b0 := State();
      Pack(union, signs, tess, totalVertexCount, lineVertexCount, lineIndexCount);
      PackedKeepsAccounted(b0, Base(), union, signs, tess);
      res := Done;
    }

    /** The packing part of a tessellation pass over an admitted union with
        `n` boundary points and estimates `lineVertexCount` and
        `lineIndexCount`: open or reuse a line group, emit the rings, grow the
        line group, and on the tessellator's success emit the fill. */
    method Pack(union: seq<Ring>, signs: seq<seq<BevelSigns>>, tess: TessOutput,
                n: nat, lineVertexCount: nat, lineIndexCount: nat)
      requires ClipperRings(union) && SignsFit(union, signs)
      requires tess.success ==> Conforms(tess)
      requires Admitted(union) && n == TotalPoints(union)
      requires lineVertexCount == 8 * n && lineIndexCount == 4 * n
      modifies this
      ensures State() == Packed(old(State()), union, signs, tess)
      ensures hasVertices == old(hasVertices) && pending == old(pending)
    {
      ghost var b0 := State();
      var lineGroup := OpenLineGroup(lineVertexCount, lineIndexCount);
      ghost var started := lineGroups;
      EmitRings(union, signs);
      GrowLineGroup(lineGroup, 0, lineIndexCount);
      ghost var b1 := State();
      assert b1 == Stroked(b0, union, signs).(lineGroups := AddToLast(started, 0, lineIndexCount));
      if tess.success {
        EmitFill(tess, n);
      }
      GrowLineGroup(lineGroup, lineVertexCount, 0);
      AddToLastInSteps(started, lineVertexCount, lineIndexCount);
    }

    /** Reuses the last line group or starts a new one (when there is none or the
        last cannot take either estimate); returns the index of the group used. */
    method OpenLineGroup(lineVertexCount: nat, lineIndexCount: nat) returns (lineGroup: nat)
      modifies this
      ensures State() == old(State()).(lineGroups :=
                OpenGroup(old(lineGroups), NeedsNewLineGroup(old(lineGroups), lineVertexCount, lineIndexCount)))
      ensures lineGroup == |lineGroups| - 1
      ensures hasVertices == old(hasVertices) && pending == old(pending)
    {
      if |lineGroups| == 0 || lineGroups[|lineGroups| - 1].vertexLength + lineVertexCount > GroupCapacity
         || lineGroups[|lineGroups| - 1].elementsLength + lineIndexCount > GroupCapacity {
        lineGroups := lineGroups + [Group(0, 0)];
      }
      lineGroup := |lineGroups| - 1;
    }

    /** Grows line group `lineGroup`, the last one, by `dv` vertices and `de` triples. */
    method GrowLineGroup(lineGroup: nat, dv: nat, de: nat)
      requires lineGroup == |lineGroups| - 1
      modifies this
      ensures State() == old(State()).(lineGroups := AddToLast(old(lineGroups), dv, de))
      ensures hasVertices == old(hasVertices) && pending == old(pending)
    {
      var g := lineGroups[lineGroup];
      lineGroups := lineGroups[lineGroup := Group(g.vertexLength + dv, g.elementsLength + de)];
    }

    /** The ring loop of a tessellation pass: the rings' points go to the fill
        buffer and their stroke mesh to the stroke buffers, ring after ring. */
    method EmitRings(union: seq<Ring>, signs: seq<seq<BevelSigns>>)
      requires ClipperRings(union) && SignsFit(union, signs)
      modifies this
      ensures State() == Stroked(old(State()), union, signs)
      ensures hasVertices == old(hasVertices) && pending == old(pending)
    {
      ghost var v0, sv0, se0 := vertices, strokeVertices, strokeElements;
      for p := 0 to |union|
        invariant ClipperRings(union[..p]) && SignsFit(union[..p], signs[..p])
        invariant vertices == v0 + BoundaryVertices(union[..p])
        invariant strokeVertices == sv0 + StrokeVertices(Corners(union[..p], signs[..p]))
        invariant strokeElements == se0 + StrokeTriples(Corners(union[..p], signs[..p]), |sv0|)
        invariant triangleElements == old(triangleElements) && lineGroups == old(lineGroups)
        invariant triangleGroups == old(triangleGroups) && hasVertices == old(hasVertices) && pending == old(pending)
      {
        CornersSnoc(union, signs, p);
        BoundaryVerticesSnoc(union, p);
        ghost var v1, sv1, se1 := vertices, strokeVertices, strokeElements;
        EmitRing(union[p], signs[p]);
        StrokeAppendStep(sv0, sv1, strokeVertices, se0, se1, strokeElements,
                         Corners(union[..p], signs[..p]), RingCorners(union[p], signs[p]));
        AppendTwice(v0, BoundaryVertices(union[..p]), RingVertices(union[p]));
      }
      assert union[..|union|] == union && signs[..|signs|] == signs;
    }

    /** The success branch of a tessellation pass over `boundary` boundary
        points: the Steiner pass, the choice of triangle group (a new one iff
        there is none or the last one cannot take every vertex of this call),
        the fill triangles relative to that group's previous vertex count, and
        the group's growth by every vertex of the call and by the full
        triangle count, dropped triangles included. */
    method EmitFill(tess: TessOutput, boundary: nat)
      requires Conforms(tess)
      modifies this
      ensures State() == Filled(old(State()), tess, boundary)
      ensures hasVertices == old(hasVertices) && pending == old(pending)
    {
      ghost var b0 := State();
      var remapped, total := AppendSteinerVertices(tess.vertexIndices, boundary);
      var triangleGroup := OpenTriangleGroup(total);
      ghost var started := triangleGroups;
      var triangleIndex := triangleGroups[triangleGroup].vertexLength;
      EmitTriangles(tess.elements, remapped, tess.elementCount, triangleIndex);
      GrowTriangleGroup(triangleGroup, total, tess.elementCount);
      assert started == OpenGroup(b0.triangleGroups, NeedsNewTriangleGroup(b0.triangleGroups, total));
    }

    /** Reuses the last triangle group or starts a new one (when there is none
        or the last cannot take `total` more vertices); returns the index of
        the group used. */
    method OpenTriangleGroup(total: nat) returns (triangleGroup: nat)
      modifies this
      ensures State() == old(State()).(triangleGroups :=
                OpenGroup(old(triangleGroups), NeedsNewTriangleGroup(old(triangleGroups), total)))
      ensures triangleGroup == |triangleGroups| - 1
      ensures hasVertices == old(hasVertices) && pending == old(pending)
    {
      if |triangleGroups| == 0 || triangleGroups[|triangleGroups| - 1].vertexLength + total > GroupCapacity {
        triangleGroups := triangleGroups + [Group(0, 0)];
      }
      triangleGroup := |triangleGroups| - 1;
    }

    /** Grows the triangle group in use by `dv` vertices and `de` triples. */
    method GrowTriangleGroup(triangleGroup: nat, dv: nat, de: nat)
      requires triangleGroup == |triangleGroups| - 1
      modifies this
      ensures State() == old(State()).(triangleGroups := AddToLast(old(triangleGroups), dv, de))
      ensures hasVertices == old(hasVertices) && pending == old(pending)
    {
      var g := triangleGroups[triangleGroup];
      triangleGroups := triangleGroups[triangleGroup := Group(g.vertexLength + dv, g.elementsLength + de)];
    }

    /** The fill draw loop: one draw per triangle group, in order, of three
        indices per triple, at offsets that start at the base offsets and
        advance by each earlier group's counts. The draws cover the bucket's
        fill triples exactly up to dropped-triangle slack. */
    method DrawElements() returns (draws: seq<Draw>)
      requires Valid()
      ensures |draws| == |triangleGroups|
      ensures forall k :: 0 <= k < |draws| ==>
                draws[k] == Draw(VertexOffset(triangleGroups, vertexStart, vertexItemSize, k),
                                 ElementsOffset(triangleGroups, triangleElementsStart, elementsItemSize, k),
                                 triangleGroups[k].elementsLength * 3, true)
    {
      var vertexIndex := vertexStart * vertexItemSize;
      var elementsIndex := triangleElementsStart * elementsItemSize;
      draws := [];
      for k := 0 to |triangleGroups|
        invariant |draws| == k
        invariant vertexIndex == VertexOffset(triangleGroups, vertexStart, vertexItemSize, k)
        invariant elementsIndex == ElementsOffset(triangleGroups, triangleElementsStart, elementsItemSize, k)
        invariant forall j :: 0 <= j < k ==>
                    draws[j] == Draw(VertexOffset(triangleGroups, vertexStart, vertexItemSize, j),
                                     ElementsOffset(triangleGroups, triangleElementsStart, elementsItemSize, j),
                                     triangleGroups[j].elementsLength * 3, true)
      {
        var group := triangleGroups[k];
        draws := draws + [Draw(vertexIndex, elementsIndex, group.elementsLength * 3, true)];
        OffsetsAbut(triangleGroups, vertexStart, vertexItemSize, triangleElementsStart, elementsItemSize, k);
        vertexIndex := vertexIndex + group.vertexLength * vertexItemSize;
        elementsIndex := elementsIndex + group.elementsLength * elementsItemSize;
      }
    }

    /** The stroke draw loop: one bind per line group, in order; the draw is
        issued only when the element offset plus 16 bytes per triple stays
        below 65536, but the offsets advance either way. The last group ends
        exactly where the bucket's stroke records end. */
    method DrawVertices() returns (draws: seq<Draw>)
      requires Valid()
      ensures |draws| == |lineGroups|
      ensures forall k :: 0 <= k < |draws| ==>
                draws[k].vertexOffset == VertexOffset(lineGroups, strokeVertexStart, vertexItemSize, k)
                && draws[k].elementsOffset == ElementsOffset(lineGroups, strokeElementsStart, elementsItemSize, k)
                && draws[k].indexCount == lineGroups[k].elementsLength * 3
                && (draws[k].issued <==> draws[k].elementsOffset + lineGroups[k].elementsLength * 16 < 65536)
      ensures VertexOffset(lineGroups, strokeVertexStart, vertexItemSize, |lineGroups|) == |strokeVertices| * vertexItemSize
      ensures ElementsOffset(lineGroups, strokeElementsStart, elementsItemSize, |lineGroups|) == |strokeElements| * elementsItemSize
    {
      var vertexIndex := strokeVertexStart * vertexItemSize;
      var elementsIndex := strokeElementsStart * elementsItemSize;
      draws := [];
      for k := 0 to |lineGroups|
        invariant |draws| == k
        invariant vertexIndex == VertexOffset(lineGroups, strokeVertexStart, vertexItemSize, k)
        invariant elementsIndex == ElementsOffset(lineGroups, strokeElementsStart, elementsItemSize, k)
        invariant forall j :: 0 <= j < k ==>
                    draws[j].vertexOffset == VertexOffset(lineGroups, strokeVertexStart, vertexItemSize, j)
                    && draws[j].elementsOffset == ElementsOffset(lineGroups, strokeElementsStart, elementsItemSize, j)
                    && draws[j].indexCount == lineGroups[j].elementsLength * 3
                    && (draws[j].issued <==> draws[j].elementsOffset + lineGroups[j].elementsLength * 16 < 65536)
      {
        var group := lineGroups[k];
        var issued := elementsIndex + group.elementsLength * 16 < 65536;
        draws := draws + [Draw(vertexIndex, elementsIndex, group.elementsLength * 3, issued)];
        OffsetsAbut(lineGroups, strokeVertexStart, vertexItemSize, strokeElementsStart, elementsItemSize, k);
        vertexIndex := vertexIndex + group.vertexLength * vertexItemSize;
        elementsIndex := elementsIndex + group.elementsLength * elementsItemSize;
      }
      assert lineGroups[..|lineGroups|] == lineGroups;
    }
  }
}
