/** The stroke mesh that a fill bucket builds around every boundary point of the
    polygon union: four extruded edge vertices, two bevel vertices and two
    exact corner vertices, joined by four index triples.

    Float geometry (normalisation to the line width, the bevel direction) is
    not computed: a stroke vertex records which points it was built from, and
    the two dot-product sign tests made per point are given as booleans. */
module StrokeMesh {
  import opened Geometry

  /** The sign tests at one boundary point: `trailing` is the test made with the
      bevel at the previous point, `leading` the one made with the bevel at the
      point itself; true means the dot product of the width vector and the
      bevel vector is positive. */
  datatype BevelSigns = BevelSigns(trailing: bool, leading: bool)

  /** A record of the stroke vertex buffer.
      Extruded: `anchor` moved by plus (`positive`) or minus the width vector
      perpendicular to the edge from `edgeFrom` to `edgeTo`.
      Beveled: `corner` moved along the bisector built from the unit vectors
      towards `along` (the first unit vector) and towards `other` (the second);
      both are neighbours of `corner`.
      Exact: the point itself. */
  datatype StrokeVertex =
    | Extruded(anchor: Point, edgeFrom: Point, edgeTo: Point, positive: bool)
    | Beveled(corner: Point, along: Point, other: Point)
    | Exact(p: Point)

  /** Index of the point before point `i` in a ring of `g` points (wraps to g-1). */
  function PrevIndex(i: nat, g: nat): (p: nat)
    requires i < g
    ensures p < g
    ensures i == 0 ==> p == g - 1
    ensures 0 < i ==> p + 1 == i
  {
    (if i == 0 then g else i) - 1
  }

  /** Index of the point used as the successor of point `i`: as written, the
      last point's successor is point 1, not point 0. */
  function NextIndex(i: nat, g: nat): (n: nat)
    requires i < g
    ensures 1 <= n
    ensures 2 <= g ==> n < g
    ensures i == g - 1 ==> n == 1
    ensures i < g - 1 ==> n == i + 1
  {
    (if i == g - 1 then 0 else i) + 1
  }

  /** The rings the union hands over: the tessellation step asserts at least
      three points per ring. */
  predicate ClipperRings(rings: seq<Ring>)
  {
    forall k :: 0 <= k < |rings| ==> |rings[k]| >= 3
  }

  /** One sign pair per boundary point. */
  predicate SignsFit(rings: seq<Ring>, signs: seq<seq<BevelSigns>>)
  {
    |signs| == |rings| && forall k :: 0 <= k < |rings| ==> |signs[k]| == |rings[k]|
  }

  /** What the stroke of one boundary point is built from: the point (`at`), its
      predecessor, the predecessor's predecessor, the successor chosen by
      NextIndex, and the two sign tests. */
  datatype Corner = Corner(pprev: Point, prev: Point, at: Point, next: Point, signs: BevelSigns)

  function CornerAt(ring: Ring, signs: seq<BevelSigns>, i: nat): Corner
    requires |ring| >= 3 && |signs| == |ring| && i < |ring|
  {
    var g := |ring|;
    var p := PrevIndex(i, g);
    Corner(ring[PrevIndex(p, g)], ring[p], ring[i], ring[NextIndex(i, g)], signs[i])
  }

  function RingCorners(ring: Ring, signs: seq<BevelSigns>): (cs: seq<Corner>)
    requires |ring| >= 3 && |signs| == |ring|
    ensures |cs| == |ring|
  {
    seq(|ring|, i requires 0 <= i < |ring| => CornerAt(ring, signs, i))
  }

  /** The corners of all rings, ring after ring. */
  function Corners(rings: seq<Ring>, signs: seq<seq<BevelSigns>>): (cs: seq<Corner>)
    requires ClipperRings(rings) && SignsFit(rings, signs)
    ensures |cs| == TotalPoints(rings)
  {
    if rings == [] then []
    else
      var n := |rings| - 1;
      Corners(rings[..n], signs[..n]) + RingCorners(rings[n], signs[n])
  }

  /** Taking one more ring adds that ring's corners at the end. */
  lemma CornersSnoc(rings: seq<Ring>, signs: seq<seq<BevelSigns>>, p: nat)
    requires ClipperRings(rings) && SignsFit(rings, signs) && p < |rings|
    ensures ClipperRings(rings[..p]) && SignsFit(rings[..p], signs[..p])
    ensures ClipperRings(rings[..p + 1]) && SignsFit(rings[..p + 1], signs[..p + 1])
    ensures Corners(rings[..p + 1], signs[..p + 1]) == Corners(rings[..p], signs[..p]) + RingCorners(rings[p], signs[p])
  {
    assert rings[..p + 1][..p] == rings[..p] && signs[..p + 1][..p] == signs[..p];
  }

  /** The eight stroke vertices of one boundary point, in buffer order. */
  function CornerStroke(c: Corner): (vs: seq<StrokeVertex>)
    ensures |vs| == 8
  {
    [ Extruded(c.prev, c.prev, c.at, true), Extruded(c.prev, c.prev, c.at, false),
      Extruded(c.at, c.prev, c.at, true), Extruded(c.at, c.prev, c.at, false),
      Beveled(c.prev, c.at, c.pprev), Exact(c.prev),
      Beveled(c.at, c.next, c.prev), Exact(c.at) ]
  }

  /** The four index triples of one boundary point whose first stroke vertex has
      index `cur`: two for the edge quad and one per bevel, attached to the
      quad corner the sign test selects. */
  function CornerTriples(cur: int, s: BevelSigns): (ts: seq<Triple>)
    ensures |ts| == 4
  {
    [ Triple(cur, cur + 1, cur + 2), Triple(cur + 1, cur + 3, cur + 2),
      Triple(cur + 5, cur + 4, if s.trailing then cur else cur + 1),
      Triple(cur + 7, cur + 6, if s.leading then cur + 2 else cur + 3) ]
  }

  /** The four triples of a point index only its own eight stroke vertices. */
  lemma CornerTriplesWithin(cur: int, s: BevelSigns)
    ensures forall k :: 0 <= k < 4 ==> CornerTriples(cur, s)[k].Within(cur, cur + 8)
  {
  }

  /** The stroke vertices of a run of corners. */
  function StrokeVertices(cs: seq<Corner>): (vs: seq<StrokeVertex>)
    ensures |vs| == 8 * |cs|
  {
    if cs == [] then [] else StrokeVertices(cs[..|cs| - 1]) + CornerStroke(cs[|cs| - 1])
  }

  /** The stroke triples of a run of corners whose stroke vertices start at index `base`. */
  function StrokeTriples(cs: seq<Corner>, base: int): (ts: seq<Triple>)
    ensures |ts| == 4 * |cs|
  {
    if cs == [] then []
    else StrokeTriples(cs[..|cs| - 1], base) + CornerTriples(base + 8 * (|cs| - 1), cs[|cs| - 1].signs)
  }

  lemma {:induction false} StrokeVerticesAppend(xs: seq<Corner>, ys: seq<Corner>)
    ensures StrokeVertices(xs + ys) == StrokeVertices(xs) + StrokeVertices(ys)
    decreases |ys|
  {
    if ys != [] {
      var ys' := ys[..|ys| - 1];
      assert (xs + ys)[..|xs + ys| - 1] == xs + ys';
      StrokeVerticesAppend(xs, ys');
    } else {
      assert xs + ys == xs;
    }
  }

  lemma {:induction false} StrokeTriplesAppend(xs: seq<Corner>, ys: seq<Corner>, base: int)
    ensures StrokeTriples(xs + ys, base) == StrokeTriples(xs, base) + StrokeTriples(ys, base + 8 * |xs|)
    decreases |ys|
  {
    if ys != [] {
      var ys' := ys[..|ys| - 1];
      assert (xs + ys)[..|xs + ys| - 1] == xs + ys';
      StrokeTriplesAppend(xs, ys', base);
    } else {
      assert xs + ys == xs;
    }
  }

  /** Two successive appends of stroke meshes, the second indexed from the
      stroke buffer's length after the first, append the mesh of both runs. */
  lemma StrokeAppendStep(sv0: seq<StrokeVertex>, sv1: seq<StrokeVertex>, sv2: seq<StrokeVertex>,
                         se0: seq<Triple>, se1: seq<Triple>, se2: seq<Triple>,
                         xs: seq<Corner>, ys: seq<Corner>)
    requires sv1 == sv0 + StrokeVertices(xs) && se1 == se0 + StrokeTriples(xs, |sv0|)
    requires sv2 == sv1 + StrokeVertices(ys) && se2 == se1 + StrokeTriples(ys, |sv1|)
    ensures sv2 == sv0 + StrokeVertices(xs + ys) && se2 == se0 + StrokeTriples(xs + ys, |sv0|)
  {
    StrokeVerticesAppend(xs, ys);
    AppendTwice(sv0, StrokeVertices(xs), StrokeVertices(ys));
    TriplesAppendStep(se0, se1, se2, xs, ys, |sv0|, |sv1|);
  }

  lemma TriplesAppendStep(se0: seq<Triple>, se1: seq<Triple>, se2: seq<Triple>,
                          xs: seq<Corner>, ys: seq<Corner>, base0: int, base1: int)
    requires base1 == base0 + 8 * |xs|
    requires se1 == se0 + StrokeTriples(xs, base0) && se2 == se1 + StrokeTriples(ys, base1)
    ensures se2 == se0 + StrokeTriples(xs + ys, base0)
  {
    var a, b := StrokeTriples(xs, base0), StrokeTriples(ys, base1);
    StrokeTriplesAppend(xs, ys, base0);
    AppendTwice(se0, a, b);
  }

  /** Taking one more corner adds its mesh at the end. */
  lemma StrokeSnoc(cs: seq<Corner>, base: int, i: nat)
    requires i < |cs|
    ensures StrokeVertices(cs[..i + 1]) == StrokeVertices(cs[..i]) + CornerStroke(cs[i])
    ensures StrokeTriples(cs[..i + 1], base) == StrokeTriples(cs[..i], base) + CornerTriples(base + 8 * i, cs[i].signs)
  {
    assert cs[..i + 1][..i] == cs[..i];
  }

  /** Appending the stroke vertices of corner i to a buffer holding those of
      the corners before it gives those of the corners up to and including i. */
  lemma VerticesSnocStep(sv0: seq<StrokeVertex>, sv1: seq<StrokeVertex>, sv2: seq<StrokeVertex>,
                         cs: seq<Corner>, i: nat)
    requires i < |cs|
    requires sv1 == sv0 + StrokeVertices(cs[..i]) && sv2 == sv1 + CornerStroke(cs[i])
    ensures sv2 == sv0 + StrokeVertices(cs[..i + 1])
  {
    StrokeSnoc(cs, 0, i);
    AppendTwice(sv0, StrokeVertices(cs[..i]), CornerStroke(cs[i]));
  }

  /** Appending the triples of corner i, indexed from `cur`, the stroke
      buffer's length after the corners before it, to a buffer holding the
      triples of those corners gives the triples of the corners up to and
      including i. */
  lemma TriplesSnocStep(se0: seq<Triple>, se1: seq<Triple>, se2: seq<Triple>,
                        cs: seq<Corner>, i: nat, base: int, cur: int)
    requires i < |cs| && cur == base + 8 * i
    requires se1 == se0 + StrokeTriples(cs[..i], base) && se2 == se1 + CornerTriples(cur, cs[i].signs)
    ensures se2 == se0 + StrokeTriples(cs[..i + 1], base)
  {
    StrokeSnoc(cs, base, i);
    AppendTwice(se0, StrokeTriples(cs[..i], base), CornerTriples(cur, cs[i].signs));
  }

  /** Corner j owns stroke vertices [8j, 8j+8) and triples [4j, 4j+4); its
      triples index only its own eight vertices, counted from `base`. */
  lemma {:induction false} StrokeOfCorner(cs: seq<Corner>, base: int, j: nat)
    requires j < |cs|
    ensures StrokeVertices(cs)[8 * j .. 8 * j + 8] == CornerStroke(cs[j])
    ensures StrokeTriples(cs, base)[4 * j .. 4 * j + 4] == CornerTriples(base + 8 * j, cs[j].signs)
    decreases |cs|
  {
    var init := cs[..|cs| - 1];
    if j < |cs| - 1 {
      StrokeOfCorner(init, base, j);
      assert init[j] == cs[j];
    }
  }

  /** Every stroke triple of a run of corners indexes a vertex of that run:
      triple k lies within the eight vertices of corner k / 4. */
  lemma {:induction false} StrokeTriplesWithin(cs: seq<Corner>, base: int)
    ensures forall k :: 0 <= k < |StrokeTriples(cs, base)| ==>
              StrokeTriples(cs, base)[k].Within(base + 8 * (k / 4), base + 8 * (k / 4) + 8)
    ensures forall t :: t in StrokeTriples(cs, base) ==> t.Within(base, base + 8 * |cs|)
    decreases |cs|
  {
    if cs != [] {
      var n := |cs| - 1;
      StrokeTriplesWithin(cs[..n], base);
      var ts := StrokeTriples(cs, base);
      var head := StrokeTriples(cs[..n], base);
      var tail := CornerTriples(base + 8 * n, cs[n].signs);
      assert ts == head + tail;
      forall k | 0 <= k < |ts|
        ensures ts[k].Within(base + 8 * (k / 4), base + 8 * (k / 4) + 8)
        ensures ts[k].Within(base, base + 8 * |cs|)
      {
        if k < |head| {
          assert ts[k] == head[k];
        } else {
          CornerTriplesWithin(base + 8 * n, cs[n].signs);
          assert ts[k] == tail[k - 4 * n];
          assert k / 4 == n;
        }
      }
    }
  }

  /** For every point but the last, the bevel the point builds towards its
      successor equals the bevel the next point builds at its predecessor, so
      the two stroke quads meeting there share one bevel vertex. */
  lemma BevelsAgreeBetweenNeighbours(ring: Ring, signs: seq<BevelSigns>, i: nat)
    requires |ring| >= 3 && |signs| == |ring| && i + 1 < |ring|
    ensures CornerStroke(CornerAt(ring, signs, i))[6] == CornerStroke(CornerAt(ring, signs, i + 1))[4]
  {
  }

  /** For the last point the successor is point 1, so the bevel built at the last
      point differs from the one point 0 builds at the same place (its
      predecessor) whenever points 0 and 1 differ. */
  lemma LastBevelUsesSecondPoint(ring: Ring, signs: seq<BevelSigns>)
    requires |ring| >= 3 && |signs| == |ring|
    ensures var last := |ring| - 1;
            CornerStroke(CornerAt(ring, signs, last))[6] == Beveled(ring[last], ring[1], ring[last - 1])
            && CornerStroke(CornerAt(ring, signs, 0))[4] == Beveled(ring[last], ring[0], ring[last - 1])
            && (ring[0] != ring[1] <==>
                CornerStroke(CornerAt(ring, signs, last))[6] != CornerStroke(CornerAt(ring, signs, 0))[4])
  {
  }
}
