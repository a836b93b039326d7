/** Values shared by the fill and stroke buffers of a fill bucket: integer
    polygon points, index triples and fill-buffer vertex records. */
module Geometry {

  /** A point of the polygon union's output ring (an integer point). */
  datatype Point = Point(x: int, y: int)

  /** One closed ring of the union's output; the first point is not repeated at the end. */
  type Ring = seq<Point>

  /** Three vertex indices, one triangle of an element buffer. */
  datatype Triple = Triple(a: int, b: int, c: int)
  {
    /** Every index of the triple lies in [lo, hi). */
    predicate Within(lo: int, hi: int)
    {
      lo <= a < hi && lo <= b < hi && lo <= c < hi
    }
  }

  /** A record of the fill vertex buffer: either a boundary point of the union,
      copied exactly, or a vertex the tessellator introduced (a Steiner point),
      whose rounded float coordinates are not modelled and which is identified
      by its position in the tessellator's vertex output. */
  datatype FillVertex = Boundary(p: Point) | Rounded(tessVertex: nat)

  /** Appending to a buffer in two steps is appending the concatenation. */
  lemma AppendTwice<T>(a: seq<T>, b: seq<T>, c: seq<T>)
    ensures (a + b) + c == a + (b + c)
  {
  }

  /** Appending triples that index below `hi` to a buffer whose triples from
      `lo` on index below `mid` <= `hi` leaves every triple from `lo` on
      indexing below `hi`. */
  lemma AppendedTriplesWithin(ts: seq<Triple>, added: seq<Triple>, lo: nat, mid: int, hi: int)
    requires mid <= hi
    requires forall k :: lo <= k < |ts| ==> ts[k].Within(0, mid)
    requires forall t :: t in added ==> t.Within(0, hi)
    ensures forall k :: lo <= k < |ts + added| ==> (ts + added)[k].Within(0, hi)
  {
    forall k | lo <= k < |ts + added|
      ensures (ts + added)[k].Within(0, hi)
    {
      if k >= |ts| {
        assert (ts + added)[k] == added[k - |ts|];
      }
    }
  }

  /** The number of boundary points of all rings. */
  function TotalPoints(rings: seq<Ring>): nat
  {
    if rings == [] then 0 else TotalPoints(rings[..|rings| - 1]) + |rings[|rings| - 1]|
  }

  /** The fill-buffer records of one ring: each point once, in ring order. */
  function RingVertices(ring: Ring): (vs: seq<FillVertex>)
    ensures |vs| == |ring|
    ensures forall k :: 0 <= k < |ring| ==> vs[k] == Boundary(ring[k])
  {
    seq(|ring|, k requires 0 <= k < |ring| => Boundary(ring[k]))
  }

  /** The fill-buffer records of all rings, ring after ring. */
  function BoundaryVertices(rings: seq<Ring>): (vs: seq<FillVertex>)
    ensures |vs| == TotalPoints(rings)
  {
    if rings == [] then []
    else BoundaryVertices(rings[..|rings| - 1]) + RingVertices(rings[|rings| - 1])
  }

  /** Taking one more ring adds that ring's points at the end. */
  lemma BoundaryVerticesSnoc(rings: seq<Ring>, p: nat)
    requires p < |rings|
    ensures BoundaryVertices(rings[..p + 1]) == BoundaryVertices(rings[..p]) + RingVertices(rings[p])
  {
    assert rings[..p + 1][..p] == rings[..p];
  }

  /** Every fill-buffer record of the rings is a boundary point of one of them,
      and every point of every ring is among the records. */
  lemma {:induction false} BoundaryVerticesAreRingPoints(rings: seq<Ring>)
    ensures forall v :: v in BoundaryVertices(rings) ==>
              v.Boundary? && exists r :: r in rings && v.p in r
    ensures forall r, p :: r in rings && p in r ==> Boundary(p) in BoundaryVertices(rings)
  {
    if rings != [] {
      var init, last := rings[..|rings| - 1], rings[|rings| - 1];
      BoundaryVerticesAreRingPoints(init);
      assert rings == init + [last];
      forall v | v in BoundaryVertices(rings)
        ensures v.Boundary? && exists r :: r in rings && v.p in r
      {
        if v in BoundaryVertices(init) {
          var r :| r in init && v.p in r;
          assert r in rings;
        } else {
          assert v in RingVertices(last);
          var k :| 0 <= k < |last| && RingVertices(last)[k] == v;
          assert v.p == last[k] && last in rings;
        }
      }
      forall r, p | r in rings && p in r
        ensures Boundary(p) in BoundaryVertices(rings)
      {
        if r in init {
        } else {
          assert r == last;
          var k :| 0 <= k < |last| && last[k] == p;
          assert RingVertices(last)[k] == Boundary(p);
        }
      }
    }
  }
}
