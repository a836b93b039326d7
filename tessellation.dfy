/** What a fill bucket does with the polygon tessellator's output: it gives the
    tessellator's new (Steiner) vertices fresh indices after the boundary
    points, and turns the element list into fill triangles, dropping those
    with an undefined corner. The triangulation itself is not modelled: its
    output is an input here. */
module Tessellation {
  import opened Geometry

  /** The tessellator's "undefined index" marker (all bits set in a signed int). */
  const Undef: int := -1

  /** The tessellator's output. `vertexIndices[i]` is the input vertex that
      output vertex i came from, or Undef for a vertex the tessellator made;
      `elements` holds `elementCount` triangles of three output-vertex indices. */
  datatype TessOutput = TessOutput(
    success: bool,
    vertexCount: nat,
    vertexIndices: seq<int>,
    elements: seq<int>,
    elementCount: nat)

  /** The shape the code relies on when it reads a successful output: the
      index and element arrays have the advertised lengths, and every defined
      element names an output vertex. */
  predicate Conforms(t: TessOutput)
  {
    |t.vertexIndices| == t.vertexCount
    && |t.elements| == 3 * t.elementCount
    && forall k :: 0 <= k < |t.elements| ==> t.elements[k] == Undef || 0 <= t.elements[k] < t.vertexCount
  }

  /** The number of Undef entries. */
  function UndefCount(vi: seq<int>): nat
  {
    if vi == [] then 0
    else UndefCount(vi[..|vi| - 1]) + (if vi[|vi| - 1] == Undef then 1 else 0)
  }

  /** The index array after the Steiner pass: each Undef entry, in order,
      receives the next fresh index, starting at `start`. */
  function Remap(vi: seq<int>, start: nat): (r: seq<int>)
    ensures |r| == |vi|
  {
    if vi == [] then []
    else
      var n := |vi| - 1;
      Remap(vi[..n], start) + [if vi[n] == Undef then start + UndefCount(vi[..n]) else vi[n]]
  }

  /** The fill-buffer records the Steiner pass appends: one per Undef entry. */
  function SteinerVertices(vi: seq<int>): (vs: seq<FillVertex>)
    ensures |vs| == UndefCount(vi)
  {
    if vi == [] then []
    else
      var n := |vi| - 1;
      SteinerVertices(vi[..n]) + (if vi[n] == Undef then [Rounded(n)] else [])
  }

  /** Every record of the Steiner pass is a rounded vertex for an Undef entry,
      and every Undef entry has its record. */
  lemma {:induction false} SteinerVerticesAreUndefEntries(vi: seq<int>)
    ensures forall v :: v in SteinerVertices(vi) ==> v.Rounded? && v.tessVertex < |vi| && vi[v.tessVertex] == Undef
    ensures forall k :: 0 <= k < |vi| && vi[k] == Undef ==> Rounded(k) in SteinerVertices(vi)
  {
    if vi != [] {
      var n := |vi| - 1;
      SteinerVerticesAreUndefEntries(vi[..n]);
      forall k | 0 <= k < |vi| && vi[k] == Undef
        ensures Rounded(k) in SteinerVertices(vi)
      {
        if k < n {
          assert vi[..n][k] == vi[k];
        }
      }
    }
  }

  /** Taking one more entry adds its record, if it is Undef, at the end. */
  lemma SteinerVerticesSnoc(vi: seq<int>, i: nat)
    requires i < |vi|
    ensures SteinerVertices(vi[..i + 1]) == SteinerVertices(vi[..i]) + (if vi[i] == Undef then [Rounded(i)] else [])
  {
    assert vi[..i + 1][..i] == vi[..i];
  }

  /** One step of the Steiner pass over entry i: an Undef entry receives the
      next fresh index and adds one rounded vertex; a defined entry is kept. */
  lemma RemapStep(vi: seq<int>, start: nat, i: nat, remapped: seq<int>)
    requires i < |vi| && remapped == Remap(vi[..i], start) + vi[i..]
    ensures (if remapped[i] == Undef then remapped[i := start + UndefCount(vi[..i])] else remapped)
              == Remap(vi[..i + 1], start) + vi[i + 1..]
            && UndefCount(vi[..i + 1]) == UndefCount(vi[..i]) + (if remapped[i] == Undef then 1 else 0)
  {
    assert vi[..i + 1][..i] == vi[..i];
    assert remapped[i] == vi[i];
    var f := start + UndefCount(vi[..i]);
    var next := if remapped[i] == Undef then remapped[i := f] else remapped;
    assert next == Remap(vi[..i + 1], start) + vi[i + 1..] by {
      assert |next| == |vi|;
      forall k | 0 <= k < |vi|
        ensures next[k] == (Remap(vi[..i + 1], start) + vi[i + 1..])[k]
      {
        if k < i {
          assert next[k] == Remap(vi[..i], start)[k];
        }
      }
    }
  }

  /** The k-th entry after the Steiner pass: a defined entry is kept, an Undef
      entry becomes `start` plus the number of Undef entries before it. */
  lemma {:induction false} RemapAt(vi: seq<int>, start: nat, k: nat)
    requires k < |vi|
    ensures Remap(vi, start)[k] == if vi[k] == Undef then start + UndefCount(vi[..k]) else vi[k]
    decreases |vi|
  {
    var n := |vi| - 1;
    if k < n {
      RemapAt(vi[..n], start, k);
      assert vi[..n][..k] == vi[..k];
    } else {
      assert vi[..n] == vi[..k];
    }
  }

  lemma {:induction false} UndefCountMonotone(vi: seq<int>, i: nat, j: nat)
    requires i <= j <= |vi|
    ensures UndefCount(vi[..i]) <= UndefCount(vi[..j])
    ensures i < j && vi[i] == Undef ==> UndefCount(vi[..i]) < UndefCount(vi[..j])
    decreases j - i
  {
    if i < j {
      UndefCountMonotone(vi, i, j - 1);
      assert vi[..j][..j - 1] == vi[..j - 1];
    }
  }

  /** After the Steiner pass no entry is Undef; the fresh indices are distinct,
      increasing in the order of the entries, and fill [start, start + UndefCount). */
  lemma RemapFresh(vi: seq<int>, start: nat)
    ensures forall k :: 0 <= k < |vi| ==> Remap(vi, start)[k] != Undef
    ensures forall k :: 0 <= k < |vi| && vi[k] == Undef ==>
              start <= Remap(vi, start)[k] < start + UndefCount(vi)
    ensures forall i, j :: 0 <= i < j < |vi| && vi[i] == Undef && vi[j] == Undef ==>
              Remap(vi, start)[i] < Remap(vi, start)[j]
  {
    forall k | 0 <= k < |vi|
      ensures Remap(vi, start)[k] != Undef
      ensures vi[k] == Undef ==> start <= Remap(vi, start)[k] < start + UndefCount(vi)
    {
      RemapAt(vi, start, k);
      UndefCountMonotone(vi, k, |vi|);
      assert vi[..|vi|] == vi;
    }
    forall i, j | 0 <= i < j < |vi| && vi[i] == Undef && vi[j] == Undef
      ensures Remap(vi, start)[i] < Remap(vi, start)[j]
    {
      RemapAt(vi, start, i);
      RemapAt(vi, start, j);
      UndefCountMonotone(vi, i, j);
    }
  }

  /** The elements of `elements` are usable as indices into `vi`. */
  predicate ElementsIndex(elements: seq<int>, vi: seq<int>)
  {
    forall k :: 0 <= k < |elements| ==> elements[k] == Undef || 0 <= elements[k] < |vi|
  }

  /** Triangle i is emitted iff its three element slots and the three indices
      they resolve to are all defined. */
  predicate Emitted(elements: seq<int>, vi: seq<int>, i: nat)
    requires 3 * i + 2 < |elements| && ElementsIndex(elements, vi)
  {
    var e0, e1, e2 := elements[3 * i], elements[3 * i + 1], elements[3 * i + 2];
    e0 != Undef && e1 != Undef && e2 != Undef
    && vi[e0] != Undef && vi[e1] != Undef && vi[e2] != Undef
  }

  /** The fill triangles of the first `n` elements, each corner offset by `base`. */
  function FillTriangles(elements: seq<int>, vi: seq<int>, base: int, n: nat): (ts: seq<Triple>)
    requires 3 * n <= |elements| && ElementsIndex(elements, vi)
    ensures |ts| <= n
  {
    if n == 0 then []
    else
      var i := n - 1;
      FillTriangles(elements, vi, base, i)
      + if Emitted(elements, vi, i)
        then [Triple(base + vi[elements[3 * i]], base + vi[elements[3 * i + 1]], base + vi[elements[3 * i + 2]])]
        else []
  }

  /** When every entry of the index array is defined, no triangle is dropped
      for an undefined index: only an Undef element slot drops one. */
  lemma {:induction false} FillTrianglesAllResolved(elements: seq<int>, vi: seq<int>, base: int, n: nat)
    requires 3 * n <= |elements| && ElementsIndex(elements, vi)
    requires forall k :: 0 <= k < |vi| ==> vi[k] != Undef
    requires forall k :: 0 <= k < 3 * n ==> elements[k] != Undef
    ensures |FillTriangles(elements, vi, base, n)| == n
  {
    if n > 0 {
      FillTrianglesAllResolved(elements, vi, base, n - 1);
      assert Emitted(elements, vi, n - 1);
    }
  }

  /** If every index of the array lies in [0, bound), every emitted triangle
      lies in [base, base + bound). */
  lemma {:induction false} FillTrianglesWithin(elements: seq<int>, vi: seq<int>, base: int, n: nat, bound: int)
    requires 3 * n <= |elements| && ElementsIndex(elements, vi)
    requires forall k :: 0 <= k < |vi| ==> vi[k] == Undef || 0 <= vi[k] < bound
    ensures forall t :: t in FillTriangles(elements, vi, base, n) ==> t.Within(base, base + bound)
  {
    if n > 0 {
      FillTrianglesWithin(elements, vi, base, n - 1, bound);
    }
  }

  /** The tessellator's defined vertex indices name input (boundary) vertices,
      so after the Steiner pass every emitted fill triangle indexes a vertex
      this call added: [base, base + boundary + Steiner count). */
  lemma FillTrianglesOfCall(t: TessOutput, boundary: nat, base: int)
    requires Conforms(t)
    requires forall k :: 0 <= k < |t.vertexIndices| ==>
               t.vertexIndices[k] == Undef || 0 <= t.vertexIndices[k] < boundary
    ensures ElementsIndex(t.elements, Remap(t.vertexIndices, boundary))
    ensures forall tri :: tri in FillTriangles(t.elements, Remap(t.vertexIndices, boundary), base, t.elementCount) ==>
              tri.Within(base, base + boundary + UndefCount(t.vertexIndices))
  {
    var vi := t.vertexIndices;
    var r := Remap(vi, boundary);
    RemapFresh(vi, boundary);
    forall k | 0 <= k < |r|
      ensures r[k] == Undef || 0 <= r[k] < boundary + UndefCount(vi)
    {
      RemapAt(vi, boundary, k);
    }
    FillTrianglesWithin(t.elements, r, base, t.elementCount, boundary + UndefCount(vi));
  }
}
