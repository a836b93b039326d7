/** Draw groups: sub-ranges of a vertex buffer and an element buffer, kept in
    order, with the rules that decide when a new group is started and the
    byte offsets the draw loops compute from them. */
module Groups {

  /** A line or triangle group: how many vertices and how many index triples it covers. */
  datatype Group = Group(vertexLength: nat, elementsLength: nat)

  /** The 16-bit capacity a group may reach when a call reuses it. */
  const GroupCapacity: nat := 65535

  /** The largest stroke-vertex estimate a single call accepts (greater values fail). */
  const EstimateLimit: nat := 65536

  function SumVertices(gs: seq<Group>): nat
  {
    if gs == [] then 0 else SumVertices(gs[..|gs| - 1]) + gs[|gs| - 1].vertexLength
  }

  function SumElements(gs: seq<Group>): nat
  {
    if gs == [] then 0 else SumElements(gs[..|gs| - 1]) + gs[|gs| - 1].elementsLength
  }

  /** The last group grows by `dv` vertices and `de` triples; the others are kept. */
  function AddToLast(gs: seq<Group>, dv: nat, de: nat): (r: seq<Group>)
    requires gs != []
    ensures |r| == |gs| && r[..|gs| - 1] == gs[..|gs| - 1]
    ensures SumVertices(r) == SumVertices(gs) + dv
    ensures SumElements(r) == SumElements(gs) + de
  {
    var n := |gs| - 1;
    assert gs[n := Group(gs[n].vertexLength + dv, gs[n].elementsLength + de)][..n] == gs[..n];
    gs[n := Group(gs[n].vertexLength + dv, gs[n].elementsLength + de)]
  }

  /** Appends an empty group when `startNew` holds; the sums are unchanged. */
  function OpenGroup(gs: seq<Group>, startNew: bool): (r: seq<Group>)
    ensures |r| == |gs| + (if startNew then 1 else 0)
    ensures r[..|gs|] == gs
    ensures startNew ==> r[|gs|] == Group(0, 0)
    ensures SumVertices(r) == SumVertices(gs) && SumElements(r) == SumElements(gs)
  {
    if startNew then
      assert (gs + [Group(0, 0)])[..|gs|] == gs;
      gs + [Group(0, 0)]
    else gs
  }

  /** A call with estimates `lv` vertices and `li` triples starts a new line
      group iff there is none or the last one cannot take either estimate. */
  predicate NeedsNewLineGroup(gs: seq<Group>, lv: nat, li: nat)
  {
    gs == []
    || gs[|gs| - 1].vertexLength + lv > GroupCapacity
    || gs[|gs| - 1].elementsLength + li > GroupCapacity
  }

  /** A successful tessellation of `total` vertices starts a new triangle group
      iff there is none or the last one cannot take the vertices (the element
      count is not checked). */
  predicate NeedsNewTriangleGroup(gs: seq<Group>, total: nat)
  {
    gs == [] || gs[|gs| - 1].vertexLength + total > GroupCapacity
  }

  /** Growing the last group's triple count and then its vertex count is AddToLast. */
  lemma AddToLastInSteps(gs: seq<Group>, dv: nat, de: nat)
    requires gs != []
    ensures AddToLast(AddToLast(gs, 0, de), dv, 0) == AddToLast(gs, dv, de)
  {
  }

  /** The line groups after a call with estimates `lv` and `li`. */
  function LineGroupsAfter(gs: seq<Group>, lv: nat, li: nat): seq<Group>
  {
    AddToLast(OpenGroup(gs, NeedsNewLineGroup(gs, lv, li)), lv, li)
  }

  /** The bound every line group keeps: the estimate check admits 65536 (not
      65535) vertices, so a group started for a single call can hold 65536. */
  predicate LineGroupsBounded(gs: seq<Group>)
  {
    forall k :: 0 <= k < |gs| ==> gs[k].vertexLength <= EstimateLimit && gs[k].elementsLength <= GroupCapacity
  }

  /** A call adds at most one line group, keeps the earlier groups, and keeps
      every group within bounds, as long as its estimate passed the check and
      its triple estimate is half its vertex estimate. A reused group stays
      within the 16-bit capacity. */
  lemma LineGroupsAfterKeepsBounds(gs: seq<Group>, lv: nat, li: nat)
    requires LineGroupsBounded(gs)
    requires lv <= EstimateLimit && 2 * li == lv
    ensures var r := LineGroupsAfter(gs, lv, li);
            |r| == |gs| + (if NeedsNewLineGroup(gs, lv, li) then 1 else 0)
            && (gs != [] ==> r[..|gs| - 1] == gs[..|gs| - 1])
            && (NeedsNewLineGroup(gs, lv, li) ==> r[..|gs|] == gs)
            && LineGroupsBounded(r)
            && (!NeedsNewLineGroup(gs, lv, li) ==>
                  r[|r| - 1].vertexLength <= GroupCapacity && r[|r| - 1].elementsLength <= GroupCapacity)
  {
    var r := LineGroupsAfter(gs, lv, li);
    var o := OpenGroup(gs, NeedsNewLineGroup(gs, lv, li));
    if gs != [] {
      assert r[..|gs| - 1] == o[..|gs| - 1] == gs[..|gs| - 1];
    }
    if NeedsNewLineGroup(gs, lv, li) {
      assert r[..|gs|] == o[..|gs|] == gs;
    }
    forall k | 0 <= k < |r|
      ensures r[k].vertexLength <= EstimateLimit && r[k].elementsLength <= GroupCapacity
    {
      if k < |r| - 1 {
        assert r[k] == o[k] == gs[k];
      }
    }
  }

  /** The smallest estimate the check admits that no group can take within the
      16-bit capacity: 8192 boundary points on a bucket without line groups
      produce a group of 65536 vertices. */
  lemma FullEstimateExceedsCapacity()
    ensures var lv := 8 * 8192;
            lv <= EstimateLimit && LineGroupsAfter([], lv, 4 * 8192) == [Group(65536, 32768)]
            && 65536 > GroupCapacity
  {
  }

  /** One draw of a group: the byte offsets bound before drawing, the number of
      indices drawn and whether the draw call is issued. */
  datatype Draw = Draw(vertexOffset: nat, elementsOffset: nat, indexCount: nat, issued: bool)

  /** Byte offset of group k's vertices: the base start plus the earlier groups' vertex counts. */
  function VertexOffset(gs: seq<Group>, start: nat, itemSize: nat, k: nat): nat
    requires k <= |gs|
  {
    (start + SumVertices(gs[..k])) * itemSize
  }

  /** Byte offset of group k's triples: the base start plus the earlier groups' triple counts. */
  function ElementsOffset(gs: seq<Group>, start: nat, itemSize: nat, k: nat): nat
    requires k <= |gs|
  {
    (start + SumElements(gs[..k])) * itemSize
  }

  /** Consecutive groups' ranges abut: group k+1 starts where group k ends. */
  lemma OffsetsAbut(gs: seq<Group>, vstart: nat, vsize: nat, estart: nat, esize: nat, k: nat)
    requires k < |gs|
    ensures VertexOffset(gs, vstart, vsize, k + 1) == VertexOffset(gs, vstart, vsize, k) + gs[k].vertexLength * vsize
    ensures ElementsOffset(gs, estart, esize, k + 1) == ElementsOffset(gs, estart, esize, k) + gs[k].elementsLength * esize
  {
    assert gs[..k + 1][..k] == gs[..k];
  }
}
