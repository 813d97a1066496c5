/** The two jobs run back to back on one mesh, the retriangulation
    receiving exactly the lists and cuts the cutter produced. */
module Pipeline {
  import opened Geometry
  import opened Vertices
  import opened Cutting
  import opened Buffers
  import opened Retriangulation

  /** Every new vertex of a cut produced by the cutter lies on the plane. */
  lemma CutVerticesOnPlane(plane: Plane, mesh: SourceMesh, c: TriangleCut, colorLerp: ColorLerp)
    requires WellFormed(mesh) && ValidTriangleCut(plane, mesh.positions, c)
    ensures CutInRange(c, |mesh.positions|)
    ensures SignedDistance(plane, CutVertices(FromMesh(mesh), c, colorLerp)[0].position) == 0.0
    ensures SignedDistance(plane, CutVertices(FromMesh(mesh), c, colorLerp)[1].position) == 0.0
  {
    GetReadsSource(mesh, c.cut1.from);
    GetReadsSource(mesh, c.cut1.to);
    GetReadsSource(mesh, c.cut2.from);
    GetReadsSource(mesh, c.cut2.to);
    CutPointOnPlane(plane, mesh.positions, c.cut1);
    CutPointOnPlane(plane, mesh.positions, c.cut2);
  }

  /** The i-th appended vertex is one of the two new vertices of cut i / 2,
      so it lies on the plane. */
  lemma {:induction false} NewVertexOnPlane(plane: Plane, mesh: SourceMesh, cuts: seq<TriangleCut>, colorLerp: ColorLerp, i: int)
    requires WellFormed(mesh) && AllCutsInRange(cuts, |mesh.positions|)
    requires forall k :: 0 <= k < |cuts| ==> ValidTriangleCut(plane, mesh.positions, cuts[k])
    requires 0 <= i < 2 * |cuts|
    ensures SignedDistance(plane, NewVertices(FromMesh(mesh), cuts, colorLerp)[i].position) == 0.0
  {
    var mb, k := FromMesh(mesh), i / 2;
    CutVerticesOnPlane(plane, mesh, cuts[k], colorLerp);
    NewVertexOfCut(mb, cuts, colorLerp, i);
    var qs := CutVertices(mb, cuts[k], colorLerp);
    if i == 2 * k {
      assert NewVertices(mb, cuts, colorLerp)[i] == qs[0];
    } else {
      assert NewVertices(mb, cuts, colorLerp)[i] == qs[1];
    }
  }

  /** Every vertex appended for cuts produced by the cutter lies on the
      plane. */
  lemma NewVerticesOnPlane(plane: Plane, mesh: SourceMesh, cuts: seq<TriangleCut>, colorLerp: ColorLerp)
    requires WellFormed(mesh)
    requires forall k :: 0 <= k < |cuts| ==> ValidTriangleCut(plane, mesh.positions, cuts[k])
    ensures AllCutsInRange(cuts, |mesh.positions|)
    ensures forall i :: 0 <= i < 2 * |cuts| ==>
              SignedDistance(plane, NewVertices(FromMesh(mesh), cuts, colorLerp)[i].position) == 0.0
  {
    forall k | 0 <= k < |cuts| ensures CutInRange(cuts[k], |mesh.positions|) {
      CutVerticesOnPlane(plane, mesh, cuts[k], colorLerp);
    }
    forall i | 0 <= i < 2 * |cuts|
      ensures SignedDistance(plane, NewVertices(FromMesh(mesh), cuts, colorLerp)[i].position) == 0.0
    {
      NewVertexOnPlane(plane, mesh, cuts, colorLerp, i);
    }
  }

  /** A pass-through list of original indices extended by what the cuts
      append names only original or appended vertices. */
  lemma OutputInRange(pass: seq<int>, cuts: seq<TriangleCut>, vertexCount: int)
    requires forall i :: 0 <= i < |pass| ==> 0 <= pass[i] < vertexCount
    requires AllCutsInRange(cuts, vertexCount)
    ensures var out := pass + AppendedAbove(cuts, vertexCount);
      forall i :: 0 <= i < |out| ==> 0 <= out[i] < vertexCount + 2 * |cuts|
    ensures var out := pass + AppendedBelow(cuts, vertexCount);
      forall i :: 0 <= i < |out| ==> 0 <= out[i] < vertexCount + 2 * |cuts|
  {
    AppendedInRange(cuts, vertexCount);
    var a, b := AppendedAbove(cuts, vertexCount), AppendedBelow(cuts, vertexCount);
    forall i | 0 <= i < |pass + a| ensures 0 <= (pass + a)[i] < vertexCount + 2 * |cuts| {
      if i >= |pass| {
        assert (pass + a)[i] == a[i - |pass|];
      }
    }
    forall i | 0 <= i < |pass + b| ensures 0 <= (pass + b)[i] < vertexCount + 2 * |cuts| {
      if i >= |pass| {
        assert (pass + b)[i] == b[i - |pass|];
      }
    }
  }

  /** Two triangle lists laid end to end hold the triangles of both. */
  lemma TriangleListsConcat(first: seq<int>, second: seq<int>)
    requires |first| % 3 == 0 && |second| % 3 == 0
    ensures |first + second| % 3 == 0
    ensures |first + second| / 3 == |first| / 3 + |second| / 3
  {
  }

  /** Cutting a well-formed mesh and retriangulating its straddling
      triangles: the cuts satisfy the retriangulation's precondition, every
      split triangle becomes three, every output index names an original or
      appended vertex, and every appended vertex lies on the plane. */
  lemma CutThenBuild(plane: Plane, mesh: SourceMesh, colorLerp: ColorLerp)
    requires WellFormed(mesh) && |mesh.indices| % 3 == 0
    requires forall i :: 0 <= i < |mesh.indices| ==> 0 <= mesh.indices[i] < |mesh.positions|
    ensures AllInRange(Triangles(mesh.indices), |mesh.positions|)
    ensures var vc, o := |mesh.positions|, CutAll(plane, mesh.positions, Triangles(mesh.indices));
            var aboveOut, belowOut := o.above + AppendedAbove(o.cuts, vc), o.below + AppendedBelow(o.cuts, vc);
      && AllCutsInRange(o.cuts, vc)
      && (!o.intersected ==> aboveOut == o.above && belowOut == o.below)
      && |aboveOut| % 3 == 0 && |belowOut| % 3 == 0
      && |aboveOut| / 3 + |belowOut| / 3 == |mesh.indices| / 3 + 2 * |o.cuts|
      && (forall i :: 0 <= i < |aboveOut| ==> 0 <= aboveOut[i] < vc + 2 * |o.cuts|)
      && (forall i :: 0 <= i < |belowOut| ==> 0 <= belowOut[i] < vc + 2 * |o.cuts|)
      && (forall i :: 0 <= i < 2 * |o.cuts| ==>
            SignedDistance(plane, NewVertices(FromMesh(mesh), o.cuts, colorLerp)[i].position) == 0.0)
  {
    var vc := |mesh.positions|;
    TrianglesInRange(mesh.indices, vc);
    var o := CutAll(plane, mesh.positions, Triangles(mesh.indices));
    CutAllCounts(plane, mesh.positions, Triangles(mesh.indices));
    NewVerticesOnPlane(plane, mesh, o.cuts, colorLerp);
    OutputInRange(o.above, o.cuts, vc);
    OutputInRange(o.below, o.cuts, vc);
    AppendedTriangleCount(o.cuts, vc);
    TriangleListsConcat(o.above, AppendedAbove(o.cuts, vc));
    TriangleListsConcat(o.below, AppendedBelow(o.cuts, vc));
  }
}
