/** Retriangulation of the straddling triangles and assembly of the two cut
    meshes (Assets/Scripts/BuildCutMeshesJob.cs). */
module Retriangulation {
  import opened Geometry
  import opened Vertices
  import opened Cutting
  import opened Buffers

  /** All four endpoints of the cut name original vertices. */
  predicate CutInRange(c: TriangleCut, vertexCount: int)
  {
    && 0 <= c.cut1.from < vertexCount && 0 <= c.cut1.to < vertexCount
    && 0 <= c.cut2.from < vertexCount && 0 <= c.cut2.to < vertexCount
  }

  predicate AllCutsInRange(cuts: seq<TriangleCut>, vertexCount: int)
  {
    forall k :: 0 <= k < |cuts| ==> CutInRange(cuts[k], vertexCount)
  }

  /** The job's branch test: both edge cuts leave the same above vertex. */
  predicate SharesFrom(c: TriangleCut)
  {
    c.cut1.from == c.cut2.from
  }

  /** The number of cuts that take the shared-`from` branch. */
  function SharedFromCount(cuts: seq<TriangleCut>): (n: nat)
    ensures n <= |cuts|
    ensures n == 0 <==> forall k :: 0 <= k < |cuts| ==> !SharesFrom(cuts[k])
    decreases |cuts|
  {
    if cuts == [] then 0
    else SharedFromCount(cuts[..|cuts| - 1]) + (if SharesFrom(cuts[|cuts| - 1]) then 1 else 0)
  }

  /** The index triples one cut adds to the above list, its new vertices
      being q1 and q1 + 1. */
  function AbovePiece(c: TriangleCut, q1: int): seq<int>
  {
    if SharesFrom(c) then [c.cut1.from, q1, q1 + 1]
    else [c.cut1.from, q1, c.cut2.from, c.cut2.from, q1, q1 + 1]
  }

  /** The index triples one cut adds to the below list. */
  function BelowPiece(c: TriangleCut, q1: int): seq<int>
  {
    if SharesFrom(c) then [c.cut1.to, c.cut2.to, q1, c.cut2.to, q1 + 1, q1]
    else [c.cut1.to, q1 + 1, q1]
  }

  /** Everything the cuts add to the above list; the k-th cut's new vertices
      are vertexCount + 2k and vertexCount + 2k + 1. */
  function AppendedAbove(cuts: seq<TriangleCut>, vertexCount: int): (r: seq<int>)
    ensures |r| == 3 * SharedFromCount(cuts) + 6 * (|cuts| - SharedFromCount(cuts))
    decreases |cuts|
  {
    if cuts == [] then []
    else
      var k := |cuts| - 1;
      AppendedAbove(cuts[..k], vertexCount) + AbovePiece(cuts[k], vertexCount + 2 * k)
  }

  /** Everything the cuts add to the below list. */
  function AppendedBelow(cuts: seq<TriangleCut>, vertexCount: int): (r: seq<int>)
    ensures |r| == 6 * SharedFromCount(cuts) + 3 * (|cuts| - SharedFromCount(cuts))
    decreases |cuts|
  {
    if cuts == [] then []
    else
      var k := |cuts| - 1;
      AppendedBelow(cuts[..k], vertexCount) + BelowPiece(cuts[k], vertexCount + 2 * k)
  }

  /** The two new vertices of one cut, q1 then q2, read and interpolated as
      the job does in each branch. For every cut whose edges share an
      endpoint, each new vertex lies on its own edge. */
  function CutVertices(mb: MeshBuffers, c: TriangleCut, colorLerp: ColorLerp): (qs: seq<Vertex>)
    requires Valid(mb) && CutInRange(c, |mb.positions|)
    ensures |qs| == 2
    ensures SharesFrom(c) || c.cut1.to == c.cut2.to ==>
              && qs[0] == Lerp(Get(mb, c.cut1.from), Get(mb, c.cut1.to), c.cut1.intersection, colorLerp)
              && qs[1] == Lerp(Get(mb, c.cut2.from), Get(mb, c.cut2.to), c.cut2.intersection, colorLerp)
  {
    if SharesFrom(c) then
      var v0, v1, v2 := Get(mb, c.cut1.from), Get(mb, c.cut1.to), Get(mb, c.cut2.to);
      [Lerp(v0, v1, c.cut1.intersection, colorLerp), Lerp(v0, v2, c.cut2.intersection, colorLerp)]
    else
      var v0, v1, v2 := Get(mb, c.cut1.to), Get(mb, c.cut1.from), Get(mb, c.cut2.from);
      [Lerp(v1, v0, c.cut1.intersection, colorLerp), Lerp(v2, v0, c.cut2.intersection, colorLerp)]
  }

  /** All appended vertices, two per cut, in cut order. */
  function NewVertices(mb: MeshBuffers, cuts: seq<TriangleCut>, colorLerp: ColorLerp): (vs: seq<Vertex>)
    requires Valid(mb) && AllCutsInRange(cuts, |mb.positions|)
    ensures |vs| == 2 * |cuts|
    ensures forall k :: 0 <= k < |cuts| ==>
              vs[2 * k] == CutVertices(mb, cuts[k], colorLerp)[0]
              && vs[2 * k + 1] == CutVertices(mb, cuts[k], colorLerp)[1]
    decreases |cuts|
  {
    if cuts == [] then []
    else
      var k := |cuts| - 1;
      NewVertices(mb, cuts[..k], colorLerp) + CutVertices(mb, cuts[k], colorLerp)
  }

  /** The single submesh of an output mesh: a triangle list over a range of
      the index buffer. */
  datatype SubMesh = SubMesh(indexStart: nat, indexCount: nat)

  datatype MeshOut = MeshOut(vertices: VertexBuffer, indices: seq<int>, subMesh: SubMesh)

  /** Writes the indices of `piece` at the cursor i and returns the advanced
      cursor. */
  method PutPiece(a: array<int>, i: nat, piece: seq<int>) returns (j: nat)
    requires i + |piece| <= a.Length
    modifies a
    ensures j == i + |piece|
    ensures a[..j] == old(a[..i]) + piece
  {
    j := i;
    while j < i + |piece|
      invariant i <= j <= i + |piece|
      invariant a[..j] == old(a[..i]) + piece[..j - i]
    {
      a[j] := piece[j - i];
      j := j + 1;
    }
  }

  /** The index half of one iteration of the job's second loop: the
      sub-triangles of the k-th cut at the two cursors, in the job's branch
      order, its new vertices being vertexCount + 2k and vertexCount + 2k + 1. */
  method WriteCutIndices(aboveIndices: array<int>, aboveIndex: nat,
                         bellowIndices: array<int>, bellowIndex: nat,
                         cuts: seq<TriangleCut>, k: nat, vertexCount: int)
    returns (aboveNext: nat, bellowNext: nat)
    requires aboveIndices != bellowIndices && k < |cuts|
    requires aboveIndex + |AbovePiece(cuts[k], vertexCount + 2 * k)| <= aboveIndices.Length
    requires bellowIndex + |BelowPiece(cuts[k], vertexCount + 2 * k)| <= bellowIndices.Length
    modifies aboveIndices, bellowIndices
    ensures aboveNext == aboveIndex + |AbovePiece(cuts[k], vertexCount + 2 * k)|
    ensures bellowNext == bellowIndex + |BelowPiece(cuts[k], vertexCount + 2 * k)|
    ensures aboveIndices[..aboveNext]
         == old(aboveIndices[..aboveIndex]) + AbovePiece(cuts[k], vertexCount + 2 * k)
    ensures bellowIndices[..bellowNext]
         == old(bellowIndices[..bellowIndex]) + BelowPiece(cuts[k], vertexCount + 2 * k)
  {
    var triangleCut := cuts[k];
    var q1Index := vertexCount + 2 * k;
    var q2Index := q1Index + 1;
    if triangleCut.cut1.from == triangleCut.cut2.from {
      var v0Index, v1Index, v2Index := triangleCut.cut1.from, triangleCut.cut1.to, triangleCut.cut2.to;
      aboveNext := PutPiece(aboveIndices, aboveIndex, [v0Index, q1Index, q2Index]);
      bellowNext := PutPiece(bellowIndices, bellowIndex,
                             [v1Index, v2Index, q1Index,
                              v2Index, q2Index, q1Index]);
    } else {
      var v0Index, v1Index, v2Index := triangleCut.cut1.to, triangleCut.cut1.from, triangleCut.cut2.from;
      bellowNext := PutPiece(bellowIndices, bellowIndex, [v0Index, q2Index, q1Index]);
      aboveNext := PutPiece(aboveIndices, aboveIndex,
                            [v1Index, q1Index, v2Index,
                             v2Index, q1Index, q2Index]);
    }
  }

  /** Extending the cuts by one extends both appended lists by that cut's
      pieces. */
  lemma AppendedExtend(cuts: seq<TriangleCut>, k: nat, vertexCount: int)
    requires k < |cuts|
    ensures AppendedAbove(cuts[..k + 1], vertexCount)
         == AppendedAbove(cuts[..k], vertexCount) + AbovePiece(cuts[k], vertexCount + 2 * k)
    ensures AppendedBelow(cuts[..k + 1], vertexCount)
         == AppendedBelow(cuts[..k], vertexCount) + BelowPiece(cuts[k], vertexCount + 2 * k)
    ensures SharedFromCount(cuts[..k + 1])
         == SharedFromCount(cuts[..k]) + (if SharesFrom(cuts[k]) then 1 else 0)
  {
    assert cuts[..k + 1][..k] == cuts[..k];
  }

  /** One iteration's writes extend what the cursors cover from the lists
      for the first k cuts to the lists for the first k + 1. */
  lemma AppendedStep(cuts: seq<TriangleCut>, k: nat, vertexCount: int,
                     above: seq<int>, aboveBefore: seq<int>, below: seq<int>, belowBefore: seq<int>)
    requires k < |cuts|
    requires aboveBefore == above + AppendedAbove(cuts[..k], vertexCount)
    requires belowBefore == below + AppendedBelow(cuts[..k], vertexCount)
    ensures aboveBefore + AbovePiece(cuts[k], vertexCount + 2 * k)
         == above + AppendedAbove(cuts[..k + 1], vertexCount)
    ensures belowBefore + BelowPiece(cuts[k], vertexCount + 2 * k)
         == below + AppendedBelow(cuts[..k + 1], vertexCount)
  {
    AppendedExtend(cuts, k, vertexCount);
    Regroup(above, AppendedAbove(cuts[..k], vertexCount), AbovePiece(cuts[k], vertexCount + 2 * k),
            AppendedAbove(cuts[..k + 1], vertexCount));
    Regroup(below, AppendedBelow(cuts[..k], vertexCount), BelowPiece(cuts[k], vertexCount + 2 * k),
            AppendedBelow(cuts[..k + 1], vertexCount));
  }

  lemma Regroup(x: seq<int>, a: seq<int>, p: seq<int>, a1: seq<int>)
    requires a1 == a + p
    ensures (x + a) + p == x + a1
  {
  }

  /** The lists appended for a prefix of the cuts are prefixes of the lists
      appended for all of them. */
  lemma {:induction false} AppendedPrefix(cuts: seq<TriangleCut>, k: nat, vertexCount: int)
    requires k <= |cuts|
    ensures AppendedAbove(cuts[..k], vertexCount) <= AppendedAbove(cuts, vertexCount)
    ensures AppendedBelow(cuts[..k], vertexCount) <= AppendedBelow(cuts, vertexCount)
    decreases |cuts|
  {
    if k < |cuts| {
      var front := cuts[..|cuts| - 1];
      assert front[..k] == cuts[..k];
      AppendedPrefix(front, k, vertexCount);
    } else {
      assert cuts[..k] == cuts;
    }
  }

  /** BuildCutMeshesJob.Execute: size both index arrays, copy the
      pass-through triangles, then per cut append q1 and q2 and write the
      sub-triangles at the two cursors; both meshes get the same vertex
      buffer. */
  method BuildCutMeshes(mesh: SourceMesh, cuts: seq<TriangleCut>, above: seq<int>, below: seq<int>,
                        colorLerp: ColorLerp)
    returns (aboveMesh: MeshOut, belowMesh: MeshOut)
    requires WellFormed(mesh)
    requires AllCutsInRange(cuts, |mesh.positions|)
    ensures |aboveMesh.indices|
         == |above| + 3 * SharedFromCount(cuts) + 6 * (|cuts| - SharedFromCount(cuts))
    ensures |belowMesh.indices|
         == |below| + 6 * SharedFromCount(cuts) + 3 * (|cuts| - SharedFromCount(cuts))
    ensures aboveMesh.indices[..|above|] == above && belowMesh.indices[..|below|] == below
    ensures aboveMesh.indices == above + AppendedAbove(cuts, |mesh.positions|)
    ensures belowMesh.indices == below + AppendedBelow(cuts, |mesh.positions|)
    ensures aboveMesh.vertices == belowMesh.vertices
    ensures aboveMesh.vertices
         == CopyBuffers(FromMesh(mesh), NewVertices(FromMesh(mesh), cuts, colorLerp))
    ensures aboveMesh.vertices.vertexCount == |mesh.positions| + 2 * |cuts|
    ensures aboveMesh.subMesh == SubMesh(0, |aboveMesh.indices|)
    ensures belowMesh.subMesh == SubMesh(0, |belowMesh.indices|)
  {
    var vertexCount := |mesh.positions|;
    var aboveCutIndexCount, bellowCutIndexCount := CountCutIndices(cuts, |above|, |below|);
    var aboveIndices := NewIndexBuffer(above, aboveCutIndexCount);
    var bellowIndices := NewIndexBuffer(below, bellowCutIndexCount);
    var meshBuffers := FromMesh(mesh);
    var additionalPoints :=
      AppendCutTriangles(meshBuffers, cuts, colorLerp, above, below, aboveIndices, bellowIndices);
    var vertices := CopyBuffers(meshBuffers, additionalPoints);
    aboveMesh := MeshOut(vertices, aboveIndices[..], SubMesh(0, aboveIndices.Length));
    belowMesh := MeshOut(vertices, bellowIndices[..], SubMesh(0, bellowIndices.Length));
  }

  /** The job's first loop: the sizes of both index arrays, each cut adding
      3 above and 6 below when its edges share the above vertex and the
      other way round otherwise. */
  method CountCutIndices(cuts: seq<TriangleCut>, aboveCount0: nat, belowCount0: nat)
    returns (aboveCount: nat, belowCount: nat)
    ensures aboveCount == aboveCount0 + 3 * SharedFromCount(cuts) + 6 * (|cuts| - SharedFromCount(cuts))
    ensures belowCount == belowCount0 + 6 * SharedFromCount(cuts) + 3 * (|cuts| - SharedFromCount(cuts))
  {
    aboveCount, belowCount := aboveCount0, belowCount0;
    for k := 0 to |cuts|
      invariant aboveCount
             == aboveCount0 + 3 * SharedFromCount(cuts[..k]) + 6 * (k - SharedFromCount(cuts[..k]))
      invariant belowCount
             == belowCount0 + 6 * SharedFromCount(cuts[..k]) + 3 * (k - SharedFromCount(cuts[..k]))
    {
      AppendedExtend(cuts, k, 0);
      if cuts[k].cut1.from == cuts[k].cut2.from {
        aboveCount := aboveCount + 3;
        belowCount := belowCount + 6;
      } else {
        aboveCount := aboveCount + 6;
        belowCount := belowCount + 3;
      }
    }
    assert cuts[..|cuts|] == cuts;
  }

  /** A fresh index array of the given size whose first entries are the
      pass-through triangles. */
  method NewIndexBuffer(prefix: seq<int>, size: nat) returns (a: array<int>)
    requires |prefix| <= size
    ensures fresh(a) && a.Length == size
    ensures a[..|prefix|] == prefix
  {
    a := new int[size];
    forall i | 0 <= i < |prefix| {
      a[i] := prefix[i];
    }
  }

  /** The job's second loop: per cut, append its two new vertices and write
      its sub-triangles at the two cursors. */
  method AppendCutTriangles(meshBuffers: MeshBuffers, cuts: seq<TriangleCut>, colorLerp: ColorLerp,
                            above: seq<int>, below: seq<int>,
                            aboveIndices: array<int>, bellowIndices: array<int>)
    returns (additionalPoints: seq<Vertex>)
    requires Valid(meshBuffers) && AllCutsInRange(cuts, |meshBuffers.positions|)
    requires aboveIndices != bellowIndices
    requires aboveIndices.Length == |above| + |AppendedAbove(cuts, |meshBuffers.positions|)|
    requires bellowIndices.Length == |below| + |AppendedBelow(cuts, |meshBuffers.positions|)|
    requires aboveIndices[..|above|] == above && bellowIndices[..|below|] == below
    modifies aboveIndices, bellowIndices
    ensures additionalPoints == NewVertices(meshBuffers, cuts, colorLerp)
    ensures aboveIndices[..] == above + AppendedAbove(cuts, |meshBuffers.positions|)
    ensures bellowIndices[..] == below + AppendedBelow(cuts, |meshBuffers.positions|)
  {
    assert cuts[..0] == [];
    additionalPoints := [];
    var aboveIndex: nat, bellowIndex: nat := |above|, |below|;
    for k := 0 to |cuts|
      invariant additionalPoints == NewVertices(meshBuffers, cuts[..k], colorLerp)
      invariant aboveIndex <= aboveIndices.Length && bellowIndex <= bellowIndices.Length
      invariant aboveIndices[..aboveIndex] == above + AppendedAbove(cuts[..k], |meshBuffers.positions|)
      invariant bellowIndices[..bellowIndex] == below + AppendedBelow(cuts[..k], |meshBuffers.positions|)
    {
      additionalPoints, aboveIndex, bellowIndex :=
        AppendCut(meshBuffers, cuts, k, colorLerp, above, below, aboveIndices, bellowIndices,
                  additionalPoints, aboveIndex, bellowIndex);
    }
    assert cuts[..|cuts|] == cuts;
    assert aboveIndices[..] == aboveIndices[..aboveIndex];
    assert bellowIndices[..] == bellowIndices[..bellowIndex];
  }

  /** One iteration of the job's second loop, for the k-th cut. */
  method AppendCut(meshBuffers: MeshBuffers, cuts: seq<TriangleCut>, k: nat, colorLerp: ColorLerp,
                   above: seq<int>, below: seq<int>,
                   aboveIndices: array<int>, bellowIndices: array<int>,
                   points: seq<Vertex>, aboveIndex: nat, bellowIndex: nat)
    returns (points': seq<Vertex>, aboveIndex': nat, bellowIndex': nat)
    requires Valid(meshBuffers) && AllCutsInRange(cuts, |meshBuffers.positions|) && k < |cuts|
    requires aboveIndices != bellowIndices
    requires aboveIndices.Length == |above| + |AppendedAbove(cuts, |meshBuffers.positions|)|
    requires bellowIndices.Length == |below| + |AppendedBelow(cuts, |meshBuffers.positions|)|
    requires points == NewVertices(meshBuffers, cuts[..k], colorLerp)
    requires aboveIndex <= aboveIndices.Length && bellowIndex <= bellowIndices.Length
    requires aboveIndices[..aboveIndex] == above + AppendedAbove(cuts[..k], |meshBuffers.positions|)
    requires bellowIndices[..bellowIndex] == below + AppendedBelow(cuts[..k], |meshBuffers.positions|)
    modifies aboveIndices, bellowIndices
    ensures points' == NewVertices(meshBuffers, cuts[..k + 1], colorLerp)
    ensures aboveIndex' <= aboveIndices.Length && bellowIndex' <= bellowIndices.Length
    ensures aboveIndices[..aboveIndex'] == above + AppendedAbove(cuts[..k + 1], |meshBuffers.positions|)
    ensures bellowIndices[..bellowIndex'] == below + AppendedBelow(cuts[..k + 1], |meshBuffers.positions|)
  {
    var vertexCount := |meshBuffers.positions|;
    AppendedExtend(cuts, k, vertexCount);
    AppendedPrefix(cuts, k + 1, vertexCount);
    assert cuts[..k + 1][..k] == cuts[..k];
    points' := points + CutVertices(meshBuffers, cuts[k], colorLerp);
    aboveIndex', bellowIndex' :=
      WriteCutIndices(aboveIndices, aboveIndex, bellowIndices, bellowIndex, cuts, k, vertexCount);
    AppendedStep(cuts, k, vertexCount, above, old(aboveIndices[..aboveIndex]),
                 below, old(bellowIndices[..bellowIndex]));
  }

  /** Every index the cuts append names an original vertex or one of the
      2 * |cuts| appended ones. */
  lemma {:induction false} AppendedInRange(cuts: seq<TriangleCut>, vertexCount: int)
    requires AllCutsInRange(cuts, vertexCount)
    ensures forall i :: 0 <= i < |AppendedAbove(cuts, vertexCount)| ==>
              0 <= AppendedAbove(cuts, vertexCount)[i] < vertexCount + 2 * |cuts|
    ensures forall i :: 0 <= i < |AppendedBelow(cuts, vertexCount)| ==>
              0 <= AppendedBelow(cuts, vertexCount)[i] < vertexCount + 2 * |cuts|
    decreases |cuts|
  {
    if cuts != [] {
      var k := |cuts| - 1;
      var front := cuts[..k];
      assert AllCutsInRange(front, vertexCount) by {
        forall j | 0 <= j < |front| ensures CutInRange(front[j], vertexCount) {
          assert front[j] == cuts[j];
        }
      }
      AppendedInRange(front, vertexCount);
      var q1 := vertexCount + 2 * k;
      var c := cuts[k];
      var a, b := AppendedAbove(front, vertexCount), AppendedBelow(front, vertexCount);
      PiecesInRange(c, vertexCount, q1);
      IndicesBelowConcat(a, AbovePiece(c, q1), q1, q1 + 2);
      IndicesBelowConcat(b, BelowPiece(c, q1), q1, q1 + 2);
      assert AppendedAbove(cuts, vertexCount) == a + AbovePiece(c, q1);
      assert AppendedBelow(cuts, vertexCount) == b + BelowPiece(c, q1);
    }
  }

  /** One cut's pieces name only original vertices and its own two new ones. */
  lemma PiecesInRange(c: TriangleCut, vertexCount: int, q1: int)
    requires CutInRange(c, vertexCount) && vertexCount <= q1
    ensures forall i :: 0 <= i < |AbovePiece(c, q1)| ==> 0 <= AbovePiece(c, q1)[i] < q1 + 2
    ensures forall i :: 0 <= i < |BelowPiece(c, q1)| ==> 0 <= BelowPiece(c, q1)[i] < q1 + 2
  {
  }

  /** Indices below m followed by indices below n >= m are all below n. */
  lemma IndicesBelowConcat(a: seq<int>, p: seq<int>, m: int, n: int)
    requires forall i :: 0 <= i < |a| ==> 0 <= a[i] < m
    requires m <= n && forall i :: 0 <= i < |p| ==> 0 <= p[i] < n
    ensures forall i :: 0 <= i < |a + p| ==> 0 <= (a + p)[i] < n
  {
    forall i | 0 <= i < |a + p| ensures 0 <= (a + p)[i] < n {
      if i < |a| {
        assert (a + p)[i] == a[i];
      } else {
        assert (a + p)[i] == p[i - |a|];
      }
    }
  }

  /** A channel the mesh lacks reads as the neutral value on both endpoints
      of every cut edge, so the two new vertices of a cut carry it too. */
  lemma CutVerticesNeutral(mb: MeshBuffers, c: TriangleCut, colorLerp: ColorLerp)
    requires Valid(mb) && CutInRange(c, |mb.positions|)
    ensures !mb.hasNormals ==>
              CutVertices(mb, c, colorLerp)[0].normal == Zero3
              && CutVertices(mb, c, colorLerp)[1].normal == Zero3
    ensures !mb.hasUv0 ==>
              CutVertices(mb, c, colorLerp)[0].uv0 == Zero4
              && CutVertices(mb, c, colorLerp)[1].uv0 == Zero4
  {
    var f1, t1 := Get(mb, c.cut1.from), Get(mb, c.cut1.to);
    var f2, t2 := Get(mb, c.cut2.from), Get(mb, c.cut2.to);
    LerpKeepsNeutral(f1, t1, c.cut1.intersection, colorLerp);
    LerpKeepsNeutral(t1, f1, c.cut1.intersection, colorLerp);
    LerpKeepsNeutral(f2, t2, c.cut2.intersection, colorLerp);
    LerpKeepsNeutral(t2, f2, c.cut2.intersection, colorLerp);
  }

  /** The appended vertices are neutral in every channel the mesh lacks. */
  lemma NewVerticesNeutral(mb: MeshBuffers, cuts: seq<TriangleCut>, colorLerp: ColorLerp)
    requires Valid(mb) && AllCutsInRange(cuts, |mb.positions|)
    ensures !mb.hasNormals ==>
              forall i :: 0 <= i < 2 * |cuts| ==> NewVertices(mb, cuts, colorLerp)[i].normal == Zero3
    ensures !mb.hasUv0 ==>
              forall i :: 0 <= i < 2 * |cuts| ==> NewVertices(mb, cuts, colorLerp)[i].uv0 == Zero4
  {
    forall i | 0 <= i < 2 * |cuts|
      ensures !mb.hasNormals ==> NewVertices(mb, cuts, colorLerp)[i].normal == Zero3
      ensures !mb.hasUv0 ==> NewVertices(mb, cuts, colorLerp)[i].uv0 == Zero4
    {
      NewVertexNeutral(mb, cuts, colorLerp, i);
    }
  }

  lemma NewVertexNeutral(mb: MeshBuffers, cuts: seq<TriangleCut>, colorLerp: ColorLerp, i: int)
    requires Valid(mb) && AllCutsInRange(cuts, |mb.positions|)
    requires 0 <= i < 2 * |cuts|
    ensures !mb.hasNormals ==> NewVertices(mb, cuts, colorLerp)[i].normal == Zero3
    ensures !mb.hasUv0 ==> NewVertices(mb, cuts, colorLerp)[i].uv0 == Zero4
  {
    NewVertexOfCut(mb, cuts, colorLerp, i);
    CutVerticesNeutral(mb, cuts[i / 2], colorLerp);
  }

  /** The i-th appended vertex is one of the two new vertices of cut i / 2. */
  lemma NewVertexOfCut(mb: MeshBuffers, cuts: seq<TriangleCut>, colorLerp: ColorLerp, i: int)
    requires Valid(mb) && AllCutsInRange(cuts, |mb.positions|)
    requires 0 <= i < 2 * |cuts|
    ensures 0 <= i / 2 < |cuts| && 0 <= i - 2 * (i / 2) < 2
    ensures NewVertices(mb, cuts, colorLerp)[i] == CutVertices(mb, cuts[i / 2], colorLerp)[i - 2 * (i / 2)]
  {
    var k := i / 2;
    assert i == 2 * k || i == 2 * k + 1;
  }

  /** The appended vertex lying on the triangle edge {a, b}: q1 when cut1
      crosses that edge, q1 + 1 otherwise. */
  function NewVertexOn(c: TriangleCut, a: int, b: int, q1: int): int
  {
    if {c.cut1.from, c.cut1.to} == {a, b} then q1 else q1 + 1
  }

  /** The outline of a triangle split at isolated corner k, in the
      triangle's own winding order: corner k, the new vertex on the edge to
      the next corner, the two other corners, and the new vertex on the edge
      from the previous corner back to k. */
  function SplitOutline(corners: seq<int>, k: nat, c: TriangleCut, q1: int): (outline: seq<int>)
    requires |corners| == 3 && k < 3
  {
    var n, p := Next(k), Prev(k);
    [corners[k], NewVertexOn(c, corners[k], corners[n], q1), corners[n], corners[p],
     NewVertexOn(c, corners[p], corners[k], q1)]
  }

  /** tri is (a, b, c) up to rotation, so it has the same orientation. */
  predicate IsRotation(tri: seq<int>, a: int, b: int, c: int)
  {
    tri == [a, b, c] || tri == [b, c, a] || tri == [c, a, b]
  }

  /** tri visits outline positions i < j < l, up to rotation. */
  predicate InWindingOrderAt(outline: seq<int>, tri: seq<int>, i: nat, j: nat, l: nat)
  {
    i < j < l < |outline| && IsRotation(tri, outline[i], outline[j], outline[l])
  }

  /** tri turns the same way as the outline it is cut from. */
  predicate InWindingOrder(outline: seq<int>, tri: seq<int>)
  {
    exists i: nat, j: nat, l: nat :: i < j < l < |outline| && InWindingOrderAt(outline, tri, i, j, l)
  }

  /** Every index triple of a triangle list turns the same way as the outline. */
  predicate AllInWindingOrder(outline: seq<int>, piece: seq<int>)
    decreases |piece|
  {
    |piece| % 3 == 0
    && (piece == [] || (InWindingOrder(outline, piece[..3]) && AllInWindingOrder(outline, piece[3..])))
  }

  /** Retriangulating a straddling triangle with distinct corners keeps its
      orientation: the isolated corner's side gets the single triangle on
      corner k and the two new vertices, the other side the two triangles of
      the remaining quadrilateral, and every sub-triangle follows the outline
      of the original triangle. */
  lemma SplitKeepsWinding(t: Triangle, d0: real, d1: real, d2: real, k: nat, q1: int)
    requires Distinct(t) && k < 3 && IsIsolated([d0, d1, d2], k)
    ensures ClassifyTriangle(t, d0, d1, d2).Split?
    ensures var c := ClassifyTriangle(t, d0, d1, d2).cut;
            var outline := SplitOutline(Corners(t), k, c, q1);
      && {outline[1], outline[4]} == {q1, q1 + 1}
      && AllInWindingOrder(outline, AbovePiece(c, q1))
      && AllInWindingOrder(outline, BelowPiece(c, q1))
      && ([d0, d1, d2][k] > 0.0 ==>
            |AbovePiece(c, q1)| == 3 && |BelowPiece(c, q1)| == 6
            && InWindingOrderAt(outline, AbovePiece(c, q1), 0, 1, 4))
      && ([d0, d1, d2][k] <= 0.0 ==>
            |BelowPiece(c, q1)| == 3 && |AbovePiece(c, q1)| == 6
            && InWindingOrderAt(outline, BelowPiece(c, q1), 0, 1, 4))
  {
    IsolatedLayout(t, d0, d1, d2, k);
    var d, cs := [d0, d1, d2], Corners(t);
    var c := ClassifyTriangle(t, d0, d1, d2).cut;
    var n, p := Next(k), Prev(k);
    assert cs[k] != cs[n] && cs[n] != cs[p] && cs[p] != cs[k];
    var outline := SplitOutline(cs, k, c, q1);
    var above, below := AbovePiece(c, q1), BelowPiece(c, q1);
    if d[k] > 0.0 {
      assert {c.cut1.from, c.cut1.to} != {cs[p], cs[k]} by { assert cs[n] !in {cs[p], cs[k]}; }
      assert outline == [cs[k], q1, cs[n], cs[p], q1 + 1];
      assert above == [cs[k], q1, q1 + 1];
      assert InWindingOrderAt(outline, above[..3], 0, 1, 4);
      assert above[3..] == [];
      assert below[..3] == [cs[n], cs[p], q1];
      assert InWindingOrderAt(outline, below[..3], 1, 2, 3);
      assert below[3..][..3] == [cs[p], q1 + 1, q1];
      assert InWindingOrderAt(outline, below[3..][..3], 1, 3, 4);
      assert below[3..][3..] == [];
    } else {
      assert {c.cut1.from, c.cut1.to} != {cs[k], cs[n]} by { assert cs[p] !in {cs[k], cs[n]}; }
      assert outline == [cs[k], q1 + 1, cs[n], cs[p], q1];
      assert below == [cs[k], q1 + 1, q1];
      assert InWindingOrderAt(outline, below[..3], 0, 1, 4);
      assert below[3..] == [];
      assert above[..3] == [cs[p], q1, cs[n]];
      assert InWindingOrderAt(outline, above[..3], 2, 3, 4);
      assert above[3..][..3] == [cs[n], q1, q1 + 1];
      assert InWindingOrderAt(outline, above[3..][..3], 1, 2, 4);
      assert above[3..][3..] == [];
    }
  }

  /** Every cut is retriangulated into three whole triangles in total. */
  lemma AppendedTriangleCount(cuts: seq<TriangleCut>, vertexCount: int)
    ensures |AppendedAbove(cuts, vertexCount)| % 3 == 0 && |AppendedBelow(cuts, vertexCount)| % 3 == 0
    ensures |AppendedAbove(cuts, vertexCount)| / 3 + |AppendedBelow(cuts, vertexCount)| / 3 == 3 * |cuts|
  {
    var shared, n := SharedFromCount(cuts), |cuts|;
    assert |AppendedAbove(cuts, vertexCount)| == 3 * (shared + 2 * (n - shared));
    assert |AppendedBelow(cuts, vertexCount)| == 3 * (2 * shared + (n - shared));
  }
}
