# Easy Mesh Cutter: the plane-cut pipeline in Dafny

This project models how the Unity mesh cutter splits an indexed triangle
mesh along a plane into an "above" mesh and a "below" mesh, and proves
properties of that model. The pipeline has four parts.

- **CutJob** (`Cutting`, cut_job.dfy). It classifies every triangle by the
  signed distance `dot(normal, p) + distance` of its corners. Strictly
  positive counts as above, so a corner on the plane counts as below. Whole
  triangles pass through unchanged to the above or below index list. Each
  straddling triangle yields one `TriangleCut`: two edge cuts, each running
  from its above endpoint to its below endpoint, with the interpolation
  parameter `Intersection(dFrom, dTo)`. The job also reports whether any
  triangle straddled. It is modelled twice:
  - as a fold over the triangles (`CutAll`), with one step per triangle
    (`ClassifyTriangle`, which follows the job's branches one by one);
  - as the loop itself (`CutJob`), proved equal to the fold.

  The rotation-based `CanonicalCut` is an independent description of the
  cut, and the branches are proved to agree with it.
- **BuildCutMeshesJob** (`Retriangulation`, build_cut_meshes.dfy). It first
  sizes both index arrays and copies the pass-through lists to their fronts.
  Then, per cut:
  - it appends the two new vertices `q1` and `q2`, interpolated along the cut
    edges;
  - it writes one sub-triangle on the isolated corner's side and two on the
    other side, at two cursors.

  The method works on arrays with cursor loop invariants. Its result is
  proved equal to the sequence description `above + AppendedAbove(cuts, n)`.
- **MeshBuffers** (`Buffers`, mesh_buffers.dfy). It covers three things:
  - the vertex-attribute layout built from the optional channels;
  - the indexer, which gives neutral values for missing channels;
  - `CopyBuffers`, which writes each present channel into consecutive
    streams: the original vertices first, then the appended ones.
- **Vertex.Lerp** (`Vertices`, vertices.dfy). It interpolates each channel on
  its own.

`Geometry` (geometry.dfy) holds vectors, the plane and Unity's clamped
linear interpolation. Floats are idealised as reals. `Pipeline`
(pipeline.dfy) composes the two jobs.

Distinct triangle indices are needed only by the layout lemmas
(`IsolatedLayout`, `SplitKeepsWinding`). Without them, a triangle whose two
majority corners are the same vertex takes the shared-`from` branch even
when its isolated corner is below. Every cut the cutter produces satisfies
`cut1.from == cut2.from || cut1.to == cut2.to` whatever the indices. This is
why the else-branch of the retriangulation may take `Cut1.To` as the common
below vertex of both edges.

## Model

| member | source | states |
|---|---|---|
| Geometry.Lerp3 | Assets/Scripts/Vertex.cs:14-15 | Vector3.Lerp returns its first argument at t <= 0 and its second at t >= 1 |
| Geometry.Lerp4 | Assets/Scripts/Vertex.cs:17 | Vector4.Lerp, used for the first texture coordinate, returns its first argument at t <= 0 and its second at t >= 1 |
| Geometry.DistanceAlongSegment | Assets/Scripts/Vertex.cs:14 | for t in [0,1], the signed distance of the interpolated position is d(a) + t·(d(b) − d(a)) |
| Vertices.Lerp | Assets/Scripts/Vertex.cs:10-19 | at t = 0 the position, normal and uv of the result are a's; at t = 1 they are b's |
| Vertices.LerpIsChannelwise | Assets/Scripts/Vertex.cs:12-18 | each channel of the result depends only on the same channel of the two inputs |
| Vertices.LerpKeepsNeutral | Assets/Scripts/Vertex.cs:15-17 | each channel on its own: zero normals at both ends give a zero normal, and zero uvs at both ends give a zero uv, whatever the other channels hold |
| Buffers.Layout | Assets/Scripts/MeshBuffers.cs:33-55 | Position comes first; the attributes are in the fixed order Position, Normal, Color, TexCoord0; each optional one is present iff its flag is set; stream numbers run 0, 1, 2, … |
| Buffers.LayoutFormats | Assets/Scripts/MeshBuffers.cs:33-55 | colours are the only UNorm8 channel; positions and normals have dimension 3, colours and texture coordinates dimension 4 |
| Buffers.FromMesh | Assets/Scripts/MeshBuffers.cs:19-32 | the buffers hold the source mesh's positions, and each optional channel is flagged present exactly when the mesh has it, with the mesh's own values; an absent channel is empty, and the layout matches the flags |
| Buffers.GetReadsSource | Assets/Scripts/MeshBuffers.cs:104-111 | the indexer returns the mesh's own values for present channels, and zero normal, white colour and zero uv for missing ones |
| Buffers.CopyBuffers | Assets/Scripts/MeshBuffers.cs:58-102 | the output holds original + appended vertices, uses the constructor's layout, and has one write per layout entry; write j goes to the same stream and attribute as layout entry j |
| Buffers.CopyBuffersContents | Assets/Scripts/MeshBuffers.cs:62-99 | each written channel has n + |added| entries: the first n are the source channel verbatim, and entry n + i is the channel of appended vertex i |
| Buffers.CopyBuffersWritesPresentChannels | Assets/Scripts/MeshBuffers.cs:72-100 | a channel is written iff the mesh has it (Position always), and no channel is written twice |
| Cutting.FlattenTriangles | Assets/Scripts/CutJob.cs:29-33 | regrouping the index list into triangles and flattening them back gives the list unchanged |
| Cutting.TrianglesInRange | Assets/Scripts/CutJob.cs:31-33 | when every index is below the vertex count, every corner of every triangle is too |
| Cutting.Intersection | Assets/Scripts/CutJob.cs:142-145 | the parameter zeroes the linear distance d1 + t·(d2 − d1); when d1 > 0 >= d2 it lies in (0, 1] and equals 1 exactly when d2 = 0 |
| Cutting.ClassifyTriangle | Assets/Scripts/CutJob.cs:39-137 | whole-above iff all three distances are > 0; whole-below iff all are <= 0; a split iff some corner is alone on its side |
| Cutting.ClassifyIsCanonical | Assets/Scripts/CutJob.cs:61-137 | each of the six straddling branches builds the rotation-based cut of its isolated corner |
| Cutting.IsolatedLayout | Assets/Scripts/CutJob.cs:61-137 | with distinct corners, cut1.from == cut2.from iff the isolated corner is above. Above: both cuts leave it, towards the next and then the previous corner. Below: both cuts reach it, from the previous and then the next corner |
| Cutting.Classify | Assets/Scripts/CutJob.cs:35-137 | a mesh triangle is whole-above or whole-below exactly by its corners' sides. A split's edge cuts are valid (from above to below, inside the triangle, with the parameter from the two endpoints' distances), and for whichever corner is isolated the cut is the rotation-based reference: both cut edges leave that corner |
| Cutting.CutAll | Assets/Scripts/CutJob.cs:29-137 | the flag is set iff there is a cut; every index in the lists names a vertex; every cut is valid |
| Cutting.CutAllCounts | Assets/Scripts/CutJob.cs:29-57 | both lists hold whole triangles, and triangles in = above/3 + below/3 + cuts |
| Cutting.WholeTriangles | Assets/Scripts/CutJob.cs:43-57 | a triangle is kept iff it is in the input and lies wholly on the given side |
| Cutting.SplitCutsMembers | Assets/Scripts/CutJob.cs:59-137 | every collected cut comes from a straddling input triangle, and every straddling triangle contributes its cut |
| Cutting.CutAllSeparatesSides | Assets/Scripts/CutJob.cs:29-57 | the above list is the whole-above triangles, unchanged and in input order; likewise below; the cuts are those of the straddling triangles in order |
| Cutting.IntersectedIffStraddling | Assets/Scripts/CutJob.cs:27-59 | the result flag is true iff some triangle straddles the plane |
| Cutting.NoIntersectionFastPath | Assets/Scripts/CutJob.cs:43-57 | with every vertex above, the whole mesh goes to the above list, with no cut and the flag false; the same holds for below |
| Cutting.CutPointOnPlane | Assets/Scripts/CutJob.cs:142-145 | a valid edge cut's parameter is in (0, 1], and interpolating the edge's endpoint positions with it lands on the plane |
| Cutting.CutJob | Assets/Scripts/CutJob.cs:19-139 | the loop computes the fold, so the triangle count balances and the flag is set iff some triangle straddles |
| Retriangulation.AppendedAbove | Assets/Scripts/BuildCutMeshesJob.cs:46-106 | the above side gains 3 indices per cut whose edges share the from vertex and 6 per other cut |
| Retriangulation.AppendedBelow | Assets/Scripts/BuildCutMeshesJob.cs:46-106 | the below side gains 6 indices per cut whose edges share the from vertex and 3 per other cut |
| Retriangulation.CutVertices | Assets/Scripts/BuildCutMeshesJob.cs:48-93 | q1 and q2 lie on their own cut edges, interpolated from→to with each cut's parameter, for every cut whose edges share an endpoint |
| Retriangulation.NewVertices | Assets/Scripts/BuildCutMeshesJob.cs:41-92 | exactly two vertices per cut are appended, in cut order: q1 of cut k at 2k and q2 at 2k + 1 |
| Retriangulation.CountCutIndices | Assets/Scripts/BuildCutMeshesJob.cs:19-33 | the array sizes are the input lengths plus 3/6 or 6/3 per cut, by branch |
| Retriangulation.NewIndexBuffer | Assets/Scripts/BuildCutMeshesJob.cs:35-38 | each array is created at the computed size and starts with its pass-through list |
| Retriangulation.WriteCutIndices | Assets/Scripts/BuildCutMeshesJob.cs:48-106 | one cut's sub-triangles are written in the job's vertex orders, and each cursor advances by exactly what it wrote |
| Retriangulation.AppendCut | Assets/Scripts/BuildCutMeshesJob.cs:46-107 | one iteration extends the appended vertices and both written prefixes from k to k + 1 cuts |
| Retriangulation.AppendCutTriangles | Assets/Scripts/BuildCutMeshesJob.cs:43-107 | after the loop both arrays are completely filled, each equal to the pass-through list followed by every cut's pieces, and the appended vertices are NewVertices |
| Retriangulation.BuildCutMeshes | Assets/Scripts/BuildCutMeshesJob.cs:17-126 | each output index list starts with its input list and continues with the cut pieces; the lengths are as pre-computed; both meshes share one vertex buffer of n + 2·cuts vertices; each submesh spans its whole index list |
| Retriangulation.AppendedPrefix | Assets/Scripts/BuildCutMeshesJob.cs:46-107 | the indices appended for the first k cuts are a prefix of those appended for all cuts |
| Retriangulation.AppendedInRange | Assets/Scripts/BuildCutMeshesJob.cs:60-105 | every appended index names an original vertex or one of the 2·cuts appended ones |
| Retriangulation.AppendedTriangleCount | Assets/Scripts/BuildCutMeshesJob.cs:19-33 | the pieces of all cuts are whole triangles, three per cut |
| Retriangulation.CutVerticesNeutral | Assets/Scripts/BuildCutMeshesJob.cs:50-87 | when the mesh lacks normals (or uvs), both new vertices of a cut have zero normal (or zero uv) |
| Retriangulation.NewVerticesNeutral | Assets/Scripts/BuildCutMeshesJob.cs:41-92 | every appended vertex is neutral in each channel the mesh lacks |
| Retriangulation.SplitKeepsWinding | Assets/Scripts/BuildCutMeshesJob.cs:48-105 | with distinct corners, the isolated side gets the one triangle on the isolated corner and both new vertices, and the other side gets two. Every sub-triangle follows the original triangle's winding order around its split outline |
| Pipeline.CutVerticesOnPlane | Assets/Scripts/BuildCutMeshesJob.cs:50-87 | for a cut produced by the cutter, both new vertex positions lie on the plane |
| Pipeline.NewVerticesOnPlane | Assets/Scripts/BuildCutMeshesJob.cs:41-92 | every appended vertex lies on the plane, and the cutter's cuts are in range for the retriangulation |
| Pipeline.OutputInRange | Assets/Scripts/BuildCutMeshesJob.cs:111-125 | every output index is below n + 2·cuts |
| Pipeline.CutThenBuild | Assets/Scripts/GeometryCutting.cs:27-65 | cutting and then retriangulating a valid mesh gives whole-triangle index lists, turns each split triangle into three, keeps every index in range and puts every new vertex on the plane; with no intersection nothing is added |

## Left out

- GeometryCutting.cs is left out, apart from `Pipeline.CutThenBuild`: the MonoBehaviour orchestration, mesh acquisition and application, `MeshFilter` assignment and transform offsets. They are Unity engine calls and scene state.
- Pipeline.CutThenBuild: composes the two jobs for every mesh. The source runs the retriangulation only when the cut job reports an intersection (GeometryCutting.cs:40); otherwise it builds nothing and the previously shown meshes stay. The lemma's facts for the non-intersecting case describe a build the program never performs.
- VisualCutting.cs and Rotator.cs are left out: cosmetic shader parameters and per-frame animation, with no mesh geometry.
- Floating-point rounding is not modelled: distances, positions, normals and uvs are reals.
- `Color32.Lerp` rounds to bytes inside Unity, and its code is not visible. It is a parameter of every operation that interpolates colours. For the same reason no property is stated about the colour of appended vertices.
- Vector3.Lerp and Vector4.Lerp are modelled by Unity's documented behaviour (t clamped to [0, 1]). Their code is not visible.
- Unity's `Plane(normal, point)` normalisation is not modelled: the plane is taken as a given normal and distance.
- Native allocation and lifetime are not modelled: `NativeArray`/`NativeList` allocation, `Allocator`, Burst, and `Dispose` (MeshBuffers.cs:113-120 and BuildCutMeshesJob.cs:128-131). The absent channels are never touched there either.
- Most of Unity's index-buffer and submesh calls are not modelled: `SetIndexBufferParams`, the 32-bit `IndexFormat`, `SubMeshDescriptor` topology and update flags. The model keeps the index list and the submesh's index range. Integers are unbounded, so 32-bit index overflow is not modelled.
- Reading the mesh (`GetVertices`, `GetIndices`, `GetNormals`, `GetColors`, `GetUVs`) is not modelled. It becomes the `SourceMesh` value passed in, with one optional sequence per channel.
- Only submesh 0 is modelled. The cut job reads the indices of submesh 0 alone (CutJob.cs:24-25), so any other submesh of the source mesh is ignored, and each output mesh has the one submesh the retriangulation sets (BuildCutMeshesJob.cs:117-125).
- Orientation is not proved with 3-D cross products. The winding property is stated combinatorially, on the triangle's split outline (`SplitKeepsWinding`).
- The declarations of `EdgeCut` and `TriangleCut` are not part of this model's sources. Their fields are taken from how the jobs use them.
- Cutting.CutJob: requires an index count divisible by 3 and every index below the vertex count. The job checks neither and would read past its arrays otherwise.
