/** The vertex channels of a mesh and the combined vertex buffer of a cut
    mesh (Assets/Scripts/MeshBuffers.cs). */
module Buffers {
  import opened Geometry
  import opened Vertices

  datatype Option<T> = None | Some(value: T)

  /** A read-only source mesh: positions always, normals, colours and the
      first texture coordinate only when the mesh declares them, and the
      index list of its single triangle submesh. */
  datatype SourceMesh = SourceMesh(
    positions: seq<Vec3>,
    normals: Option<seq<Vec3>>,
    colors: Option<seq<Color32>>,
    uv0: Option<seq<Vec4>>,
    indices: seq<int>)

  /** Every declared channel has one entry per vertex. */
  predicate WellFormed(m: SourceMesh)
  {
    && (m.normals.Some? ==> |m.normals.value| == |m.positions|)
    && (m.colors.Some? ==> |m.colors.value| == |m.positions|)
    && (m.uv0.Some? ==> |m.uv0.value| == |m.positions|)
  }

  datatype VertexAttribute = Position | Normal | Color | TexCoord0

  datatype AttributeFormat = Float32 | UNorm8

  datatype AttributeDescriptor = AttributeDescriptor(
    attribute: VertexAttribute, format: AttributeFormat, dimension: nat, stream: nat)

  /** The place of each channel in the fixed layout order. */
  function Rank(a: VertexAttribute): nat
  {
    match a
    case Position => 0
    case Normal => 1
    case Color => 2
    case TexCoord0 => 3
  }

  predicate HasAttribute(layout: seq<AttributeDescriptor>, a: VertexAttribute)
  {
    exists j :: 0 <= j < |layout| && layout[j].attribute == a
  }

  /** The attribute list the constructor builds, each present channel in its
      own stream, numbered by a counter that starts at 0. */
  function Layout(hasNormals: bool, hasColors: bool, hasUv0: bool): (layout: seq<AttributeDescriptor>)
    ensures 1 <= |layout| <= 4 && layout[0].attribute == Position
    ensures forall j :: 0 <= j < |layout| ==> layout[j].stream == j
    ensures forall i, j :: 0 <= i < j < |layout| ==> Rank(layout[i].attribute) < Rank(layout[j].attribute)
    ensures HasAttribute(layout, Normal) <==> hasNormals
    ensures HasAttribute(layout, Color) <==> hasColors
    ensures HasAttribute(layout, TexCoord0) <==> hasUv0
  {
    var normal := if hasNormals then [AttributeDescriptor(Normal, Float32, 3, 1)] else [];
    var colorStream := 1 + |normal|;
    var color := if hasColors then [AttributeDescriptor(Color, UNorm8, 4, colorStream)] else [];
    var uvStream := colorStream + |color|;
    var uv := if hasUv0 then [AttributeDescriptor(TexCoord0, Float32, 4, uvStream)] else [];
    var layout := [AttributeDescriptor(Position, Float32, 3, 0)] + normal + color + uv;
    assert hasNormals ==> layout[1].attribute == Normal;
    assert hasColors ==> layout[colorStream].attribute == Color;
    assert hasUv0 ==> layout[uvStream].attribute == TexCoord0;
    layout
  }

  /** Colours are four normalised bytes; positions and normals are three
      floats; texture coordinates are four floats. */
  lemma LayoutFormats(hasNormals: bool, hasColors: bool, hasUv0: bool)
    ensures var layout := Layout(hasNormals, hasColors, hasUv0);
      forall j :: 0 <= j < |layout| ==>
        && (layout[j].format == UNorm8 <==> layout[j].attribute == Color)
        && layout[j].dimension == (if layout[j].attribute in {Position, Normal} then 3 else 4)
  {
    var layout := Layout(hasNormals, hasColors, hasUv0);
    forall j | 0 <= j < |layout|
      ensures layout[j].format == UNorm8 <==> layout[j].attribute == Color
      ensures layout[j].dimension == (if layout[j].attribute in {Position, Normal} then 3 else 4)
    {
      var d := layout[j];
      assert d in layout;
    }
  }

  /** The buffers the constructor extracts. An absent channel is an empty
      buffer, as an unallocated native array has no elements. */
  datatype MeshBuffers = MeshBuffers(
    positions: seq<Vec3>,
    normals: seq<Vec3>,
    colors: seq<Color32>,
    uv0: seq<Vec4>,
    hasNormals: bool,
    hasColors: bool,
    hasUv0: bool,
    attributes: seq<AttributeDescriptor>)

  predicate Valid(mb: MeshBuffers)
  {
    && (if mb.hasNormals then |mb.normals| == |mb.positions| else mb.normals == [])
    && (if mb.hasColors then |mb.colors| == |mb.positions| else mb.colors == [])
    && (if mb.hasUv0 then |mb.uv0| == |mb.positions| else mb.uv0 == [])
    && mb.attributes == Layout(mb.hasNormals, mb.hasColors, mb.hasUv0)
  }

  /** The constructor: copy out the channels the mesh has. */
  function FromMesh(m: SourceMesh): (mb: MeshBuffers)
    requires WellFormed(m)
    ensures Valid(mb)
    ensures mb.positions == m.positions
    ensures mb.hasNormals == m.normals.Some? && mb.hasColors == m.colors.Some? && mb.hasUv0 == m.uv0.Some?
    ensures m.normals.Some? ==> mb.normals == m.normals.value
    ensures m.colors.Some? ==> mb.colors == m.colors.value
    ensures m.uv0.Some? ==> mb.uv0 == m.uv0.value
  {
    MeshBuffers(
      m.positions,
      if m.normals.Some? then m.normals.value else [],
      if m.colors.Some? then m.colors.value else [],
      if m.uv0.Some? then m.uv0.value else [],
      m.normals.Some?, m.colors.Some?, m.uv0.Some?,
      Layout(m.normals.Some?, m.colors.Some?, m.uv0.Some?))
  }

  /** The indexer: a vertex with neutral values in the channels the mesh
      lacks. */
  function Get(mb: MeshBuffers, index: int): Vertex
    requires Valid(mb) && 0 <= index < |mb.positions|
  {
    Vertex(
      mb.positions[index],
      if mb.hasNormals then mb.normals[index] else Zero3,
      if mb.hasColors then mb.colors[index] else White,
      if mb.hasUv0 then mb.uv0[index] else Zero4)
  }

  /** Reading vertex i of the extracted buffers gives the source mesh's
      values where it has the channel and zero normal, white colour and zero
      uv where it does not. */
  lemma GetReadsSource(m: SourceMesh, i: int)
    requires WellFormed(m) && 0 <= i < |m.positions|
    ensures Get(FromMesh(m), i).position == m.positions[i]
    ensures Get(FromMesh(m), i).normal == (if m.normals.Some? then m.normals.value[i] else Zero3)
    ensures Get(FromMesh(m), i).color == (if m.colors.Some? then m.colors.value[i] else White)
    ensures Get(FromMesh(m), i).uv0 == (if m.uv0.Some? then m.uv0.value[i] else Zero4)
  {
  }

  /** The contents of one stream of a vertex buffer, tagged by channel. */
  datatype StreamData =
    | Positions(points: seq<Vec3>)
    | Normals(normals: seq<Vec3>)
    | Colors(colors: seq<Color32>)
    | TexCoords(uvs: seq<Vec4>)

  function AttributeOf(d: StreamData): VertexAttribute
  {
    match d
    case Positions(_) => Position
    case Normals(_) => Normal
    case Colors(_) => Color
    case TexCoords(_) => TexCoord0
  }

  datatype StreamWrite = StreamWrite(stream: nat, data: StreamData)

  /** A destination vertex buffer: the vertex count and layout set on it and
      the streams written into it, in the order they were written. */
  datatype VertexBuffer = VertexBuffer(vertexCount: nat, layout: seq<AttributeDescriptor>, writes: seq<StreamWrite>)

  function PositionsOf(vs: seq<Vertex>): seq<Vec3>
  {
    seq(|vs|, i requires 0 <= i < |vs| => vs[i].position)
  }

  function NormalsOf(vs: seq<Vertex>): seq<Vec3>
  {
    seq(|vs|, i requires 0 <= i < |vs| => vs[i].normal)
  }

  function ColorsOf(vs: seq<Vertex>): seq<Color32>
  {
    seq(|vs|, i requires 0 <= i < |vs| => vs[i].color)
  }

  function UvsOf(vs: seq<Vertex>): seq<Vec4>
  {
    seq(|vs|, i requires 0 <= i < |vs| => vs[i].uv0)
  }

  /** Stream data d holds the original channel of mb followed by the same
      channel of each appended vertex. */
  predicate CopiesChannel(mb: MeshBuffers, additional: seq<Vertex>, d: StreamData)
  {
    match d
    case Positions(p) => p == mb.positions + PositionsOf(additional)
    case Normals(p) => p == mb.normals + NormalsOf(additional)
    case Colors(p) => p == mb.colors + ColorsOf(additional)
    case TexCoords(p) => p == mb.uv0 + UvsOf(additional)
  }

  /** The streams CopyBuffers writes, in order: positions into stream 0, then
      each present optional channel into the next stream. */
  function CopyWrites(mb: MeshBuffers, additional: seq<Vertex>): seq<StreamWrite>
  {
    var positions := [StreamWrite(0, Positions(mb.positions + PositionsOf(additional)))];
    var normals :=
      if mb.hasNormals then [StreamWrite(1, Normals(mb.normals + NormalsOf(additional)))] else [];
    var colorStream := 1 + |normals|;
    var colors :=
      if mb.hasColors then [StreamWrite(colorStream, Colors(mb.colors + ColorsOf(additional)))] else [];
    var uvStream := colorStream + |colors|;
    var uvs :=
      if mb.hasUv0 then [StreamWrite(uvStream, TexCoords(mb.uv0 + UvsOf(additional)))] else [];
    positions + normals + colors + uvs
  }

  /** Write j lands in the stream layout entry j declares and carries that
      entry's channel, copied in full. */
  predicate WritesFollowLayout(mb: MeshBuffers, additional: seq<Vertex>,
                               writes: seq<StreamWrite>, layout: seq<AttributeDescriptor>)
  {
    && |writes| == |layout|
    && forall j :: 0 <= j < |writes| ==>
         && writes[j].stream == layout[j].stream
         && AttributeOf(writes[j].data) == layout[j].attribute
         && CopiesChannel(mb, additional, writes[j].data)
  }

  /** Writes that follow two layouts, one after the other, follow the two
      layouts laid end to end. */
  lemma FollowLayoutConcat(mb: MeshBuffers, additional: seq<Vertex>,
                           w1: seq<StreamWrite>, l1: seq<AttributeDescriptor>,
                           w2: seq<StreamWrite>, l2: seq<AttributeDescriptor>)
    requires WritesFollowLayout(mb, additional, w1, l1) && WritesFollowLayout(mb, additional, w2, l2)
    ensures WritesFollowLayout(mb, additional, w1 + w2, l1 + l2)
  {
    forall j | 0 <= j < |w1 + w2|
      ensures && (w1 + w2)[j].stream == (l1 + l2)[j].stream
              && AttributeOf((w1 + w2)[j].data) == (l1 + l2)[j].attribute
              && CopiesChannel(mb, additional, (w1 + w2)[j].data)
    {
      if j < |w1| {
        assert (w1 + w2)[j] == w1[j] && (l1 + l2)[j] == l1[j];
      } else {
        assert (w1 + w2)[j] == w2[j - |w1|] && (l1 + l2)[j] == l2[j - |l1|];
      }
    }
  }

  lemma CopyWritesFollowLayout(mb: MeshBuffers, additional: seq<Vertex>)
    requires Valid(mb)
    ensures WritesFollowLayout(mb, additional, CopyWrites(mb, additional), mb.attributes)
  {
    var wp := [StreamWrite(0, Positions(mb.positions + PositionsOf(additional)))];
    var wn := if mb.hasNormals then [StreamWrite(1, Normals(mb.normals + NormalsOf(additional)))] else [];
    var colorStream := 1 + |wn|;
    var wc := if mb.hasColors then [StreamWrite(colorStream, Colors(mb.colors + ColorsOf(additional)))] else [];
    var uvStream := colorStream + |wc|;
    var wu := if mb.hasUv0 then [StreamWrite(uvStream, TexCoords(mb.uv0 + UvsOf(additional)))] else [];
    assert CopyWrites(mb, additional) == wp + wn + wc + wu;
    var lp := [AttributeDescriptor(Position, Float32, 3, 0)];
    var ln := if mb.hasNormals then [AttributeDescriptor(Normal, Float32, 3, 1)] else [];
    var lc := if mb.hasColors then [AttributeDescriptor(Color, UNorm8, 4, colorStream)] else [];
    var lu := if mb.hasUv0 then [AttributeDescriptor(TexCoord0, Float32, 4, uvStream)] else [];
    assert mb.attributes == lp + ln + lc + lu;
    assert WritesFollowLayout(mb, additional, wp, lp);
    assert WritesFollowLayout(mb, additional, wn, ln);
    assert WritesFollowLayout(mb, additional, wc, lc);
    assert WritesFollowLayout(mb, additional, wu, lu);
    FollowLayoutConcat(mb, additional, wp, lp, wn, ln);
    FollowLayoutConcat(mb, additional, wp + wn, lp + ln, wc, lc);
    FollowLayoutConcat(mb, additional, wp + wn + wc, lp + ln + lc, wu, lu);
  }

  /** CopyBuffers: size the destination for the original plus the appended
      vertices, then write each present channel into the next stream. */
  function CopyBuffers(mb: MeshBuffers, additional: seq<Vertex>): (vb: VertexBuffer)
    requires Valid(mb)
    ensures vb.vertexCount == |mb.positions| + |additional|
    ensures vb.layout == mb.attributes
    ensures |vb.writes| == |vb.layout|
    ensures forall j :: 0 <= j < |vb.writes| ==>
              && vb.writes[j].stream == vb.layout[j].stream
              && AttributeOf(vb.writes[j].data) == vb.layout[j].attribute
              && CopiesChannel(mb, additional, vb.writes[j].data)
  {
    CopyWritesFollowLayout(mb, additional);
    VertexBuffer(|mb.positions| + |additional|, mb.attributes, CopyWrites(mb, additional))
  }

  /** Every written stream has one entry per destination vertex: the first
      entries are the original channel verbatim and entry n + i is the
      channel of appended vertex i. */
  lemma CopyBuffersContents(mb: MeshBuffers, additional: seq<Vertex>, j: nat)
    requires Valid(mb) && j < |CopyBuffers(mb, additional).writes|
    ensures var n, d := |mb.positions|, CopyBuffers(mb, additional).writes[j].data;
      match d
      case Positions(p) =>
        |p| == n + |additional| && p[..n] == mb.positions
        && forall i :: 0 <= i < |additional| ==> p[n + i] == additional[i].position
      case Normals(p) =>
        |p| == n + |additional| && p[..n] == mb.normals
        && forall i :: 0 <= i < |additional| ==> p[n + i] == additional[i].normal
      case Colors(p) =>
        |p| == n + |additional| && p[..n] == mb.colors
        && forall i :: 0 <= i < |additional| ==> p[n + i] == additional[i].color
      case TexCoords(p) =>
        |p| == n + |additional| && p[..n] == mb.uv0
        && forall i :: 0 <= i < |additional| ==> p[n + i] == additional[i].uv0
  {
    var vb := CopyBuffers(mb, additional);
    var d := vb.writes[j].data;
    assert CopiesChannel(mb, additional, d);
    assert AttributeOf(d) == vb.layout[j].attribute;
    match d {
      case Positions(p) =>
        assert p[..|mb.positions|] == mb.positions;
      case Normals(p) =>
        assert mb.hasNormals by { assert HasAttribute(vb.layout, Normal); }
        assert p[..|mb.positions|] == mb.normals;
      case Colors(p) =>
        assert mb.hasColors by { assert HasAttribute(vb.layout, Color); }
        assert p[..|mb.positions|] == mb.colors;
      case TexCoords(p) =>
        assert mb.hasUv0 by { assert HasAttribute(vb.layout, TexCoord0); }
        assert p[..|mb.positions|] == mb.uv0;
    }
  }

  /** A channel the mesh lacks is never written, and one it has is written
      exactly once. */
  lemma CopyBuffersWritesPresentChannels(mb: MeshBuffers, additional: seq<Vertex>, a: VertexAttribute)
    requires Valid(mb)
    ensures var vb := CopyBuffers(mb, additional);
      (exists j :: 0 <= j < |vb.writes| && AttributeOf(vb.writes[j].data) == a)
        <==> (a == Position || (a == Normal && mb.hasNormals) || (a == Color && mb.hasColors)
              || (a == TexCoord0 && mb.hasUv0))
    ensures var vb := CopyBuffers(mb, additional);
      forall i, j :: 0 <= i < j < |vb.writes| ==> AttributeOf(vb.writes[i].data) != AttributeOf(vb.writes[j].data)
  {
    var vb := CopyBuffers(mb, additional);
    var layout := vb.layout;
    assert layout == Layout(mb.hasNormals, mb.hasColors, mb.hasUv0);
    if exists j :: 0 <= j < |vb.writes| && AttributeOf(vb.writes[j].data) == a {
      var j :| 0 <= j < |vb.writes| && AttributeOf(vb.writes[j].data) == a;
      assert layout[j].attribute == a;
      assert a == Position || HasAttribute(layout, a);
    }
    if a == Position {
      assert AttributeOf(vb.writes[0].data) == a;
    } else if HasAttribute(layout, a) {
      var j :| 0 <= j < |layout| && layout[j].attribute == a;
      assert AttributeOf(vb.writes[j].data) == a;
    }
    forall i, j | 0 <= i < j < |vb.writes|
      ensures AttributeOf(vb.writes[i].data) != AttributeOf(vb.writes[j].data)
    {
      assert Rank(layout[i].attribute) < Rank(layout[j].attribute);
    }
  }
}
