/** The cutter's vertex record and its channel-wise interpolation
    (Assets/Scripts/Vertex.cs). */
module Vertices {
  import opened Geometry

  /** Unity's Color32: four byte channels. Its interpolation (Color32.Lerp,
      which rounds to bytes) is not visible, so every operation that
      interpolates colours receives it as a parameter. */
  datatype Color32 = Color32(r: int, g: int, b: int, a: int)

  const White: Color32 := Color32(255, 255, 255, 255)

  type ColorLerp = (Color32, Color32, real) -> Color32

  datatype Vertex = Vertex(position: Vec3, normal: Vec3, color: Color32, uv0: Vec4)

  /** Vertex.Lerp: each channel interpolated on its own with the same t. */
  function Lerp(a: Vertex, b: Vertex, t: real, colorLerp: ColorLerp): (r: Vertex)
    ensures t == 0.0 ==> r.position == a.position && r.normal == a.normal && r.uv0 == a.uv0
    ensures t == 1.0 ==> r.position == b.position && r.normal == b.normal && r.uv0 == b.uv0
  {
    Vertex(Lerp3(a.position, b.position, t),
           Lerp3(a.normal, b.normal, t),
           colorLerp(a.color, b.color, t),
           Lerp4(a.uv0, b.uv0, t))
  }

  /** Each channel of the interpolated vertex depends only on the same
      channel of the two inputs. */
  lemma LerpIsChannelwise(a: Vertex, b: Vertex, a': Vertex, b': Vertex, t: real, colorLerp: ColorLerp)
    ensures a.position == a'.position && b.position == b'.position ==>
              Lerp(a, b, t, colorLerp).position == Lerp(a', b', t, colorLerp).position
    ensures a.normal == a'.normal && b.normal == b'.normal ==>
              Lerp(a, b, t, colorLerp).normal == Lerp(a', b', t, colorLerp).normal
    ensures a.color == a'.color && b.color == b'.color ==>
              Lerp(a, b, t, colorLerp).color == Lerp(a', b', t, colorLerp).color
    ensures a.uv0 == a'.uv0 && b.uv0 == b'.uv0 ==>
              Lerp(a, b, t, colorLerp).uv0 == Lerp(a', b', t, colorLerp).uv0
  {
  }

  /** Interpolating the neutral zero normal, or the neutral zero uv, with
      itself gives it back, each channel on its own, so a channel the mesh
      lacks stays neutral on new vertices. */
  lemma LerpKeepsNeutral(a: Vertex, b: Vertex, t: real, colorLerp: ColorLerp)
    ensures a.normal == Zero3 && b.normal == Zero3 ==> Lerp(a, b, t, colorLerp).normal == Zero3
    ensures a.uv0 == Zero4 && b.uv0 == Zero4 ==> Lerp(a, b, t, colorLerp).uv0 == Zero4
  {
  }
}
