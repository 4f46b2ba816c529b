/** Value types shared by the scene, the meshes and the camera. Their own
    sources (rays, colours, materials, intersections) are not part of this
    model; they are given the fields the renderer reads and writes, and
    default-constructed values are taken to be all zeros with no material. */
module SceneTypes {
  import opened Vector3Math

  datatype Option<T> = None | Some(value: T)

  datatype Ray = Ray(origin: Vector3, direction: Vector3)

  datatype Color = Color(r: real, g: real, b: real)

  /** The default-constructed colour. */
  const Black := Color(0.0, 0.0, 0.0)

  function AddColor(a: Color, b: Color): Color {
    Color(a.r + b.r, a.g + b.g, a.b + b.b)
  }

  function ScaleColor(c: Color, f: real): Color {
    Color(c.r * f, c.g * f, c.b * f)
  }

  /** A material as the ray caster sees it: an identity for its shading
      routine and the reflection coefficient. */
  datatype Material = Material(id: nat, reflection: real)

  /** A hit record: where the ray hit, the surface normal there, the view
      direction, the squared distance from the ray origin, and the material
      (`None` for a null material pointer). */
  datatype Intersection = Intersection(
    position: Vector3,
    normal: Vector3,
    view: Vector3,
    distance: real,
    mat: Option<Material>)

  /** The default-constructed hit record. */
  const NoIntersection := Intersection(Zero, Zero, Zero, 0.0, None)
}
