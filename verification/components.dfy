/**
 * Plain component records. Float payloads are opaque to this model: `real`
 * stands for an f32/f64 value and no rounding is modelled.
 */
module Components {

  datatype Vec2 = Vec2(x: real, y: real)

  datatype Vec3 = Vec3(x: real, y: real, z: real)

  /** A quaternion, components in x, y, z, w order. */
  datatype Quat = Quat(x: real, y: real, z: real, w: real)
}
