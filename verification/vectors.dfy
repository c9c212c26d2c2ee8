/** Three-component real vectors (the firmware's `struct vec`) and the
    component-wise operations the simulator applies to them. Exact `real`
    arithmetic stands in for the firmware's single-precision floats. */
module Vectors {

  datatype Vec = Vec(x: real, y: real, z: real)

  const Zero := Vec(0.0, 0.0, 0.0)

  function Add(a: Vec, b: Vec): Vec
  {
    Vec(a.x + b.x, a.y + b.y, a.z + b.z)
  }

  function Sub(a: Vec, b: Vec): Vec
  {
    Vec(a.x - b.x, a.y - b.y, a.z - b.z)
  }

  function Scale(s: real, v: Vec): Vec
  {
    Vec(s * v.x, s * v.y, s * v.z)
  }

  function Div(v: Vec, s: real): Vec
    requires s != 0.0
  {
    Vec(v.x / s, v.y / s, v.z / s)
  }

  /** Squared Euclidean norm; comparing squares avoids square roots. */
  function NormSq(v: Vec): real
  {
    v.x * v.x + v.y * v.y + v.z * v.z
  }

  /** The speed limit handed to the clamp: `np.inf` by default, or a finite cap. */
  datatype MaxVel = Unbounded | Cap(limit: real)

  /** `v` respects the limit: its norm is at most a non-negative cap. */
  ghost predicate WithinCap(v: Vec, maxVel: MaxVel)
  {
    match maxVel
    case Unbounded => true
    case Cap(m) => 0.0 <= m && NormSq(v) <= m * m
  }
}
