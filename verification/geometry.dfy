/** Small vectors and quaternions over the reals, standing in for the f32 types of nalgebra-glm. */
module Geometry {

  datatype Vec2 = Vec2(x: real, y: real)

  datatype Vec3 = Vec3(x: real, y: real, z: real)

  datatype Vec4 = Vec4(x: real, y: real, z: real, w: real)

  /** A quaternion with vector part (i, j, k) and scalar part w, as glm stores it. */
  datatype Quat = Quat(i: real, j: real, k: real, w: real)

  const Zero2: Vec2 := Vec2(0.0, 0.0)
  const Zero3: Vec3 := Vec3(0.0, 0.0, 0.0)
  const YAxis: Vec3 := Vec3(0.0, 1.0, 0.0)
  const ZAxis: Vec3 := Vec3(0.0, 0.0, 1.0)

  function Add2(a: Vec2, b: Vec2): Vec2 { Vec2(a.x + b.x, a.y + b.y) }

  function Sub2(a: Vec2, b: Vec2): Vec2 { Vec2(a.x - b.x, a.y - b.y) }

  function Scale2(a: Vec2, s: real): Vec2 { Vec2(a.x * s, a.y * s) }

  /** Component-wise product (glm `component_mul`). */
  function Mul2(a: Vec2, b: Vec2): Vec2 { Vec2(a.x * b.x, a.y * b.y) }

  function Add3(a: Vec3, b: Vec3): Vec3 { Vec3(a.x + b.x, a.y + b.y, a.z + b.z) }
  function Sub3(a: Vec3, b: Vec3): Vec3 { Vec3(a.x - b.x, a.y - b.y, a.z - b.z) }

  lemma ScaleDistributes(v: Vec3, a: real, b: real)
    ensures Scale3(v, a + b) == Add3(Scale3(v, a), Scale3(v, b))
  {
    assert v.x * (a + b) == v.x * a + v.x * b;
    assert v.y * (a + b) == v.y * a + v.y * b;
    assert v.z * (a + b) == v.z * a + v.z * b;
  }

  function Scale3(a: Vec3, s: real): Vec3 { Vec3(a.x * s, a.y * s, a.z * s) }

  function Cross(a: Vec3, b: Vec3): Vec3 {
    Vec3(a.y * b.z - a.z * b.y, a.z * b.x - a.x * b.z, a.x * b.y - a.y * b.x)
  }

  /** glm `vec3_to_vec4`: the fourth component is zero. */
  function Extend(a: Vec3): Vec4 { Vec4(a.x, a.y, a.z, 0.0) }

  /** The rotation of `v` by `q` as nalgebra computes it for a unit quaternion:
      with t = 2 (u x v), the result is v + w t + u x t. */
  function QuatRotate(q: Quat, v: Vec3): Vec3 {
    var u := Vec3(q.i, q.j, q.k);
    var t := Scale3(Cross(u, v), 2.0);
    Add3(Add3(v, Scale3(t, q.w)), Cross(u, t))
  }

  /** The unit quaternion with zero vector part leaves every vector where it is. */
  lemma QuatRotateByIdentity(v: Vec3)
    ensures QuatRotate(Quat(0.0, 0.0, 0.0, 1.0), v) == v
  {
    var q := Quat(0.0, 0.0, 0.0, 1.0);
    var u := Vec3(q.i, q.j, q.k);
    assert u == Zero3;
    CrossZero(v);
    var t := Scale3(Cross(u, v), 2.0);
    assert t == Zero3;
    CrossZero(t);
    assert Scale3(t, q.w) == Zero3;
    assert Add3(v, Zero3) == v;
  }

  lemma CrossZero(v: Vec3)
    ensures Cross(Zero3, v) == Zero3
  {
  }
}
