/**
 * The part of glm the scene code relies on: three- and two-component vectors and
 * 4x4 matrices. Single-precision floats are modelled as reals.
 */
module Linear {

  datatype Vec2 = Vec2(x: real, y: real)

  datatype Vec3 = Vec3(x: real, y: real, z: real)

  /** A glm::mat4: sixteen entries stored column by column, so the entry in row r
      and column c sits at index 4 * c + r. */
  type Mat4 = s: seq<real> | |s| == 16 witness seq(16, i => 0.0)

  function Entry(m: Mat4, r: nat, c: nat): real
    requires r < 4 && c < 4
  {
    m[4 * c + r]
  }

  /** glm::transpose. */
  function Transpose(m: Mat4): (t: Mat4)
    ensures forall r: nat, c: nat | r < 4 && c < 4 :: Entry(t, r, c) == Entry(m, c, r)
  {
    seq(16, i requires 0 <= i < 16 => m[4 * (i % 4) + i / 4])
  }

  /** Row r of a times column c of b. */
  function Dot(a: Mat4, b: Mat4, r: nat, c: nat): real
    requires r < 4 && c < 4
  {
    Entry(a, r, 0) * Entry(b, 0, c) + Entry(a, r, 1) * Entry(b, 1, c)
      + Entry(a, r, 2) * Entry(b, 2, c) + Entry(a, r, 3) * Entry(b, 3, c)
  }

  /** glm's `operator*` on two mat4 values. */
  function Mul(a: Mat4, b: Mat4): (p: Mat4)
    ensures forall r: nat, c: nat | r < 4 && c < 4 :: Entry(p, r, c) == Dot(a, b, r, c)
  {
    seq(16, i requires 0 <= i < 16 => Dot(a, b, i % 4, i / 4))
  }
}
