/**
 * Unity's small value types as the component uses them: Vector2, Vector4 and
 * Matrix4x4, over exact reals (no float rounding is modelled).
 */
module Vectors {

  datatype Vec2 = Vec2(x: real, y: real)

  datatype Vec4 = Vec4(x: real, y: real, z: real, w: real)

  const Zero := Vec2(0.0, 0.0)

  function Add(a: Vec2, b: Vec2): Vec2 { Vec2(a.x + b.x, a.y + b.y) }

  function Sub(a: Vec2, b: Vec2): Vec2 { Vec2(a.x - b.x, a.y - b.y) }

  function Scale(a: Vec2, s: real): Vec2 { Vec2(a.x * s, a.y * s) }

  /** Vector2.SqrMagnitude */
  function SqrMagnitude(a: Vec2): (d: real)
    ensures d >= 0.0
  {
    a.x * a.x + a.y * a.y
  }

  function SqrDistance(a: Vec2, b: Vec2): real { SqrMagnitude(Sub(a, b)) }

  /** Viewport space [0,1]x[0,1] to clip space [-1,1]x[-1,1]: `p * 2 - Vector2.one`. */
  function ToClip(p: Vec2): Vec2 { Sub(Scale(p, 2.0), Vec2(1.0, 1.0)) }

  /** Clip space to viewport space: `p * 0.5f + new Vector2(0.5f, 0.5f)`. */
  function ToViewport(p: Vec2): Vec2 { Add(Scale(p, 0.5), Vec2(0.5, 0.5)) }

  lemma ViewportClipRoundTrip(p: Vec2)
    ensures ToViewport(ToClip(p)) == p
    ensures ToClip(ToViewport(p)) == p
  {
  }

  /** Squared distances measured in clip space are four times those measured in viewport space. */
  lemma ClipDistanceIsFourTimesViewport(a: Vec2, b: Vec2)
    ensures SqrDistance(ToClip(a), ToClip(b)) == 4.0 * SqrDistance(a, b)
  {
  }

  /** Unity's Matrix4x4, fields named as Unity names them (row, column). */
  datatype Matrix4x4 = Matrix4x4(
    m00: real, m01: real, m02: real, m03: real,
    m10: real, m11: real, m12: real, m13: real,
    m20: real, m21: real, m22: real, m23: real,
    m30: real, m31: real, m32: real, m33: real)
  {
    /** The indexer `matrix[row, column]`. */
    function Get(row: nat, column: nat): real
      requires row < 4 && column < 4
    {
      match (row, column)
      case (0, 0) => m00 case (0, 1) => m01 case (0, 2) => m02 case (0, 3) => m03
      case (1, 0) => m10 case (1, 1) => m11 case (1, 2) => m12 case (1, 3) => m13
      case (2, 0) => m20 case (2, 1) => m21 case (2, 2) => m22 case (2, 3) => m23
      case (3, 0) => m30 case (3, 1) => m31 case (3, 2) => m32 case (_, _) => m33
    }

    /** Matrix times column vector (Matrix4x4 * Vector4). */
    function Transform(v: Vec4): Vec4 {
      Vec4(m00 * v.x + m01 * v.y + m02 * v.z + m03 * v.w,
           m10 * v.x + m11 * v.y + m12 * v.z + m13 * v.w,
           m20 * v.x + m21 * v.y + m22 * v.z + m23 * v.w,
           m30 * v.x + m31 * v.y + m32 * v.z + m33 * v.w)
    }
  }

  /** The default (all-zero) Matrix4x4 that a fresh serialized field holds. */
  const ZeroMatrix := Matrix4x4(0.0, 0.0, 0.0, 0.0, 0.0, 0.0, 0.0, 0.0,
                                0.0, 0.0, 0.0, 0.0, 0.0, 0.0, 0.0, 0.0)
}
