/** Single-precision floating-point values and the engine's vector types.
    Finite values are exact reals: rounding to 32 bits is not modelled, but the
    infinities and NaN keep their IEEE 754 comparison and arithmetic rules, which
    the collision decoder and the clamp depend on. */
module Numerics {

  datatype Float = Finite(value: real) | PositiveInfinity | NegativeInfinity | NaN

  predicate IsNegative(a: Float) {
    a.NegativeInfinity? || (a.Finite? && a.value < 0.0)
  }

  /** IEEE 754 `a < b`: false whenever either side is NaN. */
  predicate Less(a: Float, b: Float) {
    if a.NaN? || b.NaN? then false
    else if a.Finite? && b.Finite? then a.value < b.value
    else if a.NegativeInfinity? then !b.NegativeInfinity?
    else if b.PositiveInfinity? then !a.PositiveInfinity?
    else false
  }

  /** IEEE 754 `a == b`: NaN equals nothing, not even itself. */
  predicate Equal(a: Float, b: Float) {
    !a.NaN? && a == b
  }

  function Neg(a: Float): Float {
    match a
    case Finite(v) => Finite(-v)
    case PositiveInfinity => NegativeInfinity
    case NegativeInfinity => PositiveInfinity
    case NaN => NaN
  }

  function Add(a: Float, b: Float): Float {
    if a.NaN? || b.NaN? then NaN
    else if a.Finite? && b.Finite? then Finite(a.value + b.value)
    else if a.Finite? then b
    else if b.Finite? then a
    else if a == b then a
    else NaN
  }

  function Sub(a: Float, b: Float): Float {
    Add(a, Neg(b))
  }

  function Mul(a: Float, b: Float): Float {
    if a.NaN? || b.NaN? then NaN
    else if a.Finite? && b.Finite? then Finite(a.value * b.value)
    else if a == Finite(0.0) || b == Finite(0.0) then NaN
    else if IsNegative(a) == IsNegative(b) then PositiveInfinity
    else NegativeInfinity
  }

  datatype Vector2 = Vector2(x: Float, y: Float)
  datatype Vector3 = Vector3(x: Float, y: Float, z: Float)
  datatype Vector4 = Vector4(x: Float, y: Float, z: Float, w: Float)
  datatype Quaternion = Quaternion(x: Float, y: Float, z: Float, w: Float)

  /** Vector2.Equals: componentwise IEEE equality. */
  predicate Equal2(a: Vector2, b: Vector2) {
    Equal(a.x, b.x) && Equal(a.y, b.y)
  }

  /** Vector3.Dot: `a.x * b.x + a.y * b.y + a.z * b.z`, evaluated left to right. */
  function Dot3(a: Vector3, b: Vector3): Float {
    Add(Add(Mul(a.x, b.x), Mul(a.y, b.y)), Mul(a.z, b.z))
  }

  /** Mathf.LerpUnclamped: `a + (b - a) * t`. */
  function Lerp(a: Float, b: Float, t: Float): Float {
    Add(a, Mul(Sub(b, a), t))
  }

  /** Vector3.LerpUnclamped, componentwise. */
  function Lerp3(a: Vector3, b: Vector3, t: Float): Vector3 {
    Vector3(Lerp(a.x, b.x, t), Lerp(a.y, b.y, t), Lerp(a.z, b.z, t))
  }
}
