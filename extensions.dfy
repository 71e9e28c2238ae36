/** Component swizzles and the componentwise clamp of the vector extension
    methods. Each swizzle only copies components, so it is exact over floats. */
module Extensions {
  import opened Numerics

  function Xx(v: Vector2): Vector2 { Vector2(v.x, v.x) }

  function Yx(v: Vector2): Vector2 { Vector2(v.y, v.x) }

  function Xyx(v: Vector2): Vector3 { Vector3(v.x, v.y, v.x) }

  function Xy(v: Vector3): Vector2 { Vector2(v.x, v.y) }

  function Xz(v: Vector3): Vector2 { Vector2(v.x, v.z) }

  function Zxy(v: Vector3): Vector3 { Vector3(v.z, v.x, v.y) }

  function Yxz(v: Vector3): Vector3 { Vector3(v.y, v.x, v.z) }

  function Xyz(q: Quaternion): Vector3 { Vector3(q.x, q.y, q.z) }

  function Xyzw(q: Quaternion): Vector4 { Vector4(q.x, q.y, q.z, q.w) }

  /** Mathf.Clamp(value, min, max): below min gives min, otherwise above max gives max. */
  function ClampFloat(value: Float, min: Float, max: Float): Float {
    if Less(value, min) then min
    else if Less(max, value) then max
    else value
  }

  function Clamp(v: Vector3, min: Float, max: Float): Vector3 {
    Vector3(ClampFloat(v.x, min, max), ClampFloat(v.y, min, max), ClampFloat(v.z, min, max))
  }

  /** The projections keep the named components, in order. */
  lemma ProjectionsKeepComponents(v: Vector3)
    ensures Xz(v).x == v.x && Xz(v).y == v.z
    ensures Xy(v).x == v.x && Xy(v).y == v.y
  {
  }

  lemma YxIsInvolution(v: Vector2)
    ensures Yx(Yx(v)) == v
  {
  }

  lemma YxzIsInvolution(v: Vector3)
    ensures Yxz(Yxz(v)) == v
  {
  }

  /** zxy is a rotation of the components: three applications give back v, and
      no fewer do unless the components are equal. */
  lemma ZxyHasOrderThree(v: Vector3)
    ensures Zxy(Zxy(Zxy(v))) == v
    ensures Zxy(v) == v <==> v.x == v.y == v.z
  {
  }

  lemma DuplicatingSwizzles(v: Vector2)
    ensures Xx(v).x == Xx(v).y == v.x
    ensures Xyx(v).x == Xyx(v).z == v.x && Xyx(v).y == v.y
    ensures Xyx(v) == Vector3(Xx(v).x, v.y, Xx(v).y)
  {
  }

  /** Swapping the first two components commutes with dropping the third. */
  lemma YxzThenXy(v: Vector3)
    ensures Xy(Yxz(v)) == Yx(Xy(v))
  {
  }

  lemma QuaternionSwizzlesCopyInOrder(q: Quaternion)
    ensures Xyzw(q) == Vector4(q.x, q.y, q.z, q.w)
    ensures Xyz(q) == Vector3(Xyzw(q).x, Xyzw(q).y, Xyzw(q).z)
  {
  }

  /** With ordered, non-NaN bounds, a non-NaN value is clamped into [min, max],
      and a value already in range is returned unchanged. */
  lemma ClampFloatInRange(value: Float, min: Float, max: Float)
    requires !min.NaN? && !max.NaN? && !Less(max, min)
    ensures !value.NaN? ==> !Less(ClampFloat(value, min, max), min) && !Less(max, ClampFloat(value, min, max))
    ensures !Less(value, min) && !Less(max, value) ==> ClampFloat(value, min, max) == value
  {
  }

  /** A NaN component passes through the clamp, because both comparisons are false. */
  lemma ClampFloatKeepsNaN(min: Float, max: Float)
    ensures ClampFloat(NaN, min, max).NaN?
  {
  }

  lemma {:induction false} ClampInRange(v: Vector3, min: Float, max: Float)
    requires !min.NaN? && !max.NaN? && !Less(max, min)
    requires !v.x.NaN? && !v.y.NaN? && !v.z.NaN?
    ensures var c := Clamp(v, min, max);
      !Less(c.x, min) && !Less(max, c.x) &&
      !Less(c.y, min) && !Less(max, c.y) &&
      !Less(c.z, min) && !Less(max, c.z)
    ensures !Less(v.x, min) && !Less(max, v.x) ==> Clamp(v, min, max).x == v.x
    ensures !Less(v.y, min) && !Less(max, v.y) ==> Clamp(v, min, max).y == v.y
    ensures !Less(v.z, min) && !Less(max, v.z) ==> Clamp(v, min, max).z == v.z
  {
    ClampFloatInRange(v.x, min, max);
    ClampFloatInRange(v.y, min, max);
    ClampFloatInRange(v.z, min, max);
  }
}
