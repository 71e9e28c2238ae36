/** The per-request record of a collision query: fourteen floats read back
    from the GPU, decoded together with the velocity of the object that asked,
    and the two collision flags fixed once at decoding. */
module CollisionRecord {
  import opened Numerics

  const ElementSize: nat := 14

  datatype WorldCollision = WorldCollision(
    staticPosition: Vector3,
    staticHeight: Float,
    staticNormal: Vector3,
    dynamicPosition: Vector3,
    dynamicDistance: Float,
    dynamicNormal: Vector3,
    staticCollision: bool,
    dynamicCollision: bool)

  /** The vector at offsets `i`, `i + 1`, `i + 2`. */
  function VectorAt(source: seq<Float>, i: nat): Vector3
    requires i + 3 <= |source|
  {
    Vector3(source[i], source[i + 1], source[i + 2])
  }

  /** The constructor: record `index` is the fourteen floats from
      `index * ElementSize`; the ground is below the object when the static
      height is negative, and the object hits a dynamic surface when one is in
      range and the object moves against its normal. */
  function Decode(source: seq<Float>, index: nat, velocity: Vector3): (c: WorldCollision)
    requires index * ElementSize + ElementSize <= |source|
  {
    var i := index * ElementSize;
    var staticHeight := source[i + 3];
    var dynamicDistance := source[i + 10];
    var dynamicNormal := VectorAt(source, i + 11);
    WorldCollision(
      VectorAt(source, i), staticHeight, VectorAt(source, i + 4),
      VectorAt(source, i + 7), dynamicDistance, dynamicNormal,
      Less(staticHeight, Finite(0.0)),
      Less(dynamicDistance, PositiveInfinity) && Less(Dot3(velocity, dynamicNormal), Finite(0.0)))
  }

  /** The fourteen floats of a record, in the order the shader writes them. */
  function Encode(c: WorldCollision): (r: seq<Float>)
    ensures |r| == ElementSize
  {
    [c.staticPosition.x, c.staticPosition.y, c.staticPosition.z,
     c.staticHeight,
     c.staticNormal.x, c.staticNormal.y, c.staticNormal.z,
     c.dynamicPosition.x, c.dynamicPosition.y, c.dynamicPosition.z,
     c.dynamicDistance,
     c.dynamicNormal.x, c.dynamicNormal.y, c.dynamicNormal.z]
  }

  /** A record whose flags are the ones decoding with `velocity` computes. */
  predicate FlagsFor(c: WorldCollision, velocity: Vector3) {
    && (c.staticCollision <==> Less(c.staticHeight, Finite(0.0)))
    && (c.dynamicCollision <==>
         Less(c.dynamicDistance, PositiveInfinity) && Less(Dot3(velocity, c.dynamicNormal), Finite(0.0)))
  }

  /** Decoding reads exactly the record's fourteen floats, in field order. */
  lemma DecodeReadsItsRecord(source: seq<Float>, index: nat, velocity: Vector3)
    requires index * ElementSize + ElementSize <= |source|
    ensures Encode(Decode(source, index, velocity)) ==
      source[index * ElementSize .. index * ElementSize + ElementSize]
  {
    var i := index * ElementSize;
    var e := Encode(Decode(source, index, velocity));
    var slice := source[i .. i + ElementSize];
    forall k | 0 <= k < ElementSize
      ensures e[k] == slice[k]
    {
    }
  }

  /** Two sources that agree on a record decode it to the same collision. */
  lemma DecodeIgnoresOtherRecords(s: seq<Float>, t: seq<Float>, index: nat, velocity: Vector3)
    requires index * ElementSize + ElementSize <= |s| && index * ElementSize + ElementSize <= |t|
    requires s[index * ElementSize .. index * ElementSize + ElementSize] ==
      t[index * ElementSize .. index * ElementSize + ElementSize]
    ensures Decode(s, index, velocity) == Decode(t, index, velocity)
  {
    var i := index * ElementSize;
    forall j | i <= j < i + ElementSize
      ensures s[j] == t[j]
    {
      assert s[j] == s[i .. i + ElementSize][j - i];
      assert t[j] == t[i .. i + ElementSize][j - i];
    }
  }

  /** Decoding characterised: the decoded record is the only record that
      encodes to the fourteen floats read and whose flags agree with the
      velocity. */
  lemma DecodeIsTheRecordOf(source: seq<Float>, index: nat, velocity: Vector3, c: WorldCollision)
    requires index * ElementSize + ElementSize <= |source|
    ensures c == Decode(source, index, velocity) <==>
      FlagsFor(c, velocity) && Encode(c) == source[index * ElementSize .. index * ElementSize + ElementSize]
  {
  }

  /** Round trip: decoding the encoding of a record, placed at any record
      index, gives the record back when its flags agree with the velocity. */
  lemma DecodeEncode(c: WorldCollision, before: seq<Float>, after: seq<Float>, velocity: Vector3)
    requires |before| % ElementSize == 0
    requires FlagsFor(c, velocity)
    ensures |before| / ElementSize * ElementSize + ElementSize <= |before + Encode(c) + after|
    ensures Decode(before + Encode(c) + after, |before| / ElementSize, velocity) == c
  {
    var s := before + Encode(c) + after;
    var index := |before| / ElementSize;
    assert index * ElementSize == |before|;
    forall k | 0 <= k < ElementSize
      ensures s[|before| + k] == Encode(c)[k]
    {
    }
  }

  /** GetContactPosition. */
  function GetContactPosition(c: WorldCollision): Vector3 {
    if c.staticCollision && c.dynamicCollision then
      Lerp3(c.staticPosition, c.dynamicPosition, Finite(0.5))
    else if c.staticCollision then
      c.staticPosition
    else
      c.dynamicPosition
  }

  predicate IsFinite3(v: Vector3) {
    v.x.Finite? && v.y.Finite? && v.z.Finite?
  }

  /** With both collisions the contact is the midpoint of the two positions
      (when they are finite); with one it is that collision's position. */
  lemma ContactPosition(c: WorldCollision)
    ensures c.staticCollision && c.dynamicCollision && IsFinite3(c.staticPosition) && IsFinite3(c.dynamicPosition) ==>
      GetContactPosition(c) == Vector3(
        Finite((c.staticPosition.x.value + c.dynamicPosition.x.value) / 2.0),
        Finite((c.staticPosition.y.value + c.dynamicPosition.y.value) / 2.0),
        Finite((c.staticPosition.z.value + c.dynamicPosition.z.value) / 2.0))
    ensures c.staticCollision && !c.dynamicCollision ==> GetContactPosition(c) == c.staticPosition
    ensures !c.staticCollision ==> GetContactPosition(c) == c.dynamicPosition
  {
    if c.staticCollision && c.dynamicCollision && IsFinite3(c.staticPosition) && IsFinite3(c.dynamicPosition) {
      var s, d := c.staticPosition, c.dynamicPosition;
      LerpHalf(s.x.value, d.x.value);
      LerpHalf(s.y.value, d.y.value);
      LerpHalf(s.z.value, d.z.value);
    }
  }

  lemma LerpHalf(a: real, b: real)
    ensures Lerp(Finite(a), Finite(b), Finite(0.5)) == Finite((a + b) / 2.0)
  {
    assert a + (b - a) * 0.5 == (a + b) / 2.0;
  }

  /** A record decoded from all-NaN floats reports no collision: every
      comparison with NaN is false. */
  lemma NaNRecordCollidesWithNothing(source: seq<Float>, index: nat, velocity: Vector3)
    requires index * ElementSize + ElementSize <= |source|
    requires forall k :: 0 <= k < |source| ==> source[k] == NaN
    ensures !Decode(source, index, velocity).staticCollision
    ensures !Decode(source, index, velocity).dynamicCollision
  {
    var i := index * ElementSize;
    assert source[i + 3] == NaN && source[i + 10] == NaN;
  }
}
