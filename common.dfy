/** Integer helpers shared by the game: GPU dispatch sizing, texture size bias,
    team layers and the axis "button down" edge detector. C# `int` is 32 bits
    and its arithmetic wraps (the project does not compile in a checked
    context), so wrap-around is written out where it can happen. */
module Common {
  import opened Numerics

  const GpuThreadGroupSize: int := 32
  const TeamCount: int := 2
  const TeamNone: int := -1
  const LayerTeam1: int := 9
  const LayerTeam1Mask: int := 512   // 1 << LayerTeam1
  const LayerTeam2: int := 10
  const LayerTeam2Mask: int := 1024  // 1 << LayerTeam2

  const Int32Min: int := -0x8000_0000
  const Int32Max: int := 0x7FFF_FFFF
  const Int32Range: int := 0x1_0000_0000
  /** 2^30, the largest power of two an `int` holds. */
  const MaxPowerOfTwo: int := 0x4000_0000

  predicate IsInt32(x: int) {
    Int32Min <= x <= Int32Max
  }

  /** Two's-complement wrap-around of a mathematical integer to 32 bits. */
  function Wrap32(x: int): (r: int)
    ensures IsInt32(r)
  {
    (x - Int32Min) % Int32Range + Int32Min
  }

  /** C# integer division, which truncates toward zero. */
  function DivTruncate(a: int, b: int): int
    requires b > 0
  {
    if a >= 0 then a / b else -((-a) / b)
  }

  function Pow2(n: nat): (r: nat)
    ensures r >= 1
  {
    if n == 0 then 1 else 2 * Pow2(n - 1)
  }

  /** Number of thread groups for `count` work items: `(count + 31) / 32`. */
  function GetGpuDispatchSize(count: int): (groups: int)
    requires IsInt32(count)
    ensures 0 <= count <= Int32Max - (GpuThreadGroupSize - 1) ==>
      groups >= 0 &&
      groups * GpuThreadGroupSize >= count &&
      (groups - 1) * GpuThreadGroupSize < count
  {
    DivTruncate(Wrap32(count + (GpuThreadGroupSize - 1)), GpuThreadGroupSize)
  }

  /** Closed form of ApplyTextureSizeBias: a positive bias divides a positive
      size by 2^bias (truncating), a negative bias multiplies by 2^-bias with
      32-bit wrap-around, and a size <= 0 is never halved. */
  function BiasedTextureSize(size: int, bias: int): int {
    if bias >= 0 then (if size > 0 then size / Pow2(bias) else size)
    else Wrap32(size * Pow2(-bias))
  }

  method ApplyTextureSizeBias(size0: int, bias0: int) returns (size: int)
    requires IsInt32(size0) && IsInt32(bias0)
    ensures size == BiasedTextureSize(size0, bias0)
  {
    size := size0;
    var bias := bias0;
    while bias > 0 && size > 0
      invariant 0 <= bias <= bias0 || bias == bias0
      invariant bias0 > 0 && size0 > 0 ==> size >= 0 && size == size0 / Pow2(bias0 - bias)
      invariant !(bias0 > 0 && size0 > 0) ==> size == size0 && bias == bias0
    {
      HalveAgain(size0, bias0 - bias);
      size := size / 2;
      bias := bias - 1;
    }
    if bias0 > 0 && size0 > 0 && bias > 0 {
      // the size reached 0, and 0 stays 0 under further halving
      ZeroStaysZero(size0, bias0 - bias, bias0);
    }
    if bias0 < 0 {
      WrapShift(size0, 0);
      assert Wrap32(size0) == size0 by { DivUnique(size0 - Int32Min, Int32Range, 0, size0 - Int32Min); }
    }
    while bias < 0
      invariant bias0 <= bias <= 0 || bias0 >= 0
      invariant bias0 >= 0 ==> bias >= 0 && size == BiasedTextureSize(size0, bias0)
      invariant bias0 < 0 ==> IsInt32(size) && size == Wrap32(size0 * Pow2(bias - bias0))
    {
      DoubleAgain(size0, bias - bias0, size);
      size := Wrap32(size * 2);
      bias := bias + 1;
    }
    if bias0 < 0 {
      assert bias == 0;
    }
  }

  /** Halving once more is dividing by the next power of two. */
  lemma HalveAgain(n: int, k: nat)
    requires n >= 0
    ensures n / Pow2(k) / 2 == n / Pow2(k + 1)
  {
    var p := Pow2(k);
    var q := n / p;
    var r := n % p;
    var q2 := q / 2;
    var r2 := q % 2;
    assert n == q2 * (2 * p) + (r2 * p + r) by {
      assert n == q * p + r;
      assert q == 2 * q2 + r2;
      assert q * p == 2 * q2 * p + r2 * p;
    }
    assert 0 <= r2 * p + r < 2 * p by {
      assert r2 == 0 || r2 == 1;
    }
    DivUnique(n, 2 * p, q2, r2 * p + r);
  }

  lemma ZeroStaysZero(n: int, k: nat, m: nat)
    requires n >= 0 && k <= m && n / Pow2(k) == 0
    ensures n / Pow2(m) == 0
  {
    PowMonotone(k, m);
    DivUnique(n, Pow2(m), 0, n);
  }

  lemma {:induction false} PowMonotone(k: nat, m: nat)
    requires k <= m
    ensures Pow2(k) <= Pow2(m)
  {
    if k < m {
      PowMonotone(k, m - 1);
    }
  }

  lemma DivUnique(n: int, d: int, q: int, r: int)
    requires d > 0 && 0 <= r < d && n == q * d + r
    ensures n / d == q && n % d == r
  {
    var q0, r0 := n / d, n % d;
    assert n == q0 * d + r0;
    if q0 > q {
      assert (q0 - q) * d >= d by { MulAtLeast(q0 - q, d); }
    } else if q0 < q {
      assert (q - q0) * d >= d by { MulAtLeast(q - q0, d); }
    }
  }

  lemma MulAtLeast(a: int, d: int)
    requires a >= 1 && d > 0
    ensures a * d >= d
  {
  }

  /** Wrapping before a doubling gives the same 32-bit value as wrapping after. */
  lemma DoubleAgain(n: int, k: nat, w: int)
    requires w == Wrap32(n * Pow2(k))
    ensures Wrap32(w * 2) == Wrap32(n * Pow2(k + 1))
  {
    var x := n * Pow2(k);
    var j := (x - Int32Min) / Int32Range;
    assert w == x - j * Int32Range;
    assert w * 2 == 2 * x - (2 * j) * Int32Range;
    assert n * Pow2(k + 1) == 2 * x;
    WrapShift(2 * x, -2 * j);
  }

  lemma WrapShift(y: int, j: int)
    ensures Wrap32(y + j * Int32Range) == Wrap32(y)
  {
    var q := (y - Int32Min) / Int32Range;
    var r := (y - Int32Min) % Int32Range;
    assert y + j * Int32Range - Int32Min == (q + j) * Int32Range + r;
    DivUnique(y + j * Int32Range - Int32Min, Int32Range, q + j, r);
  }

  /** A bias of 0 leaves the size alone. */
  lemma {:induction false} ZeroBiasIsIdentity(size: int)
    requires IsInt32(size)
    ensures BiasedTextureSize(size, 0) == size
  {
    assert Pow2(0) == 1;
  }

  /** Without overflow, a negative bias doubles the size -bias times, and for a
      non-negative size a positive bias halves it bias times (truncating). */
  lemma {:induction false} BiasScales(size: int, bias: int)
    requires IsInt32(size)
    ensures bias < 0 && IsInt32(size * Pow2(-bias)) ==> BiasedTextureSize(size, bias) == size * Pow2(-bias)
    ensures bias > 0 && size >= 0 ==> BiasedTextureSize(size, bias) == size / Pow2(bias)
  {
    if bias > 0 && size == 0 {
      DivUnique(0, Pow2(bias), 0, 0);
    }
    if bias < 0 && IsInt32(size * Pow2(-bias)) {
      var x := size * Pow2(-bias);
      DivUnique(x - Int32Min, Int32Range, 0, x - Int32Min);
    }
  }

  lemma {:induction false} Pow2Add(a: nat, b: nat)
    ensures Pow2(a + b) == Pow2(a) * Pow2(b)
  {
    if a > 0 {
      Pow2Add(a - 1, b);
    }
  }

  lemma Pow2Thirty()
    ensures Pow2(30) == MaxPowerOfTwo
  {
    Pow2Values();
    Pow2Add(10, 10);
    Pow2Add(20, 10);
  }

  /** Smallest exponent e >= k with 2^e >= v, for 1 <= v <= 2^30. */
  function CeilLog2From(v: int, k: nat): (e: nat)
    requires 1 <= v <= MaxPowerOfTwo && k <= 30
    requires k == 0 || Pow2(k - 1) < v
    ensures k <= e <= 30 && Pow2(e) >= v
    ensures e == 0 || Pow2(e - 1) < v
    decreases 30 - k
  {
    Pow2Thirty();
    if Pow2(k) >= v then k else CeilLog2From(v, k + 1)
  }

  /** Mathf.NextPowerOfTwo on the range where it is a power of two: the
      smallest power of two that is at least v. */
  function NextPowerOfTwo(v: int): (r: int)
    requires 1 <= v <= MaxPowerOfTwo
    ensures exists e: nat :: e <= 30 && r == Pow2(e)
    ensures v <= r < 2 * v
  {
    var e := CeilLog2From(v, 0);
    assert e > 0 ==> Pow2(e) == 2 * Pow2(e - 1);
    Pow2(e)
  }

  function Max(a: int, b: int): int {
    if a >= b then a else b
  }

  /** GetSquareTextureSize(width, height): the power of two that covers the longer side. */
  function GetSquareTextureSize(width: int, height: int): (r: int)
    requires 1 <= Max(width, height) <= MaxPowerOfTwo
    ensures exists e: nat :: e <= 30 && r == Pow2(e)
    ensures width <= r && height <= r && r < 2 * Max(width, height)
  {
    NextPowerOfTwo(Max(width, height))
  }

  /** GetSquareTextureSize(width, height, bias). */
  method GetSquareTextureSizeBiased(width: int, height: int, bias: int) returns (r: int)
    requires 1 <= Max(width, height) <= MaxPowerOfTwo && IsInt32(bias)
    ensures r == BiasedTextureSize(GetSquareTextureSize(width, height), bias)
  {
    var size := GetSquareTextureSize(width, height);
    assert size < 2 * MaxPowerOfTwo;
    r := ApplyTextureSizeBias(size, bias);
  }

  function GetTeamLayer(team: int): int {
    if team == 0 then LayerTeam1 else LayerTeam2
  }

  function GetTeamLayerMask(team: int): int {
    if team == 0 then LayerTeam1Mask else LayerTeam2Mask
  }

  /** Each team's mask is the bit of its layer, and the two teams never share a
      layer: team 0 gets layer 9 and every other value layer 10. */
  lemma {:induction false} TeamMaskIsLayerBit(team: int)
    ensures GetTeamLayerMask(team) == Pow2(GetTeamLayer(team))
    ensures GetTeamLayer(team) == (if team == 0 then 9 else 10)
    ensures GetTeamLayer(team) != GetTeamLayer(if team == 0 then 1 else 0)
  {
    assert Pow2(9) == 512 by { Pow2Values(); }
    assert Pow2(10) == 1024 by { Pow2Values(); }
  }

  lemma Pow2Values()
    ensures Pow2(9) == 512 && Pow2(10) == 1024
  {
    assert Pow2(1) == 2;
    assert Pow2(2) == 4;
    assert Pow2(3) == 8;
    assert Pow2(4) == 16;
    assert Pow2(5) == 32;
    assert Pow2(6) == 64;
    assert Pow2(7) == 128;
    assert Pow2(8) == 256;
    assert Pow2(9) == 512;
  }

  /** The axis value after the optional inversion (`axis *= -1.0f`). */
  function OrientedAxis(axis: Float, invert: bool): Float {
    if invert then Mul(axis, Finite(-1.0)) else axis
  }

  predicate AxisDown(a: Float) {
    Less(Finite(0.5), a)
  }

  /** InputGetAxisButtonDown with `ref bool pressed` as an in/out pair; the axis
      reading (Input.GetAxis) is a parameter. */
  method InputGetAxisButtonDown(axis: Float, invert: bool, pressed: bool) returns (down: bool, pressedAfter: bool)
    ensures down <==> AxisDown(OrientedAxis(axis, invert)) && !pressed
    ensures pressedAfter <==> AxisDown(OrientedAxis(axis, invert))
  {
    var a := axis;
    if invert {
      a := Mul(a, Finite(-1.0));
    }
    pressedAfter := pressed;
    down := false;
    if Less(Finite(0.5), a) {
      if !pressedAfter {
        pressedAfter := true;
        down := true;
      }
    } else {
      pressedAfter := false;
    }
  }

  /** The `down` results of successive calls on a sequence of oriented axis
      readings, threading `pressed` through. */
  function DownEvents(readings: seq<Float>, pressed: bool): (events: seq<bool>)
    ensures |events| == |readings|
  {
    if readings == [] then []
    else [AxisDown(readings[0]) && !pressed] + DownEvents(readings[1..], AxisDown(readings[0]))
  }

  /** The detector fires exactly on rising edges: a reading above 0.5 whose
      predecessor (or the initial state) was not. */
  lemma {:induction false} DownEventsAreRisingEdges(readings: seq<Float>, pressed: bool, i: nat)
    requires i < |readings|
    ensures DownEvents(readings, pressed)[i] <==>
      AxisDown(readings[i]) && !(if i == 0 then pressed else AxisDown(readings[i - 1]))
  {
    if i > 0 {
      DownEventsAreRisingEdges(readings[1..], AxisDown(readings[0]), i - 1);
      assert readings[1..][i - 1] == readings[i];
      if i > 1 {
        assert readings[1..][i - 2] == readings[i - 1];
      }
    }
  }

  // Circular indices on a table of n slots

  /** The slot `k` steps after `start` on a table of `n` slots: `(start + k) % n`. */
  function Slot(start: nat, k: nat, n: nat): (i: nat)
    requires start < n && k <= n
    ensures i < n && i == (start + k) % n
  {
    var i := if start + k < n then start + k else start + k - n;
    DivUnique(start + k, n, if start + k < n then 0 else 1, i);
    i
  }

  /** Stepping round a table of `n` slots comes back to where it started only
      after zero or `n` steps. */
  lemma SlotReturns(start: nat, k: nat, n: nat)
    requires start < n && k <= n
    ensures Slot(start, k, n) == start <==> k == 0 || k == n
  {
  }

  lemma NextSlot(m: nat, n: nat)
    requires m < n
    ensures (m + 1) % n == if m + 1 < n then m + 1 else 0
  {
    DivUnique(m + 1, n, if m + 1 < n then 0 else 1, if m + 1 < n then m + 1 else 0);
  }

  /** One more step moves one slot on, wrapping at `n`. */
  lemma SlotNext(start: nat, k: nat, n: nat)
    requires start < n && k < n
    ensures Slot(start, k + 1, n) == (Slot(start, k, n) + 1) % n
  {
    NextSlot(Slot(start, k, n), n);
  }

  /** Steps from `start` forward (circularly) to `i`. */
  function Distance(start: nat, i: nat, n: nat): (d: nat)
    requires start < n && i < n
    ensures d < n && Slot(start, d, n) == i
  {
    if i >= start then i - start else i + n - start
  }

  /** Stepping `a` slots and then `c` more is stepping `a + c`, within one turn
      of the table. */
  lemma SlotShift(start: nat, a: nat, c: nat, n: nat)
    requires start < n && a + c <= n
    ensures Slot(Slot(start, a, n), c, n) == Slot(start, a + c, n)
  {
  }

  /** `a / q` rounded up: the fewest rounds of `q` that cover `a`. */
  function CeilDiv(a: nat, q: int): (r: nat)
    requires q >= 1
    ensures a <= r * q && (r == 0 || (r - 1) * q < a)
  {
    var x := a + q - 1;
    assert x == (x / q) * q + x % q;
    x / q
  }

  /** Fewer than `f + 1` full rounds of `q` fall short of `a` only when `f` is
      below the rounded-up quotient. */
  lemma CeilDivBound(a: nat, q: int, f: nat)
    requires q >= 1 && f * q < a
    ensures f < CeilDiv(a, q)
  {
  }
}
