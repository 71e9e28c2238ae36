/** The round-robin execution throttle. A pool keeps a table of slots, one per
    registered agent; each physics step advances a circular admission window
    over the table that covers at most `requestsPerFrame` occupied slots, and an
    agent runs its expensive logic only while its slot is inside the window. */
module ExecutionPool {
  import opened Lists
  import opened Common

  const NoIndex: int := -1

  /** Number of occupied slots among the `len` slots that start at `start` and
      wrap around the end of the table. */
  function Occupied(registered: seq<bool>, start: nat, len: nat): (k: nat)
    requires start < |registered| && len <= |registered|
    ensures k <= len
  {
    if len == 0 then 0
    else Occupied(registered, start, len - 1) + (if registered[Slot(start, len - 1, |registered|)] then 1 else 0)
  }

  /** How many slots one advance scans from `start`: the first `len >= 1` at
      which `quota` occupied slots have been counted, or the whole table. */
  function WindowLength(registered: seq<bool>, start: nat, quota: int, len: nat): (l: nat)
    requires start < |registered| && 1 <= len <= |registered|
    ensures len <= l <= |registered|
    decreases |registered| - len
  {
    if Occupied(registered, start, len) >= quota || len == |registered| then len
    else WindowLength(registered, start, quota, len + 1)
  }

  /** The scan stops once the quota is met or the whole table is covered. */
  lemma WindowEnds(registered: seq<bool>, start: nat, quota: int, len: nat)
    requires start < |registered| && 1 <= len <= |registered|
    requires Occupied(registered, start, len) >= quota || len == |registered|
    ensures WindowLength(registered, start, quota, len) == len
  {
  }

  lemma WindowGoesOn(registered: seq<bool>, start: nat, quota: int, len: nat)
    requires start < |registered| && 1 <= len < |registered|
    requires Occupied(registered, start, len) < quota
    ensures WindowLength(registered, start, quota, len) == WindowLength(registered, start, quota, len + 1)
  {
  }

  /** The window (minIndex, maxIndex) after one InternalNextFrame. */
  function NextWindow(registered: seq<bool>, minIndex: nat, maxIndex: nat, quota: int): (w: (nat, nat))
    requires |registered| == 0 || (minIndex < |registered| && maxIndex < |registered|)
  {
    if |registered| == 0 then (minIndex, maxIndex)
    else (maxIndex, Slot(maxIndex, WindowLength(registered, maxIndex, quota, 1), |registered|))
  }

  /** The admission test: the half-open circular range [minIndex, maxIndex). */
  predicate InWindow(minIndex: int, maxIndex: int, index: int) {
    if minIndex < maxIndex then index >= minIndex && index < maxIndex
    else index >= minIndex || index < maxIndex
  }

  /** Lowest free slot, or NoIndex when every slot is taken. */
  function FirstFree(registered: seq<bool>): (i: int)
    ensures i == NoIndex || 0 <= i < |registered|
    ensures i == NoIndex <==> forall j :: 0 <= j < |registered| ==> registered[j]
    ensures i != NoIndex ==> !registered[i] && forall j :: 0 <= j < i ==> registered[j]
  {
    if registered == [] then NoIndex
    else if !registered[0] then 0
    else
      var i := FirstFree(registered[1..]);
      assert forall j :: 1 <= j < |registered| ==> registered[j] == registered[1..][j - 1];
      if i == NoIndex then NoIndex else i + 1
  }

  class ExecutionPool {
    const requestsPerFrame: int
    var registered: seq<bool>
    var count: int
    var minIndex: int
    var maxIndex: int

    ghost predicate Valid()
      reads this
    {
      count == |registered| &&
      0 <= minIndex && 0 <= maxIndex &&
      (count == 0 ==> minIndex == 0 && maxIndex == 0) &&
      (count > 0 ==> minIndex < count && maxIndex < count)
    }

    /** The static pool list the source keeps is not modelled; NextFrame takes
        the pools to advance. */
    constructor (requestsPerFrame: int)
      ensures Valid()
      ensures this.requestsPerFrame == requestsPerFrame && registered == []
    {
      this.requestsPerFrame := requestsPerFrame;
      registered := [];
      count := 0;
      minIndex := 0;
      maxIndex := 0;
    }

    predicate IsScheduled(index: int)
      reads this
    {
      InWindow(minIndex, maxIndex, index)
    }

    method InternalNextFrame()
      requires Valid()
      modifies this`minIndex, this`maxIndex
      ensures Valid()
      ensures (minIndex, maxIndex) == NextWindow(registered, old(minIndex), old(maxIndex), requestsPerFrame)
    {
      if count > 0 {
        minIndex := maxIndex;
        var requestCount := 0;
        ghost var len: nat := 0;
        // the source's do-while: the body runs before the condition is first evaluated
        while true
          invariant count == |registered| && minIndex == old(maxIndex) < count
          invariant 0 <= len < count
          invariant maxIndex == Slot(minIndex, len, count)
          invariant requestCount == Occupied(registered, minIndex, len)
          invariant WindowLength(registered, minIndex, requestsPerFrame, 1) ==
                    WindowLength(registered, minIndex, requestsPerFrame, len + 1)
          decreases count - len
        {
          if registered[maxIndex] {
            requestCount := requestCount + 1;
          }
          SlotNext(minIndex, len, count);
          maxIndex := (maxIndex + 1) % count;
          len := len + 1;
          SlotReturns(minIndex, len, count);
          if !(requestCount < requestsPerFrame && maxIndex != minIndex) {
            WindowEnds(registered, minIndex, requestsPerFrame, len);
            break;
          }
          WindowGoesOn(registered, minIndex, requestsPerFrame, len);
        }
      }
    }

    method Register() returns (registration: Registration)
      requires Valid()
      modifies this`registered, this`count
      ensures Valid()
      ensures fresh(registration) && registration.pool == this && registration.Valid()
      ensures var free := FirstFree(old(registered));
        if free != NoIndex then
          registration.index == free && registered == old(registered)[free := true]
        else
          registration.index == old(count) && registered == old(registered) + [true] &&
          count == old(count) + 1
    {
      var index := NoIndex;
      var i := 0;
      while i < count
        invariant 0 <= i <= count
        invariant forall j :: 0 <= j < i ==> registered[j]
        invariant index == NoIndex && registered == old(registered)
        decreases count - i
      {
        if !registered[i] {
          registered := registered[i := true];
          index := i;
          break;
        }
        i := i + 1;
      }
      if index == NoIndex {
        registered := registered + [true];
        count := |registered|;
        index := count - 1;
      }
      registration := new Registration(this, index);
    }

    method Unregister(index: int)
      requires Valid() && 0 <= index < count
      modifies this`registered
      ensures Valid()
      ensures registered == old(registered)[index := false]
    {
      registered := registered[index := false];
    }
  }

  class Registration {
    var pool: ExecutionPool?
    var index: int

    ghost predicate Valid()
      reads this, pool
    {
      (pool == null <==> index == NoIndex) &&
      (pool != null ==> pool.Valid() && 0 <= index < pool.count)
    }

    constructor (pool: ExecutionPool, index: int)
      ensures this.pool == pool && this.index == index
    {
      this.pool := pool;
      this.index := index;
    }

    /** The finalizer that also calls Dispose is not modelled. */
    method Dispose()
      requires Valid()
      modifies this, pool
      ensures Valid() && pool == null && index == NoIndex
      ensures old(index) != NoIndex ==>
        old(pool).registered == old(pool.registered)[old(index) := false] &&
        old(pool).count == old(pool.count) &&
        old(pool).minIndex == old(pool.minIndex) && old(pool).maxIndex == old(pool.maxIndex)
      ensures old(index) == NoIndex ==> pool == old(pool)
    {
      if index != NoIndex {
        pool.Unregister(index);
        pool := null;
        index := NoIndex;
      }
    }

    predicate IsScheduled()
      requires pool != null
      reads this, pool
    {
      pool.IsScheduled(index)
    }
  }

  /** The static NextFrame: advance every pool once. */
  method NextFrame(pools: seq<ExecutionPool>)
    requires NoDuplicates(pools)
    requires forall i :: 0 <= i < |pools| ==> pools[i].Valid()
    modifies set p | p in pools
    ensures forall i :: 0 <= i < |pools| ==> pools[i].Valid() && pools[i].registered == old(pools[i].registered)
    ensures forall i :: 0 <= i < |pools| ==>
      old(pools[i].Valid()) &&
      (pools[i].minIndex, pools[i].maxIndex) ==
      NextWindow(pools[i].registered, old(pools[i].minIndex), old(pools[i].maxIndex), pools[i].requestsPerFrame)
  {
    for i := 0 to |pools|
      invariant forall j :: 0 <= j < |pools| ==> pools[j].Valid() && pools[j].registered == old(pools[j].registered)
      invariant forall j :: 0 <= j < i ==>
        (pools[j].minIndex, pools[j].maxIndex) ==
        NextWindow(pools[j].registered, old(pools[j].minIndex), old(pools[j].maxIndex), pools[j].requestsPerFrame)
      invariant forall j :: i <= j < |pools| ==>
        pools[j].minIndex == old(pools[j].minIndex) && pools[j].maxIndex == old(pools[j].maxIndex)
    {
      pools[i].InternalNextFrame();
    }
  }

  lemma {:induction false} OccupiedMonotone(registered: seq<bool>, start: nat, j: nat, k: nat)
    requires start < |registered| && j <= k <= |registered|
    ensures Occupied(registered, start, j) <= Occupied(registered, start, k)
    decreases k - j
  {
    if j < k {
      OccupiedMonotone(registered, start, j, k - 1);
    }
  }

  /** The scan continues while fewer than `quota` slots are counted, and it stops
      short of the whole table only once `quota` have been counted. */
  lemma {:induction false} WindowStops(registered: seq<bool>, start: nat, quota: int, len: nat)
    requires start < |registered| && 1 <= len <= |registered|
    ensures forall k :: len <= k < WindowLength(registered, start, quota, len) ==>
      Occupied(registered, start, k) < quota
    ensures WindowLength(registered, start, quota, len) < |registered| ==>
      Occupied(registered, start, WindowLength(registered, start, quota, len)) >= quota
    decreases |registered| - len
  {
    if !(Occupied(registered, start, len) >= quota || len == |registered|) {
      WindowStops(registered, start, quota, len + 1);
    }
  }

  /** One advance counts at most `quota` occupied slots (a single slot when
      `quota <= 0`, because the body of the do-while runs once before the test);
      when it stops before covering the whole table it has counted exactly
      `quota` slots and the last slot it scanned is occupied; and when the table
      holds fewer than `quota` occupied slots the window covers the whole table. */
  lemma WindowQuota(registered: seq<bool>, start: nat, quota: int)
    requires start < |registered|
    ensures var l := WindowLength(registered, start, quota, 1);
      && (quota >= 1 ==> Occupied(registered, start, l) <= quota)
      && (quota <= 0 ==> l == 1)
      && (l < |registered| && quota >= 1 ==>
            Occupied(registered, start, l) == quota && registered[Slot(start, l - 1, |registered|)])
      && (Occupied(registered, start, |registered|) < quota ==> l == |registered|)
  {
    var n := |registered|;
    var l := WindowLength(registered, start, quota, 1);
    WindowStops(registered, start, quota, 1);
    if l >= 2 {
      assert Occupied(registered, start, l - 1) < quota;
    }
    if quota <= 0 {
      assert Occupied(registered, start, 1) >= quota;
    }
    if l < n && Occupied(registered, start, n) < quota {
      OccupiedMonotone(registered, start, l, n);
    }
  }

  /** After an advance from `maxIndex`, slot `i` is scheduled exactly when it is
      fewer than the window length steps past `maxIndex`; in particular every
      slot is scheduled when the window spans the whole table. */
  lemma ScheduledAfterAdvance(registered: seq<bool>, minIndex: nat, maxIndex: nat, quota: int, i: nat)
    requires minIndex < |registered| && maxIndex < |registered| && i < |registered|
    ensures var w := NextWindow(registered, minIndex, maxIndex, quota);
      && w.0 == maxIndex && w.1 < |registered|
      && (InWindow(w.0, w.1, i) <==> Distance(maxIndex, i, |registered|) < WindowLength(registered, maxIndex, quota, 1))
      && (WindowLength(registered, maxIndex, quota, 1) == |registered| ==> w.1 == w.0 && InWindow(w.0, w.1, i))
  {
  }

  /** The maximum index after `frames` advances from `maxIndex`. */
  function MaxAfter(registered: seq<bool>, maxIndex: nat, quota: int, frames: nat): (m: nat)
    requires maxIndex < |registered|
    ensures m < |registered|
    decreases frames
  {
    if frames == 0 then maxIndex
    else MaxAfter(registered, NextWindow(registered, maxIndex, maxIndex, quota).1, quota, frames - 1)
  }

  /** Slot `i` is inside the window of advance number `frames + 1`. */
  predicate ScheduledAt(registered: seq<bool>, maxIndex: nat, quota: int, i: nat, frames: nat)
    requires maxIndex < |registered|
  {
    var m := MaxAfter(registered, maxIndex, quota, frames);
    var w := NextWindow(registered, m, m, quota);
    InWindow(w.0, w.1, i)
  }

  /** Fairness: whatever the quota and the occupancy, the window moves on by at
      least one slot per advance, so every slot is scheduled within as many
      advances as it is steps away from the current maximum index (at most the
      table size). */
  lemma {:induction false} ScheduledWithin(registered: seq<bool>, maxIndex: nat, quota: int, i: nat)
    requires maxIndex < |registered| && i < |registered|
    ensures exists frames: nat ::
      frames <= Distance(maxIndex, i, |registered|) && ScheduledAt(registered, maxIndex, quota, i, frames)
    decreases Distance(maxIndex, i, |registered|)
  {
    var n := |registered|;
    var l := WindowLength(registered, maxIndex, quota, 1);
    ScheduledAfterAdvance(registered, maxIndex, maxIndex, quota, i);
    if Distance(maxIndex, i, n) < l {
      assert ScheduledAt(registered, maxIndex, quota, i, 0);
    } else {
      var next := NextWindow(registered, maxIndex, maxIndex, quota).1;
      assert next == Slot(maxIndex, l, n);
      assert Distance(next, i, n) == Distance(maxIndex, i, n) - l;
      ScheduledWithin(registered, next, quota, i);
      var f: nat :| f <= Distance(next, i, n) && ScheduledAt(registered, next, quota, i, f);
      assert MaxAfter(registered, maxIndex, quota, f + 1) == MaxAfter(registered, next, quota, f);
      assert ScheduledAt(registered, maxIndex, quota, i, f + 1);
    }
  }

  /** Number of registered slots in the table. */
  function RegisteredCount(registered: seq<bool>): nat {
    if registered == [] then 0
    else RegisteredCount(registered[..|registered| - 1]) + (if registered[|registered| - 1] then 1 else 0)
  }

  /** Counting `a + b` slots from `start` counts the first `a`, then `b` more
      from where those end. */
  lemma {:induction false} OccupiedSplit(registered: seq<bool>, start: nat, a: nat, b: nat)
    requires start < |registered| && a + b <= |registered|
    ensures Occupied(registered, start, a + b) ==
      Occupied(registered, start, a) + Occupied(registered, Slot(start, a, |registered|), b)
    decreases b
  {
    if b > 0 {
      OccupiedSplit(registered, start, a, b - 1);
      SlotShift(start, a, b - 1, |registered|);
    }
  }

  lemma {:induction false} OccupiedFromZero(registered: seq<bool>, len: nat)
    requires 0 < |registered| && len <= |registered|
    ensures Occupied(registered, 0, len) == RegisteredCount(registered[..len])
  {
    if len > 0 {
      OccupiedFromZero(registered, len - 1);
      assert registered[..len][..len - 1] == registered[..len - 1];
    }
  }

  /** One full turn of the table from any slot counts every registered slot. */
  lemma OccupiedWholeTable(registered: seq<bool>, start: nat)
    requires start < |registered|
    ensures Occupied(registered, start, |registered|) == RegisteredCount(registered)
  {
    var n := |registered|;
    OccupiedSplit(registered, start, n - start, start);
    OccupiedSplit(registered, 0, start, n - start);
    OccupiedFromZero(registered, n);
    assert registered[..n] == registered;
  }

  /** Fairness with a positive quota: every earlier advance admits `quota`
      registered slots that lie before slot `i`, so a registered slot is
      scheduled by an advance whose predecessors admitted fewer slots than are
      registered from the current maximum index up to and including `i`. */
  lemma {:induction false} ScheduledWithinRounds(registered: seq<bool>, maxIndex: nat, quota: int, i: nat)
    requires maxIndex < |registered| && i < |registered| && registered[i] && quota >= 1
    ensures exists frames: nat ::
      frames * quota < Occupied(registered, maxIndex, Distance(maxIndex, i, |registered|) + 1) &&
      ScheduledAt(registered, maxIndex, quota, i, frames)
    decreases Distance(maxIndex, i, |registered|)
  {
    var n := |registered|;
    var d := Distance(maxIndex, i, n);
    if d < WindowLength(registered, maxIndex, quota, 1) {
      ScheduledNow(registered, maxIndex, quota, i);
      assert 0 * quota < Occupied(registered, maxIndex, d + 1);
    } else {
      var next := NextWindow(registered, maxIndex, maxIndex, quota).1;
      PastTheWindow(registered, maxIndex, quota, i);
      ScheduledWithinRounds(registered, next, quota, i);
      var f: nat :| f * quota < Occupied(registered, next, Distance(next, i, n) + 1) && ScheduledAt(registered, next, quota, i, f);
      RoundsStep(f, quota, Occupied(registered, next, Distance(next, i, n) + 1));
      ScheduledLater(registered, maxIndex, quota, i, f);
    }
  }

  /** A registered slot within the window of the next advance is scheduled by
      it. */
  lemma ScheduledNow(registered: seq<bool>, maxIndex: nat, quota: int, i: nat)
    requires maxIndex < |registered| && i < |registered| && registered[i]
    requires Distance(maxIndex, i, |registered|) < WindowLength(registered, maxIndex, quota, 1)
    ensures ScheduledAt(registered, maxIndex, quota, i, 0)
    ensures Occupied(registered, maxIndex, Distance(maxIndex, i, |registered|) + 1) >= 1
  {
    ScheduledAfterAdvance(registered, maxIndex, maxIndex, quota, i);
  }

  /** A slot beyond the next window is closer to that window's end, and the
      slots counted up to it are the window's `quota` and those after it. */
  lemma PastTheWindow(registered: seq<bool>, maxIndex: nat, quota: int, i: nat)
    requires maxIndex < |registered| && i < |registered| && quota >= 1
    requires Distance(maxIndex, i, |registered|) >= WindowLength(registered, maxIndex, quota, 1)
    ensures var next := NextWindow(registered, maxIndex, maxIndex, quota).1;
      var d := Distance(maxIndex, i, |registered|);
      && Distance(next, i, |registered|) < d
      && Occupied(registered, maxIndex, d + 1) == quota + Occupied(registered, next, Distance(next, i, |registered|) + 1)
  {
    var n := |registered|;
    var d := Distance(maxIndex, i, n);
    var l := WindowLength(registered, maxIndex, quota, 1);
    WindowQuota(registered, maxIndex, quota);
    var next := NextWindow(registered, maxIndex, maxIndex, quota).1;
    assert next == Slot(maxIndex, l, n);
    assert Distance(next, i, n) == d - l;
    OccupiedSplit(registered, maxIndex, l, d - l + 1);
  }

  lemma RoundsStep(f: nat, quota: int, b: int)
    requires f * quota < b
    ensures (f + 1) * quota < quota + b
  {
  }

  /** Scheduled `frames` advances after the next window's end is scheduled
      `frames + 1` advances from here. */
  lemma ScheduledLater(registered: seq<bool>, maxIndex: nat, quota: int, i: nat, frames: nat)
    requires maxIndex < |registered|
    requires ScheduledAt(registered, NextWindow(registered, maxIndex, maxIndex, quota).1, quota, i, frames)
    ensures ScheduledAt(registered, maxIndex, quota, i, frames + 1)
  {
    assert MaxAfter(registered, maxIndex, quota, frames + 1) ==
      MaxAfter(registered, NextWindow(registered, maxIndex, maxIndex, quota).1, quota, frames);
  }

  /** The fairness bound: with no registration changes and a positive quota,
      every registered slot is scheduled within `ceil(registered / quota)`
      advances (advance number `frames + 1` with `frames` below that bound);
      for example ten registered agents at a quota of three are each admitted
      within four advances. */
  lemma ScheduledWithinQuotaRounds(registered: seq<bool>, maxIndex: nat, quota: int, i: nat)
    requires maxIndex < |registered| && i < |registered| && registered[i] && quota >= 1
    ensures exists frames: nat ::
      frames < CeilDiv(RegisteredCount(registered), quota) &&
      ScheduledAt(registered, maxIndex, quota, i, frames)
  {
    var n := |registered|;
    var d := Distance(maxIndex, i, n);
    var a := Occupied(registered, maxIndex, d + 1);
    ScheduledWithinRounds(registered, maxIndex, quota, i);
    OccupiedMonotone(registered, maxIndex, d + 1, n);
    OccupiedWholeTable(registered, maxIndex);
    var f: nat :| f * quota < a && ScheduledAt(registered, maxIndex, quota, i, f);
    RoundsWithin(f, quota, a, RegisteredCount(registered));
  }

  lemma RoundsWithin(f: nat, quota: int, a: nat, total: nat)
    requires quota >= 1 && f * quota < a <= total
    ensures f < CeilDiv(total, quota)
  {
    CeilDivBound(total, quota, f);
  }
}
