/** A fixed-capacity pool of pre-instantiated objects. Each object is either
    active or inactive; the pool hands out the next inactive object after the
    one it handed out last, scanning circularly, and lists the components of
    all active objects. The objects' `activeSelf` flags are an array owned by
    the pool that callers flip through SetActive (activating a handed-out
    object is the caller's job, not the pool's). */
module GameObjectPool {
  import opened Wrappers
  import opened Common

  const NoIndex: int := -1

  // ---------------------------------------------------------------------------
  // The circular scan of GetAvailableIndex

  /** The first index examined: `(last + 1) % n`. */
  function ScanStart(last: int, n: nat): (s: nat)
    requires n > 0 && -1 <= last < n
    ensures s < n && s == (last + 1) % n
  {
    if last == NoIndex then
      DivUnique(0, n, 0, 0);
      0
    else
      NextSlot(last, n);
      if last + 1 < n then last + 1 else 0
  }

  /** How many indices the scan examines before it gives up: the whole table
      for a pool that has never handed anything out, otherwise every index but
      the one handed out last. */
  function ScanLength(last: int, n: nat): (len: nat)
    requires -1 <= last < n
    ensures len <= n
  {
    if last == NoIndex then n else n - 1
  }

  /** The scan from step `k` to `len`: the first step whose index is inactive,
      or `len` when there is none. */
  function InactiveStep(active: seq<bool>, start: nat, k: nat, len: nat): (j: nat)
    requires start < |active| && k <= len <= |active|
    ensures k <= j <= len
    ensures j < len ==> !active[Slot(start, j, |active|)]
    ensures forall i :: k <= i < j ==> active[Slot(start, i, |active|)]
    decreases len - k
  {
    if k == len then len
    else if !active[Slot(start, k, |active|)] then k
    else InactiveStep(active, start, k + 1, len)
  }

  /** The index GetAvailableIndex returns, or NoIndex. */
  function AvailableIndex(active: seq<bool>, last: int): (r: int)
    requires 0 < |active| && -1 <= last < |active|
  {
    var n := |active|;
    var start := ScanStart(last, n);
    var len := ScanLength(last, n);
    var j := InactiveStep(active, start, 0, len);
    if j < len then Slot(start, j, n) else NoIndex
  }

  /** Stepping on from the index after `last`, the scan comes back to `last`
      after exactly `n - 1` steps. */
  lemma ScanReachesLast(last: nat, n: nat, j: nat)
    requires last < n && j < n
    ensures Slot(ScanStart(last, n), j, n) == last <==> j == n - 1
  {
  }

  lemma DistanceOfSlot(start: nat, j: nat, n: nat)
    requires start < n && j < n
    ensures Distance(start, Slot(start, j, n), n) == j
  {
  }

  /** The scan's result: NoIndex exactly when every object except possibly
      the one handed out last is active; otherwise an inactive index other
      than the last one, and every index the scan passed on the way to it
      (circularly after the last one) is active. */
  lemma AvailableIndexSpec(active: seq<bool>, last: int)
    requires 0 < |active| && -1 <= last < |active|
    ensures var r := AvailableIndex(active, last);
      && (r == NoIndex || (0 <= r < |active| && !active[r] && r != last))
      && (r == NoIndex <==> forall i :: 0 <= i < |active| && i != last ==> active[i])
      && (r != NoIndex ==>
            var start := ScanStart(last, |active|);
            forall j :: 0 <= j < Distance(start, r, |active|) ==> active[Slot(start, j, |active|)])
  {
    var n := |active|;
    var r := AvailableIndex(active, last);
    var start := ScanStart(last, n);
    var len := ScanLength(last, n);
    var j := InactiveStep(active, start, 0, len);
    if j < len {
      if last != NoIndex {
        ScanReachesLast(last, n, j);
      }
      DistanceOfSlot(start, j, n);
    } else {
      forall i | 0 <= i < n && i != last
        ensures active[i]
      {
        var d := Distance(start, i, n);
        if last != NoIndex {
          ScanReachesLast(last, n, d);
        }
      }
    }
  }

  /** A pool whose objects are all active has none available. */
  lemma FullPoolHasNoneAvailable(active: seq<bool>, last: int)
    requires 0 < |active| && -1 <= last < |active|
    requires forall i :: 0 <= i < |active| ==> active[i]
    ensures AvailableIndex(active, last) == NoIndex
  {
    AvailableIndexSpec(active, last);
  }

  // ---------------------------------------------------------------------------
  // GetAvailableIndex as written: the loop `while (currentIndex != last)`

  datatype Outcome = Returned(index: int) | Diverges

  /** The loop as written, at iteration `k`, where `currentIndex` is the slot `k`
      steps after the start. The only loop state is `currentIndex`, so when the
      loop reaches iteration `n` it is back in the state of iteration 0 and
      repeats forever: that is `Diverges`. */
  function AsWrittenFrom(active: seq<bool>, last: int, start: nat, k: nat): Outcome
    requires 0 < |active| && -1 <= last < |active| && start < |active| && k <= |active|
    decreases |active| - k
  {
    var currentIndex := Slot(start, k, |active|);
    if k == |active| then Diverges
    else if currentIndex == last then Returned(NoIndex)
    else if !active[currentIndex] then Returned(currentIndex)
    else AsWrittenFrom(active, last, start, k + 1)
  }

  function GetAvailableIndexAsWritten(active: seq<bool>, last: int): Outcome
    requires 0 < |active| && -1 <= last < |active|
  {
    AsWrittenFrom(active, last, ScanStart(last, |active|), 0)
  }

  lemma {:induction false} AsWrittenFromMatches(active: seq<bool>, last: int, k: nat)
    requires 0 < |active| && -1 <= last < |active| && k <= ScanLength(last, |active|)
    ensures var start := ScanStart(last, |active|);
      var len := ScanLength(last, |active|);
      var j := InactiveStep(active, start, k, len);
      AsWrittenFrom(active, last, start, k) ==
        if j < len then Returned(Slot(start, j, |active|))
        else if last == NoIndex then Diverges
        else Returned(NoIndex)
    decreases |active| - k
  {
    var n := |active|;
    var start := ScanStart(last, n);
    var len := ScanLength(last, n);
    if last != NoIndex {
      ScanReachesLast(last, n, k);
    }
    if k < len && active[Slot(start, k, n)] {
      AsWrittenFromMatches(active, last, k + 1);
    }
  }

  /** The loop as written ends exactly when the pool has handed out an object
      before or some object is inactive, and then returns what the bounded scan
      returns. */
  lemma AsWrittenAgrees(active: seq<bool>, last: int)
    requires 0 < |active| && -1 <= last < |active|
    ensures GetAvailableIndexAsWritten(active, last) == Diverges <==>
      last == NoIndex && forall i :: 0 <= i < |active| ==> active[i]
    ensures GetAvailableIndexAsWritten(active, last) != Diverges ==>
      GetAvailableIndexAsWritten(active, last) == Returned(AvailableIndex(active, last))
  {
    AsWrittenFromMatches(active, last, 0);
    AvailableIndexSpec(active, last);
  }

  /** The finding: a pool that has never handed out an object and whose
      objects are all active loops forever in GetAvailableIndex. */
  lemma AsWrittenDivergesOnFullFreshPool(active: seq<bool>)
    requires |active| > 0 && forall i :: 0 <= i < |active| ==> active[i]
    ensures GetAvailableIndexAsWritten(active, NoIndex) == Diverges
    ensures AvailableIndex(active, NoIndex) == NoIndex
  {
    AsWrittenAgrees(active, NoIndex);
  }

  /** The object handed out last is never examined again on the next call, so a
      pool of one object hands it out at most once (on both versions). */
  lemma SingleObjectPoolHandsOutOnce(activeSelf: bool)
    ensures AvailableIndex([activeSelf], 0) == NoIndex
    ensures GetAvailableIndexAsWritten([activeSelf], 0) == Returned(NoIndex)
  {
    AsWrittenAgrees([activeSelf], 0);
  }

  // ---------------------------------------------------------------------------
  // The active objects, in index order

  function CountActive(active: seq<bool>): (c: nat)
    ensures c <= |active|
  {
    if active == [] then 0
    else CountActive(active[..|active| - 1]) + (if active[|active| - 1] then 1 else 0)
  }

  /** The indices of the active objects, ascending. */
  function ActiveIndices(active: seq<bool>): (r: seq<nat>)
    ensures forall k :: 0 <= k < |r| ==> r[k] < |active|
  {
    if active == [] then []
    else ActiveIndices(active[..|active| - 1]) + (if active[|active| - 1] then [|active| - 1] else [])
  }

  /** The components of the active objects, in index order. */
  function EnabledComponents<T>(active: seq<bool>, components: seq<T>): (r: seq<T>)
    requires |components| == |active|
  {
    if active == [] then []
    else
      EnabledComponents(active[..|active| - 1], components[..|active| - 1]) +
      (if active[|active| - 1] then [components[|active| - 1]] else [])
  }

  /** ActiveIndices holds every active index and nothing else, in strictly
      ascending order, and there are CountActive of them. */
  lemma {:induction false} ActiveIndicesExact(active: seq<bool>)
    ensures |ActiveIndices(active)| == CountActive(active)
    ensures forall i :: i in ActiveIndices(active) <==> 0 <= i < |active| && active[i]
    ensures forall j, k :: 0 <= j < k < |ActiveIndices(active)| ==>
      ActiveIndices(active)[j] < ActiveIndices(active)[k]
  {
    if active != [] {
      var p := active[..|active| - 1];
      ActiveIndicesExact(p);
      forall i | 0 <= i < |p|
        ensures p[i] == active[i]
      {
      }
    }
  }

  /** EnabledComponents lists, for each active index in ascending order, the
      component at that index. */
  lemma {:induction false} EnabledComponentsAreActiveComponents<T>(active: seq<bool>, components: seq<T>)
    requires |components| == |active|
    ensures |EnabledComponents(active, components)| == |ActiveIndices(active)| == CountActive(active)
    ensures forall k :: 0 <= k < |ActiveIndices(active)| ==>
      EnabledComponents(active, components)[k] == components[ActiveIndices(active)[k]]
  {
    ActiveIndicesExact(active);
    if active != [] {
      var n := |active|;
      EnabledComponentsAreActiveComponents(active[..n - 1], components[..n - 1]);
    }
  }

  lemma {:induction false} CountActiveMonotone(active: seq<bool>, i: nat, j: nat)
    requires i <= j <= |active|
    ensures CountActive(active[..i]) <= CountActive(active[..j])
    decreases j - i
  {
    if i < j {
      CountActiveMonotone(active, i, j - 1);
      PrefixStep(active, j - 1);
    }
  }

  lemma PrefixStep<T>(s: seq<T>, i: nat)
    requires i < |s|
    ensures s[..i + 1][..i] == s[..i] && s[..i + 1][i] == s[i] && |s[..i + 1]| == i + 1
  {
  }

  // ---------------------------------------------------------------------------
  // The pool

  class GameObjectPool<G(0), T(0)> {
    const count: nat
    const gameObjects: array<G>
    const components: array<T>
    /** activeSelf of each pooled object */
    const active: array<bool>
    var lastAvailableIndex: int

    ghost predicate Valid()
      reads this
    {
      gameObjects.Length == count && components.Length == count && active.Length == count &&
      -1 <= lastAvailableIndex < count &&
      (active as object) != (gameObjects as object) && (active as object) != (components as object)
    }

    /** `instances[i]` and `componentsOf[i]` stand for the i-th copy of the
        (inactive) prefab and its component, which the engine creates. */
    constructor (count: nat, instances: seq<G>, componentsOf: seq<T>)
      requires |instances| == count && |componentsOf| == count
      ensures Valid() && this.count == count
      ensures fresh(gameObjects) && fresh(components) && fresh(active)
      ensures gameObjects[..] == instances && components[..] == componentsOf
      ensures forall i :: 0 <= i < count ==> !active[i]
      ensures lastAvailableIndex == NoIndex
    {
      this.count := count;
      gameObjects := new G[count];
      components := new T[count];
      active := new bool[count];
      lastAvailableIndex := NoIndex;
      new;
      for i := 0 to count
        invariant gameObjects[..i] == instances[..i] && components[..i] == componentsOf[..i]
        invariant forall j :: 0 <= j < i ==> !active[j]
        invariant lastAvailableIndex == NoIndex
      {
        gameObjects[i] := instances[i];
        components[i] := componentsOf[i];
        active[i] := false;
      }
    }

    /** GameObject.SetActive on one pooled object, as callers do. */
    method SetActive(index: int, value: bool)
      requires Valid() && 0 <= index < count
      modifies active
      ensures Valid()
      ensures active[..] == old(active[..])[index := value]
    {
      active[index] := value;
    }

    /** The corrected scan: the source's loop, which also stops after a full
        circuit so that it ends on a fresh pool whose objects are all active. */
    method GetAvailableIndex() returns (index: int)
      requires Valid() && count > 0
      modifies this`lastAvailableIndex
      ensures Valid()
      ensures index == AvailableIndex(active[..], old(lastAvailableIndex))
      ensures lastAvailableIndex == if index == NoIndex then old(lastAvailableIndex) else index
    {
      ghost var start := ScanStart(lastAvailableIndex, count);
      ghost var len := ScanLength(lastAvailableIndex, count);
      var currentIndex := (lastAvailableIndex + 1) % count;
      var examined := 0;
      while currentIndex != lastAvailableIndex && examined < count
        invariant lastAvailableIndex == old(lastAvailableIndex)
        invariant 0 <= examined <= len
        invariant currentIndex == Slot(start, examined, count)
        invariant InactiveStep(active[..], start, 0, len) == InactiveStep(active[..], start, examined, len)
        decreases count - examined
      {
        if lastAvailableIndex != NoIndex {
          ScanReachesLast(lastAvailableIndex, count, examined);
        }
        if !active[currentIndex] {
          lastAvailableIndex := currentIndex;
          return currentIndex;
        }
        NextSlot(currentIndex, count);
        currentIndex := (currentIndex + 1) % count;
        examined := examined + 1;
      }
      if lastAvailableIndex != NoIndex {
        ScanReachesLast(lastAvailableIndex, count, examined);
      }
      return NoIndex;
    }

    method GetAvailableGameObject() returns (gameObject: Option<G>)
      requires Valid() && count > 0
      modifies this`lastAvailableIndex
      ensures Valid()
      ensures var index := AvailableIndex(active[..], old(lastAvailableIndex));
        && (gameObject == None <==> index == NoIndex)
        && (index != NoIndex ==> 0 <= index < count && gameObject == Some(gameObjects[index]))
      ensures lastAvailableIndex == if gameObject == None then old(lastAvailableIndex)
        else AvailableIndex(active[..], old(lastAvailableIndex))
    {
      AvailableIndexSpec(active[..], lastAvailableIndex);
      var index := GetAvailableIndex();
      if index < 0 {
        gameObject := None;
      } else {
        gameObject := Some(gameObjects[index]);
      }
    }

    /** `default(T)` is modelled as None. */
    method GetAvailableComponent() returns (component: Option<T>)
      requires Valid() && count > 0
      modifies this`lastAvailableIndex
      ensures Valid()
      ensures var index := AvailableIndex(active[..], old(lastAvailableIndex));
        && (component == None <==> index == NoIndex)
        && (index != NoIndex ==> 0 <= index < count && component == Some(components[index]))
      ensures lastAvailableIndex == if component == None then old(lastAvailableIndex)
        else AvailableIndex(active[..], old(lastAvailableIndex))
    {
      AvailableIndexSpec(active[..], lastAvailableIndex);
      var index := GetAvailableIndex();
      if index < 0 {
        component := None;
      } else {
        component := Some(components[index]);
      }
    }

    method GetGameObject(index: int) returns (gameObject: G)
      requires Valid() && 0 <= index < count
      ensures gameObject == gameObjects[index]
    {
      gameObject := gameObjects[index];
    }

    method GetComponent(index: int) returns (component: T)
      requires Valid() && 0 <= index < count
      ensures component == components[index]
    {
      component := components[index];
    }

    /** Count the active objects, then copy their components into a new array
        of exactly that size. */
    method GetEnabledComponents() returns (results: array<T>)
      requires Valid()
      ensures fresh(results)
      ensures results[..] == EnabledComponents(active[..], components[..])
    {
      var enabledCount := 0;
      for i := 0 to count
        invariant enabledCount == CountActive(active[..i])
      {
        PrefixStep(active[..], i);
        if active[i] {
          enabledCount := enabledCount + 1;
        }
      }
      assert active[..count] == active[..];
      var enabledIndex := 0;
      results := new T[enabledCount];
      if enabledCount > 0 {
        for i := 0 to count
          invariant enabledIndex == CountActive(active[..i]) <= enabledCount
          invariant results[..enabledIndex] == EnabledComponents(active[..i], components[..i])
        {
          PrefixStep(active[..], i);
          PrefixStep(components[..], i);
          CountActiveMonotone(active[..], i + 1, count);
          assert active[..count] == active[..];
          if active[i] {
            results[enabledIndex] := components[i];
            enabledIndex := enabledIndex + 1;
          }
        }
        assert components[..count] == components[..];
      } else {
        EnabledComponentsAreActiveComponents(active[..], components[..]);
      }
    }
  }
}
