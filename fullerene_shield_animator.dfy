/** The shield animator: shields register in a shared list, and every frame an
    animator animates a bounded run of consecutive shields, resuming where it
    stopped the frame before, so that the cost per frame stays bounded. */
module FullereneShieldAnimator {
  import opened Lists
  import opened Common

  const AnimationLimit: nat := 32

  /** The list of animated shields, shared by every animator. */
  class ShieldList<S(==)> {
    var shields: seq<S>

    constructor ()
      ensures shields == []
    {
      shields := [];
    }

    method AddShield(shield: S)
      modifies this
      ensures shields == old(shields) + [shield]
    {
      shields := shields + [shield];
    }

    /** List.Remove: deletes the first occurrence, if there is one. */
    method RemoveShield(shield: S)
      modifies this
      ensures shields == RemoveFirst(old(shields), shield)
    {
      shields := RemoveFirst(shields, shield);
    }
  }

  /** Where an Update starts: the cursor, or 0 once the list has shrunk below it. */
  function StartCursor(cursor: nat, count: nat): (c: nat)
    requires count > 0
    ensures c < count
  {
    if cursor >= count then 0 else cursor
  }

  function Min(a: nat, b: nat): nat {
    if a <= b then a else b
  }

  /** The indices one Update animates, in order, when it starts at `start`. */
  function Animation(start: nat, count: nat): (r: seq<nat>)
    requires start < count
  {
    seq(Min(AnimationLimit, count), k requires 0 <= k < Min(AnimationLimit, count) => Slot(start, k, count))
  }

  /** One Update animates between 1 and AnimationLimit shields, starting at the
      cursor, each the one after the previous (modulo the count), never the
      same shield twice, and every shield once when there are at most
      AnimationLimit of them; the cursor it leaves is the index after the last
      one animated. */
  lemma AnimationSpec(start: nat, count: nat)
    requires start < count
    ensures var r := Animation(start, count);
      && 1 <= |r| <= AnimationLimit && |r| == Min(AnimationLimit, count)
      && r[0] == start
      && (forall k :: 0 <= k < |r| ==> r[k] < count)
      && (forall k :: 0 <= k < |r| - 1 ==> r[k + 1] == (r[k] + 1) % count)
      && (forall j, k :: 0 <= j < k < |r| ==> r[j] != r[k])
      && (count <= AnimationLimit ==> forall i :: 0 <= i < count ==> i in r)
      && Slot(start, |r|, count) == (r[|r| - 1] + 1) % count
  {
    AnimationSteps(start, count);
    AnimationDistinct(start, count);
    if count <= AnimationLimit {
      AnimationCovers(start, count);
    }
    AnimationCursor(start, count);
  }

  lemma AnimationSteps(start: nat, count: nat)
    requires start < count
    ensures var r := Animation(start, count);
      forall k :: 0 <= k < |r| - 1 ==> r[k + 1] == (r[k] + 1) % count
  {
    var r := Animation(start, count);
    forall k | 0 <= k < |r| - 1
      ensures r[k + 1] == (r[k] + 1) % count
    {
      NextSlot(r[k], count);
    }
  }

  lemma AnimationDistinct(start: nat, count: nat)
    requires start < count
    ensures var r := Animation(start, count);
      forall j, k :: 0 <= j < k < |r| ==> r[j] != r[k]
  {
    var r := Animation(start, count);
    forall j, k | 0 <= j < k < |r|
      ensures r[j] != r[k]
    {
      SlotInjective(start, j, k, count);
    }
  }

  /** The cursor left behind is the slot after the last one animated. */
  lemma AnimationCursor(start: nat, count: nat)
    requires start < count
    ensures var r := Animation(start, count);
      |r| >= 1 && Slot(start, |r|, count) == (r[|r| - 1] + 1) % count
  {
    var r := Animation(start, count);
    NextSlot(r[|r| - 1], count);
  }

  /** Fewer than a full turn of steps never lands on the same slot twice. */
  lemma SlotInjective(start: nat, j: nat, k: nat, n: nat)
    requires start < n && j < k < n
    ensures Slot(start, j, n) != Slot(start, k, n)
  {
  }

  lemma AnimationCovers(start: nat, count: nat)
    requires start < count <= AnimationLimit
    ensures forall i :: 0 <= i < count ==> i in Animation(start, count)
  {
    var r := Animation(start, count);
    forall i | 0 <= i < count
      ensures i in r
    {
      assert r[Distance(start, i, count)] == i;
    }
  }

  class Animator {
    var lastAnimationIndex: nat

    constructor ()
      ensures lastAnimationIndex == 0
    {
      lastAnimationIndex := 0;
    }

    /** The AnimateShield calls are the returned indices, in call order. */
    method Update<S(==)>(list: ShieldList<S>) returns (animated: seq<nat>)
      modifies this
      ensures var count := |list.shields|;
        if count == 0 then
          animated == [] && lastAnimationIndex == old(lastAnimationIndex)
        else
          var start := StartCursor(old(lastAnimationIndex), count);
          animated == Animation(start, count) &&
          lastAnimationIndex == Slot(start, |animated|, count) && lastAnimationIndex < count
    {
      var count := |list.shields|;
      animated := [];
      if count > 0 {
        if lastAnimationIndex >= count {
          lastAnimationIndex := 0;
        }
        ghost var start := lastAnimationIndex;
        assert start == StartCursor(old(lastAnimationIndex), count);
        var animationIndex := lastAnimationIndex;
        var animationCount := 0;
        // the source's do-while: the body runs before the condition is first evaluated
        while true
          invariant lastAnimationIndex == start < count
          invariant 0 <= animationCount < Min(AnimationLimit, count)
          invariant animationIndex == Slot(lastAnimationIndex, animationCount, count)
          invariant animated == Animation(lastAnimationIndex, count)[..animationCount]
          decreases count - animationCount
        {
          ghost var run := Animation(lastAnimationIndex, count);
          assert run[animationCount] == animationIndex;
          assert run[..animationCount + 1] == run[..animationCount] + [animationIndex];
          animated := animated + [animationIndex];
          NextSlot(animationIndex, count);
          animationIndex := (animationIndex + 1) % count;
          animationCount := animationCount + 1;
          SlotReturns(lastAnimationIndex, animationCount, count);
          if !(animationCount < AnimationLimit && animationIndex != lastAnimationIndex) {
            assert animationCount == Min(AnimationLimit, count);
            assert animated == Animation(lastAnimationIndex, count);
            break;
          }
        }
        lastAnimationIndex := animationIndex;
      }
    }
  }
}
