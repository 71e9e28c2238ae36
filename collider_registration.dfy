/** The registration protocol of a world collider: OnEnable adds the collider
    to its world's list unless its flag says it is already there, OnDisable
    removes it only if the flag says it is there, and the flag follows. */
module ColliderRegistration {
  import opened Lists

  datatype Registration<T> = Registration(colliders: seq<T>, added: bool)

  /** OnEnable of collider `x`. */
  function Enable<T>(r: Registration<T>, x: T): Registration<T> {
    if r.added then r else Registration(r.colliders + [x], true)
  }

  /** OnDisable of collider `x`. */
  function Disable<T(==)>(r: Registration<T>, x: T): Registration<T> {
    if r.added then Registration(RemoveFirst(r.colliders, x), false) else r
  }

  /** The invariant: `x` is in the list exactly once when its flag is set,
      and not at all otherwise. */
  ghost predicate Tracks<T>(r: Registration<T>, x: T) {
    multiset(r.colliders)[x] == if r.added then 1 else 0
  }

  /** A run of OnEnable (`true`) and OnDisable (`false`) calls. */
  function Toggle<T(==)>(r: Registration<T>, x: T, events: seq<bool>): Registration<T>
    decreases |events|
  {
    if events == [] then r
    else Toggle(if events[0] then Enable(r, x) else Disable(r, x), x, events[1..])
  }

  /** Each callback keeps the invariant, leaves the flag as its name says,
      and touches no other collider's entries. */
  lemma {:induction false} CallbacksKeepTracking<T>(r: Registration<T>, x: T)
    requires Tracks(r, x)
    ensures Tracks(Enable(r, x), x) && Enable(r, x).added
    ensures Tracks(Disable(r, x), x) && !Disable(r, x).added
    ensures x in Enable(r, x).colliders && x !in Disable(r, x).colliders
    ensures forall y :: y != x ==> multiset(Enable(r, x).colliders)[y] == multiset(r.colliders)[y]
    ensures forall y :: y != x ==> multiset(Disable(r, x).colliders)[y] == multiset(r.colliders)[y]
  {
    RemoveFirstMultiset(r.colliders, x);
    assert multiset(r.colliders + [x]) == multiset(r.colliders) + multiset{x};
  }

  /** Any run of enable and disable calls keeps the flag and the list in
      step, ends with the flag of the last call, and leaves every other
      collider's entries as they were. */
  lemma {:induction false} ToggleKeepsTracking<T>(r: Registration<T>, x: T, events: seq<bool>)
    requires Tracks(r, x)
    ensures Tracks(Toggle(r, x, events), x)
    ensures Toggle(r, x, events).added <==> if events == [] then r.added else events[|events| - 1]
    ensures x in Toggle(r, x, events).colliders <==> Toggle(r, x, events).added
    ensures forall y :: y != x ==> multiset(Toggle(r, x, events).colliders)[y] == multiset(r.colliders)[y]
    decreases |events|
  {
    if events != [] {
      CallbacksKeepTracking(r, x);
      var next := if events[0] then Enable(r, x) else Disable(r, x);
      ToggleKeepsTracking(next, x, events[1..]);
      if |events| > 1 {
        assert events[1..][|events[1..]| - 1] == events[|events| - 1];
      }
    }
  }

  /** Calling OnEnable twice adds the collider once; so does OnDisable twice
      remove it once. */
  lemma CallbacksAreIdempotent<T>(r: Registration<T>, x: T)
    ensures Enable(Enable(r, x), x) == Enable(r, x)
    ensures Disable(Disable(r, x), x) == Disable(r, x)
  {
  }

  /** Disabling right after enabling a collider that was not added restores
      the list. */
  lemma EnableThenDisable<T>(r: Registration<T>, x: T)
    requires !r.added && x !in r.colliders
    ensures Disable(Enable(r, x), x) == r
  {
    RemoveFirstAfterAppend(r.colliders, x);
  }
}
