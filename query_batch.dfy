/** The state machine every batched GPU query of the world follows (terrain
    heights, point collisions, sphere collisions). Its state is three fields:
    the snapshot of requesters dispatched and still in flight (or none), the
    count the buffers were last allocated for, and the rendered frame of the
    last dispatch. The GPU and its asynchronous readback are an oracle: a
    readback is either not done yet, done with an error, or done with data. */
module QueryBatch {
  import opened Wrappers
  import opened Numerics

  datatype Readback = Readback(done: bool, hasError: bool, data: seq<Float>)

  datatype Batch<R> = Batch(dispatched: Option<seq<R>>, lastCount: int, requestFrame: int)

  /** A fresh world: nothing in flight, no buffers, no dispatch so far. */
  function Initial<R>(): Batch<R> {
    Batch(None, 0, 0)
  }

  /** The readback delivers results: a batch is in flight and it completed
      without error. */
  predicate Delivers<R>(b: Batch<R>, rb: Readback) {
    b.dispatched.Some? && rb.done && !rb.hasError
  }

  /** What Handle* leaves: a completed readback ends the batch, and an error
      also forgets the buffer size so that the next dispatch reallocates. */
  function Handle<R>(b: Batch<R>, rb: Readback): Batch<R> {
    if b.dispatched.Some? && rb.done then
      Batch(None, if rb.hasError then 0 else b.lastCount, b.requestFrame)
    else
      b
  }

  /** The second half of Perform* starts a batch: not twice in one rendered
      frame, never while one is in flight, never for an empty registry. */
  predicate Dispatches<R>(h: Batch<R>, count: nat, frame: int) {
    h.requestFrame != frame && h.dispatched.None? && count > 0
  }

  /** The buffers are reallocated on a dispatch whose count differs from the
      last one. */
  predicate Reallocates<R>(h: Batch<R>, count: nat, frame: int) {
    Dispatches(h, count, frame) && h.lastCount != count
  }

  function Dispatch<R>(h: Batch<R>, registry: seq<R>, frame: int): Batch<R> {
    if Dispatches(h, |registry|, frame) then Batch(Some(registry), |registry|, frame) else h
  }

  /** One Perform*: handle the readback, then dispatch a copy of the registry
      as it stands after handling. */
  function Perform<R>(b: Batch<R>, rb: Readback, registry: seq<R>, frame: int): Batch<R> {
    Dispatch(Handle(b, rb), registry, frame)
  }

  /** The invariant: a batch in flight was dispatched with buffers sized for
      exactly its snapshot, which is never empty. */
  predicate Consistent<R>(b: Batch<R>) {
    b.lastCount >= 0 && (b.dispatched.Some? ==> b.lastCount == |b.dispatched.value| > 0)
  }

  lemma InitialIsConsistent<R>()
    ensures Consistent(Initial<R>())
    ensures Initial<R>().dispatched.None?
  {
  }

  /** Every step keeps the invariant. */
  lemma PerformKeepsConsistent<R>(b: Batch<R>, rb: Readback, registry: seq<R>, frame: int)
    requires Consistent(b)
    ensures Consistent(Handle(b, rb))
    ensures Consistent(Perform(b, rb, registry, frame))
  {
  }

  /** Handle never starts a batch and never moves the recorded frame; it ends
      the batch in flight exactly when the readback is done, and it changes the
      last count only on an error, and then only downwards to zero. Handling
      the same readback twice is handling it once. */
  lemma HandleProperties<R>(b: Batch<R>, rb: Readback)
    requires Consistent(b)
    ensures var h := Handle(b, rb);
      && (h.dispatched.Some? ==> h == b)
      && h.requestFrame == b.requestFrame
      && (h.dispatched.None? <==> b.dispatched.None? || rb.done)
      && (h.lastCount != b.lastCount ==> rb.hasError && h.lastCount == 0 < b.lastCount)
      && Handle(h, rb) == h
  {
  }

  /** Dispatch changes the state exactly when it starts a batch, and then it
      sends the registry as it stands, with buffers sized for it, in the current
      frame. It is idempotent, and once it has started a batch a second Dispatch
      in the same frame changes nothing, whatever its registry. */
  lemma DispatchProperties<R>(h: Batch<R>, registry: seq<R>, other: seq<R>, frame: int)
    ensures var d := Dispatch(h, registry, frame);
      && (d != h <==> Dispatches(h, |registry|, frame))
      && (d == h || (d.dispatched == Some(registry) && d.lastCount == |registry| && d.requestFrame == frame))
      && Dispatch(d, registry, frame) == d
      && (Dispatches(h, |registry|, frame) ==> Dispatch(d, other, frame) == d)
  {
  }

  /** A dispatch needs nothing in flight after Handle: in particular nothing
      is dispatched while the readback of the batch in flight is pending. */
  lemma NoDispatchWhilePending<R>(b: Batch<R>, rb: Readback, registry: seq<R>, frame: int)
    requires b.dispatched.Some? && !rb.done
    ensures Perform(b, rb, registry, frame) == b
  {
  }

  /** At most one dispatch per rendered frame: after a step in frame `frame`,
      a second step in the same frame does not dispatch, whatever the
      readback and the registry. */
  lemma AtMostOneDispatchPerFrame<R>(b: Batch<R>, rb1: Readback, reg1: seq<R>, rb2: Readback, reg2: seq<R>, frame: int)
    requires Dispatches(Handle(b, rb1), |reg1|, frame)
    ensures !Dispatches(Handle(Perform(b, rb1, reg1, frame), rb2), |reg2|, frame)
  {
  }

  /** After an error the next dispatch reallocates; the failed batch is
      dispatched again in full at the next frame when the registry is kept. */
  lemma ErrorThenRetry<R>(b: Batch<R>, rb: Readback, frame: int)
    requires Consistent(b) && b.dispatched.Some? && rb.done && rb.hasError
    requires b.requestFrame != frame
    ensures Reallocates(Handle(b, rb), |b.dispatched.value|, frame)
    ensures Perform(b, rb, b.dispatched.value, frame) == Batch(b.dispatched, |b.dispatched.value|, frame)
  {
  }

  /** Steady state: after a successful readback, a registry of the same size
      is dispatched again at the next frame into the existing buffers. */
  lemma SteadyStateReusesBuffers<R>(b: Batch<R>, rb: Readback, registry: seq<R>, frame: int)
    requires Consistent(b) && Delivers(b, rb)
    requires b.requestFrame != frame && |registry| == |b.dispatched.value|
    ensures Dispatches(Handle(b, rb), |registry|, frame)
    ensures !Reallocates(Handle(b, rb), |registry|, frame)
  {
  }

  /** A query whose buffers were released while its count was kept (nothing
      in flight, count recorded) dispatches a registry of that size at the
      next frame without reallocating, that is into the released buffers. */
  lemma ReenabledQueryReusesItsBuffers<R>(b: Batch<R>, registry: seq<R>, frame: int)
    requires b.dispatched.None? && b.lastCount == |registry| > 0 && b.requestFrame != frame
    ensures Dispatches(b, |registry|, frame) && !Reallocates(b, |registry|, frame)
    ensures Perform(b, Readback(false, false, []), registry, frame).lastCount == b.lastCount
  {
  }

  /** Forgetting the count instead makes that dispatch reallocate. */
  lemma ForgottenCountReallocates<R>(b: Batch<R>, registry: seq<R>, frame: int)
    requires b.dispatched.None? && b.lastCount == 0 && |registry| > 0 && b.requestFrame != frame
    ensures Reallocates(b, |registry|, frame)
  {
  }

  /** Results are delivered once: the step after a delivery has nothing to
      deliver, whatever its readback, unless it dispatched again. */
  lemma DeliveredOnce<R>(b: Batch<R>, rb: Readback, rb2: Readback)
    requires Delivers(b, rb)
    ensures !Delivers(Handle(b, rb), rb2)
  {
  }

  /** The steps of a run over frames: `Run(b, steps)` applies one Perform per
      (readback, registry, frame) triple. */
  function Run<R>(b: Batch<R>, steps: seq<(Readback, seq<R>, int)>): Batch<R>
    decreases |steps|
  {
    if steps == [] then b
    else Run(Perform(b, steps[0].0, steps[0].1, steps[0].2), steps[1..])
  }

  /** The invariant holds after any run from a consistent state. */
  lemma {:induction false} RunKeepsConsistent<R>(b: Batch<R>, steps: seq<(Readback, seq<R>, int)>)
    requires Consistent(b)
    ensures Consistent(Run(b, steps))
    decreases |steps|
  {
    if steps != [] {
      PerformKeepsConsistent(b, steps[0].0, steps[0].1, steps[0].2);
      RunKeepsConsistent(Perform(b, steps[0].0, steps[0].1, steps[0].2), steps[1..]);
    }
  }

  /** The recorded frame moves only to frames of the run. */
  lemma {:induction false} RunFrames<R>(b: Batch<R>, steps: seq<(Readback, seq<R>, int)>)
    ensures Run(b, steps).requestFrame == b.requestFrame ||
      exists k :: 0 <= k < |steps| && Run(b, steps).requestFrame == steps[k].2
    decreases |steps|
  {
    if steps != [] {
      var next := Perform(b, steps[0].0, steps[0].1, steps[0].2);
      RunFrames(next, steps[1..]);
      if Run(b, steps).requestFrame != next.requestFrame {
        var k :| 0 <= k < |steps[1..]| && Run(b, steps).requestFrame == steps[1..][k].2;
        assert steps[k + 1].2 == steps[1..][k].2;
      }
    }
  }
}
