/** The world's bookkeeping: the active-player lists, the team selectors, and
    the three batched GPU queries fed by registries of requesters (terrain
    height samplers, point colliders, sphere colliders). Each query follows
    the state machine of module QueryBatch; the GPU and its readback are
    parameters. The point and sphere pipelines are the same code over
    different test records, so each is one CollisionQuery object of the
    world holding that pipeline's fields. */
module GameWorld {
  import opened Wrappers
  import opened Numerics
  import opened Lists
  import opened Common
  import opened Extensions
  import opened CollisionRecord
  import opened QueryBatch
  import opened ActivePlayers
  import opened ColliderRegistration
  import EP = ExecutionPool
  import GP = GameObjectPool

  /** Engine objects the world only holds references to. */
  class GameObject { }
  class Missile { }
  class RlController { }
  class Tf { }

  /** A GPU buffer as the world sees it: its element count and stride in
      bytes. Releasing one is setting the field that holds it to None. */
  datatype ComputeBuffer = ComputeBuffer(count: int, stride: int)

  const FloatSize: int := 4
  const TerrainHeightLocationSize: int := 2
  const TerrainHeightSize: int := 1
  const PointWorldTestSize: int := 6
  const SphereWorldTestSize: int := 7

  datatype ColliderKind = Point | Sphere

  /** PointWorldTest and SphereWorldTest: what one collider asks the GPU. */
  datatype CollisionTest =
    | PointWorldTest(position: Vector3, velocity: Vector3)
    | SphereWorldTest(position: Vector3, velocity: Vector3, radius: Float)

  function TestSize(kind: ColliderKind): int {
    if kind == Point then PointWorldTestSize else SphereWorldTestSize
  }

  /** The snapshot in flight, or nothing. */
  function Snapshot<R>(dispatched: Option<seq<R>>): seq<R> {
    if dispatched.Some? then dispatched.value else []
  }

  /** C#'s `1 << count` on int: the shift count is taken modulo 32 and the
      result wraps to 32 bits. */
  function ShiftOne(count: int): int {
    Wrap32(Pow2(count % 32))
  }

  /** NoiseTextureSize: a power of two for every power the editor allows
      (1 to 10), the shift count wraps at 32, and 31 gives int.MinValue. */
  lemma ShiftOneValues(count: int)
    ensures 0 <= count <= 30 ==> ShiftOne(count) == Pow2(count)
    ensures 1 <= count <= 10 ==> 2 <= ShiftOne(count) <= 1024
    ensures ShiftOne(count + 32) == ShiftOne(count)
    ensures ShiftOne(31) == Int32Min
  {
    DivUnique(count + 32, 32, (count + 32) / 32, count % 32);
    if 0 <= count <= 30 {
      DivUnique(count, 32, 0, count);
      PowMonotone(count, 30);
      Pow2Thirty();
      DivUnique(Pow2(count) - Int32Min, Int32Range, 0, Pow2(count) - Int32Min);
      if 1 <= count <= 10 {
        PowMonotone(1, count);
        PowMonotone(count, 10);
        Pow2Values();
      }
    }
    DivUnique(31, 32, 0, 31);
    Pow2Thirty();
    assert Pow2(31) == 2 * Pow2(30);
    DivUnique(Pow2(31) - Int32Min, Int32Range, 1, 0);
  }

  /** The state a collision leaves a collider in: an enabled collider
      records the response, a disabled one leaves its world. */
  ghost predicate Responded(x: WorldCollider, c: WorldCollision, responses0: seq<WorldCollision>, added0: bool)
    reads x
  {
    var hit := c.staticCollision || c.dynamicCollision;
    && x.responses == (if hit && x.enabled then responses0 + [c] else responses0)
    && x.addedToWorld == (if hit && !x.enabled then false else added0)
  }

  class World {
    /** transform.position, the floating origin's offset. */
    var position: Vector3
    const noiseTexturePower: int

    const missile1Pool: GP.GameObjectPool<GameObject?, Missile?>
    const missile2Pool: GP.GameObjectPool<GameObject?, Missile?>
    const rl1Pool: GP.GameObjectPool<GameObject?, RlController?>
    const rl2Pool: GP.GameObjectPool<GameObject?, RlController?>
    const tf1: Tf
    const tf2: Tf

    var activePlayers: seq<GameObject>
    var activeTeamPlayers: seq<seq<GameObject>>
    var activeOpposingTeamPlayers: seq<seq<GameObject>>

    var terrainHeightSamplers: seq<TerrainHeightSampler>
    var terrainDispatched: Option<seq<TerrainHeightSampler>>
    var lastTerrainCount: int
    var terrainLocations: array?<Vector2>
    var terrainLocationsBuffer: Option<ComputeBuffer>
    var terrainHeightsBuffer: Option<ComputeBuffer>
    var terrainRequestFrame: int

    const pointQuery: CollisionQuery
    const sphereQuery: CollisionQuery

    function Players(): PlayerLists<GameObject>
      reads this
    {
      PlayerLists(activePlayers, activeTeamPlayers, activeOpposingTeamPlayers)
    }

    function TerrainBatch(): Batch<TerrainHeightSampler>
      reads this
    {
      Batch(terrainDispatched, lastTerrainCount, terrainRequestFrame)
    }

    /** The terrain pipeline's invariant: the batch state is consistent, the
        snapshot in flight holds no sampler twice, and while a last count is
        recorded the location array and both buffers exist with that count. */
    ghost predicate TerrainValid()
      reads this
    {
      && Consistent(TerrainBatch())
      && NoDuplicates(Snapshot(terrainDispatched))
      && (lastTerrainCount > 0 ==>
            && terrainLocations != null && terrainLocations.Length == lastTerrainCount
            && terrainLocationsBuffer == Some(ComputeBuffer(lastTerrainCount, TerrainHeightLocationSize * FloatSize))
            && terrainHeightsBuffer == Some(ComputeBuffer(lastTerrainCount, TerrainHeightSize * FloatSize)))
    }

    ghost predicate QueriesValid()
      reads this, pointQuery, sphereQuery
    {
      && pointQuery != sphereQuery
      && pointQuery.kind == Point && sphereQuery.kind == Sphere
      && pointQuery.Valid() && sphereQuery.Valid()
    }

    ghost predicate Valid()
      reads this, pointQuery, sphereQuery
    {
      WellFormed(Players()) && TerrainValid() && QueriesValid()
    }

    /** The field initialisers and Awake: empty lists, nothing dispatched,
        and the pools and transforms the scene provides. */
    constructor (position: Vector3, noiseTexturePower: int,
                 missile1Pool: GP.GameObjectPool<GameObject?, Missile?>,
                 missile2Pool: GP.GameObjectPool<GameObject?, Missile?>,
                 rl1Pool: GP.GameObjectPool<GameObject?, RlController?>,
                 rl2Pool: GP.GameObjectPool<GameObject?, RlController?>,
                 tf1: Tf, tf2: Tf)
      ensures Valid() && fresh(pointQuery) && fresh(sphereQuery)
      ensures this.position == position && this.noiseTexturePower == noiseTexturePower
      ensures this.missile1Pool == missile1Pool && this.missile2Pool == missile2Pool
      ensures this.rl1Pool == rl1Pool && this.rl2Pool == rl2Pool && this.tf1 == tf1 && this.tf2 == tf2
      ensures Players() == Empty()
      ensures terrainHeightSamplers == [] && TerrainBatch() == Initial()
      ensures pointQuery.colliders == [] && pointQuery.State() == Initial()
      ensures sphereQuery.colliders == [] && sphereQuery.State() == Initial()
    {
      this.position := position;
      this.noiseTexturePower := noiseTexturePower;
      this.missile1Pool := missile1Pool;
      this.missile2Pool := missile2Pool;
      this.rl1Pool := rl1Pool;
      this.rl2Pool := rl2Pool;
      this.tf1 := tf1;
      this.tf2 := tf2;
      activePlayers := [];
      activeTeamPlayers := seq(TeamCount, _ => []);
      activeOpposingTeamPlayers := seq(TeamCount, _ => []);
      terrainHeightSamplers := [];
      terrainDispatched := None;
      lastTerrainCount := 0;
      terrainLocations := null;
      terrainLocationsBuffer := None;
      terrainHeightsBuffer := None;
      terrainRequestFrame := 0;
      pointQuery := new CollisionQuery(Point);
      sphereQuery := new CollisionQuery(Sphere);
    }

    function NoiseTextureSize(): int {
      ShiftOne(noiseTexturePower)
    }

    // Active players

    method AddActivePlayer(player: GameObject, team: int)
      requires WellFormed(Players()) && IsTeam(team)
      modifies this`activePlayers, this`activeTeamPlayers, this`activeOpposingTeamPlayers
      ensures Players() == AddPlayer(old(Players()), player, team)
    {
      activePlayers := activePlayers + [player];
      activeTeamPlayers := activeTeamPlayers[team := activeTeamPlayers[team] + [player]];
      ghost var before := activeOpposingTeamPlayers;
      ghost var all, own := activePlayers, activeTeamPlayers;
      for opposingTeamIndex := 0 to TeamCount
        invariant activePlayers == all && activeTeamPlayers == own
        invariant |activeOpposingTeamPlayers| == TeamCount
        invariant forall t :: 0 <= t < TeamCount ==>
          activeOpposingTeamPlayers[t] == if t < opposingTeamIndex && t != team then before[t] + [player] else before[t]
      {
        if opposingTeamIndex != team {
          activeOpposingTeamPlayers := activeOpposingTeamPlayers[opposingTeamIndex :=
            activeOpposingTeamPlayers[opposingTeamIndex] + [player]];
        }
      }
      assert activeOpposingTeamPlayers == AddPlayer(old(Players()), player, team).opposing;
    }

    method RemoveActivePlayer(player: GameObject, team: int)
      requires WellFormed(Players()) && IsTeam(team)
      modifies this`activePlayers, this`activeTeamPlayers, this`activeOpposingTeamPlayers
      ensures Players() == RemovePlayer(old(Players()), player, team)
    {
      activePlayers := RemoveFirst(activePlayers, player);
      activeTeamPlayers := activeTeamPlayers[team := RemoveFirst(activeTeamPlayers[team], player)];
      ghost var before := activeOpposingTeamPlayers;
      ghost var all, own := activePlayers, activeTeamPlayers;
      for opposingTeamIndex := 0 to TeamCount
        invariant activePlayers == all && activeTeamPlayers == own
        invariant |activeOpposingTeamPlayers| == TeamCount
        invariant forall t :: 0 <= t < TeamCount ==>
          activeOpposingTeamPlayers[t] == if t < opposingTeamIndex && t != team then RemoveFirst(before[t], player) else before[t]
      {
        if opposingTeamIndex != team {
          activeOpposingTeamPlayers := activeOpposingTeamPlayers[opposingTeamIndex :=
            RemoveFirst(activeOpposingTeamPlayers[opposingTeamIndex], player)];
        }
      }
      assert activeOpposingTeamPlayers == RemovePlayer(old(Players()), player, team).opposing;
    }

    function GetActivePlayers(team: int, opposing: bool): seq<GameObject>
      reads this
      requires WellFormed(Players()) && (team == TeamNone || IsTeam(team))
    {
      Query(Players(), team, opposing)
    }

    // Team selectors

    function GetMissilePool(team: int): GP.GameObjectPool<GameObject?, Missile?> {
      if team == 0 then missile1Pool else missile2Pool
    }

    function GetRlPool(team: int): GP.GameObjectPool<GameObject?, RlController?> {
      if team == 0 then rl1Pool else rl2Pool
    }

    function GetTeamTf(team: int): Tf {
      if team == 0 then tf1 else tf2
    }

    /** Every selector reads the team the way the physics layers do: the
        objects of team 1 go with layer 9, those of team 2 with layer 10, and
        every team number other than 0 means team 2. */
    lemma TeamSelectorsFollowLayers(team: int)
      ensures GetTeamLayer(team) == LayerTeam1 ==>
        GetMissilePool(team) == missile1Pool && GetRlPool(team) == rl1Pool && GetTeamTf(team) == tf1
      ensures GetTeamLayer(team) == LayerTeam2 ==>
        GetMissilePool(team) == missile2Pool && GetRlPool(team) == rl2Pool && GetTeamTf(team) == tf2
      ensures GetTeamLayer(team) == LayerTeam1 || GetTeamLayer(team) == LayerTeam2
    {
      TeamMaskIsLayerBit(team);
    }

    // Terrain height samplers

    method AddTerrainHeightSampler(sampler: TerrainHeightSampler)
      modifies this`terrainHeightSamplers
      ensures terrainHeightSamplers == old(terrainHeightSamplers) + [sampler]
    {
      terrainHeightSamplers := terrainHeightSamplers + [sampler];
    }

    method RemoveTerrainHeightSampler(sampler: TerrainHeightSampler)
      modifies this`terrainHeightSamplers
      ensures terrainHeightSamplers == RemoveFirst(old(terrainHeightSamplers), sampler)
    {
      terrainHeightSamplers := RemoveFirst(terrainHeightSamplers, sampler);
    }

    method ReleaseTerrainHeightSamplersBuffers()
      modifies this`terrainLocationsBuffer, this`terrainHeightsBuffer
      ensures terrainLocationsBuffer == None && terrainHeightsBuffer == None
    {
      if terrainLocationsBuffer.Some? {
        terrainLocationsBuffer := None;
      }
      if terrainHeightsBuffer.Some? {
        terrainHeightsBuffer := None;
      }
    }

    /** The readback of the heights buffer holds one float per sampler. */
    ghost predicate TerrainReadbackFits(rb: Readback)
      reads this
    {
      Delivers(TerrainBatch(), rb) ==> |rb.data| == |Snapshot(terrainDispatched)| * TerrainHeightSize
    }

    /** Every sampler of the snapshot recorded the location its request was
        dispatched with and the height the GPU computed for it. */
    ghost predicate SamplesRecorded(snapshot: seq<TerrainHeightSampler>, locations: seq<Vector2>, data: seq<Float>)
      requires |snapshot| <= |locations| && |snapshot| <= |data|
      reads set s | s in snapshot
    {
      forall i :: 0 <= i < |snapshot| ==>
        snapshot[i].sampled && snapshot[i].sampledLocation == locations[i] && snapshot[i].height == data[i]
    }

    method HandleTerrainHeightSamples(rb: Readback)
      requires TerrainValid() && TerrainReadbackFits(rb)
      modifies this`terrainDispatched, this`lastTerrainCount, Snapshot(terrainDispatched)`sampled, Snapshot(terrainDispatched)`sampledLocation, Snapshot(terrainDispatched)`height
      ensures TerrainValid()
      ensures TerrainBatch() == Handle(old(TerrainBatch()), rb)
      ensures var snapshot := old(Snapshot(terrainDispatched));
        && (forall s :: s in snapshot ==> s.requestedLocation == old(s.requestedLocation))
        && (Delivers(old(TerrainBatch()), rb) ==> SamplesRecorded(snapshot, old(terrainLocations[..]), rb.data))
        && (!Delivers(old(TerrainBatch()), rb) ==> forall s :: s in snapshot ==>
              s.sampled == old(s.sampled) && s.sampledLocation == old(s.sampledLocation) && s.height == old(s.height))
    {
      if terrainDispatched.Some? && rb.done {
        if !rb.hasError {
          var snapshot := terrainDispatched.value;
          for sampleIndex := 0 to |snapshot|
            invariant terrainDispatched == old(terrainDispatched) && lastTerrainCount == old(lastTerrainCount)
            invariant forall j :: 0 <= j < sampleIndex ==>
              snapshot[j].sampled && snapshot[j].sampledLocation == terrainLocations[j] && snapshot[j].height == rb.data[j]
            invariant forall j :: sampleIndex <= j < |snapshot| ==>
              snapshot[j].sampled == old(snapshot[j].sampled) && snapshot[j].sampledLocation == old(snapshot[j].sampledLocation) &&
              snapshot[j].height == old(snapshot[j].height)
          {
            snapshot[sampleIndex].RecordSample(terrainLocations[sampleIndex], rb.data[sampleIndex]);
          }
        } else {
          lastTerrainCount := 0;
        }
        terrainDispatched := None;
      }
    }

    /** PerformTerrainHeightSamples: handle the readback, then, unless this
        rendered frame already dispatched or a batch is in flight, snapshot
        the registry, reallocate only when its size changed, and write each
        sampler's requested location for the GPU. */
    method PerformTerrainHeightSamples(frame: int, rb: Readback)
      requires TerrainValid() && TerrainReadbackFits(rb)
      requires NoDuplicates(terrainHeightSamplers)
      modifies this`terrainDispatched, this`lastTerrainCount, this`terrainLocations
      modifies this`terrainLocationsBuffer, this`terrainHeightsBuffer, this`terrainRequestFrame
      modifies terrainLocations, Snapshot(terrainDispatched)`sampled, Snapshot(terrainDispatched)`sampledLocation, Snapshot(terrainDispatched)`height
      ensures TerrainValid()
      ensures terrainHeightSamplers == old(terrainHeightSamplers)
      ensures TerrainBatch() == Perform(old(TerrainBatch()), rb, terrainHeightSamplers, frame)
      ensures var snapshot := old(Snapshot(terrainDispatched));
        && (forall s :: s in snapshot ==> s.requestedLocation == old(s.requestedLocation))
        && (Delivers(old(TerrainBatch()), rb) ==> SamplesRecorded(snapshot, old(terrainLocations[..]), rb.data))
        && (!Delivers(old(TerrainBatch()), rb) ==> forall s :: s in snapshot ==>
              s.sampled == old(s.sampled) && s.sampledLocation == old(s.sampledLocation) && s.height == old(s.height))
      ensures var h := Handle(old(TerrainBatch()), rb);
        && (Dispatches(h, |terrainHeightSamplers|, frame) ==>
              forall i :: 0 <= i < |terrainHeightSamplers| ==>
                terrainLocations[i] == terrainHeightSamplers[i].requestedLocation)
        && (Reallocates(h, |terrainHeightSamplers|, frame) ==> fresh(terrainLocations))
        && (!Reallocates(h, |terrainHeightSamplers|, frame) ==> terrainLocations == old(terrainLocations))
    {
      HandleTerrainHeightSamples(rb);
      DispatchTerrainHeightSamples(frame);
    }

    /** The second half of PerformTerrainHeightSamples. */
    method DispatchTerrainHeightSamples(frame: int)
      requires TerrainValid() && NoDuplicates(terrainHeightSamplers)
      modifies this`terrainDispatched, this`lastTerrainCount, this`terrainLocations
      modifies this`terrainLocationsBuffer, this`terrainHeightsBuffer, this`terrainRequestFrame
      modifies terrainLocations
      ensures TerrainValid()
      ensures TerrainBatch() == Dispatch(old(TerrainBatch()), terrainHeightSamplers, frame)
      ensures Dispatches(old(TerrainBatch()), |terrainHeightSamplers|, frame) ==>
        forall i :: 0 <= i < |terrainHeightSamplers| ==> terrainLocations[i] == terrainHeightSamplers[i].requestedLocation
      ensures Reallocates(old(TerrainBatch()), |terrainHeightSamplers|, frame) ==> fresh(terrainLocations)
      ensures !Reallocates(old(TerrainBatch()), |terrainHeightSamplers|, frame) ==> terrainLocations == old(terrainLocations)
    {
      if terrainRequestFrame == frame {
        return;
      }
      if terrainDispatched.None? {
        var count := |terrainHeightSamplers|;
        if count > 0 {
          terrainDispatched := Some(terrainHeightSamplers);
          if lastTerrainCount != count {
            ReleaseTerrainHeightSamplersBuffers();
            terrainLocations := new Vector2[count];
            terrainLocationsBuffer := Some(ComputeBuffer(count, TerrainHeightLocationSize * FloatSize));
            terrainHeightsBuffer := Some(ComputeBuffer(count, TerrainHeightSize * FloatSize));
            lastTerrainCount := count;
          }
          var snapshot, locations := terrainDispatched.value, terrainLocations;
          for sampleIndex := 0 to count
            modifies locations
            invariant forall j :: 0 <= j < sampleIndex ==> locations[j] == snapshot[j].requestedLocation
          {
            locations[sampleIndex] := snapshot[sampleIndex].requestedLocation;
          }
          // SetData, SetBuffer, Dispatch and the readback request are the GPU's side.
          terrainRequestFrame := frame;
        }
      }
    }

    /** FixedUpdate: advance every execution pool, then step the three GPU
        queries in order. `frame` is the rendered frame count at this fixed
        step and each readback is the GPU's answer to the batch in flight. */
    method FixedUpdate(frame: int, pools: seq<EP.ExecutionPool>,
                       terrainReadback: Readback, pointReadback: Readback, sphereReadback: Readback)
      requires Valid()
      requires NoDuplicates(pools) && forall i :: 0 <= i < |pools| ==> pools[i].Valid()
      requires TerrainReadbackFits(terrainReadback) && NoDuplicates(terrainHeightSamplers)
      requires pointQuery.ReadbackFits(pointReadback) && NoDuplicates(pointQuery.colliders)
      requires sphereQuery.ReadbackFits(sphereReadback) && NoDuplicates(sphereQuery.colliders)
      modifies set p | p in pools
      modifies this`terrainDispatched, this`lastTerrainCount, this`terrainLocations
      modifies this`terrainLocationsBuffer, this`terrainHeightsBuffer, this`terrainRequestFrame
      modifies terrainLocations, Snapshot(terrainDispatched)`sampled, Snapshot(terrainDispatched)`sampledLocation, Snapshot(terrainDispatched)`height
      modifies pointQuery, pointQuery.tests, Snapshot(pointQuery.dispatched)`responses, Snapshot(pointQuery.dispatched)`addedToWorld
      modifies sphereQuery, sphereQuery.tests, Snapshot(sphereQuery.dispatched)`responses, Snapshot(sphereQuery.dispatched)`addedToWorld
      ensures Valid()
      ensures forall i :: 0 <= i < |pools| ==>
        && pools[i].Valid() && pools[i].registered == old(pools[i].registered) && old(pools[i].Valid())
        && (pools[i].minIndex, pools[i].maxIndex) ==
             EP.NextWindow(pools[i].registered, old(pools[i].minIndex), old(pools[i].maxIndex), pools[i].requestsPerFrame)
      ensures TerrainBatch() == Perform(old(TerrainBatch()), terrainReadback, terrainHeightSamplers, frame)
      ensures pointQuery.State() == Perform(old(pointQuery.State()), pointReadback, pointQuery.colliders, frame)
      ensures sphereQuery.State() == Perform(old(sphereQuery.State()), sphereReadback, sphereQuery.colliders, frame)
    {
      // UpdateWater and UpdateTerrainComputeShaderUniforms only set engine and shader state.
      AdvancePools(pools);
      PerformQueries(frame, terrainReadback, pointReadback, sphereReadback);
    }

    /** The execution pool step of FixedUpdate, which leaves the world alone. */
    method AdvancePools(pools: seq<EP.ExecutionPool>)
      requires Valid()
      requires NoDuplicates(pools) && forall i :: 0 <= i < |pools| ==> pools[i].Valid()
      modifies set p | p in pools
      ensures Valid()
      ensures forall i :: 0 <= i < |pools| ==>
        && pools[i].Valid() && pools[i].registered == old(pools[i].registered) && old(pools[i].Valid())
        && (pools[i].minIndex, pools[i].maxIndex) ==
             EP.NextWindow(pools[i].registered, old(pools[i].minIndex), old(pools[i].maxIndex), pools[i].requestsPerFrame)
    {
      EP.NextFrame(pools);
    }

    /** The three Perform calls of FixedUpdate. */
    method PerformQueries(frame: int, terrainReadback: Readback, pointReadback: Readback, sphereReadback: Readback)
      requires Valid()
      requires TerrainReadbackFits(terrainReadback) && NoDuplicates(terrainHeightSamplers)
      requires pointQuery.ReadbackFits(pointReadback) && NoDuplicates(pointQuery.colliders)
      requires sphereQuery.ReadbackFits(sphereReadback) && NoDuplicates(sphereQuery.colliders)
      modifies this`terrainDispatched, this`lastTerrainCount, this`terrainLocations
      modifies this`terrainLocationsBuffer, this`terrainHeightsBuffer, this`terrainRequestFrame
      modifies terrainLocations, Snapshot(terrainDispatched)`sampled, Snapshot(terrainDispatched)`sampledLocation, Snapshot(terrainDispatched)`height
      modifies pointQuery, pointQuery.tests, Snapshot(pointQuery.dispatched)`responses, Snapshot(pointQuery.dispatched)`addedToWorld
      modifies sphereQuery, sphereQuery.tests, Snapshot(sphereQuery.dispatched)`responses, Snapshot(sphereQuery.dispatched)`addedToWorld
      ensures Valid()
      ensures TerrainBatch() == Perform(old(TerrainBatch()), terrainReadback, terrainHeightSamplers, frame)
      ensures pointQuery.State() == Perform(old(pointQuery.State()), pointReadback, pointQuery.colliders, frame)
      ensures sphereQuery.State() == Perform(old(sphereQuery.State()), sphereReadback, sphereQuery.colliders, frame)
    {
      PerformTerrain(frame, terrainReadback);
      PerformCollisionQueries(frame, pointReadback, sphereReadback);
    }

    /** The terrain step of FixedUpdate, which leaves both collision queries alone. */
    method PerformTerrain(frame: int, rb: Readback)
      requires Valid() && TerrainReadbackFits(rb) && NoDuplicates(terrainHeightSamplers)
      modifies this`terrainDispatched, this`lastTerrainCount, this`terrainLocations
      modifies this`terrainLocationsBuffer, this`terrainHeightsBuffer, this`terrainRequestFrame
      modifies terrainLocations, Snapshot(terrainDispatched)`sampled, Snapshot(terrainDispatched)`sampledLocation, Snapshot(terrainDispatched)`height
      ensures Valid()
      ensures TerrainBatch() == Perform(old(TerrainBatch()), rb, terrainHeightSamplers, frame)
    {
      PerformTerrainHeightSamples(frame, rb);
    }

    /** The point and sphere steps of FixedUpdate, which leave the terrain
        pipeline alone. */
    method PerformCollisionQueries(frame: int, pointReadback: Readback, sphereReadback: Readback)
      requires Valid()
      requires pointQuery.ReadbackFits(pointReadback) && NoDuplicates(pointQuery.colliders)
      requires sphereQuery.ReadbackFits(sphereReadback) && NoDuplicates(sphereQuery.colliders)
      modifies pointQuery, pointQuery.tests, Snapshot(pointQuery.dispatched)`responses, Snapshot(pointQuery.dispatched)`addedToWorld
      modifies sphereQuery, sphereQuery.tests, Snapshot(sphereQuery.dispatched)`responses, Snapshot(sphereQuery.dispatched)`addedToWorld
      ensures Valid()
      ensures pointQuery.State() == Perform(old(pointQuery.State()), pointReadback, pointQuery.colliders, frame)
      ensures sphereQuery.State() == Perform(old(sphereQuery.State()), sphereReadback, sphereQuery.colliders, frame)
    {
      ghost var sphere := sphereQuery.State();
      PerformPointCollisions(frame, pointReadback);
      assert sphereQuery.State() == sphere;
      PerformSphereCollisions(frame, sphereReadback);
    }

    method PerformPointCollisions(frame: int, rb: Readback)
      requires pointQuery.Valid() && pointQuery.ReadbackFits(rb) && NoDuplicates(pointQuery.colliders)
      modifies pointQuery, pointQuery.tests, Snapshot(pointQuery.dispatched)`responses, Snapshot(pointQuery.dispatched)`addedToWorld
      ensures pointQuery.Valid()
      ensures pointQuery.State() == Perform(old(pointQuery.State()), rb, pointQuery.colliders, frame)
    {
      var cleared := pointQuery.PerformCollisions(frame, rb);
    }

    method PerformSphereCollisions(frame: int, rb: Readback)
      requires sphereQuery.Valid() && sphereQuery.ReadbackFits(rb) && NoDuplicates(sphereQuery.colliders)
      modifies sphereQuery, sphereQuery.tests, Snapshot(sphereQuery.dispatched)`responses, Snapshot(sphereQuery.dispatched)`addedToWorld
      ensures sphereQuery.Valid()
      ensures sphereQuery.State() == Perform(old(sphereQuery.State()), rb, sphereQuery.colliders, frame)
    {
      var cleared := sphereQuery.PerformCollisions(frame, rb);
    }

    /** OnDisable as the source writes it: the six buffers are released but
        the counts they were allocated for are kept. A world disabled with a
        count recorded no longer satisfies its own invariant: re-enabled with
        a registry of the same size it dispatches into a released buffer
        (see QueryBatch.ReenabledQueryReusesItsBuffers). */
    method OnDisableAsWritten()
      modifies this`terrainLocationsBuffer, this`terrainHeightsBuffer
      modifies pointQuery`testsBuffer, pointQuery`collisionsBuffer, sphereQuery`testsBuffer, sphereQuery`collisionsBuffer
      ensures terrainLocationsBuffer == None && terrainHeightsBuffer == None
      ensures pointQuery.testsBuffer == None && pointQuery.collisionsBuffer == None
      ensures sphereQuery.testsBuffer == None && sphereQuery.collisionsBuffer == None
      ensures TerrainBatch() == old(TerrainBatch())
      ensures pointQuery.State() == old(pointQuery.State()) && sphereQuery.State() == old(sphereQuery.State())
      ensures old(lastTerrainCount) > 0 ==> !TerrainValid()
      ensures old(pointQuery.lastCount) > 0 ==> !pointQuery.Valid()
      ensures old(sphereQuery.lastCount) > 0 ==> !sphereQuery.Valid()
    {
      ReleaseTerrainHeightSamplersBuffers();
      pointQuery.ReleaseBuffers();
      sphereQuery.ReleaseBuffers();
    }

    /** OnDisable corrected: besides releasing the buffers it forgets the
        counts they were allocated for and the batches in flight on them, so
        the world keeps its invariant and a re-enabled world reallocates
        before its next dispatch. */
    method OnDisable()
      requires Valid()
      modifies this`terrainLocationsBuffer, this`terrainHeightsBuffer, this`lastTerrainCount, this`terrainDispatched
      modifies pointQuery, sphereQuery
      ensures Valid()
      ensures terrainLocationsBuffer == None && terrainHeightsBuffer == None
      ensures TerrainBatch() == Batch(None, 0, old(terrainRequestFrame))
      ensures pointQuery.colliders == old(pointQuery.colliders) && sphereQuery.colliders == old(sphereQuery.colliders)
      ensures pointQuery.State() == Batch(None, 0, old(pointQuery.requestFrame))
      ensures sphereQuery.State() == Batch(None, 0, old(sphereQuery.requestFrame))
      ensures pointQuery.testsBuffer == None && pointQuery.collisionsBuffer == None
      ensures sphereQuery.testsBuffer == None && sphereQuery.collisionsBuffer == None
    {
      ReleaseTerrainHeightSamplersBuffers();
      lastTerrainCount := 0;
      terrainDispatched := None;
      pointQuery.Suspend();
      sphereQuery.Suspend();
    }

    // Colliders

    method AddPointCollider(collider: WorldCollider)
      requires collider.Registry() == pointQuery
      modifies pointQuery`colliders
      ensures pointQuery.colliders == old(pointQuery.colliders) + [collider]
    {
      pointQuery.Add(collider);
    }

    method RemovePointCollider(collider: WorldCollider)
      modifies pointQuery`colliders
      ensures pointQuery.colliders == RemoveFirst(old(pointQuery.colliders), collider)
    {
      pointQuery.Remove(collider);
    }

    method AddSphereCollider(collider: WorldCollider)
      requires collider.Registry() == sphereQuery
      modifies sphereQuery`colliders
      ensures sphereQuery.colliders == old(sphereQuery.colliders) + [collider]
    {
      sphereQuery.Add(collider);
    }

    method RemoveSphereCollider(collider: WorldCollider)
      modifies sphereQuery`colliders
      ensures sphereQuery.colliders == RemoveFirst(old(sphereQuery.colliders), collider)
    {
      sphereQuery.Remove(collider);
    }
  }

  /** A requester of one terrain height: where it wants the height, where the
      last sample was actually taken, and that sample. */
  class TerrainHeightSampler {
    var requestedLocation: Vector2
    var sampledLocation: Vector2
    var height: Float
    const world: World
    var sampled: bool

    /** A new sampler registers itself with its world; being new, it keeps
        the world's registry free of duplicates. */
    constructor (world: World, location: Vector2)
      modifies world`terrainHeightSamplers
      ensures this.world == world && requestedLocation == location && !sampled
      ensures world.terrainHeightSamplers == old(world.terrainHeightSamplers) + [this]
      ensures NoDuplicates(old(world.terrainHeightSamplers)) ==> NoDuplicates(world.terrainHeightSamplers)
    {
      this.world := world;
      requestedLocation := location;
      sampledLocation := Vector2(Finite(0.0), Finite(0.0));
      height := Finite(0.0);
      sampled := false;
      new;
      AddToWorld();
      AppendDistinct(old(world.terrainHeightSamplers), this);
    }

    method AddToWorld()
      modifies world`terrainHeightSamplers
      ensures world.terrainHeightSamplers == old(world.terrainHeightSamplers) + [this]
    {
      world.AddTerrainHeightSampler(this);
    }

    method RemoveFromWorld()
      modifies world`terrainHeightSamplers
      ensures world.terrainHeightSamplers == RemoveFirst(old(world.terrainHeightSamplers), this)
    {
      world.RemoveTerrainHeightSampler(this);
    }

    method RecordSample(location: Vector2, height: Float)
      modifies this`sampledLocation, this`height, this`sampled
      ensures sampledLocation == location && this.height == height && sampled
      ensures HeightAboveTerrain() == Sub(height, world.position.y)
    {
      sampledLocation := location;
      this.height := height;
      sampled := true;
    }

    /** The sampled terrain height relative to the world's own height. */
    function HeightAboveTerrain(): Float
      reads this, world
    {
      Sub(height, world.position.y)
    }

    /** IsPredictive: a sampler that was never sampled predicts nothing, one
        sampled exactly where it is now asked to sample always does; for any
        other sample the distance and direction test, which is not modelled,
        decides and is the parameter `nearbyAndAligned`. Vector2.Equals
        compares components with float.Equals, which is equality of the
        values (NaN equals NaN). */
    function IsPredictive(location: Vector2, nearbyAndAligned: bool): bool
      reads this
    {
      if sampled then sampledLocation == requestedLocation || nearbyAndAligned else false
    }

    function IsPredictiveAt(position: Vector3, nearbyAndAligned: bool): bool
      reads this
    {
      IsPredictive(Xz(position), nearbyAndAligned)
    }

    /** Neither overload looks at the location asked about unless the sampler
        was sampled elsewhere than requested: an unsampled sampler is never
        predictive and one sampled at the requested location always is. The
        Vector3 overload is the Vector2 one on the position's xz projection. */
    lemma PredictiveCases(location: Vector2, position: Vector3, nearbyAndAligned: bool)
      ensures !sampled ==> !IsPredictive(location, nearbyAndAligned) && !IsPredictiveAt(position, nearbyAndAligned)
      ensures sampled && sampledLocation == requestedLocation ==>
        IsPredictive(location, nearbyAndAligned) && IsPredictiveAt(position, nearbyAndAligned)
      ensures IsPredictiveAt(position, nearbyAndAligned) == IsPredictive(Xz(position), nearbyAndAligned)
    {
    }
  }

  /** GetSampler: a missing sampler is created (and so registered) at the
      location; an existing one only has its requested location moved. */
  method GetSampler(world: World, sampler: TerrainHeightSampler?, location: Vector2) returns (r: TerrainHeightSampler)
    modifies world`terrainHeightSamplers, if sampler == null then {} else {sampler}
    ensures sampler == null ==>
      && fresh(r) && r.world == world && r.requestedLocation == location && !r.sampled
      && world.terrainHeightSamplers == old(world.terrainHeightSamplers) + [r]
    ensures sampler != null ==>
      && r == sampler && r.requestedLocation == location
      && r.sampled == old(r.sampled) && r.sampledLocation == old(r.sampledLocation) && r.height == old(r.height)
      && world.terrainHeightSamplers == old(world.terrainHeightSamplers)
  {
    if sampler == null {
      r := new TerrainHeightSampler(world, location);
    } else {
      sampler.requestedLocation := location;
      r := sampler;
    }
  }

  method GetSamplerAt(world: World, sampler: TerrainHeightSampler?, position: Vector3) returns (r: TerrainHeightSampler)
    modifies world`terrainHeightSamplers, if sampler == null then {} else {sampler}
    ensures sampler == null ==>
      && fresh(r) && r.world == world && r.requestedLocation == Xz(position) && !r.sampled
      && world.terrainHeightSamplers == old(world.terrainHeightSamplers) + [r]
    ensures sampler != null ==>
      && r == sampler && r.requestedLocation == Xz(position)
      && r.sampled == old(r.sampled) && r.sampledLocation == old(r.sampledLocation) && r.height == old(r.height)
      && world.terrainHeightSamplers == old(world.terrainHeightSamplers)
  {
    r := GetSampler(world, sampler, Xz(position));
  }

  /** A point or sphere collider. Its position, velocity and radius are the
      engine's (transform, rigidbody, sphere collider); `responses` records
      the collisions it responded to, the response itself not being
      modelled. */
  class WorldCollider {
    const kind: ColliderKind
    const world: World
    var enabled: bool
    var addedToWorld: bool
    var position: Vector3
    var velocity: Vector3
    var radius: Float
    var responses: seq<WorldCollision>

    constructor (kind: ColliderKind, world: World, enabled: bool, position: Vector3, velocity: Vector3, radius: Float)
      ensures this.kind == kind && this.world == world && this.enabled == enabled
      ensures this.position == position && this.velocity == velocity && this.radius == radius
      ensures !addedToWorld && responses == []
    {
      this.kind := kind;
      this.world := world;
      this.enabled := enabled;
      addedToWorld := false;
      this.position := position;
      this.velocity := velocity;
      this.radius := radius;
      responses := [];
    }

    /** The world list this collider's AddToWorld and RemoveFromWorld use. */
    function Registry(): CollisionQuery {
      if kind == Point then world.pointQuery else world.sphereQuery
    }

    function RegistrationState(): Registration<WorldCollider>
      reads this, Registry()
    {
      Registration(Registry().colliders, addedToWorld)
    }

    /** The record the collider's query sends to the GPU. */
    function Test(): CollisionTest
      reads this
    {
      match kind
      case Point => PointWorldTest(position, velocity)
      case Sphere => SphereWorldTest(position, velocity, radius)
    }

    method AddToWorld()
      modifies Registry()`colliders
      ensures Registry().colliders == old(Registry().colliders) + [this]
    {
      if kind == Point {
        world.AddPointCollider(this);
      } else {
        world.AddSphereCollider(this);
      }
    }

    method RemoveFromWorld()
      modifies Registry()`colliders
      ensures Registry().colliders == RemoveFirst(old(Registry().colliders), this)
    {
      if kind == Point {
        world.RemovePointCollider(this);
      } else {
        world.RemoveSphereCollider(this);
      }
    }

    method OnEnable()
      modifies this`addedToWorld, Registry()`colliders
      ensures RegistrationState() == Enable(old(RegistrationState()), this)
    {
      if !addedToWorld {
        AddToWorld();
        addedToWorld := true;
      }
    }

    method OnDisable()
      modifies this`addedToWorld, Registry()`colliders
      ensures RegistrationState() == Disable(old(RegistrationState()), this)
    {
      if addedToWorld {
        RemoveFromWorld();
        addedToWorld := false;
      }
    }

    /** An enabled collider responds to the collision; a disabled one, which
        the engine no longer updates, takes itself out of its world. */
    method OnWorldCollision(collision: WorldCollision)
      modifies this`responses, this`addedToWorld, Registry()`colliders
      ensures enabled ==> responses == old(responses) + [collision] && RegistrationState() == old(RegistrationState())
      ensures !enabled ==> responses == old(responses) && RegistrationState() == Disable(old(RegistrationState()), this)
    {
      if enabled {
        responses := responses + [collision];
      } else {
        OnDisable();
      }
    }
  }

  /** One collision pipeline of the world: its registry of colliders and the
      batch state, test array and buffers of its GPU query. */
  class CollisionQuery {
    const kind: ColliderKind
    var colliders: seq<WorldCollider>
    var dispatched: Option<seq<WorldCollider>>
    var lastCount: int
    var tests: array?<CollisionTest>
    var testsBuffer: Option<ComputeBuffer>
    var collisionsBuffer: Option<ComputeBuffer>
    var requestFrame: int

    constructor (kind: ColliderKind)
      ensures this.kind == kind
      ensures colliders == [] && State() == Initial() && Valid()
    {
      this.kind := kind;
      colliders := [];
      dispatched := None;
      lastCount := 0;
      tests := null;
      testsBuffer := None;
      collisionsBuffer := None;
      requestFrame := 0;
    }

    function State(): Batch<WorldCollider>
      reads this
    {
      Batch(dispatched, lastCount, requestFrame)
    }

    /** The pipeline's invariant: the batch state is consistent, every
        collider registered or in flight belongs to this pipeline, the
        snapshot holds no collider twice, and while a last count is recorded
        the test array and both buffers exist with that count. */
    ghost predicate Valid()
      reads this
    {
      && Consistent(State())
      && (forall x :: x in colliders ==> x.Registry() == this)
      && (forall x :: x in Snapshot(dispatched) ==> x.Registry() == this)
      && NoDuplicates(Snapshot(dispatched))
      && (lastCount > 0 ==>
            && tests != null && tests.Length == lastCount
            && testsBuffer == Some(ComputeBuffer(lastCount, TestSize(kind) * FloatSize))
            && collisionsBuffer == Some(ComputeBuffer(lastCount, ElementSize * FloatSize)))
    }

    method Add(collider: WorldCollider)
      modifies this`colliders
      ensures colliders == old(colliders) + [collider]
    {
      colliders := colliders + [collider];
    }

    method Remove(collider: WorldCollider)
      modifies this`colliders
      ensures colliders == RemoveFirst(old(colliders), collider)
    {
      colliders := RemoveFirst(colliders, collider);
    }

    method ReleaseBuffers()
      modifies this`testsBuffer, this`collisionsBuffer
      ensures testsBuffer == None && collisionsBuffer == None
    {
      if testsBuffer.Some? {
        testsBuffer := None;
      }
      if collisionsBuffer.Some? {
        collisionsBuffer := None;
      }
    }

    /** The corrected release of OnDisable: no buffers, no count, nothing in
        flight. */
    method Suspend()
      requires Valid()
      modifies this`testsBuffer, this`collisionsBuffer, this`lastCount, this`dispatched
      ensures Valid()
      ensures State() == Batch(None, 0, old(requestFrame))
      ensures testsBuffer == None && collisionsBuffer == None
    {
      ReleaseBuffers();
      lastCount := 0;
      dispatched := None;
    }

    /** The readback of the collisions buffer holds one record per collider. */
    ghost predicate ReadbackFits(rb: Readback)
      reads this
    {
      Delivers(State(), rb) ==> |rb.data| == |Snapshot(dispatched)| * ElementSize
    }

    /** HandlePointCollisions / HandleSphereCollisions: on a successful
        readback every collider of the snapshot whose record reports a
        static or a dynamic collision gets OnWorldCollision, in order; the
        registry then loses exactly the colliders whose flag was cleared
        (`cleared`). An error forgets the buffer size. */
    method HandleCollisions(rb: Readback) returns (ghost cleared: set<WorldCollider>)
      requires Valid() && ReadbackFits(rb) && NoDuplicates(colliders)
      modifies this`dispatched, this`lastCount, this`colliders, Snapshot(dispatched)`responses, Snapshot(dispatched)`addedToWorld
      ensures Valid() && NoDuplicates(colliders)
      ensures State() == Handle(old(State()), rb)
      ensures colliders == Without(old(colliders), cleared)
      ensures var snapshot := old(Snapshot(dispatched));
        && (forall x :: x in cleared <==> x in snapshot && old(x.addedToWorld) && !x.addedToWorld)
        && (forall x :: x in snapshot ==>
              x.velocity == old(x.velocity) && x.position == old(x.position) && x.radius == old(x.radius))
        && (Delivers(old(State()), rb) ==>
              forall i :: 0 <= i < |snapshot| ==>
                Responded(snapshot[i], Decode(rb.data, i, snapshot[i].velocity),
                  old(snapshot[i].responses), old(snapshot[i].addedToWorld)))
        && (!Delivers(old(State()), rb) ==>
              forall x :: x in snapshot ==> x.responses == old(x.responses) && x.addedToWorld == old(x.addedToWorld))
    {
      if dispatched.Some? && rb.done {
        if !rb.hasError {
          cleared := DeliverCollisions(dispatched.value, rb.data);
        } else {
          cleared := {};
          WithoutEmpty(colliders);
          lastCount := 0;
        }
        dispatched := None;
      } else {
        cleared := {};
        WithoutEmpty(colliders);
      }
    }

    /** The loop of HandleCollisions over a delivered snapshot: collider `i`
        gets record `i`, and the registry loses the colliders that left. */
    method DeliverCollisions(snapshot: seq<WorldCollider>, data: seq<Float>) returns (ghost cleared: set<WorldCollider>)
      requires |data| == |snapshot| * ElementSize
      requires NoDuplicates(snapshot) && NoDuplicates(colliders)
      requires forall x :: x in snapshot ==> x.Registry() == this
      requires forall x :: x in colliders ==> x.Registry() == this
      modifies this`colliders, snapshot`responses, snapshot`addedToWorld
      ensures colliders == Without(old(colliders), cleared)
      ensures NoDuplicates(colliders) && forall x :: x in colliders ==> x.Registry() == this
      ensures forall x :: x in cleared <==> x in snapshot && old(x.addedToWorld) && !x.addedToWorld
      ensures forall x :: x in snapshot ==>
        x.velocity == old(x.velocity) && x.position == old(x.position) && x.radius == old(x.radius) &&
        x.enabled == old(x.enabled)
      ensures forall i :: 0 <= i < |snapshot| ==>
        Responded(snapshot[i], Decode(data, i, snapshot[i].velocity), old(snapshot[i].responses), old(snapshot[i].addedToWorld))
    {
      cleared := {};
      WithoutEmpty(colliders);
      ghost var collisions := seq(|snapshot|, i requires 0 <= i < |snapshot| reads set x | x in snapshot =>
        Decode(data, i, snapshot[i].velocity));
      for index := 0 to |snapshot|
        invariant forall j :: 0 <= j < index ==>
          Responded(snapshot[j], collisions[j], old(snapshot[j].responses), old(snapshot[j].addedToWorld))
        invariant forall j :: index <= j < |snapshot| ==>
          snapshot[j].responses == old(snapshot[j].responses) && snapshot[j].addedToWorld == old(snapshot[j].addedToWorld)
        invariant forall x :: x in cleared <==> x in snapshot[..index] && old(x.addedToWorld) && !x.addedToWorld
        invariant colliders == Without(old(colliders), cleared)
      {
        var collider := snapshot[index];
        var collision := Decode(data, index, collider.velocity);
        assert collision == collisions[index];
        assert collider.Registry() == this && collider.addedToWorld == old(collider.addedToWorld);
        assert forall j :: 0 <= j < |snapshot| && j != index ==> snapshot[j] != collider;
        assert forall x :: x in snapshot[..index + 1] <==> x in snapshot[..index] || x == collider;
        assert collider !in snapshot[..index];
        ghost var before := colliders;
        Respond(collider, collision);
        if (collision.staticCollision || collision.dynamicCollision) && !collider.enabled && old(collider.addedToWorld) {
          assert colliders == RemoveFirst(before, collider);
          RemoveFirstOfWithout(old(colliders), cleared, collider);
          cleared := cleared + {collider};
        } else {
          assert colliders == before;
        }
      }
      assert snapshot[..|snapshot|] == snapshot;
      WithoutDistinct(old(colliders), cleared);
      forall x | x in colliders
        ensures x.Registry() == this
      {
        WithoutMembers(old(colliders), cleared, x);
      }
    }

    /** One collider's turn in HandleCollisions: a reported collision reaches
        the collider, which may take itself out of this registry. */
    method Respond(collider: WorldCollider, collision: WorldCollision)
      requires collider.Registry() == this
      modifies collider`responses, collider`addedToWorld, this`colliders
      ensures Responded(collider, collision, old(collider.responses), old(collider.addedToWorld))
      ensures colliders ==
        if (collision.staticCollision || collision.dynamicCollision) && !collider.enabled && old(collider.addedToWorld)
        then RemoveFirst(old(colliders), collider) else old(colliders)
    {
      if collision.staticCollision || collision.dynamicCollision {
        collider.OnWorldCollision(collision);
      }
    }

    /** PerformPointCollisions / PerformSphereCollisions: handle the
        readback, then dispatch as DispatchCollisions states. */
    method PerformCollisions(frame: int, rb: Readback) returns (ghost cleared: set<WorldCollider>)
      requires Valid() && ReadbackFits(rb) && NoDuplicates(colliders)
      modifies this`dispatched, this`lastCount, this`colliders, this`tests
      modifies this`testsBuffer, this`collisionsBuffer, this`requestFrame
      modifies tests, Snapshot(dispatched)`responses, Snapshot(dispatched)`addedToWorld
      ensures Valid() && NoDuplicates(colliders)
      ensures State() == Perform(old(State()), rb, colliders, frame)
      ensures colliders == Without(old(colliders), cleared)
      ensures var h := Handle(old(State()), rb);
        && (Dispatches(h, |colliders|, frame) ==>
              forall i :: 0 <= i < |colliders| ==> tests[i] == colliders[i].Test())
        && (Reallocates(h, |colliders|, frame) ==> fresh(tests))
        && (!Reallocates(h, |colliders|, frame) ==> tests == old(tests))
    {
      cleared := HandleCollisions(rb);
      DispatchCollisions(frame);
    }

    /** The second half of PerformPointCollisions / PerformSphereCollisions:
        not twice in a rendered frame and not while a batch is in flight,
        snapshot the registry, reallocate only when its size changed, and
        write each collider's test record. */
    method DispatchCollisions(frame: int)
      requires Valid() && NoDuplicates(colliders)
      modifies this`dispatched, this`lastCount, this`tests
      modifies this`testsBuffer, this`collisionsBuffer, this`requestFrame
      modifies tests
      ensures Valid()
      ensures State() == Dispatch(old(State()), colliders, frame)
      ensures Dispatches(old(State()), |colliders|, frame) ==>
        forall i :: 0 <= i < |colliders| ==> tests[i] == colliders[i].Test()
      ensures Reallocates(old(State()), |colliders|, frame) ==> fresh(tests)
      ensures !Reallocates(old(State()), |colliders|, frame) ==> tests == old(tests)
    {
      if requestFrame == frame {
        return;
      }
      if dispatched.None? {
        var count := |colliders|;
        if count > 0 {
          dispatched := Some(colliders);
          if lastCount != count {
            ReleaseBuffers();
            tests := new CollisionTest[count];
            testsBuffer := Some(ComputeBuffer(count, TestSize(kind) * FloatSize));
            collisionsBuffer := Some(ComputeBuffer(count, ElementSize * FloatSize));
            lastCount := count;
          }
          var snapshot, records := dispatched.value, tests;
          for index := 0 to count
            modifies records
            invariant forall j :: 0 <= j < index ==> records[j] == snapshot[j].Test()
          {
            records[index] := snapshot[index].Test();
          }
          // SetData, SetBuffer, Dispatch and the readback request are the GPU's side.
          requestFrame := frame;
        }
      }
    }
  }
}
