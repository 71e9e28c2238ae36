# Herl game logic in Dafny

Herl is a Unity game. This project models the bookkeeping and selection logic
behind its engine callbacks and proves what that logic promises. The physics,
rendering and GPU shaders are left out.

- **ExecutionPool** (`execution_pool.dfy`): the round-robin execution
  throttle. A pool keeps a table of registration slots. Register claims the
  first free slot or appends one, and Unregister clears a slot. Every physics
  step the circular admission window `[minIndex, maxIndex)` moves on to cover
  at most `requestsPerFrame` occupied slots. `IsScheduled` tests whether an
  index lies in the window, taking the wrap-around into account.
- **GameObjectPool** (`game_object_pool.dfy`): the fixed-capacity object
  pool. It hands out the next inactive object after the last one it handed
  out, scanning circularly, and it collects the components of every active
  object. The engine's `activeSelf` flags are a `bool` array owned by the
  pool, flipped through `SetActive`.
- **World query pipeline** (`world.dfy`, `query_batch.dfy`,
  `world_collision.dfy`): the three batched GPU queries of the world, which
  are terrain heights, point collisions and sphere collisions.
  - Each query is the same state machine over three fields: the dispatched
    snapshot (or none), the last count and the request frame. `QueryBatch`
    states that machine once as pure functions, and the `World` and
    `CollisionQuery` methods are proved to follow it.
  - The GPU readback is a parameter `Readback(done, hasError, data)`, and the
    engine's rendered-frame counter is a parameter `frame`.
  - `CollisionRecord` decodes the 14-float collision records that the GPU
    returns.
  - `TerrainHeightSampler` and `WorldCollider` are the requesters that
    register with the world.
  - The world's active-player registry is modelled by `ActivePlayers`, and
    the collider enable/disable protocol by `ColliderRegistration`.
- **FullereneShieldAnimator** (`fullerene_shield_animator.dfy`): the bounded
  round-robin animator. Each frame it animates at most 32 consecutive shields
  and resumes where it stopped the frame before.
- **Common** (`common.dfy`): the integer helpers.
  - GPU dispatch size.
  - Texture size bias, with 32-bit wrap-around.
  - Square power-of-two texture size.
  - Team layers and masks.
  - The axis "button down" edge detector.
  - Modular slot arithmetic, shared by the other modules.
- **TerrainDistanceHint** (`terrain_distance_hint.dfy`): the sizing of the
  terrain hint mesh and its triangle index loop.
- **Extensions** (`extensions.dfy`): vector swizzles and the component-wise
  clamp.

Floats are the datatype `Float` in `numerics.dfy`. A value is a finite real,
an infinity or NaN, and comparisons follow IEEE 754 (every comparison with
NaN is false). Finite values are exact reals. `lists.dfy` holds the `List<T>`
operations the source uses: `Remove` deletes the first occurrence.

## Model

| member | source | states |
|---|---|---|
| ExecutionPool.ExecutionPool.constructor | Herl/Assets/ExecutionPool.cs:59-64 | a new pool has the given quota, an empty slot table and a valid window |
| ExecutionPool.FirstFree | Herl/Assets/ExecutionPool.cs:91-99 | the slot Register's scan finds. It is NoIndex exactly when every slot is taken; otherwise it is a free slot and every slot before it is taken |
| ExecutionPool.ExecutionPool.Register | Herl/Assets/ExecutionPool.cs:87-109 | claims the lowest free slot and changes nothing else in the table. With no free slot it appends one taken slot, and the count grows by one to the new length. The returned registration holds the chosen index and this pool |
| ExecutionPool.ExecutionPool.Unregister | Herl/Assets/ExecutionPool.cs:111-114 | clears exactly the given slot and keeps the table length and the count |
| ExecutionPool.Registration.constructor | Herl/Assets/ExecutionPool.cs:13-17 | the registration records its pool and its index |
| ExecutionPool.Registration.Dispose | Herl/Assets/ExecutionPool.cs:24-32 | the first call clears the registration's slot in its pool and sets the index to NoIndex, keeping the pool's count and window (minIndex, maxIndex). Later calls change nothing |
| ExecutionPool.Registration.IsScheduled | Herl/Assets/ExecutionPool.cs:34-40 | asks the registration's pool about its index; what that means after an advance is ScheduledAfterAdvance |
| ExecutionPool.ExecutionPool.IsScheduled | Herl/Assets/ExecutionPool.cs:116-126 | the circular window test, with no contract of its own; ScheduledAfterAdvance and ScheduledWithinQuotaRounds state which indices it admits |
| ExecutionPool.ExecutionPool.InternalNextFrame | Herl/Assets/ExecutionPool.cs:66-85 | the new window is NextWindow of the old one: with no slots nothing moves; otherwise the new minIndex is the old maxIndex and the new maxIndex is the slot after the admitted run, both inside the table |
| ExecutionPool.NextFrame | Herl/Assets/ExecutionPool.cs:51-57 | advances the window of every pool in the list once and leaves every slot table unchanged |
| ExecutionPool.WindowQuota | Herl/Assets/ExecutionPool.cs:72-83 | one advance admits at most requestsPerFrame occupied slots (exactly that many if it stops before the end of the table, with the last slot occupied). A non-positive quota gives a one-slot window, and the window covers the whole table when fewer slots than the quota are occupied |
| ExecutionPool.WindowStops | Herl/Assets/ExecutionPool.cs:72-83 | the window grows only while fewer than requestsPerFrame occupied slots have been counted, and it stops as soon as the quota is reached or the scan wraps round to minIndex |
| ExecutionPool.ScheduledAfterAdvance | Herl/Assets/ExecutionPool.cs:116-126 | after an advance, an index is scheduled exactly when its circular distance from the new minIndex is less than the window length. A window covering the whole table has minIndex == maxIndex and schedules every index |
| ExecutionPool.ScheduledWithin | Herl/Assets/ExecutionPool.cs:66-85 | with the slot table unchanged, every index is scheduled within as many advances as its circular distance from the current maxIndex |
| ExecutionPool.ScheduledWithinRounds | Herl/Assets/ExecutionPool.cs:66-85 | with a positive quota and the table unchanged, a registered index is scheduled by an advance before which fewer than (advances so far) * quota of the registered slots from maxIndex up to it have been passed: each advance that misses it passes exactly quota of them |
| ExecutionPool.ScheduledWithinQuotaRounds | Herl/Assets/ExecutionPool.cs:66-85 | the fairness bound: with a positive quota and the table unchanged, every registered index is scheduled within ceil(registered count / requestsPerFrame) advances |
| ExecutionPool.OccupiedWholeTable | Herl/Assets/ExecutionPool.cs:72-83 | one full turn of the table from any slot counts every registered slot once |
| GameObjectPool.GameObjectPool.constructor | Herl/Assets/GameObjectPool.cs:22-36 | creates exactly count objects and components, all inactive, with no index handed out yet |
| GameObjectPool.AvailableIndexSpec | Herl/Assets/GameObjectPool.cs:38-56 | the index found is inactive and is not the last one handed out. It is NoIndex exactly when every other object is active, and every object the circular scan passes before it is active |
| GameObjectPool.FullPoolHasNoneAvailable | Herl/Assets/GameObjectPool.cs:40-55 | a pool whose objects are all active yields NoIndex |
| GameObjectPool.GameObjectPool.GetAvailableIndex | Herl/Assets/GameObjectPool.cs:38-56 | the loop returns AvailableIndex of the activity flags and the last index, remembers a found index and changes no activity flag |
| GameObjectPool.AsWrittenAgrees | Herl/Assets/GameObjectPool.cs:38-56 | the loop as written runs forever exactly when no index was handed out yet and every object is active. Otherwise it returns the same index as the corrected scan |
| GameObjectPool.AsWrittenDivergesOnFullFreshPool | Herl/Assets/GameObjectPool.cs:40-55 | on a fresh pool with every object active, the loop as written never ends, while the corrected scan returns NoIndex |
| GameObjectPool.SingleObjectPoolHandsOutOnce | Herl/Assets/GameObjectPool.cs:40-55 | a one-object pool that has handed out its object finds nothing more; the scan skips the last index handed out even when it is inactive again |
| GameObjectPool.GameObjectPool.GetAvailableGameObject | Herl/Assets/GameObjectPool.cs:58-70 | returns None exactly when the index is NoIndex, and otherwise the game object at the found index |
| GameObjectPool.GameObjectPool.GetAvailableComponent | Herl/Assets/GameObjectPool.cs:72-85 | returns None exactly when the index is NoIndex, and otherwise the component at the found index |
| GameObjectPool.GameObjectPool.GetGameObject | Herl/Assets/GameObjectPool.cs:87-90 | returns the game object at the index |
| GameObjectPool.GameObjectPool.GetComponent | Herl/Assets/GameObjectPool.cs:92-95 | returns the component at the index |
| GameObjectPool.GameObjectPool.GetEnabledComponents | Herl/Assets/GameObjectPool.cs:97-125 | the two-pass count-and-fill loop returns a fresh array equal to EnabledComponents of the flags |
| GameObjectPool.GameObjectPool.SetActive | Herl/Assets/GameObjectPool.cs:46-48 | the engine's GameObject.SetActive on a pooled object, whose activeSelf the scans read: exactly that object's flag changes |
| GameObjectPool.ActiveIndicesExact | Herl/Assets/GameObjectPool.cs:97-125 | the collected indices are exactly the active ones, in strictly ascending order, and there are as many as the count of active objects |
| GameObjectPool.EnabledComponentsAreActiveComponents | Herl/Assets/GameObjectPool.cs:97-125 | the result has one entry per active object, and entry k is the component of the k-th active object |
| QueryBatch.InitialIsConsistent | Herl/Assets/World.cs:297-319 | a query starts with nothing in flight and a last count of zero, which satisfies the batch invariant |
| QueryBatch.PerformKeepsConsistent | Herl/Assets/World.cs:1063-1110 | a handle and a perform step keep the invariant: a batch in flight is non-empty and its length is the last count |
| QueryBatch.HandleProperties | Herl/Assets/World.cs:1112-1137 | handling never starts a batch and never moves the request frame; it ends the batch in flight exactly when the readback is done, lowers the last count only to zero and only on error, and handling the same readback twice is handling it once |
| QueryBatch.Handle | Herl/Assets/World.cs:1112-1137 | the Handle* state step, with no contract of its own; HandleProperties, PerformKeepsConsistent, ErrorThenRetry and DeliveredOnce state what it promises |
| QueryBatch.DispatchProperties | Herl/Assets/World.cs:1065-1108 | dispatching changes the state exactly when it starts a batch, and a started batch is the whole registry with buffers sized for it in the current frame. It is idempotent, and after it has started a batch no second dispatch in the same frame changes anything |
| QueryBatch.Dispatch | Herl/Assets/World.cs:1065-1108 | the dispatch half of Perform*, with no contract of its own; DispatchProperties, SteadyStateReusesBuffers and ForgottenCountReallocates state what it promises |
| QueryBatch.Perform | Herl/Assets/World.cs:1063-1110 | Handle, then Dispatch of the registry as handling left it, with no contract of its own; PerformKeepsConsistent, NoDispatchWhilePending and AtMostOneDispatchPerFrame state what it promises |
| QueryBatch.NoDispatchWhilePending | Herl/Assets/World.cs:1063-1078 | while a batch is in flight and its readback is not done, a perform step changes nothing |
| QueryBatch.AtMostOneDispatchPerFrame | Herl/Assets/World.cs:1065-1070 | after a step that dispatched, no second step in the same frame dispatches, whatever its readback |
| QueryBatch.ErrorThenRetry | Herl/Assets/World.cs:1112-1137 | a readback error drops the batch and resets the count, so the next dispatch of the same registry reallocates the buffers |
| QueryBatch.SteadyStateReusesBuffers | Herl/Assets/World.cs:1080-1089 | after a delivered batch, a registry of the same size is dispatched again without reallocating |
| QueryBatch.ReenabledQueryReusesItsBuffers | Herl/Assets/World.cs:1506-1511 | a query that kept its last count while its buffers were released dispatches without reallocating them, which is what the as-written OnDisable leads to |
| QueryBatch.ForgottenCountReallocates | Herl/Assets/World.cs:1080-1089 | with a last count of zero, the next dispatch reallocates |
| QueryBatch.DeliveredOnce | Herl/Assets/World.cs:1112-1137 | a batch's results are delivered at most once |
| QueryBatch.RunKeepsConsistent | Herl/Assets/World.cs:1063-1137 | any run of frames keeps the batch invariant |
| QueryBatch.RunFrames | Herl/Assets/World.cs:1065-1107 | after any run of frames, the request frame is the initial one or one of the frames the run was given |
| ActivePlayers.EmptyAgrees | Herl/Assets/World.cs:1381-1385 | the empty registry that Awake creates satisfies the agreement invariant |
| ActivePlayers.AddPlayer | Herl/Assets/World.cs:583-595 | the three list updates of AddActivePlayer, keeping the lists well formed; AddPlayerAgrees and AddedPlayerIsVisible state what they promise |
| ActivePlayers.RemovePlayer | Herl/Assets/World.cs:597-609 | the three first-occurrence removals of RemoveActivePlayer, keeping the lists well formed; RemovePlayerAgrees and RemoveUndoesAdd state what they promise |
| ActivePlayers.Query | Herl/Assets/World.cs:611-628 | the list GetActivePlayers returns, with no contract of its own; OpponentsAreTheOtherTeam and AddedPlayerIsVisible state what it shows |
| ActivePlayers.AddPlayerAgrees | Herl/Assets/World.cs:583-595 | AddActivePlayer keeps the invariant: the players are exactly the two teams together, and a team's opponents are everyone not on it, counted as multisets |
| ActivePlayers.RemovePlayerAgrees | Herl/Assets/World.cs:597-609 | RemoveActivePlayer of a player on the given team keeps the same invariant |
| ActivePlayers.AddedPlayerIsVisible | Herl/Assets/World.cs:611-628 | after AddActivePlayer, GetActivePlayers shows the player last among all players, on its team and among the opponents of the other team, and leaves the two remaining lists unchanged |
| ActivePlayers.RemoveUndoesAdd | Herl/Assets/World.cs:583-609 | removing a player that was not registered right after adding it restores every list |
| ActivePlayers.OpponentsAreTheOtherTeam | Herl/Assets/World.cs:611-628 | while the lists agree, a team's opponents are the other team's players, counted as multisets |
| GameWorld.World.constructor | Herl/Assets/World.cs:1377-1403 | every player list and registry is empty, each query is in its initial state, and the pools and Tf objects are the given ones |
| GameWorld.World.AddActivePlayer | Herl/Assets/World.cs:583-595 | the three player lists become AddPlayer of the old ones |
| GameWorld.World.RemoveActivePlayer | Herl/Assets/World.cs:597-609 | the three player lists become RemovePlayer of the old ones |
| GameWorld.World.GetActivePlayers | Herl/Assets/World.cs:611-628 | Query of the world's three player lists, with no contract of its own; OpponentsAreTheOtherTeam and AddedPlayerIsVisible state what it returns |
| GameWorld.World.GetMissilePool | Herl/Assets/World.cs:682-692 | team 0's missile pool for team 0 and team 1's for every other team, as TeamSelectorsFollowLayers states |
| GameWorld.World.GetRlPool | Herl/Assets/World.cs:694-704 | team 0's RL pool for team 0 and team 1's for every other team, as TeamSelectorsFollowLayers states |
| GameWorld.World.GetTeamTf | Herl/Assets/World.cs:706-716 | team 0's Tf for team 0 and team 1's for every other team, as TeamSelectorsFollowLayers states |
| GameWorld.World.TeamSelectorsFollowLayers | Herl/Assets/World.cs:682-716 | the missile pool, RL pool and Tf selectors pick team 1's objects for the team whose layer is LayerTeam1, and team 2's for the team whose layer is LayerTeam2 (every other value) |
| GameWorld.ShiftOneValues | Herl/Assets/World.cs:341-347 | the noise texture size `1 << power` is 2^power for powers 0 to 30. The shift count is taken modulo 32, and a power of 31 gives int.MinValue |
| GameWorld.World.NoiseTextureSize | Herl/Assets/World.cs:341-347 | `1 << noiseTexturePower` with C#'s 32-bit shift, with no contract of its own; ShiftOneValues states its values |
| GameWorld.World.AddTerrainHeightSampler | Herl/Assets/World.cs:1038-1041 | appends the sampler to the registry |
| GameWorld.World.RemoveTerrainHeightSampler | Herl/Assets/World.cs:1043-1046 | removes the first occurrence of the sampler from the registry |
| GameWorld.World.ReleaseTerrainHeightSamplersBuffers | Herl/Assets/World.cs:1048-1061 | both terrain buffers are released |
| GameWorld.World.HandleTerrainHeightSamples | Herl/Assets/World.cs:1112-1137 | the terrain batch steps by Handle. A delivered batch records location i and height i into snapshot sampler i; otherwise no sampler changes |
| GameWorld.World.DispatchTerrainHeightSamples | Herl/Assets/World.cs:1072-1108 | the terrain batch steps by Dispatch. On dispatch, location slot i holds sampler i's requested location. The array is reallocated when the dispatch finds the count changed, and is otherwise the same array |
| GameWorld.World.PerformTerrainHeightSamples | Herl/Assets/World.cs:1063-1110 | the terrain batch steps by Perform on the unchanged registry, with the samples recorded and the locations written as Handle and Dispatch state |
| GameWorld.World.FixedUpdate | Herl/Assets/World.cs:1693-1703 | every execution pool advances its window once, then the terrain, point and sphere batches each step by Perform, in that order |
| GameWorld.World.AdvancePools | Herl/Assets/World.cs:1697 | every pool's window becomes NextWindow of the old one and its slot table is unchanged |
| GameWorld.World.PerformQueries | Herl/Assets/World.cs:1699-1702 | the terrain, point and sphere batches each step by Perform on their registries |
| GameWorld.World.PerformTerrain | Herl/Assets/World.cs:1699-1700 | the terrain batch steps by Perform on its registry |
| GameWorld.World.PerformCollisionQueries | Herl/Assets/World.cs:1701-1702 | the point batch and then the sphere batch step by Perform on their registries |
| GameWorld.World.PerformPointCollisions | Herl/Assets/World.cs:1164-1211 | the point batch steps by Perform on the point registry |
| GameWorld.World.PerformSphereCollisions | Herl/Assets/World.cs:1271-1318 | the sphere batch steps by Perform on the sphere registry |
| GameWorld.World.OnDisableAsWritten | Herl/Assets/World.cs:1506-1511 | the buffers are released but every batch state, its last count included, is kept. Any query with a non-zero last count is then left outside its invariant: a recorded count whose buffers are gone, which the next dispatch of that size will not reallocate |
| GameWorld.World.OnDisable | Herl/Assets/World.cs:1506-1511 | releases every buffer and also resets each query's last count to zero and drops its batch, keeping the registries, so every later dispatch reallocates |
| GameWorld.World.AddPointCollider | Herl/Assets/World.cs:1139-1142 | appends the collider to the point registry |
| GameWorld.World.RemovePointCollider | Herl/Assets/World.cs:1144-1147 | removes the first occurrence of the collider from the point registry |
| GameWorld.World.AddSphereCollider | Herl/Assets/World.cs:1246-1249 | appends the collider to the sphere registry |
| GameWorld.World.RemoveSphereCollider | Herl/Assets/World.cs:1251-1254 | removes the first occurrence of the collider from the sphere registry |
| GameWorld.CollisionQuery.constructor | Herl/Assets/World.cs:305-319 | a collision query starts with an empty registry in the initial batch state |
| GameWorld.CollisionQuery.Add | Herl/Assets/World.cs:1139-1142 | appends to the registry |
| GameWorld.CollisionQuery.Remove | Herl/Assets/World.cs:1144-1147 | removes the first occurrence from the registry |
| GameWorld.CollisionQuery.ReleaseBuffers | Herl/Assets/World.cs:1149-1162 | both buffers are released |
| GameWorld.CollisionQuery.Suspend | Herl/Assets/World.cs:1506-1511 | the corrected disable of one query: buffers released, batch dropped and last count zero, with the request frame kept |
| GameWorld.CollisionQuery.HandleCollisions | Herl/Assets/World.cs:1213-1244 | the batch steps by Handle. On delivery, the collider at snapshot index i receives the record decoded at index i with its velocity, exactly when that record has a static or a dynamic collision; otherwise no collider changes. The registry loses exactly the snapshot colliders whose added flag this cleared |
| GameWorld.CollisionQuery.DeliverCollisions | Herl/Assets/World.cs:1224-1234 | the delivery loop: each snapshot collider responds to its own decoded record, and the registry loses exactly the colliders whose added flag was cleared |
| GameWorld.CollisionQuery.Respond | Herl/Assets/World.cs:1228-1231 | a record with a collision is passed to OnWorldCollision; a disabled, added collider hit in this way leaves the registry, and a record without a collision changes nothing |
| GameWorld.CollisionQuery.DispatchCollisions | Herl/Assets/World.cs:1173-1209 | the batch steps by Dispatch. On dispatch, test i is collider i's position and velocity (and radius for spheres). The test array is reallocated when the dispatch finds the count changed, and is otherwise the same array |
| GameWorld.CollisionQuery.PerformCollisions | Herl/Assets/World.cs:1164-1211 | the batch steps by Perform on the registry that handling left, and the tests are written as Dispatch states |
| GameWorld.TerrainHeightSampler.constructor | Herl/Assets/TerrainHeightSampler.cs:33-38 | a new sampler records the requested location, is not yet sampled and is appended to its world's registry, which, the sampler being new, stays free of duplicates |
| GameWorld.TerrainHeightSampler.AddToWorld | Herl/Assets/TerrainHeightSampler.cs:40-43 | appends the sampler to its world's registry |
| GameWorld.TerrainHeightSampler.RemoveFromWorld | Herl/Assets/TerrainHeightSampler.cs:45-48 | removes the first occurrence of the sampler from its world's registry |
| GameWorld.TerrainHeightSampler.RecordSample | Herl/Assets/TerrainHeightSampler.cs:50-63 | stores the sampled location and height and marks the sampler sampled; the height above terrain is then the recorded height less the world's y position |
| GameWorld.TerrainHeightSampler.HeightAboveTerrain | Herl/Assets/TerrainHeightSampler.cs:57-63 | the sampled height less the world's y position, with IEEE subtraction; RecordSample states it for the height just recorded |
| GameWorld.TerrainHeightSampler.PredictiveCases | Herl/Assets/TerrainHeightSampler.cs:65-97 | for every location and position, a sampler that was never sampled is not predictive and one sampled at exactly the requested location is, under both overloads. The Vector3 overload is the Vector2 one on the position's xz projection |
| GameWorld.TerrainHeightSampler.IsPredictive | Herl/Assets/TerrainHeightSampler.cs:65-92 | the Vector2 test, with the distance and direction branch as a parameter; PredictiveCases states its cases |
| GameWorld.TerrainHeightSampler.IsPredictiveAt | Herl/Assets/TerrainHeightSampler.cs:94-97 | the Vector3 overload; PredictiveCases states that it is the Vector2 test on the xz projection |
| GameWorld.GetSampler | Herl/Assets/TerrainHeightSampler.cs:14-26 | with no sampler, a fresh unsampled one is created at the location and registered. Given a sampler, only its requested location changes and the registry is untouched |
| GameWorld.GetSamplerAt | Herl/Assets/TerrainHeightSampler.cs:28-31 | the same, with the location taken as the xz projection of the position |
| GameWorld.WorldCollider.constructor | Herl/Assets/WorldCollider.cs:10-38 | a collider starts not added to its world, with no collision received |
| GameWorld.WorldCollider.AddToWorld | Herl/Assets/PointWorldCollider.cs:3-6 | appends the collider to the registry of its kind (point or sphere) |
| GameWorld.WorldCollider.RemoveFromWorld | Herl/Assets/PointWorldCollider.cs:8-11 | removes the first occurrence of the collider from the registry of its kind |
| GameWorld.WorldCollider.OnEnable | Herl/Assets/WorldCollider.cs:131-140 | the list and the flag change exactly as ColliderRegistration.Enable says |
| GameWorld.WorldCollider.OnDisable | Herl/Assets/WorldCollider.cs:142-149 | the list and the flag change exactly as ColliderRegistration.Disable says |
| GameWorld.WorldCollider.OnWorldCollision | Herl/Assets/WorldCollider.cs:48-106 | an enabled collider records the collision and keeps its registration; a disabled one records nothing and runs OnDisable |
| ColliderRegistration.CallbacksKeepTracking | Herl/Assets/WorldCollider.cs:131-149 | OnEnable and OnDisable keep "in the list exactly once if added, otherwise not at all". They set the flag as named and leave every other collider's entries alone |
| ColliderRegistration.ToggleKeepsTracking | Herl/Assets/WorldCollider.cs:131-149 | any sequence of enable and disable calls keeps that invariant. The flag is set by the last call, and the collider is in the list exactly when the flag is set |
| ColliderRegistration.CallbacksAreIdempotent | Herl/Assets/WorldCollider.cs:131-149 | a second OnEnable, or a second OnDisable, changes nothing |
| ColliderRegistration.EnableThenDisable | Herl/Assets/WorldCollider.cs:131-149 | disabling right after enabling a collider that was not added restores the list |
| CollisionRecord.Decode | Herl/Assets/WorldCollision.cs:19-31 | the record constructor, with no contract of its own; DecodeIsTheRecordOf, DecodeReadsItsRecord and DecodeEncode state what it computes |
| CollisionRecord.DecodeIsTheRecordOf | Herl/Assets/WorldCollision.cs:19-31 | the decoded record is the only record that encodes to the 14 floats read and whose flags follow the rule: StaticCollision exactly when StaticHeight < 0, DynamicCollision exactly when DynamicDistance is below infinity and the velocity points against DynamicNormal |
| CollisionRecord.DecodeReadsItsRecord | Herl/Assets/WorldCollision.cs:19-27 | the decoded fields are, in order, floats index*14 to index*14+13 of the source |
| CollisionRecord.DecodeIgnoresOtherRecords | Herl/Assets/WorldCollision.cs:21-27 | two sources that agree on a record's 14 floats decode to the same collision there |
| CollisionRecord.DecodeEncode | Herl/Assets/WorldCollision.cs:19-31 | a collision whose flags follow the rule decodes back to itself from any record-aligned position |
| CollisionRecord.ContactPosition | Herl/Assets/WorldCollision.cs:49-63 | the contact is the midpoint of the two positions when both collisions hold (for finite positions), the static position when only it holds, and the dynamic position otherwise |
| CollisionRecord.GetContactPosition | Herl/Assets/WorldCollision.cs:49-63 | the contact point, with no contract of its own; ContactPosition states its three cases |
| CollisionRecord.NaNRecordCollidesWithNothing | Herl/Assets/WorldCollision.cs:29-30 | a record of NaNs has neither collision flag set, since every comparison with NaN is false |
| FullereneShieldAnimator.ShieldList.constructor | Herl/Assets/FullereneShieldAnimator.cs:8 | the shared shield list starts empty |
| FullereneShieldAnimator.ShieldList.AddShield | Herl/Assets/FullereneShieldAnimator.cs:12-15 | appends the shield |
| FullereneShieldAnimator.ShieldList.RemoveShield | Herl/Assets/FullereneShieldAnimator.cs:17-20 | removes the first occurrence of the shield |
| FullereneShieldAnimator.StartCursor | Herl/Assets/FullereneShieldAnimator.cs:28-31 | the starting index always lies inside the list |
| FullereneShieldAnimator.Animator.constructor | Herl/Assets/FullereneShieldAnimator.cs:10 | the cursor starts at 0 |
| FullereneShieldAnimator.Animator.Update | Herl/Assets/FullereneShieldAnimator.cs:22-47 | an empty list animates nothing and keeps the cursor. Otherwise the loop animates the run Animation from the (reset) cursor, and the new cursor is the index after the last one animated, inside the list |
| FullereneShieldAnimator.AnimationSpec | Herl/Assets/FullereneShieldAnimator.cs:36-43 | a run animates between 1 and 32 shields (the smaller of 32 and the count), starting at the cursor. The indices are consecutive modulo the count and pairwise distinct, and the run covers every shield when there are at most 32 |
| FullereneShieldAnimator.AnimationSteps | Herl/Assets/FullereneShieldAnimator.cs:40 | each animated index is the one before it plus 1, modulo the count |
| FullereneShieldAnimator.AnimationDistinct | Herl/Assets/FullereneShieldAnimator.cs:36-43 | no shield is animated twice in one Update |
| FullereneShieldAnimator.AnimationCovers | Herl/Assets/FullereneShieldAnimator.cs:36-43 | with at most 32 shields, a single Update animates every one of them |
| FullereneShieldAnimator.AnimationCursor | Herl/Assets/FullereneShieldAnimator.cs:40-45 | the stored cursor is the index after the last one animated |
| Common.GetGpuDispatchSize | Herl/Assets/Common.cs:151-154 | for a count that does not overflow, the group count times 32 covers it and one group fewer does not, i.e. the ceiling of count / 32 |
| Common.ApplyTextureSizeBias | Herl/Assets/Common.cs:188-203 | the halving and doubling loops compute BiasedTextureSize, with 32-bit wrap-around on doubling |
| Common.ZeroBiasIsIdentity | Herl/Assets/Common.cs:188-203 | a bias of 0 leaves the size unchanged |
| Common.BiasScales | Herl/Assets/Common.cs:190-200 | a negative bias multiplies the size by 2^-bias when that fits in 32 bits; a positive bias divides a non-negative size by 2^bias |
| Common.NextPowerOfTwo | Herl/Assets/Common.cs:208 | the result is a power of two at least v and less than 2v |
| Common.GetSquareTextureSize | Herl/Assets/Common.cs:205-211 | a power of two that covers both sides and is less than twice the larger one |
| Common.GetSquareTextureSizeBiased | Herl/Assets/Common.cs:213-218 | the square size with the bias rule applied |
| Common.TeamMaskIsLayerBit | Herl/Assets/Common.cs:314-336 | team 0's layer is 9 and every other team's is 10, the two teams' layers differ, and each mask is 1 shifted by the layer |
| Common.GetTeamLayer | Herl/Assets/Common.cs:314-324 | LayerTeam1 for team 0 and LayerTeam2 otherwise, with no contract of its own; TeamMaskIsLayerBit states its values |
| Common.GetTeamLayerMask | Herl/Assets/Common.cs:326-336 | LayerTeam1Mask for team 0 and LayerTeam2Mask otherwise; TeamMaskIsLayerBit states that each is 1 shifted by the layer |
| Common.InputGetAxisButtonDown | Herl/Assets/Common.cs:350-373 | reports a press exactly when the (optionally inverted) axis exceeds 0.5 and was not pressed before. Afterwards pressed holds exactly when the axis exceeds 0.5 |
| Common.DownEventsAreRisingEdges | Herl/Assets/Common.cs:350-373 | over a run of readings, the i-th call reports a press exactly at a rising edge past 0.5 |
| Extensions.ProjectionsKeepComponents | Herl/Assets/Extensions.cs:29-37 | xz and xy keep the named components in order |
| Extensions.YxIsInvolution | Herl/Assets/Extensions.cs:17-20 | yx applied twice is the identity |
| Extensions.YxzIsInvolution | Herl/Assets/Extensions.cs:45-48 | yxz applied twice is the identity |
| Extensions.ZxyHasOrderThree | Herl/Assets/Extensions.cs:40-43 | zxy applied three times is the identity, and it fixes exactly the vectors with three equal components |
| Extensions.DuplicatingSwizzles | Herl/Assets/Extensions.cs:12-26 | xx has two equal components, and xyx repeats x as its first and third components |
| Extensions.YxzThenXy | Herl/Assets/Extensions.cs:29-48 | swapping x and y and then projecting is projecting and then swapping |
| Extensions.QuaternionSwizzlesCopyInOrder | Herl/Assets/Extensions.cs:50-58 | xyz and xyzw copy the quaternion's components in order |
| Extensions.ClampFloatInRange | Herl/Assets/Extensions.cs:67-70 | for min <= max, a clamped non-NaN value lies in [min, max], and a value already in range is unchanged |
| Extensions.ClampFloatKeepsNaN | Herl/Assets/Extensions.cs:67-70 | clamping NaN gives NaN, since neither comparison holds |
| Extensions.ClampInRange | Herl/Assets/Extensions.cs:67-70 | for min <= max, every component of the clamped vector lies in [min, max], and components already in range are unchanged |
| Extensions.Xx | Herl/Assets/Extensions.cs:12-15 | (x, x); DuplicatingSwizzles states it |
| Extensions.Yx | Herl/Assets/Extensions.cs:17-20 | (y, x); YxIsInvolution states it |
| Extensions.Xyx | Herl/Assets/Extensions.cs:23-26 | (x, y, x); DuplicatingSwizzles states it |
| Extensions.Xy | Herl/Assets/Extensions.cs:29-32 | (x, y); ProjectionsKeepComponents states it |
| Extensions.Xz | Herl/Assets/Extensions.cs:34-37 | (x, z); ProjectionsKeepComponents states it |
| Extensions.Zxy | Herl/Assets/Extensions.cs:40-43 | (z, x, y); ZxyHasOrderThree states it |
| Extensions.Yxz | Herl/Assets/Extensions.cs:45-48 | (y, x, z); YxzIsInvolution and YxzThenXy state it |
| Extensions.Xyz | Herl/Assets/Extensions.cs:50-53 | the quaternion's (x, y, z); QuaternionSwizzlesCopyInOrder states it |
| Extensions.Xyzw | Herl/Assets/Extensions.cs:55-58 | the quaternion's (x, y, z, w); QuaternionSwizzlesCopyInOrder states it |
| Extensions.ClampFloat | Herl/Assets/Extensions.cs:67-70 | Mathf.Clamp on one component; ClampFloatInRange and ClampFloatKeepsNaN state it |
| Extensions.Clamp | Herl/Assets/Extensions.cs:67-70 | the component-wise clamp; ClampInRange states it |
| TerrainDistanceHint.BuildMesh | Herl/Assets/TerrainDistanceHint.cs:164-190 | the vertex array has sizeX * sizeY entries and the index array (sizeX - 1) * (sizeY - 1) * 6, which the index loop fills with GridIndices |
| TerrainDistanceHint.WriteTriangleIndices | Herl/Assets/TerrainDistanceHint.cs:168-190 | the nested loops write the whole index array, which becomes GridIndices, with the counter ending at the array length |
| TerrainDistanceHint.WriteQuad | Herl/Assets/TerrainDistanceHint.cs:175-187 | writes the two triangles of one quad after the prefix already written, and moves the counter on by 6 |
| TerrainDistanceHint.RowFirstIsProduct | Herl/Assets/TerrainDistanceHint.cs:169-189 | at the start of row y the first index is y * sizeX |
| TerrainDistanceHint.GridLength | Herl/Assets/TerrainDistanceHint.cs:168-190 | six indices for each of the sizeX - 1 quads of each row |
| TerrainDistanceHint.GridQuadAt | Herl/Assets/TerrainDistanceHint.cs:175-187 | entries 6(y(sizeX-1)+x) to 6(y(sizeX-1)+x)+5 hold the triangles (v, v+sizeX, v+1) and (v+1, v+sizeX, v+sizeX+1) of v = y*sizeX + x |
| TerrainDistanceHint.MeshIndicesInRange | Herl/Assets/TerrainDistanceHint.cs:152-190 | with sizeY >= 2 (it starts at 2), every index names one of the sizeX * sizeY vertices |

## Left out

- The `~Registration` finalizer: garbage-collection timing is not modelled. Dispose is.
- Static lists: `ExecutionPool`'s static pool list is the explicit sequence passed to `NextFrame` (and to `World.FixedUpdate`). The animator's static shield list is a `ShieldList` object passed to `Update`.
- Float rounding: finite floats are exact reals, so single-precision rounding is not modelled. Infinities and NaN are.
- `int` overflow: it is modelled in the texture-size doubling, in `1 << power` and in the dispatch-size addition; elsewhere counts are unbounded.
- Common.NextPowerOfTwo, Common.GetSquareTextureSize, Common.GetSquareTextureSizeBiased: they require the size (the longer side) to lie between 1 and 2^30. `Mathf.NextPowerOfTwo` of 0, and its overflow above 2^30, are not modelled; the callers pass camera pixel sizes.
- GPU work: compute shader dispatch, `ComputeBuffer.SetData`, shader uniforms and `UpdateWater` are not modelled. Buffers are modelled only as allocated or released.
- `AsyncGPUReadback`: it is the parameter `Readback(done, hasError, data)`, chosen by the caller each frame. `Time.renderedFrameCount` is the parameter `frame`.
- The terrain distance hint's vertex placement loop and its float row count are not modelled, only the array sizes and the index loop.
- The zero-capacity object pool: GetAvailableIndex requires a non-empty pool, because the source's `% _count` fails on an empty one.
- `TerrainHeightSampler.IsPredictive`: the distance and direction branch is float geometry. It is the boolean parameter `nearbyAndAligned`, so only the sampled and equal-location branches are modelled.
- GameWorld.WorldCollider.OnWorldCollision, GameWorld.CollisionQuery.HandleCollisions, GameWorld.CollisionQuery.Respond, GameWorld.CollisionQuery.DeliverCollisions, GameWorld.World.PerformCollisionQueries, GameWorld.World.FixedUpdate: the collider callbacks are those of the WorldCollider base class (WorldCollider.cs). The game's overrides are not modelled. In Missile (Missile.cs:30-33), a hit deactivates the object, so even an enabled missile leaves its registry through OnDisable. In RlController (RlController.cs:141-150), OnDisable also removes its terrain sampler from the world. So the statements that an enabled collider keeps its registration, and that the collision steps leave the terrain sampler registry unchanged, hold only for base-class colliders.
- `GetNearestActivePlayer` and the collision response physics of `OnWorldCollision` (reflection, bounciness, torque) are float geometry. A collision is recorded as received.
- Structure: the source methods are split for proof.
  - `DispatchTerrainHeightSamples` and `CollisionQuery.DispatchCollisions` are the dispatch half of each Perform.
  - `CollisionQuery.DeliverCollisions` and `CollisionQuery.Respond` are the delivery loop of each Handle.
  - `TerrainDistanceHint.WriteQuad` is one quad of the index loop.
  - `World.AdvancePools`, `World.PerformQueries`, `World.PerformTerrain` and `World.PerformCollisionQueries` are the steps of `FixedUpdate`.
- `CollisionQuery` groups the fields that the source repeats for point and sphere collisions (`PerformPointCollisions` and `PerformSphereCollisions` are the same code on different fields).
- The World constructor takes the pools and Tf objects that Awake builds from scene templates, because instantiation from a template is not modelled.
- `World.AddPointCollider` and `World.AddSphereCollider` require the collider to be of the matching kind, which the source's parameter types guarantee.
- GameWorld.World.PerformTerrainHeightSamples, GameWorld.CollisionQuery.HandleCollisions: both require the readback data to hold a full record (or sample) for every snapshot entry, which the GPU buffer's size guarantees in the source.
- GameWorld.CollisionQuery.PerformCollisions: does not restate what each collider receives; that is stated by `GameWorld.CollisionQuery.HandleCollisions`, which it calls first.
- GameWorld.World.PerformQueries, GameWorld.World.FixedUpdate, GameWorld.World.PerformTerrain, GameWorld.World.PerformCollisionQueries, GameWorld.World.PerformPointCollisions, GameWorld.World.PerformSphereCollisions: state each batch's new state, not the samples recorded, the collisions delivered or the locations and tests written; those are stated by the Handle and Dispatch members they call (HandleTerrainHeightSamples, DispatchTerrainHeightSamples, PerformTerrainHeightSamples, CollisionQuery.HandleCollisions, CollisionQuery.DispatchCollisions).
- Shield animation itself (FullereneShield colour lerping) is not modelled: `Update` returns the indices it animates.

## Findings

| source | as written | input that shows it | evidently intended | confidence | as-written member | corrected member |
|---|---|---|---|---|---|---|
| Herl/Assets/GameObjectPool.cs:38-56 | the scan stops only on finding an inactive object or on coming back to `_lastAvailableIndex` | a fresh pool (`_lastAvailableIndex` is -1) whose objects are all active: no index equals -1, so the loop never ends | stop after one full circuit and return -1 | not executed | GameObjectPool.AsWrittenDivergesOnFullFreshPool | GameObjectPool.GameObjectPool.GetAvailableIndex |
| Herl/Assets/World.cs:1506-1511 | OnDisable releases every query's buffers but keeps the last counts | a world with a recorded count and nothing in flight, disabled and then re-enabled with a registry of the same size: the next dispatch sees an unchanged count and uses the released buffers | reset the last counts (and drop the batches) when the buffers are released, so the next dispatch reallocates | not executed | GameWorld.World.OnDisableAsWritten | GameWorld.World.OnDisable |
