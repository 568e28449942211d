# Tile rhythm game core in Dafny

This project models the gameplay core of a Unity rhythm game in which a
character walks over a 10 by 10 floor of tiles. It covers six parts:

- **Event registry** (`EventManager`, `On`): a dictionary from integer
  event ids to multicast delegates. Components register and unregister
  listeners. A trigger stores a payload on the event key and then calls
  the id's listeners in order.
- **Tile** (`Tile`): a state machine over six tile types. It has a
  manual-override flag that keeps the stage animator from changing a tile,
  and a colour table indexed by the type's ordinal. A point tile lives
  through a timed lifecycle: point, then vanishing, then back to default.
  A collected point resets when its tween completes.
- **Tile grid** (`TileSystem`): at start-up the scene's tile list is laid
  into a 10 by 10 array in row-major order, and the four centre cells are
  marked safe. Random cells are then turned into points.
- **Pointer list** (`TilePointerManager`): the on-screen pointers to
  spawned points. Each spawned point gets a pointer; the pointers of a
  de-spawned point are destroyed.
- **Collision list** (`CharacterCollisionHandler`): the tiles in the
  player's sensor range. Every frame, each listed point tile is collected.
- **Win panel** (`UIWinPanel`): the end-of-stage stars, one for each
  threshold the score beats.

Each source file is one module: `Events`, `Tiles`, `TileGrid`,
`TilePointers`, `Collision` and `WinPanel`. Two shared modules sit beside
them:

- `Outcomes`: the .NET exceptions the code can raise.
- `Lists`: `List<T>.Remove`, which removes the first occurrence.

State the source mutates lives in classes: the registry, the event keys,
tiles, the grid, the pointer manager, the collision handler and the panel.
Their methods carry `modifies` clauses. The rules behind those methods are
pure functions, with lemmas about them.

Modelling choices:

- **Delegates.** A delegate is the sequence of its listeners. The empty
  sequence is the null delegate that `-=` leaves after removing the last
  listener.
- **Singleton.** The registry's `Instance` is one `EventManager` object.
- **Static field.** `_eventManager` is declared and never assigned. It is
  the field `staticEventManager`, which the constructor sets false and no
  method changes.
- **Exceptions.** A null dereference or an out-of-range index is an
  `Outcome`, not a precondition. The exception is the colour-table index
  in `Tile`, which is a precondition and is discussed under "Left out".
- **Coroutines and tweens.** The end of a coroutine's wait, or of a tween,
  is an explicit method: `SpawnPointElapsed`, `VanishPointElapsed` or
  `CollectTweenCompleted`.
- **Events a tile fires.** They are returned as `TileSignal` values.
- **Randomness.** The two `Random.Range(0, 9)` draws are parameters bound
  to that range. Unity runs a started coroutine up to its first `yield`,
  so `Start` itself performs the first random round.
- **Pointer identity.** A pointer is a value with a fresh identity and a
  target position of an arbitrary type.

## Model

| member | source | states |
|---|---|---|
| Lists.IndexOf | Assets/Z/Scripts/UI/TilePointerManager.cs:57 | the position `List.Remove` works on: it holds the element, and no earlier position does |
| Lists.RemoveFirst | Assets/Z/Scripts/UI/TilePointerManager.cs:57 | `List.Remove`: an absent element leaves the list as it is; a present one makes it exactly one shorter |
| Lists.RemoveFirstAtIndex | Assets/Z/Scripts/UI/TilePointerManager.cs:57 | when the first occurrence is at position i, `Remove` cuts out exactly position i and the rest keep their order |
| Lists.RemoveFirstMultiset | Assets/Z/Scripts/Player/CharacterCollisionHandler.cs:27 | removal takes one copy of the element out of the multiset of elements and nothing else |
| Lists.RemoveFirstAt | Assets/Z/Scripts/UI/TilePointerManager.cs:41 | in a list of distinct objects, removing the element found at index i drops exactly position i, and the list stays duplicate-free |
| Events.OnValuesDistinct | Assets/Z/Scripts/Core/Events/EventManager.cs:50-54 | the ids 0, 1, 2, 3 and 99 are pairwise distinct, so every declared event has its own table entry |
| Events.Dispatch | Assets/Z/Scripts/Core/Events/EventManager.cs:42-43 | `TryGetValue` then `Invoke`: throws exactly when the id holds a null delegate; otherwise calls the stored listeners in order, none for an absent id |
| Events.Registered | Assets/Z/Scripts/Core/Events/EventManager.cs:16-28 | after `+=` the id is present with a non-null delegate holding one more copy of the listener (that every other entry is kept is stated by `RegisterThenDispatch`) |
| Events.Unregistered | Assets/Z/Scripts/Core/Events/EventManager.cs:33-35 | as written past the guard: no id is added or dropped, and the id's delegate loses exactly one copy of the listener, possibly becoming null (that other entries are kept is stated by `UnregisterKeepsOtherIds`) |
| Events.UnregisterKeepsOtherIds | Assets/Z/Scripts/Core/Events/EventManager.cs:33-35 | removing a listener, as written or as intended, leaves every other id's presence and listeners as they were |
| Events.UnregisteredFixed | Assets/Z/Scripts/Core/Events/EventManager.cs:33-35 | intended removal: the id's delegate loses one copy of the listener, the id stays exactly when some listener remains and then holds a non-null delegate (that other entries are kept is stated by `UnregisterKeepsOtherIds`) |
| Events.LastIndexOf | Assets/Z/Scripts/Core/Events/EventManager.cs:34 | the position delegate `-=` works on: it holds the listener, and no later position does |
| Events.WithoutLast | Assets/Z/Scripts/Core/Events/EventManager.cs:34 | delegate `-=`: an absent listener changes nothing; a present one makes the invocation list exactly one shorter |
| Events.WithoutLastSplit | Assets/Z/Scripts/Core/Events/EventManager.cs:34 | `-=` cuts out exactly the last occurrence of the listener, and all other listeners keep their order |
| Events.WithoutLastMultiset | Assets/Z/Scripts/Core/Events/EventManager.cs:34 | `-=` takes exactly one copy of the listener out of the invocation list |
| Events.RegisterThenDispatch | Assets/Z/Scripts/Core/Events/EventManager.cs:16-28 | registering appends the listener to the end of its id's list, or creates a one-element entry; a trigger of that id then calls the old listeners followed by the new one; no other id changes |
| Events.RegisterTwiceInvokesTwice | Assets/Z/Scripts/Core/Events/EventManager.cs:16-28 | registering the same listener twice keeps both copies, so one trigger calls it twice |
| Events.EmptiedEntryFaults | Assets/Z/Scripts/Core/Events/EventManager.cs:34-43 | as written, removing an id's only listener stores a null delegate, and the next trigger of that id throws |
| Events.RegisterThenUnregisterLeavesNull | Assets/Z/Scripts/Core/Events/EventManager.cs:34-35 | as written, registering and then removing a listener under a new id does not restore the table: a null entry is left behind |
| Events.FixedUpdatesKeepNoNullEntries | Assets/Z/Scripts/Core/Events/EventManager.cs:16-36 | with emptied entries dropped, registering and removing both preserve "no entry is a null delegate" |
| Events.NoNullEntriesNeverFault | Assets/Z/Scripts/Core/Events/EventManager.cs:42-43 | while no entry is null, a trigger never throws: it calls the id's listeners, or none for an absent id |
| Events.RegisterThenUnregisterFixed | Assets/Z/Scripts/Core/Events/EventManager.cs:16-36 | with emptied entries dropped, registering and then removing a listener restores the table exactly |
| Events.UnregisterFixedDispatch | Assets/Z/Scripts/Core/Events/EventManager.cs:30-44 | after the intended removal, a trigger calls the former listeners minus the last copy of the removed one |
| Events.On.constructor | Assets/Z/Scripts/Core/Events/EventManager.cs:48-63 | a new event key has its kind and no message |
| Events.On.SetMessage | Assets/Z/Scripts/Core/Events/EventManager.cs:66-69 | the message is stored, and `GetMessage` returns it |
| Events.On.GetMessage | Assets/Z/Scripts/Core/Events/EventManager.cs:71-74 | returns the stored payload: `None` until a message is set, then the last one |
| Events.EventManager.constructor | Assets/Z/Scripts/Core/Events/EventManager.cs:8-9 | no dictionary yet, and the static `_eventManager` is null |
| Events.EventManager.Awake | Assets/Z/Scripts/Core/Events/EventManager.cs:11-14 | `??=`: creates an empty table only when there is none, so a repeated `Awake` keeps existing registrations |
| Events.EventManager.StartListening | Assets/Z/Scripts/Core/Events/EventManager.cs:16-28 | the table becomes `Registered(old table, id, listener)`; with no table the call throws and changes nothing |
| Events.EventManager.StopListening | Assets/Z/Scripts/Core/Events/EventManager.cs:30-36 | as written: while `_eventManager` is null, which is always, the table is unchanged; past the guard, a missing dictionary throws and changes nothing, and otherwise the reduced, possibly null, delegate is stored back |
| Events.EventManager.StopListeningFixed | Assets/Z/Scripts/Core/Events/EventManager.cs:30-36 | intended removal: no dead guard, the last copy of the listener is removed, and an emptied entry is deleted |
| Events.EventManager.TriggerEvent | Assets/Z/Scripts/Core/Events/EventManager.cs:38-44 | the message is stored before the lookup in every case; the table is unchanged; the id's listeners are called in registration order, none for an absent id, and a missing table or null delegate throws |
| Events.SingleListenerTables | Assets/Z/Scripts/Core/Events/EventManager.cs:16-43 | one listener added to an empty table gives a one-entry table that a trigger calls once; the intended removal empties the table again, and a trigger of an empty table calls nothing |
| Events.DisabledListenerStillCalled | Assets/Z/Scripts/Core/Events/EventManager.cs:30-36 | register, unregister, trigger: the listener is still called once |
| Events.DisabledListenerNotCalledFixed | Assets/Z/Scripts/Core/Events/EventManager.cs:30-36 | the same sequence with the intended removal calls nothing and completes |
| Tiles.FromCube | Assets/Z/Scripts/Tiles/Tile.cs:142 | the cast `(TileType) cubeData` keeps the ordinal and can only give `IsDefault` or `IsDamage` |
| Tiles.DefaultColorsLackCollected | Assets/Z/Scripts/Tiles/Tile.cs:27-28 | the default five-entry table has a colour for a type exactly when the type is not `IsPointCollected` |
| Tiles.Tile.constructor | Assets/Z/Scripts/Tiles/Tile.cs:27-47 | a new tile is default, not overridden, runs nothing and has the given colour table |
| Tiles.Tile.IsDamage | Assets/Z/Scripts/Tiles/Tile.cs:114-117 | true exactly for the type with ordinal 1, `IsDamage` |
| Tiles.Tile.IsPoint | Assets/Z/Scripts/Tiles/Tile.cs:118-121 | true exactly for ordinals 2 and 4, `IsPoint` and `IsPointVanishing`; a collected point is not one, and a point is never damage |
| Tiles.Tile.UpdateTile | Assets/Z/Scripts/Tiles/Tile.cs:137-170 | the animation path copies `cubeData` into the type and colour; otherwise the type picks what starts (spawn coroutine, vanish coroutine, collection tween or only a repaint); neither path touches `cubeData` or the override |
| Tiles.Tile.ChangeType | Assets/Z/Scripts/Tiles/Tile.cs:105-112 | the type is set, the colour is the table entry at the type's ordinal, the override is set, earlier coroutines stop, and the new type's coroutine or tween starts |
| Tiles.Tile.Reset | Assets/Z/Scripts/Tiles/Tile.cs:60-68 | `cubeData` and the type go to default, the override clears, `DeSpawnedPoint` fires with the tile's object, and the tile is then neither a point nor damage |
| Tiles.Tile.OnUpdateTileAnimation | Assets/Z/Scripts/Tiles/Tile.cs:98-103 | while the override is set nothing changes; otherwise the coroutines stop and the tile shows the animator's state, `IsDefault` or `IsDamage` |
| Tiles.Tile.SpawnPointElapsed | Assets/Z/Scripts/Tiles/Tile.cs:180-185 | when the spawn wait ends the point becomes `IsPointVanishing`, still a point, and its vanish coroutine starts |
| Tiles.Tile.VanishPointElapsed | Assets/Z/Scripts/Tiles/Tile.cs:172-178 | when the vanish wait ends `PointTimedOut` fires, then the tile resets and fires `DeSpawnedPoint` |
| Tiles.Tile.CollectTweenCompleted | Assets/Z/Scripts/Tiles/Tile.cs:156 | the collection tween's completion resets the tile and fires `DeSpawnedPoint` |
| Tiles.PointLifecycle | Assets/Z/Scripts/Tiles/Tile.cs:149-185 | a point runs point, then vanishing, then default, firing `PointTimedOut` and then `DeSpawnedPoint` |
| Tiles.CollectLifecycle | Assets/Z/Scripts/Tiles/Tile.cs:155-156 | a collected point ends back at `IsDefault`, with no override, once its tween completes |
| TileGrid.CellOf | Assets/Z/Scripts/Tiles/TileSystem.cs:16-25 | the fill counters put the i-th tile at (i / 10, i % 10), whose row-major list position is i |
| TileGrid.CellOfInjective | Assets/Z/Scripts/Tiles/TileSystem.cs:16-25 | two list positions never share a cell |
| TileGrid.SafeReached | Assets/Z/Scripts/Tiles/TileSystem.cs:26-29 | how many safe cells a list of n tiles lets `Start` mark before hitting a null cell: the cells reached lie inside the list, and the next one does not |
| TileGrid.SafeTiles | Assets/Z/Scripts/Tiles/TileSystem.cs:26-29 | the tiles `Start` changes to `IsSafe`: at most one per safe cell, so at most four |
| TileGrid.SafeTilesAreReachedCells | Assets/Z/Scripts/Tiles/TileSystem.cs:14-29 | the safe tiles are exactly those of the safe cells reached before the first null cell, in marking order (4,4), (5,4), (4,5), (5,5), each the list's tile at that cell's row-major position |
| TileGrid.AllSafeNeedsFiftySix | Assets/Z/Scripts/Tiles/TileSystem.cs:26-29 | all four safe cells are marked exactly when the list has at least 56 tiles |
| TileGrid.FirstPointTiles | Assets/Z/Scripts/Tiles/TileSystem.cs:30-35 | the tile the first random round inside `Start` turns into a point: at most one, and only when `Start` got past the safe cells (56 to 100 tiles) and the drawn cell lies inside the list |
| TileGrid.FirstPointCanHitSafeCell | Assets/Z/Scripts/Tiles/TileSystem.cs:26-35 | nothing keeps the first random point off the safe cells: a draw of (4,4) picks the tile just marked safe |
| TileGrid.RandomPointCells | Assets/Z/Scripts/Tiles/TileSystem.cs:35 | a random point's cell has row and column below 9, so row 9, column 9 and list positions from 89 on never receive one |
| TileGrid.TileSystem.constructor | Assets/Z/Scripts/Tiles/TileSystem.cs:8-9 | the serialized tile list and an empty 10 by 10 array |
| TileGrid.TileSystem.Start | Assets/Z/Scripts/Tiles/TileSystem.cs:14-35 | the list is laid out row-major; more than 100 tiles throws out of range, fewer than 56 throws on a null safe cell, a drawn cell beyond the list throws on null, otherwise it completes; the drawn tile becomes a point, every other safe tile becomes `IsSafe`, and every other tile is unchanged |
| TileGrid.TileSystem.FillGrid | Assets/Z/Scripts/Tiles/TileSystem.cs:16-25 | the i-th tile lands at (i / 10, i % 10), cells past the list stay empty, and the fill fails exactly when a 101st tile would be written at x = 10 |
| TileGrid.TileSystem.MarkSafeCells | Assets/Z/Scripts/Tiles/TileSystem.cs:26-29 | cells (4,4), (5,4), (4,5) and (5,5) become `IsSafe` in turn, stopping at the first null cell, which happens exactly when the list has fewer than 56 tiles |
| TileGrid.TileSystem.MarkOuterSafeCells | Assets/Z/Scripts/Tiles/TileSystem.cs:26-27 | cell (4,4) becomes `IsSafe`; cell (5,4) does too, or is null and throws when the list has fewer than 55 tiles; no other tile changes |
| TileGrid.TileSystem.MarkInnerSafeCells | Assets/Z/Scripts/Tiles/TileSystem.cs:28-29 | cell (4,5) becomes `IsSafe`; cell (5,5) does too, or is null and throws when the list has fewer than 56 tiles; no other tile changes |
| TileGrid.TileSystem.MarkThenDraw | Assets/Z/Scripts/Tiles/TileSystem.cs:26-35 | the part of `Start` after the fill: the safe cells are marked, stopping with an exception below 56 tiles; then the drawn tile becomes a point, or a drawn cell beyond the list throws; the other safe tiles show `IsSafe` and every other tile is unchanged |
| TileGrid.TileSystem.FirstRandomPoint | Assets/Z/Scripts/Tiles/TileSystem.cs:30-35 | the round `Start` runs after the safe cells: the drawn cell's list tile becomes a point, a drawn cell beyond the list throws, and every other tile is unchanged |
| TileGrid.TileSystem.CreateRandomPoint | Assets/Z/Scripts/Tiles/TileSystem.cs:32-38 | the drawn cell becomes a point with its spawn coroutine running and its `cubeData` and tween count kept, an empty cell throws, and every other tile is unchanged |
| TilePointers.Unmatched | Assets/Z/Scripts/UI/TilePointerManager.cs:35-44 | the intended outcome of a de-spawn: a list of the pointers not aimed at the position, never longer than the original |
| TilePointers.UnmatchedHasNoMatch | Assets/Z/Scripts/UI/TilePointerManager.cs:35-44 | after the intended de-spawn no pointer to the position is left, and every remaining pointer was already listed |
| TilePointers.UnmatchedIdempotent | Assets/Z/Scripts/UI/TilePointerManager.cs:35-44 | a second intended de-spawn of the same position changes nothing |
| TilePointers.Sweep | Assets/Z/Scripts/UI/TilePointerManager.cs:35-44 | the list the as-written loop leaves: never longer than before, and since each removal skips the next pointer, at most every other pointer is removed (at least half of them, rounded down, remain) |
| TilePointers.SweepKeepsUnmatched | Assets/Z/Scripts/UI/TilePointerManager.cs:35-44 | the as-written loop removes only matching pointers: every non-matching one remains, in order |
| TilePointers.SweepIsSubMultiset | Assets/Z/Scripts/UI/TilePointerManager.cs:35-44 | the as-written loop never adds or duplicates a pointer |
| TilePointers.SweepSkipsAdjacentMatch | Assets/Z/Scripts/UI/TilePointerManager.cs:37-42 | of two adjacent pointers to the de-spawned position the loop removes only the first, where removing both was intended |
| TilePointers.TilePointerManager.constructor | Assets/Z/Scripts/UI/TilePointerManager.cs:14 | no pointers and nothing destroyed |
| TilePointers.TilePointerManager.Awake | Assets/Z/Scripts/UI/TilePointerManager.cs:16-19 | the pointer list starts empty |
| TilePointers.TilePointerManager.CreatePointer | Assets/Z/Scripts/UI/TilePointerManager.cs:46-53 | exactly one new pointer, distinct from every listed one and aimed at the given position, is appended |
| TilePointers.TilePointerManager.OnSpawnedPoint | Assets/Z/Scripts/UI/TilePointerManager.cs:31-34 | the list grows by one pointer at the message's position and the earlier pointers are kept |
| TilePointers.TilePointerManager.DestroyPointer | Assets/Z/Scripts/UI/TilePointerManager.cs:55-59 | the first occurrence of the pointer is removed, the others keep their order, and the pointer is destroyed |
| TilePointers.TilePointerManager.DestroyAt | Assets/Z/Scripts/UI/TilePointerManager.cs:41 | destroying the pointer found at index i removes exactly position i |
| TilePointers.TilePointerManager.OnDeSpawnedPoint | Assets/Z/Scripts/UI/TilePointerManager.cs:35-44 | as written: the list becomes `Sweep` of the old list; every removed pointer was aimed at the position and was destroyed, and no pointer is lost or duplicated |
| TilePointers.TilePointerManager.OnDeSpawnedPointFixed | Assets/Z/Scripts/UI/TilePointerManager.cs:35-44 | intended: the list becomes `Unmatched` of the old list, so no pointer to the position is left; all the others are kept and every removed one is destroyed |
| Collision.Collected | Assets/Z/Scripts/Player/CharacterCollisionHandler.cs:39-41 | a point type becomes `IsPointCollected`, any other type stays, and the result is never a point |
| Collision.CollectedIdempotent | Assets/Z/Scripts/Player/CharacterCollisionHandler.cs:35-44 | a second sweep changes no type |
| Collision.CollectNeedsSixColors | Assets/Z/Scripts/Player/CharacterCollisionHandler.cs:41 | collecting a point indexes past the end of the default five-entry colour table |
| Collision.CharacterCollisionHandler.constructor | Assets/Z/Scripts/Player/CharacterCollisionHandler.cs:11 | the list starts empty |
| Collision.CharacterCollisionHandler.OnDetected | Assets/Z/Scripts/Player/CharacterCollisionHandler.cs:30-33 | the tile is appended |
| Collision.CharacterCollisionHandler.OnLostDetection | Assets/Z/Scripts/Player/CharacterCollisionHandler.cs:25-28 | the tile's first occurrence is removed (one copy fewer); an unlisted tile changes nothing |
| Collision.CharacterCollisionHandler.Update | Assets/Z/Scripts/Player/CharacterCollisionHandler.cs:35-44 | the list is untouched; each listed tile's type becomes `Collected` of its old type; each former point shows the collected colour with one tween started; other tiles are unchanged; afterwards no listed tile is a point |
| WinPanel.EarnedStars | Assets/Z/Scripts/UI/UIWinPanel.cs:24-36 | with non-decreasing thresholds a later star is earned only together with the earlier ones |
| WinPanel.StarCount | Assets/Z/Scripts/UI/UIWinPanel.cs:25-36 | the number of stars shown is at most three, zero exactly when no star is earned and three exactly when all are |
| WinPanel.PrefixFromCount | Assets/Z/Scripts/UI/UIWinPanel.cs:25-36 | with non-decreasing thresholds the earned stars are exactly the first n, for n the number earned |
| WinPanel.EarnedMonotone | Assets/Z/Scripts/UI/UIWinPanel.cs:25-36 | a higher score never loses a star |
| WinPanel.ThresholdIsExclusive | Assets/Z/Scripts/UI/UIWinPanel.cs:25-36 | the comparisons are strict: a score equal to a threshold does not earn its star, one more does |
| WinPanel.StarsAreIndependent | Assets/Z/Scripts/UI/UIWinPanel.cs:25-36 | no ordering of thresholds is assumed: with decreasing thresholds the third star can come without the first |
| WinPanel.UIWinPanel.constructor | Assets/Z/Scripts/UI/UIWinPanel.cs:8-11 | the four GameObject references, each with the activation the scene gives it |
| WinPanel.UIWinPanel.OnStageComplete | Assets/Z/Scripts/UI/UIWinPanel.cs:22-38 | each earned star is activated, a star already shown stays shown, none is deactivated, and the panel is always activated |
| WinPanel.FirstCompletion | Assets/Z/Scripts/UI/UIWinPanel.cs:22-38 | on a panel whose three stars the scene leaves inactive, one completion shows the panel and exactly the earned stars |

## Left out

- Rendering: `SetColor`, material property blocks, shader ids and colour intensity. A colour is an opaque RGBA value.
- DOTween easing and durations, and the `WaitForSeconds` lengths. Elapsed waits and completed tweens are explicit methods.
- Tiles.Tile.ChangeType: the colour-table index is a precondition rather than an `IndexOutOfRangeException` outcome. The serialized table can be replaced in the scene, so only the default table's gap is stated, by `DefaultColorsLackCollected` and `CollectNeedsSixColors`.
- Tiles.Tile.UpdateTile: the same applies to the animation path's index `_colors[(int) cubeData]`.
- Collision.CharacterCollisionHandler.Update: inherits that precondition for listed point tiles.
- The editor-only `OnDrawGizmosSelected` and `OnValidate` of `Tile`, and its `Start`, which only caches renderer ids.
- The tile's events are returned as values, not dispatched through a registry. No listener is modelled as running inside another event's dispatch.
- `cubeData` is written by the stage animator. The model takes it as a field that only `Reset` changes.
- TileGrid.TileSystem.CreateRandomPoint: models one round of `CreateRandomPoints`; `Start` runs the first round itself, as `FirstRandomPoint`. The random wait of 2 to 5 seconds and the coroutine that repeats the round are left out.
- `UpdateColorAnimationEvent`, an animation-event hook that only triggers `UpdateTileAnimation` with no payload.
- The singleton base class `SingletonBehaviour` is not part of this model. `Instance` is one given object.
- Listener re-entrancy: listeners that register or unregister during a trigger, and delegate snapshot semantics.
- Call sites that do not match the declared registry: a three-argument `StartListening`, `Reset()` on the registry, and events not declared in `On`.
- Payload casts: `DeSpawnedPoint` is sent with a GameObject but read as a position. Positions are an abstract type compared with `==`.
- `GetComponent<Tile>()` and `GetComponent<TilePointer>()` are assumed to succeed.
- `Instantiate`, the pointer's camera set-up and `DestroySelf` are a fresh identity, a stored position and an entry in the `destroyed` log.
- The range sensor is left out. Its detection callbacks are calls of `OnDetected` and `OnLostDetection`.
- WinPanel.UIWinPanel.constructor: whether the panel and the stars start active is set in the scene, not in the source, so it is a constructor argument; `FirstCompletion` takes the stars inactive.
- The score's cast from the event payload and the `StageManager` that holds the current stage are left out. The score and the stage thresholds are parameters.
- `LoadNextStageScene` in `UIWinPanel` triggers an event not declared in `On`; scene loading is outside this model.

## Findings

| source | as written | input that shows it | evidently intended | confidence | as-written member | corrected member |
|---|---|---|---|---|---|---|
| Assets/Z/Scripts/Core/Events/EventManager.cs:32 | `StopListening` returns while the static `_eventManager` is null, and nothing ever assigns it, so no listener is ever removed | a component is enabled and then disabled, and the event is triggered: its listener is still called | remove the listener when it is registered | not executed | Events.DisabledListenerStillCalled | Events.DisabledListenerNotCalledFixed |
| Assets/Z/Scripts/Core/Events/EventManager.cs:34-35 | past that guard, removing an id's last listener stores the resulting null delegate, and the next `TriggerEvent` of that id calls `Invoke` on null | register one listener under a new id, remove it, trigger the id | drop the emptied entry (or use `?.Invoke`), so register-then-remove restores the table | not executed | Events.EmptiedEntryFaults | Events.RegisterThenUnregisterFixed |
| Assets/Z/Scripts/UI/TilePointerManager.cs:37-42 | the index advances after a removal, so the pointer that slides into the removed slot is never examined | two adjacent pointers aimed at the de-spawned position: one survives | destroy every pointer aimed at the position | not executed | TilePointers.SweepSkipsAdjacentMatch | TilePointers.TilePointerManager.OnDeSpawnedPointFixed |
