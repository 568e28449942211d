/**
 * A floor tile (`Tile`): a small state machine over six tile types, a flag
 * that lets a manual change override the animator, and the animator-driven
 * `cubeData`.
 *
 * Rendering is left out: a colour is an opaque RGBA value, and `SetColor`,
 * which only pushes `currentColor` to the renderer, does nothing here. The
 * running coroutine is the field `coroutine`, and the end of its wait is an
 * explicit step (`SpawnPointElapsed`, `VanishPointElapsed`). DOTween tweens
 * are not coroutines, so `StopAllCoroutines` does not stop them: the
 * collection tween is counted in `collectTweens` and ends with
 * `CollectTweenCompleted`. The events a tile fires are returned as
 * `TileSignal` values; the caller hands them to the event registry.
 */
module Tiles {
  /** What the stage animator writes into a tile. */
  datatype CubeAnimationState = IsDefault | IsDamage

  datatype TileType = IsDefault | IsDamage | IsPoint | IsSafe | IsPointVanishing | IsPointCollected

  /** The integer value of each animator state, as C# numbers enum members. */
  function CubeOrdinal(c: CubeAnimationState): nat {
    match c
    case IsDefault => 0
    case IsDamage => 1
  }

  /** The integer value of each tile type, as C# numbers enum members. */
  function TypeOrdinal(t: TileType): nat {
    match t
    case IsDefault => 0
    case IsDamage => 1
    case IsPoint => 2
    case IsSafe => 3
    case IsPointVanishing => 4
    case IsPointCollected => 5
  }

  /** The cast `(TileType) cubeData`: the tile type with the same ordinal. */
  function FromCube(c: CubeAnimationState): (t: TileType)
    ensures TypeOrdinal(t) == CubeOrdinal(c)
    ensures t == TileType.IsDefault || t == TileType.IsDamage
  {
    match c
    case IsDefault => TileType.IsDefault
    case IsDamage => TileType.IsDamage
  }

  /** An RGBA colour. */
  datatype Color = Color(r: real, g: real, b: real, a: real)

  /** The colour a tile starts with before any update (`default(Color)`). */
  const Transparent := Color(0.0, 0.0, 0.0, 0.0)

  /** The default colour table: one entry per tile type up to `IsPointVanishing`. */
  const DefaultColors: seq<Color> := [
    Color(0.0, 0.0, 0.0, 0.2),
    Color(1.0, 0.0, 0.0, 1.0),
    Color(0.0, 1.0, 0.0, 1.0),
    Color(0.0, 0.0, 1.0, 1.0),
    Color(1.0, 0.0, 0.0, 0.5)
  ]

  /**
   * The default table has a colour for every type except `IsPointCollected`,
   * whose ordinal 5 is one past its end: changing a tile with the default
   * table to `IsPointCollected` indexes out of range.
   */
  lemma DefaultColorsLackCollected(t: TileType)
    ensures TypeOrdinal(t) < |DefaultColors| <==> t != TileType.IsPointCollected
  {
  }

  /** `IsPoint()`: a fresh or vanishing point, but not a collected one. */
  predicate IsPointType(t: TileType) {
    t == TileType.IsPoint || t == TileType.IsPointVanishing
  }

  /** `IsDamage()`. */
  predicate IsDamageType(t: TileType) {
    t == TileType.IsDamage
  }

  /** The coroutine a tile may be running. */
  datatype Coroutine = NoCoroutine | SpawnPointAnimation | VanishPointAnimation

  /** The coroutine a non-animation update starts for a type. */
  function StartedBy(t: TileType): Coroutine {
    match t
    case IsPoint => SpawnPointAnimation
    case IsPointVanishing => VanishPointAnimation
    case _ => NoCoroutine
  }

  /** An event a tile fires. */
  datatype TileSignal =
    | DeSpawnedPoint(gameObject: nat)   // `On.DeSpawnedPoint` with the tile's GameObject
    | PointTimedOut                     // `On.PointTimedOut`, with no message

  class Tile {
    const colors: seq<Color>   // `_colors`, the serialized colour table
    const gameObject: nat      // identity of the tile's GameObject
    var cubeData: CubeAnimationState
    var tileType: TileType
    var currentColor: Color
    var manualOverride: bool
    var coroutine: Coroutine
    var collectTweens: nat     // collection tweens whose completion still calls `Reset`

    constructor (colors: seq<Color>, gameObject: nat)
      ensures this.colors == colors && this.gameObject == gameObject
      ensures cubeData == CubeAnimationState.IsDefault && tileType == TileType.IsDefault
      ensures currentColor == Transparent && !manualOverride
      ensures coroutine == NoCoroutine && collectTweens == 0
    {
      this.colors := colors;
      this.gameObject := gameObject;
      cubeData := CubeAnimationState.IsDefault;
      tileType := TileType.IsDefault;
      currentColor := Transparent;
      manualOverride := false;
      coroutine := NoCoroutine;
      collectTweens := 0;
    }

    /** `IsDamage()`: the type with ordinal 1. */
    predicate IsDamage(): (r: bool)
      reads this
      ensures r <==> TypeOrdinal(tileType) == 1
    {
      IsDamageType(tileType)
    }

    /**
     * `IsPoint()`: the types with ordinals 2 and 4; a collected point
     * (ordinal 5) is not one, and no point is damage.
     */
    predicate IsPoint(): (r: bool)
      reads this
      ensures r <==> TypeOrdinal(tileType) == 2 || TypeOrdinal(tileType) == 4
      ensures r ==> !IsDamage()
    {
      IsPointType(tileType)
    }

    /**
     * With `isAnimation`, the type and colour are taken from `cubeData`.
     * Otherwise the type decides what follows: a point starts its spawn
     * coroutine, a vanishing point its vanish coroutine, a collected point a
     * collection tween; the other types only repaint.
     */
    method UpdateTile(isAnimation: bool)
      requires isAnimation ==> CubeOrdinal(cubeData) < |colors|
      modifies this
      ensures cubeData == old(cubeData) && manualOverride == old(manualOverride)
      ensures isAnimation ==>
        && tileType == FromCube(cubeData)
        && currentColor == colors[CubeOrdinal(cubeData)]
        && coroutine == old(coroutine)
        && collectTweens == old(collectTweens)
      ensures !isAnimation ==>
        && tileType == old(tileType)
        && currentColor == old(currentColor)
        && coroutine == (if StartedBy(tileType) == NoCoroutine then old(coroutine) else StartedBy(tileType))
        && collectTweens == old(collectTweens) + (if tileType == TileType.IsPointCollected then 1 else 0)
    {
      if isAnimation {
        tileType := FromCube(cubeData);
        currentColor := colors[CubeOrdinal(cubeData)];
      } else {
        match tileType
        case IsPoint =>
          coroutine := SpawnPointAnimation;
        case IsPointVanishing =>
          coroutine := VanishPointAnimation;
        case IsPointCollected =>
          collectTweens := collectTweens + 1;
        case _ =>
      }
    }

    /**
     * Stops the coroutines, sets the type and its colour from the table, and
     * marks the change as manual so the animator no longer overrides it.
     */
    method ChangeType(t: TileType)
      requires TypeOrdinal(t) < |colors|
      modifies this
      ensures tileType == t && currentColor == colors[TypeOrdinal(t)] && manualOverride
      ensures cubeData == old(cubeData)
      ensures coroutine == StartedBy(t)
      ensures collectTweens == old(collectTweens) + (if t == TileType.IsPointCollected then 1 else 0)
    {
      coroutine := NoCoroutine;
      tileType := t;
      currentColor := colors[TypeOrdinal(t)];
      manualOverride := true;
      UpdateTile(false);
    }

    /**
     * Back to the default type under animator control; fires
     * `DeSpawnedPoint` with the tile's GameObject. The colour is not
     * repainted: `currentColor` keeps its last value.
     */
    method Reset() returns (fired: TileSignal)
      modifies this
      ensures cubeData == CubeAnimationState.IsDefault && tileType == TileType.IsDefault
      ensures !manualOverride && coroutine == NoCoroutine
      ensures currentColor == old(currentColor) && collectTweens == old(collectTweens)
      ensures fired == DeSpawnedPoint(gameObject)
      ensures !IsPoint() && !IsDamage()
    {
      coroutine := NoCoroutine;
      cubeData := CubeAnimationState.IsDefault;
      tileType := TileType.IsDefault;
      manualOverride := false;
      fired := DeSpawnedPoint(gameObject);
      UpdateTile(false);
    }

    /**
     * The `UpdateTileAnimation` listener: ignored while a manual change is in
     * force; otherwise the coroutines stop and the animator's state is shown,
     * which can only be `IsDefault` or `IsDamage`.
     */
    method OnUpdateTileAnimation()
      requires !manualOverride ==> CubeOrdinal(cubeData) < |colors|
      modifies this
      ensures old(manualOverride) ==> unchanged(this)
      ensures !old(manualOverride) ==>
        && cubeData == old(cubeData)
        && tileType == FromCube(cubeData)
        && (tileType == TileType.IsDefault || tileType == TileType.IsDamage)
        && currentColor == colors[CubeOrdinal(cubeData)]
        && coroutine == NoCoroutine
        && !manualOverride
        && collectTweens == old(collectTweens)
    {
      if manualOverride {
        return;
      }
      coroutine := NoCoroutine;
      UpdateTile(true);
    }

    /** The spawn coroutine's wait ends: the point starts vanishing. */
    method SpawnPointElapsed()
      requires coroutine == SpawnPointAnimation
      requires TypeOrdinal(TileType.IsPointVanishing) < |colors|
      modifies this
      ensures tileType == TileType.IsPointVanishing && IsPoint()
      ensures currentColor == colors[TypeOrdinal(TileType.IsPointVanishing)] && manualOverride
      ensures coroutine == VanishPointAnimation
      ensures cubeData == old(cubeData) && collectTweens == old(collectTweens)
    {
      ChangeType(TileType.IsPointVanishing);
    }

    /** The vanish coroutine's wait ends: `PointTimedOut` fires, then the tile resets. */
    method VanishPointElapsed() returns (fired: seq<TileSignal>)
      requires coroutine == VanishPointAnimation
      modifies this
      ensures fired == [PointTimedOut, DeSpawnedPoint(gameObject)]
      ensures cubeData == CubeAnimationState.IsDefault && tileType == TileType.IsDefault
      ensures !manualOverride && coroutine == NoCoroutine
      ensures currentColor == old(currentColor) && collectTweens == old(collectTweens)
    {
      var despawned := Reset();
      fired := [PointTimedOut, despawned];
    }

    /** A collection tween completes: its `onComplete` resets the tile. */
    method CollectTweenCompleted() returns (fired: TileSignal)
      requires collectTweens > 0
      modifies this
      ensures fired == DeSpawnedPoint(gameObject)
      ensures cubeData == CubeAnimationState.IsDefault && tileType == TileType.IsDefault
      ensures !manualOverride && coroutine == NoCoroutine
      ensures currentColor == old(currentColor) && collectTweens == old(collectTweens) - 1
    {
      collectTweens := collectTweens - 1;
      fired := Reset();
    }
  }

  /**
   * The timed life of a point: `IsPoint`, then once its timer runs out
   * `IsPointVanishing`, then `PointTimedOut` and a reset to `IsDefault`.
   */
  method PointLifecycle(tile: Tile) returns (fired: seq<TileSignal>)
    requires TypeOrdinal(TileType.IsPointVanishing) < |tile.colors|
    modifies tile
    ensures fired == [PointTimedOut, DeSpawnedPoint(tile.gameObject)]
    ensures tile.tileType == TileType.IsDefault && !tile.manualOverride
    ensures tile.coroutine == NoCoroutine && tile.collectTweens == old(tile.collectTweens)
    ensures tile.currentColor == tile.colors[TypeOrdinal(TileType.IsPointVanishing)]
  {
    tile.ChangeType(TileType.IsPoint);
    tile.SpawnPointElapsed();
    fired := tile.VanishPointElapsed();
  }

  /** A collected point resets to `IsDefault` when its tween completes. */
  method CollectLifecycle(tile: Tile) returns (fired: TileSignal)
    requires TypeOrdinal(TileType.IsPointCollected) < |tile.colors|
    modifies tile
    ensures fired == DeSpawnedPoint(tile.gameObject)
    ensures tile.tileType == TileType.IsDefault && !tile.manualOverride
    ensures tile.coroutine == NoCoroutine && tile.collectTweens == old(tile.collectTweens)
  {
    tile.ChangeType(TileType.IsPointCollected);
    fired := tile.CollectTweenCompleted();
  }
}
