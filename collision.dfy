/**
 * The player's tile collector (`CharacterCollisionHandler`): the range
 * sensor reports tiles entering and leaving its range, the handler keeps
 * them in a list, and every frame each listed point tile is collected.
 *
 * The sensor's events are calls of `OnDetected` and `OnLostDetection` with
 * the detected tile; `GetComponent<Tile>` is assumed to find one.
 */
module Collision {
  import opened Tiles
  import opened Lists

  /** The type a tile has after one `Update`: a point becomes collected, anything else stays. */
  function Collected(t: TileType): (r: TileType)
    ensures !IsPointType(r)
    ensures IsPointType(t) ==> r == TileType.IsPointCollected
    ensures r != t <==> IsPointType(t)
  {
    if IsPointType(t) then TileType.IsPointCollected else t
  }

  /** A second sweep changes nothing: collecting is idempotent. */
  lemma CollectedIdempotent(t: TileType)
    ensures Collected(Collected(t)) == Collected(t)
  {
  }

  /**
   * The collected type needs the sixth colour entry, which the default
   * five-entry table lacks: with it, collecting a point cannot complete.
   */
  lemma CollectNeedsSixColors(t: TileType)
    requires IsPointType(t)
    ensures TypeOrdinal(Collected(t)) >= |DefaultColors|
  {
    DefaultColorsLackCollected(Collected(t));
  }

  /** What `ChangeType(IsPointCollected)` leaves in a tile, apart from its counters. */
  predicate ShowsCollected(t: Tile)
    reads t
  {
    && TypeOrdinal(TileType.IsPointCollected) < |t.colors|
    && t.tileType == TileType.IsPointCollected
    && t.currentColor == t.colors[TypeOrdinal(TileType.IsPointCollected)]
    && t.manualOverride
    && t.coroutine == NoCoroutine
  }

  class CharacterCollisionHandler {
    var detected: seq<Tile>   // `_tiles`

    constructor ()
      ensures detected == []
    {
      detected := [];
    }

    /** The sensor found a tile: it is appended, even if already listed. */
    method OnDetected(tile: Tile)
      modifies this
      ensures detected == old(detected) + [tile]
    {
      detected := detected + [tile];
    }

    /** The sensor lost a tile: its first occurrence is removed; an unlisted tile changes nothing. */
    method OnLostDetection(tile: Tile)
      modifies this
      ensures detected == RemoveFirst(old(detected), tile)
      ensures multiset(detected) == multiset(old(detected)) - multiset{tile}
    {
      RemoveFirstMultiset(detected, tile);
      detected := RemoveFirst(detected, tile);
    }

    /**
     * The per-frame sweep: every listed tile whose type is a point is
     * changed to `IsPointCollected`. The list itself is not changed. A tile
     * listed twice is changed once, since after the first change it is no
     * longer a point.
     */
    method Update()
      requires forall t :: t in detected && t.IsPoint() ==> TypeOrdinal(TileType.IsPointCollected) < |t.colors|
      modifies detected
      ensures forall t :: t in detected ==> t.tileType == Collected(old(t.tileType))
      ensures forall t :: t in detected && old(t.IsPoint()) ==>
        && ShowsCollected(t)
        && t.cubeData == old(t.cubeData)
        && t.collectTweens == old(t.collectTweens) + 1
      ensures forall t :: t in detected && !old(t.IsPoint()) ==> unchanged(t)
      ensures forall t :: t in detected ==> !t.IsPoint()
    {
      var i := 0;
      while i < |detected|
        invariant 0 <= i <= |detected|
        invariant forall t :: t in detected[..i] && old(t.IsPoint()) ==>
          && ShowsCollected(t)
          && t.cubeData == old(t.cubeData)
          && t.collectTweens == old(t.collectTweens) + 1
        invariant forall t :: t in detected && (t !in detected[..i] || !old(t.IsPoint())) ==> unchanged(t)
      {
        var tile := detected[i];
        if tile.IsPoint() {
          tile.ChangeType(TileType.IsPointCollected);
        }
        assert detected[..i + 1] == detected[..i] + [tile];
        i := i + 1;
      }
      assert detected[..i] == detected;
    }
  }
}
