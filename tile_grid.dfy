/**
 * The tile grid (`TileSystem`): `Start` lays the scene's tile list into a
 * 10 by 10 array in row-major order and marks the four centre cells safe;
 * `CreateRandomPoints` turns a randomly chosen cell into a point.
 *
 * The two `Random.Range(0, 9)` draws are parameters constrained to that
 * range. A Unity coroutine runs up to its first `yield` when it is started,
 * so the first round of `CreateRandomPoints` happens inside `Start`; the
 * random wait between rounds and the coroutine that repeats the round are
 * left out, so each later round is one call of `CreateRandomPoint`.
 */
module TileGrid {
  import opened Tiles
  import opened Outcomes

  /** A cell of the grid: (x, y), the first and second array index. */
  type Cell = (nat, nat)

  /** The list position whose tile `Start` stores in a cell. */
  function CellIndex(c: Cell): nat {
    c.0 * 10 + c.1
  }

  /**
   * The cell `Start` stores the i-th tile in: `y` counts up to 10, then
   * wraps to 0 and `x` moves on, so the cell is (i / 10, i % 10).
   */
  function CellOf(i: nat): (c: Cell)
    ensures c.1 < 10 && CellIndex(c) == i
  {
    (i / 10, i % 10)
  }

  /** Row-major order is one-to-one: two list positions never share a cell. */
  lemma CellOfInjective(i: nat, j: nat)
    requires CellOf(i) == CellOf(j)
    ensures i == j
  {
    assert CellIndex(CellOf(i)) == i && CellIndex(CellOf(j)) == j;
  }

  /** The cells `Start` marks safe, in the order it marks them. */
  const SafeCells: seq<Cell> := [(4, 4), (5, 4), (4, 5), (5, 5)]

  /**
   * How many safe cells a list of `n` tiles lets `Start` mark: it stops at
   * the first safe cell whose list position is beyond the list, where the
   * array holds null.
   */
  function SafeReached(n: nat): (k: nat)
    ensures k <= 4
    ensures forall j :: 0 <= j < k ==> CellIndex(SafeCells[j]) < n
    ensures k < 4 ==> CellIndex(SafeCells[k]) >= n
  {
    if n <= 44 then 0 else if n <= 54 then 1 else if n == 55 then 3 else 4
  }

  /**
   * The tiles of a list that `Start` changes to `IsSafe`, in the order of
   * `SafeCells`: none when the fill throws, otherwise those of the first
   * `SafeReached` safe cells.
   */
  function SafeTiles(list: seq<Tile>): (r: seq<Tile>)
    ensures |r| <= 4
  {
    if |list| > 100 || |list| <= 44 then []
    else if |list| <= 54 then [list[44]]
    else if |list| == 55 then [list[44], list[54], list[45]]
    else [list[44], list[54], list[45], list[55]]
  }

  /**
   * The safe tiles are those of the safe cells `Start` reaches, in marking
   * order, each taken from the list position row-major order gives its cell.
   */
  lemma SafeTilesAreReachedCells(list: seq<Tile>)
    requires |list| <= 100
    ensures |SafeTiles(list)| == SafeReached(|list|)
    ensures forall j :: 0 <= j < |SafeTiles(list)| ==>
      CellIndex(SafeCells[j]) < |list| && SafeTiles(list)[j] == list[CellIndex(SafeCells[j])]
  {
  }

  /** All four safe cells are marked exactly when the list has at least 56 tiles. */
  lemma AllSafeNeedsFiftySix(n: nat)
    ensures SafeReached(n) == 4 <==> n >= 56
  {
  }

  /**
   * The tile the first random round inside `Start` turns into a point: none
   * when `Start` throws before the round (more than 100 tiles, or fewer than
   * 56) or when the drawn cell lies beyond the list and holds null.
   */
  function FirstPointTiles(list: seq<Tile>, row: nat, column: nat): (r: seq<Tile>)
    ensures |r| <= 1
    ensures r != [] ==> 56 <= |list| <= 100 && CellIndex((row, column)) < |list|
  {
    if 56 <= |list| <= 100 && CellIndex((row, column)) < |list| then [list[CellIndex((row, column))]] else []
  }

  /**
   * The first random round is drawn from the whole centre as well: when it
   * lands on (4,4), the tile just marked safe becomes a point.
   */
  lemma FirstPointCanHitSafeCell(list: seq<Tile>)
    requires 56 <= |list| <= 100
    ensures FirstPointTiles(list, 4, 4) == [SafeTiles(list)[0]]
  {
  }

  /** A random point never lands in row 9 or column 9, nor at list positions 89 and on. */
  lemma RandomPointCells(row: nat, column: nat)
    requires row < 9 && column < 9
    ensures CellIndex((row, column)) < 89
    ensures CellIndex((row, column)) % 10 != 9
    ensures forall i :: CellOf(i) == (row, column) ==> i / 10 != 9 && i % 10 != 9
  {
  }

  /** What `ChangeType(IsSafe)` leaves in a tile. */
  predicate ShowsSafe(t: Tile)
    reads t
  {
    && TypeOrdinal(TileType.IsSafe) < |t.colors|
    && t.tileType == TileType.IsSafe
    && t.currentColor == t.colors[TypeOrdinal(TileType.IsSafe)]
    && t.manualOverride
    && t.coroutine == NoCoroutine
  }

  /** What `ChangeType(IsPoint)` leaves in a tile. */
  predicate ShowsPoint(t: Tile)
    reads t
  {
    && TypeOrdinal(TileType.IsPoint) < |t.colors|
    && t.tileType == TileType.IsPoint
    && t.currentColor == t.colors[TypeOrdinal(TileType.IsPoint)]
    && t.manualOverride
    && t.coroutine == SpawnPointAnimation
  }

  class TileSystem {
    var tileList: seq<Tile>
    const tiles: array2<Tile?>

    /** Every filled cell holds a tile of the list. */
    ghost predicate Valid()
      reads this, tiles
    {
      && tiles.Length0 == 10 && tiles.Length1 == 10
      && forall a, b :: 0 <= a < 10 && 0 <= b < 10 && tiles[a, b] != null ==> tiles[a, b] in tileList
    }

    /** The serialized tile list and an empty 10 by 10 array. */
    constructor (tileList: seq<Tile>)
      ensures this.tileList == tileList && fresh(tiles) && Valid()
      ensures forall a, b :: 0 <= a < 10 && 0 <= b < 10 ==> tiles[a, b] == null
    {
      this.tileList := tileList;
      tiles := new Tile?[10, 10]((a, b) => null);
    }

    /** The list is laid out row-major in the first `min(|tileList|, 100)` cells; the rest are empty. */
    ghost predicate LaidOut()
      reads this, tiles
      requires tiles.Length0 == 10 && tiles.Length1 == 10
    {
      && (forall i :: 0 <= i < |tileList| && i < 100 ==> tiles[i / 10, i % 10] == tileList[i])
      && (forall a, b :: 0 <= a < 10 && 0 <= b < 10 && CellIndex((a, b)) >= |tileList| ==> tiles[a, b] == null)
    }

    /**
     * `Start`: the fill loop stores the i-th tile at (i / 10, i % 10); a
     * 101st tile would be stored at x = 10, which throws. Then the cells
     * (4,4), (5,4), (4,5) and (5,5) are changed to `IsSafe` in that order; a
     * null cell throws, which happens unless the list has at least 56 tiles.
     * Last, `StartCoroutine(CreateRandomPoints())` runs the first round at
     * once: the cell (row, column) drawn by `Random.Range(0, 9)` becomes a
     * point, possibly one just marked safe, and throws when it is null. The
     * fill itself changes no tile.
     */
    method Start(row: nat, column: nat) returns (outcome: Outcome)
      requires tiles.Length0 == 10 && tiles.Length1 == 10
      requires forall a, b :: 0 <= a < 10 && 0 <= b < 10 ==> tiles[a, b] == null
      requires row < 9 && column < 9
      requires forall t :: t in tileList ==> TypeOrdinal(TileType.IsSafe) < |t.colors|
      requires forall t :: t in tileList ==> TypeOrdinal(TileType.IsPoint) < |t.colors|
      modifies tiles, tileList
      ensures Valid() && LaidOut()
      ensures outcome == (if |tileList| > 100 then IndexOutOfRangeException
                          else if |tileList| < 56 then NullReferenceException
                          else if CellIndex((row, column)) >= |tileList| then NullReferenceException
                          else Completed)
      ensures forall t :: t in FirstPointTiles(tileList, row, column) ==> ShowsPoint(t)
      ensures forall t :: t in SafeTiles(tileList) && t !in FirstPointTiles(tileList, row, column) ==> ShowsSafe(t)
      ensures forall t :: t in tileList ==> t.cubeData == old(t.cubeData) && t.collectTweens == old(t.collectTweens)
      ensures forall t :: t in tileList && t !in SafeTiles(tileList) && t !in FirstPointTiles(tileList, row, column) ==> unchanged(t)
    {
      var filled := FillGrid();
      if !filled {
        return IndexOutOfRangeException;
      }
      outcome := MarkThenDraw(row, column);
    }

    /** What `Start` does after the fill: the safe cells, then the first random round if they all exist. */
    method MarkThenDraw(row: nat, column: nat) returns (outcome: Outcome)
      requires Valid() && LaidOut() && |tileList| <= 100
      requires row < 9 && column < 9
      requires forall t :: t in tileList ==> TypeOrdinal(TileType.IsSafe) < |t.colors|
      requires forall t :: t in tileList ==> TypeOrdinal(TileType.IsPoint) < |t.colors|
      modifies tileList
      ensures outcome == (if |tileList| < 56 then NullReferenceException
                          else if CellIndex((row, column)) >= |tileList| then NullReferenceException
                          else Completed)
      ensures forall t :: t in FirstPointTiles(tileList, row, column) ==> ShowsPoint(t)
      ensures forall t :: t in SafeTiles(tileList) && t !in FirstPointTiles(tileList, row, column) ==> ShowsSafe(t)
      ensures forall t :: t in tileList ==> t.cubeData == old(t.cubeData) && t.collectTweens == old(t.collectTweens)
      ensures forall t :: t in tileList && t !in SafeTiles(tileList) && t !in FirstPointTiles(tileList, row, column) ==> unchanged(t)
    {
      outcome := MarkSafeCells();
      if outcome != Completed {
        return;
      }
      outcome := FirstRandomPoint(row, column);
    }

    /**
     * The first round of `CreateRandomPoints`, run by `Start` once the safe
     * cells are marked: a `CreateRandomPoint` call on the laid-out grid.
     */
    method FirstRandomPoint(row: nat, column: nat) returns (outcome: Outcome)
      requires Valid() && LaidOut() && 56 <= |tileList| <= 100
      requires row < 9 && column < 9
      requires forall t :: t in tileList ==> TypeOrdinal(TileType.IsPoint) < |t.colors|
      modifies tileList
      ensures outcome == (if CellIndex((row, column)) >= |tileList| then NullReferenceException else Completed)
      ensures forall t :: t in FirstPointTiles(tileList, row, column) ==> ShowsPoint(t)
      ensures forall t :: t in tileList ==> t.cubeData == old(t.cubeData) && t.collectTweens == old(t.collectTweens)
      ensures forall t :: t in tileList && t !in FirstPointTiles(tileList, row, column) ==> unchanged(t)
    {
      var k := CellIndex((row, column));
      assert k / 10 == row && k % 10 == column;
      if k < |tileList| {
        assert tiles[row, column] == tileList[k];
        assert FirstPointTiles(tileList, row, column) == [tileList[k]];
      } else {
        assert tiles[row, column] == null;
        assert FirstPointTiles(tileList, row, column) == [];
      }
      outcome := CreateRandomPoint(row, column);
    }

    /** The fill loop of `Start`; `false` when the 101st tile throws. */
    method FillGrid() returns (filled: bool)
      requires tiles.Length0 == 10 && tiles.Length1 == 10
      requires forall a, b :: 0 <= a < 10 && 0 <= b < 10 ==> tiles[a, b] == null
      modifies tiles
      ensures Valid() && LaidOut()
      ensures filled == (|tileList| <= 100)
    {
      var x, y := 0, 0;
      var i := 0;
      while i < |tileList|
        invariant 0 <= i <= |tileList| && i <= 100
        invariant x == i / 10 && y == i % 10
        invariant forall k :: 0 <= k < i ==> tiles[k / 10, k % 10] == tileList[k]
        invariant forall a, b :: 0 <= a < 10 && 0 <= b < 10 && CellIndex((a, b)) >= i ==> tiles[a, b] == null
        invariant Valid()
      {
        if x == 10 {
          return false;
        }
        tiles[x, y] := tileList[i];
        y := y + 1;
        if y == 10 {
          y := 0;
          x := x + 1;
        }
        i := i + 1;
      }
      filled := true;
    }

    /** The four `ChangeType(IsSafe)` calls of `Start`, each on a cell that may be null. */
    method MarkSafeCells() returns (outcome: Outcome)
      requires Valid() && LaidOut() && |tileList| <= 100
      requires forall t :: t in tileList ==> TypeOrdinal(TileType.IsSafe) < |t.colors|
      modifies tileList
      ensures outcome == (if |tileList| < 56 then NullReferenceException else Completed)
      ensures forall t :: t in SafeTiles(tileList) ==> ShowsSafe(t)
      ensures forall t :: t in tileList ==> t.cubeData == old(t.cubeData) && t.collectTweens == old(t.collectTweens)
      ensures forall t :: t in tileList && t !in SafeTiles(tileList) ==> unchanged(t)
    {
      var list := tileList;
      if |list| <= 44 {
        assert tiles[4, 4] == null;
        assert SafeTiles(list) == [];
        return NullReferenceException;
      }
      outcome := MarkOuterSafeCells();
      if |list| <= 54 {
        assert SafeTiles(list) == [list[44]];
        return;
      }
      outcome := MarkInnerSafeCells();
      if |list| == 55 {
        assert SafeTiles(list) == [list[44], list[54], list[45]];
      } else {
        assert SafeTiles(list) == [list[44], list[54], list[45], list[55]];
      }
    }

    /** The first two calls of `Start`: cells (4,4) and (5,4), once the list reaches (4,4). */
    method MarkOuterSafeCells() returns (outcome: Outcome)
      requires Valid() && LaidOut() && 45 <= |tileList| <= 100
      requires forall t :: t in tileList ==> TypeOrdinal(TileType.IsSafe) < |t.colors|
      modifies tileList
      ensures outcome == (if |tileList| < 55 then NullReferenceException else Completed)
      ensures ShowsSafe(tileList[44]) && (|tileList| >= 55 ==> ShowsSafe(tileList[54]))
      ensures forall t :: t in tileList ==> t.cubeData == old(t.cubeData) && t.collectTweens == old(t.collectTweens)
      ensures forall t :: t in tileList && t != tileList[44] && (|tileList| < 55 || t != tileList[54]) ==> unchanged(t)
    {
      assert tiles[4, 4] == tileList[44];
      assert |tileList| > 54 ==> tiles[5, 4] == tileList[54];
      var safe := tiles[4, 4];
      safe.ChangeType(TileType.IsSafe);
      safe := tiles[5, 4];
      if safe == null {
        return NullReferenceException;
      }
      safe.ChangeType(TileType.IsSafe);
      outcome := Completed;
    }

    /** The last two calls of `Start`: cells (4,5) and (5,5), once (5,4) has been reached. */
    method MarkInnerSafeCells() returns (outcome: Outcome)
      requires Valid() && LaidOut() && 55 <= |tileList| <= 100
      requires forall t :: t in tileList ==> TypeOrdinal(TileType.IsSafe) < |t.colors|
      modifies tileList
      ensures outcome == (if |tileList| < 56 then NullReferenceException else Completed)
      ensures ShowsSafe(tileList[45]) && (|tileList| >= 56 ==> ShowsSafe(tileList[55]))
      ensures forall t :: t in tileList ==> t.cubeData == old(t.cubeData) && t.collectTweens == old(t.collectTweens)
      ensures forall t :: t in tileList && t != tileList[45] && (|tileList| < 56 || t != tileList[55]) ==> unchanged(t)
    {
      assert tiles[4, 5] == tileList[45];
      assert |tileList| > 55 ==> tiles[5, 5] == tileList[55];
      var safe := tiles[4, 5];
      safe.ChangeType(TileType.IsSafe);
      safe := tiles[5, 5];
      if safe == null {
        return NullReferenceException;
      }
      safe.ChangeType(TileType.IsSafe);
      outcome := Completed;
    }

    /**
     * One round of `CreateRandomPoints`: the cell drawn by the two
     * `Random.Range(0, 9)` calls becomes a point; an empty cell throws.
     */
    method CreateRandomPoint(row: nat, column: nat) returns (outcome: Outcome)
      requires Valid()
      requires row < 9 && column < 9
      requires forall t :: t in tileList ==> TypeOrdinal(TileType.IsPoint) < |t.colors|
      modifies tileList
      ensures outcome == (if tiles[row, column] == null then NullReferenceException else Completed)
      ensures tiles[row, column] != null ==>
        var t := tiles[row, column];
        && ShowsPoint(t) && t.IsPoint()
        && t.cubeData == old(t.cubeData) && t.collectTweens == old(t.collectTweens)
      ensures forall t :: t in tileList && t != tiles[row, column] ==> unchanged(t)
    {
      var t := tiles[row, column];
      if t == null {
        return NullReferenceException;
      }
      t.ChangeType(TileType.IsPoint);
      outcome := Completed;
    }
  }
}
