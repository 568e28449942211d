/**
 * The on-screen pointers to point tiles (`TilePointerManager`). Each spawned
 * point gets a pointer that targets its position; a de-spawned point's
 * pointers are removed and destroyed.
 *
 * A pointer is an object created by `Instantiate`; it is modelled by a value
 * carrying a fresh identity and its target position, so two pointers to the
 * same position are still different pointers. Positions are values of an
 * arbitrary type `P` compared with `==`. `DestroySelf` is modelled by
 * appending the pointer to `destroyed`.
 */
module TilePointers {
  import opened Lists

  datatype TilePointer<P> = TilePointer(id: nat, targetPosition: P)

  /** The pointers whose target is not `m`, in order. */
  function Unmatched<P(==)>(s: seq<TilePointer<P>>, m: P): (r: seq<TilePointer<P>>)
    ensures |r| <= |s|
  {
    if |s| == 0 then []
    else if s[0].targetPosition == m then Unmatched(s[1..], m)
    else [s[0]] + Unmatched(s[1..], m)
  }

  /** Removing every match leaves no pointer to the de-spawned position, and adds none. */
  lemma {:induction false} UnmatchedHasNoMatch<P>(s: seq<TilePointer<P>>, m: P)
    ensures forall p :: p in Unmatched(s, m) ==> p in s && p.targetPosition != m
    decreases |s|
  {
    if |s| > 0 {
      UnmatchedHasNoMatch(s[1..], m);
      assert forall p :: p in s[1..] ==> p in s;
    }
  }

  /**
   * What one call of `OnDeSpawnedPoint` leaves: scanning by index, a match is
   * removed, the rest shifts left, and the index still advances, so the
   * pointer right after a removed one is kept without being looked at.
   */
  function Sweep<P(==)>(s: seq<TilePointer<P>>, m: P): (r: seq<TilePointer<P>>)
    ensures |r| <= |s| && |s| <= 2 * |r| + 1
    decreases |s|
  {
    if |s| == 0 then []
    else if s[0].targetPosition != m then [s[0]] + Sweep(s[1..], m)
    else if |s| == 1 then []
    else [s[1]] + Sweep(s[2..], m)
  }

  /** One call removes only matching pointers: every other one stays, in order. */
  lemma {:induction false} SweepKeepsUnmatched<P>(s: seq<TilePointer<P>>, m: P)
    ensures Unmatched(Sweep(s, m), m) == Unmatched(s, m)
    decreases |s|
  {
    if |s| == 0 {
    } else if s[0].targetPosition != m {
      SweepKeepsUnmatched(s[1..], m);
      assert ([s[0]] + Sweep(s[1..], m))[1..] == Sweep(s[1..], m);
    } else if |s| > 1 {
      SweepKeepsUnmatched(s[2..], m);
      assert ([s[1]] + Sweep(s[2..], m))[1..] == Sweep(s[2..], m);
      assert s[1..][1..] == s[2..];
    }
  }

  /** One call keeps a sub-sequence of the pointers: nothing is added or duplicated. */
  lemma {:induction false} SweepIsSubMultiset<P>(s: seq<TilePointer<P>>, m: P)
    ensures multiset(Sweep(s, m)) <= multiset(s)
    decreases |s|
  {
    if |s| == 0 {
    } else if s[0].targetPosition != m {
      SweepIsSubMultiset(s[1..], m);
      assert s == [s[0]] + s[1..];
    } else if |s| > 1 {
      SweepIsSubMultiset(s[2..], m);
      assert s == [s[0], s[1]] + s[2..];
    }
  }

  /**
   * One call does not remove every match: of two adjacent pointers to the
   * de-spawned position, the second survives.
   */
  lemma SweepSkipsAdjacentMatch<P>(first: TilePointer<P>, second: TilePointer<P>, m: P)
    requires first.targetPosition == m && second.targetPosition == m
    ensures Sweep([first, second], m) == [second]
    ensures Unmatched([first, second], m) == []
  {
    assert [first, second][2..] == [];
    assert [first, second][1..] == [second] && [second][1..] == [];
    assert Unmatched([second], m) == Unmatched([], m) == [];
  }

  /** A second de-spawn of the same position after the intended one changes nothing. */
  lemma {:induction false} UnmatchedIdempotent<P>(s: seq<TilePointer<P>>, m: P)
    ensures Unmatched(Unmatched(s, m), m) == Unmatched(s, m)
    decreases |s|
  {
    if |s| > 0 {
      UnmatchedIdempotent(s[1..], m);
      if s[0].targetPosition != m {
        assert ([s[0]] + Unmatched(s[1..], m))[1..] == Unmatched(s[1..], m);
      }
    }
  }

  /**
   * The result of the as-written scan, seen from index `i` of the current
   * list: the part before `i` is settled, the rest is still to be swept.
   */
  ghost function Progress<P>(s: seq<TilePointer<P>>, i: nat, m: P): seq<TilePointer<P>> {
    var j := if i <= |s| then i else |s|;
    s[..j] + Sweep(s[j..], m)
  }

  /** Removing the match at `i` and stepping past `i` keeps the scan's result. */
  lemma SweepProgressRemove<P>(s: seq<TilePointer<P>>, i: nat, m: P)
    requires i < |s| && s[i].targetPosition == m
    ensures Progress(s, i, m) == Progress(s[..i] + s[i + 1..], i + 1, m)
  {
    var t := s[..i] + s[i + 1..];
    if i + 1 < |s| {
      assert s[i..] == [s[i], s[i + 1]] + s[i + 2..];
      assert t[..i + 1] == s[..i] + [s[i + 1]];
      assert t[i + 1..] == s[i + 2..];
    } else {
      assert s[i..] == [s[i]];
      assert t == s[..i];
    }
  }

  /** Stepping past a pointer that does not match keeps the scan's result. */
  lemma SweepProgressKeep<P>(s: seq<TilePointer<P>>, i: nat, m: P)
    requires i < |s| && s[i].targetPosition != m
    ensures Progress(s, i, m) == Progress(s, i + 1, m)
  {
    assert s[i..] == [s[i]] + s[i + 1..];
    assert s[..i + 1] == s[..i] + [s[i]];
  }

  /**
   * The result of the intended scan, seen from index `i`: the part before
   * `i` is kept, the rest is still to be filtered.
   */
  ghost function Settled<P>(s: seq<TilePointer<P>>, i: nat, m: P): seq<TilePointer<P>>
    requires i <= |s|
  {
    s[..i] + Unmatched(s[i..], m)
  }

  /** Removing the match at `i` without moving on keeps the scan's result. */
  lemma SettledRemove<P>(s: seq<TilePointer<P>>, i: nat, m: P)
    requires i < |s| && s[i].targetPosition == m
    ensures Settled(s, i, m) == Settled(s[..i] + s[i + 1..], i, m)
  {
    var t := s[..i] + s[i + 1..];
    assert s[i..][1..] == s[i + 1..];
    assert t[..i] == s[..i] && t[i..] == s[i + 1..];
  }

  /** Stepping past a pointer that does not match keeps the scan's result. */
  lemma SettledKeep<P>(s: seq<TilePointer<P>>, i: nat, m: P)
    requires i < |s| && s[i].targetPosition != m
    ensures Settled(s, i, m) == Settled(s, i + 1, m)
  {
    assert s[i..][1..] == s[i + 1..];
    assert s[..i + 1] == s[..i] + [s[i]];
  }

  class TilePointerManager<P(==)> {
    var questPointerList: seq<TilePointer<P>>
    var destroyed: seq<TilePointer<P>>
    var nextId: nat

    /** Every pointer in the list has its own identity, below `nextId`. */
    ghost predicate Valid()
      reads this
    {
      && Distinct(questPointerList)
      && forall p :: p in questPointerList ==> p.id < nextId
    }

    constructor ()
      ensures Valid() && questPointerList == [] && destroyed == []
    {
      questPointerList := [];
      destroyed := [];
      nextId := 0;
    }

    /** `Awake` starts with an empty pointer list. */
    method Awake()
      modifies this`questPointerList
      ensures Valid() && questPointerList == []
    {
      questPointerList := [];
    }

    /** Instantiates a pointer aimed at `targetPosition` and appends it to the list. */
    method CreatePointer(targetPosition: P) returns (pointer: TilePointer<P>)
      requires Valid()
      modifies this`questPointerList, this`nextId
      ensures Valid()
      ensures pointer.targetPosition == targetPosition && pointer !in old(questPointerList)
      ensures questPointerList == old(questPointerList) + [pointer]
    {
      pointer := TilePointer(nextId, targetPosition);
      nextId := nextId + 1;
      questPointerList := questPointerList + [pointer];
    }

    /** The `SpawnedPoint` listener: one new pointer at the message's position. */
    method OnSpawnedPoint(message: P)
      requires Valid()
      modifies this`questPointerList, this`nextId
      ensures Valid()
      ensures |questPointerList| == |old(questPointerList)| + 1
      ensures questPointerList[..|old(questPointerList)|] == old(questPointerList)
      ensures questPointerList[|old(questPointerList)|].targetPosition == message
    {
      var pointer := CreatePointer(message);
    }

    /** `List.Remove` then `DestroySelf`: the first occurrence of the pointer goes. */
    method DestroyPointer(tilePointer: TilePointer<P>)
      requires Valid()
      modifies this`questPointerList, this`destroyed
      ensures Valid()
      ensures questPointerList == RemoveFirst(old(questPointerList), tilePointer)
      ensures destroyed == old(destroyed) + [tilePointer]
    {
      questPointerList := RemoveFirst(questPointerList, tilePointer);
      destroyed := destroyed + [tilePointer];
      if tilePointer in old(questPointerList) {
        RemoveFirstAt(old(questPointerList), IndexOf(old(questPointerList), tilePointer));
      }
    }

    /** Destroys the pointer at index `i`, the way both listeners remove one. */
    method DestroyAt(i: nat)
      requires Valid() && i < |questPointerList|
      modifies this`questPointerList, this`destroyed
      ensures Valid()
      ensures questPointerList == old(questPointerList[..i]) + old(questPointerList[i + 1..])
      ensures destroyed == old(destroyed) + [old(questPointerList[i])]
      ensures multiset(questPointerList) + multiset(destroyed) == old(multiset(questPointerList) + multiset(destroyed))
    {
      RemoveAtMultiset(questPointerList, i);
      RemoveFirstAt(questPointerList, i);
      DestroyPointer(questPointerList[i]);
    }

    /**
     * The `DeSpawnedPoint` listener as written: an index loop that destroys
     * each pointer aimed at the message's position, advancing past a removal.
     */
    method OnDeSpawnedPoint(message: P)
      requires Valid()
      modifies this`questPointerList, this`destroyed
      ensures Valid()
      ensures questPointerList == Sweep(old(questPointerList), message)
      ensures |destroyed| >= |old(destroyed)| && destroyed[..|old(destroyed)|] == old(destroyed)
      ensures forall k :: |old(destroyed)| <= k < |destroyed| ==> destroyed[k].targetPosition == message
      ensures multiset(questPointerList) + multiset(destroyed) == old(multiset(questPointerList) + multiset(destroyed))
    {
      var i := 0;
      while i < |questPointerList|
        invariant Valid()
        invariant Sweep(old(questPointerList), message) == Progress(questPointerList, i, message)
        invariant |destroyed| >= |old(destroyed)| && destroyed[..|old(destroyed)|] == old(destroyed)
        invariant forall k :: |old(destroyed)| <= k < |destroyed| ==> destroyed[k].targetPosition == message
        invariant multiset(questPointerList) + multiset(destroyed) == old(multiset(questPointerList) + multiset(destroyed))
        decreases |questPointerList| + 1 - i
      {
        if questPointerList[i].targetPosition == message {
          SweepProgressRemove(questPointerList, i, message);
          DestroyAt(i);
        } else {
          SweepProgressKeep(questPointerList, i, message);
        }
        i := i + 1;
      }
    }

    /**
     * The intended listener: the index advances only past a kept pointer, so
     * every pointer aimed at the message's position is destroyed.
     */
    method OnDeSpawnedPointFixed(message: P)
      requires Valid()
      modifies this`questPointerList, this`destroyed
      ensures Valid()
      ensures questPointerList == Unmatched(old(questPointerList), message)
      ensures |destroyed| >= |old(destroyed)| && destroyed[..|old(destroyed)|] == old(destroyed)
      ensures forall k :: |old(destroyed)| <= k < |destroyed| ==> destroyed[k].targetPosition == message
      ensures multiset(questPointerList) + multiset(destroyed) == old(multiset(questPointerList) + multiset(destroyed))
    {
      var i := 0;
      while i < |questPointerList|
        invariant Valid()
        invariant i <= |questPointerList|
        invariant Unmatched(old(questPointerList), message) == Settled(questPointerList, i, message)
        invariant |destroyed| >= |old(destroyed)| && destroyed[..|old(destroyed)|] == old(destroyed)
        invariant forall k :: |old(destroyed)| <= k < |destroyed| ==> destroyed[k].targetPosition == message
        invariant multiset(questPointerList) + multiset(destroyed) == old(multiset(questPointerList) + multiset(destroyed))
        decreases |questPointerList| - i
      {
        if questPointerList[i].targetPosition == message {
          SettledRemove(questPointerList, i, message);
          DestroyAt(i);
        } else {
          SettledKeep(questPointerList, i, message);
          i := i + 1;
        }
      }
      assert questPointerList[i..] == [];
    }
  }
}
