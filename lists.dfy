/**
 * The two .NET collection behaviours the game scripts rely on: the exceptions
 * an out-of-range index or a null reference raise, and `List<T>.Remove`,
 * which drops the first element equal to its argument.
 */
module Outcomes {
  /** How a call that can throw ends: normally, or with the exception it raised. */
  datatype Outcome = Completed | NullReferenceException | IndexOutOfRangeException
}

module Lists {
  /** Index of the first element of `s` equal to `x` (`List<T>.IndexOf`). */
  function IndexOf<T(==)>(s: seq<T>, x: T): (i: nat)
    requires x in s
    ensures i < |s| && s[i] == x && x !in s[..i]
  {
    if s[0] == x then 0 else 1 + IndexOf(s[1..], x)
  }

  /**
   * `List<T>.Remove(x)`: removes the first element equal to `x` and keeps the
   * others in order; a list without `x` is left as it is.
   */
  function RemoveFirst<T(==)>(s: seq<T>, x: T): (r: seq<T>)
    ensures x !in s ==> r == s
    ensures x in s ==> |r| == |s| - 1
  {
    if |s| == 0 then s
    else if s[0] == x then s[1..]
    else
      assert x in s <==> x in s[1..];
      [s[0]] + RemoveFirst(s[1..], x)
  }

  /** When the first `x` is at `i`, `Remove` cuts out exactly position `i`. */
  lemma {:induction false} RemoveFirstAtIndex<T>(s: seq<T>, x: T, i: nat)
    requires i < |s| && s[i] == x && x !in s[..i]
    ensures RemoveFirst(s, x) == s[..i] + s[i + 1..]
  {
    if i == 0 {
      assert s[..0] + s[1..] == s[1..];
    } else {
      assert s[..i][0] == s[0];
      var rest := s[1..];
      assert rest[..i - 1] == s[1..i];
      assert x !in rest[..i - 1] by {
        assert forall y :: y in s[1..i] ==> y in s[..i];
      }
      RemoveFirstAtIndex(rest, x, i - 1);
      calc {
        RemoveFirst(s, x);
        [s[0]] + RemoveFirst(rest, x);
        [s[0]] + (rest[..i - 1] + rest[i..]);
        { assert [s[0]] + rest[..i - 1] == s[..i]; assert rest[i..] == s[i + 1..]; }
        s[..i] + s[i + 1..];
      }
    }
  }

  /** Cutting out position `i` takes exactly one copy of `s[i]` out of the list. */
  lemma RemoveAtMultiset<T>(s: seq<T>, i: nat)
    requires i < |s|
    ensures multiset(s[..i] + s[i + 1..]) + multiset{s[i]} == multiset(s)
  {
    assert s == s[..i] + [s[i]] + s[i + 1..];
  }

  /** Adding one copy of `x` and taking it away again gives back the multiset. */
  lemma MultisetCancel<T>(a: multiset<T>, b: multiset<T>, x: T)
    requires a + multiset{x} == b
    ensures a == b - multiset{x}
  {
    forall y
      ensures a[y] == (b - multiset{x})[y]
    {
      assert b[y] == a[y] + multiset{x}[y];
    }
  }

  /** Taking away an element that is absent changes nothing. */
  lemma MultisetMinusAbsent<T>(a: multiset<T>, x: T)
    requires x !in a
    ensures a - multiset{x} == a
  {
    forall y
      ensures (a - multiset{x})[y] == a[y]
    {
    }
  }

  /** `Remove` takes away one copy of `x` and no other element. */
  lemma RemoveFirstMultiset<T>(s: seq<T>, x: T)
    ensures multiset(RemoveFirst(s, x)) == multiset(s) - multiset{x}
  {
    if x in s {
      RemoveFirstAtIndex(s, x, IndexOf(s, x));
      RemoveAtMultiset(s, IndexOf(s, x));
      MultisetCancel(multiset(RemoveFirst(s, x)), multiset(s), x);
    } else {
      MultisetMinusAbsent(multiset(s), x);
    }
  }

  /** All elements are pairwise distinct (a list of distinct objects). */
  predicate Distinct<T(==)>(s: seq<T>) {
    forall i, j :: 0 <= i < j < |s| ==> s[i] != s[j]
  }

  /** Dropping one position keeps a list of distinct elements distinct. */
  lemma DistinctRemoveAt<T>(s: seq<T>, i: nat)
    requires Distinct(s) && i < |s|
    ensures Distinct(s[..i] + s[i + 1..])
  {
    var r := s[..i] + s[i + 1..];
    forall a, b | 0 <= a < b < |r|
      ensures r[a] != r[b]
    {
      var a' := if a < i then a else a + 1;
      var b' := if b < i then b else b + 1;
      assert r[a] == s[a'] && r[b] == s[b'];
    }
  }

  /** Removing an element of a list of distinct elements drops exactly its position. */
  lemma RemoveFirstAt<T>(s: seq<T>, i: nat)
    requires Distinct(s) && i < |s|
    ensures RemoveFirst(s, s[i]) == s[..i] + s[i + 1..]
    ensures Distinct(RemoveFirst(s, s[i]))
  {
    assert s[i] !in s[..i];
    RemoveFirstAtIndex(s, s[i], i);
    DistinctRemoveAt(s, i);
  }
}
