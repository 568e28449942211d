/**
 * The game's event registry (`EventManager`) and its event keys (`On`).
 *
 * The registry is a dictionary from an integer event id to a multicast
 * delegate. A delegate is modelled by the sequence of listeners in its
 * invocation list; the empty sequence stands for a null delegate, which is
 * what C# leaves behind when `-=` removes the last listener. Listeners are
 * values of an arbitrary type `L`; invoking an event is modelled by the
 * sequence of listeners it calls, in order.
 */
module Events {
  import opened Outcomes
  import opened Lists

  datatype Option<T> = None | Some(value: T)

  /** The events `On` declares. */
  datatype OnKind = StartGame | UpdateTileAnimation | SpawnedPoint | DeSpawnedPoint | LoadStage

  /** The integer key each event is registered under. */
  function OnValue(k: OnKind): int {
    match k
    case StartGame => 0
    case UpdateTileAnimation => 1
    case SpawnedPoint => 2
    case DeSpawnedPoint => 3
    case LoadStage => 99
  }

  /** Distinct events have distinct keys, so each has its own table entry. */
  lemma OnValuesDistinct(a: OnKind, b: OnKind)
    ensures OnValue(a) == OnValue(b) <==> a == b
  {
  }

  /** The dictionary: event id to the invocation list of its delegate. */
  type Table<L> = map<int, seq<L>>

  /** What triggering an id does once the dictionary exists. */
  datatype Dispatched<L> =
    | Invoked(listeners: seq<L>)   // the listeners called, in order
    | NullDelegate                 // the id maps to a null delegate: `Invoke` throws

  /** The invocation list stored for `id`, or none. */
  function Listeners<L>(t: Table<L>, id: int): seq<L> {
    if id in t then t[id] else []
  }

  /**
   * The lookup of `TriggerEvent`, `TryGetValue` then `Invoke`: it faults
   * exactly on a stored null delegate, and otherwise calls what is stored,
   * nothing for an absent id.
   */
  function Dispatch<L>(t: Table<L>, id: int): (d: Dispatched<L>)
    ensures d == NullDelegate <==> id in t && t[id] == []
    ensures d.Invoked? ==> d.listeners == Listeners(t, id)
  {
    if id !in t then Invoked([])
    else if t[id] == [] then NullDelegate
    else Invoked(t[id])
  }

  /**
   * The table after `StartListening(id, l)`: `thisEvent += listener`, stored
   * back or added. The id is then present with a non-null delegate holding
   * one more copy of `l`.
   */
  function Registered<L>(t: Table<L>, id: int, l: L): (r: Table<L>)
    ensures r.Keys == t.Keys + {id}
    ensures r[id] != [] && multiset(r[id]) == multiset(Listeners(t, id)) + multiset{l}
  {
    t[id := Listeners(t, id) + [l]]
  }

  /** Index of the last occurrence of `l` in `s`. */
  function LastIndexOf<L(==)>(s: seq<L>, l: L): (i: nat)
    requires l in s
    ensures i < |s| && s[i] == l && l !in s[i + 1..]
  {
    if s[|s| - 1] == l then |s| - 1
    else
      assert s == s[..|s| - 1] + [s[|s| - 1]];
      LastIndexOf(s[..|s| - 1], l)
  }

  /**
   * Delegate subtraction `d - l`: removes the LAST occurrence of `l` from the
   * invocation list and leaves the list alone when `l` is not in it.
   */
  function WithoutLast<L(==)>(s: seq<L>, l: L): (r: seq<L>)
    ensures l !in s ==> r == s
    ensures l in s ==> |r| == |s| - 1
  {
    if |s| == 0 then s
    else if s[|s| - 1] == l then s[..|s| - 1]
    else
      var init := s[..|s| - 1];
      assert s == init + [s[|s| - 1]];
      WithoutLast(init, l) + [s[|s| - 1]]
  }

  /** What subtraction leaves when `l` is present: the list with its last `l` cut out. */
  lemma {:induction false} WithoutLastSplit<L>(s: seq<L>, l: L)
    requires l in s
    ensures WithoutLast(s, l) == s[..LastIndexOf(s, l)] + s[LastIndexOf(s, l) + 1..]
  {
    var n := |s| - 1;
    if s[n] == l {
      assert LastIndexOf(s, l) == n && s[n + 1..] == [];
    } else {
      var init := s[..n];
      assert s == init + [s[n]];
      assert l in init;
      WithoutLastSplit(init, l);
      var k := LastIndexOf(init, l);
      assert LastIndexOf(s, l) == k;
      assert WithoutLast(s, l) == WithoutLast(init, l) + [s[n]];
      assert init[..k] == s[..k];
      assert init[k + 1..] + [s[n]] == s[k + 1..];
    }
  }

  /** Subtraction takes away one copy of `l` and nothing else. */
  lemma WithoutLastMultiset<L>(s: seq<L>, l: L)
    ensures multiset(WithoutLast(s, l)) == multiset(s) - multiset{l}
  {
    if l in s {
      WithoutLastSplit(s, l);
      RemoveAtMultiset(s, LastIndexOf(s, l));
      MultisetCancel(multiset(WithoutLast(s, l)), multiset(s), l);
    } else {
      MultisetMinusAbsent(multiset(s), l);
    }
  }

  /**
   * The table `StopListening` would leave if its guard passed: `TryGetValue`
   * leaves an absent id alone, otherwise `-=` reduces the delegate and it is
   * stored back under the same id, even when it has become null.
   */
  function Unregistered<L(==)>(t: Table<L>, id: int, l: L): (r: Table<L>)
    ensures r.Keys == t.Keys
    ensures id in t ==> multiset(r[id]) == multiset(t[id]) - multiset{l}
  {
    if id !in t then t
    else
      WithoutLastMultiset(t[id], l);
      t[id := WithoutLast(t[id], l)]
  }

  /**
   * The intended removal: an entry whose delegate becomes null is dropped,
   * so the id stays exactly when a listener other than the removed copy
   * remains.
   */
  function UnregisteredFixed<L(==)>(t: Table<L>, id: int, l: L): (r: Table<L>)
    ensures r.Keys <= t.Keys
    ensures id in r <==> id in t && multiset(t[id]) - multiset{l} != multiset{}
    ensures id in r ==> r[id] != [] && multiset(r[id]) == multiset(t[id]) - multiset{l}
  {
    if id !in t then t
    else
      var rest := WithoutLast(t[id], l);
      WithoutLastMultiset(t[id], l);
      assert rest == [] <==> multiset(rest) == multiset{};
      if rest == [] then t - {id} else t[id := rest]
  }

  /** No id maps to a null delegate. */
  predicate NoNullEntries<L>(t: Table<L>) {
    forall id :: id in t ==> t[id] != []
  }

  /**
   * Registering appends the listener at the end of its id's invocation list
   * and leaves every other id alone; a trigger of that id then succeeds.
   */
  lemma RegisterThenDispatch<L>(t: Table<L>, id: int, l: L, other: int)
    ensures Dispatch(Registered(t, id, l), id) == Invoked(Listeners(t, id) + [l])
    ensures other != id ==> Dispatch(Registered(t, id, l), other) == Dispatch(t, other)
    ensures other != id ==> Listeners(Registered(t, id, l), other) == Listeners(t, other)
  {
  }

  /** Registering the same listener twice keeps both copies: one trigger calls it twice. */
  lemma RegisterTwiceInvokesTwice<L>(t: Table<L>, id: int, l: L)
    ensures Dispatch(Registered(Registered(t, id, l), id, l), id) == Invoked(Listeners(t, id) + [l, l])
  {
    assert Listeners(t, id) + [l] + [l] == Listeners(t, id) + [l, l];
  }

  /**
   * As written, removing the only listener of an id leaves a null delegate in
   * the table, and the next trigger of that id dereferences it.
   */
  lemma EmptiedEntryFaults<L>(t: Table<L>, id: int, l: L)
    requires Listeners(t, id) == []
    ensures Dispatch(Unregistered(Registered(t, id, l), id, l), id) == NullDelegate
  {
    assert WithoutLast([l], l) == [];
  }

  /** Removing a listener, as written or as intended, leaves every other id's entry as it was. */
  lemma UnregisterKeepsOtherIds<L>(t: Table<L>, id: int, l: L, other: int)
    requires other != id
    ensures other in Unregistered(t, id, l) <==> other in t
    ensures other in UnregisteredFixed(t, id, l) <==> other in t
    ensures Listeners(Unregistered(t, id, l), other) == Listeners(t, other)
    ensures Listeners(UnregisteredFixed(t, id, l), other) == Listeners(t, other)
  {
  }

  /** Both table updates of the fixed registry keep every entry non-null. */
  lemma FixedUpdatesKeepNoNullEntries<L>(t: Table<L>, id: int, l: L)
    requires NoNullEntries(t)
    ensures NoNullEntries(Registered(t, id, l))
    ensures NoNullEntries(UnregisteredFixed(t, id, l))
  {
  }

  /** Without null entries, a trigger never faults. */
  lemma NoNullEntriesNeverFault<L>(t: Table<L>, id: int)
    requires NoNullEntries(t)
    ensures Dispatch(t, id) == Invoked(Listeners(t, id))
  {
  }

  /**
   * The fixed removal round-trips: registering a listener and then removing
   * it restores the table exactly, whether or not the id was present.
   */
  lemma RegisterThenUnregisterFixed<L>(t: Table<L>, id: int, l: L)
    requires NoNullEntries(t)
    ensures UnregisteredFixed(Registered(t, id, l), id, l) == t
  {
    var s := Listeners(t, id);
    assert (s + [l])[..|s|] == s;
    if id !in t {
      assert Registered(t, id, l) - {id} == t;
    } else {
      assert Registered(t, id, l)[id := s] == t;
    }
  }

  /** As written, the same round trip leaves a null entry behind for a new id. */
  lemma RegisterThenUnregisterLeavesNull<L>(t: Table<L>, id: int, l: L)
    requires id !in t
    ensures Unregistered(Registered(t, id, l), id, l) == t[id := []]
    ensures Unregistered(Registered(t, id, l), id, l) != t
  {
    assert Listeners(t, id) + [l] == [l];
    assert WithoutLast([l], l) == [];
    assert id in t[id := []];
  }

  /** After the fixed removal a trigger calls the old listeners less the last copy of `l`. */
  lemma UnregisterFixedDispatch<L>(t: Table<L>, id: int, l: L)
    requires NoNullEntries(t)
    ensures Dispatch(UnregisteredFixed(t, id, l), id) == Invoked(WithoutLast(Listeners(t, id), l))
  {
  }

  /** An `On` event key: its kind fixes name and value; `SetMessage` stores the payload. */
  class On<M> {
    const kind: OnKind
    var message: Option<M>

    constructor (kind: OnKind)
      ensures this.kind == kind && message == None
    {
      this.kind := kind;
      message := None;
    }

    function Value(): int {
      OnValue(kind)
    }

    method SetMessage(m: M)
      modifies this
      ensures message == Some(m)
    {
      message := Some(m);
    }

    /** The payload stored by the last `SetMessage`; `None` before any. */
    function GetMessage(): (m: Option<M>)
      reads this
      ensures m == message
    {
      message
    }
  }

  /**
   * The registry. The singleton's `Instance` is this object, so the static
   * methods of the source are its methods. `staticEventManager` records
   * whether the static field `_eventManager` is non-null: the constructor
   * leaves it false and no method may change it, as nothing in the source
   * assigns that field.
   */
  class EventManager<L(==)> {
    var eventDictionary: Option<Table<L>>
    var staticEventManager: bool

    constructor ()
      ensures eventDictionary == None && !staticEventManager
    {
      eventDictionary := None;
      staticEventManager := false;
    }

    /** `_eventDictionary ??= new()`: creates the table only when there is none. */
    method Awake()
      modifies this`eventDictionary
      ensures old(eventDictionary).None? ==> eventDictionary == Some(map[])
      ensures old(eventDictionary).Some? ==> eventDictionary == old(eventDictionary)
    {
      if eventDictionary.None? {
        eventDictionary := Some(map[]);
      }
    }

    /** Appends `listener` to the id's invocation list, creating the entry if absent. */
    method StartListening<M>(onEvent: On<M>, listener: L) returns (outcome: Outcome)
      modifies this`eventDictionary
      ensures outcome == (if old(eventDictionary).None? then NullReferenceException else Completed)
      ensures old(eventDictionary).None? ==> eventDictionary == old(eventDictionary)
      ensures old(eventDictionary).Some? ==>
        eventDictionary == Some(Registered(old(eventDictionary).value, onEvent.Value(), listener))
    {
      if eventDictionary.None? {
        return NullReferenceException;
      }
      var table := eventDictionary.value;
      var id := onEvent.Value();
      if id in table {
        var thisEvent := table[id];
        thisEvent := thisEvent + [listener];
        eventDictionary := Some(table[id := thisEvent]);
      } else {
        var thisEvent: seq<L> := [];
        thisEvent := thisEvent + [listener];
        eventDictionary := Some(table[id := thisEvent]);
      }
      outcome := Completed;
    }

    /**
     * As written: returns at the guard while `_eventManager` is null, which
     * it always is, so the table never changes. Past the guard it would
     * store the reduced delegate back under the same id.
     */
    method StopListening<M>(onEvent: On<M>, listener: L) returns (outcome: Outcome)
      modifies this`eventDictionary
      ensures !staticEventManager || old(eventDictionary).None? ==> eventDictionary == old(eventDictionary)
      ensures staticEventManager && old(eventDictionary).Some? ==>
        eventDictionary == Some(Unregistered(old(eventDictionary).value, onEvent.Value(), listener))
      ensures outcome == (if staticEventManager && old(eventDictionary).None? then NullReferenceException else Completed)
    {
      if !staticEventManager {
        return Completed;
      }
      if eventDictionary.None? {
        return NullReferenceException;
      }
      var table := eventDictionary.value;
      var id := onEvent.Value();
      if id !in table {
        return Completed;
      }
      var thisEvent := table[id];
      thisEvent := WithoutLast(thisEvent, listener);
      eventDictionary := Some(table[id := thisEvent]);
      outcome := Completed;
    }

    /** The intended removal: no dead guard, and an emptied entry is dropped. */
    method StopListeningFixed<M>(onEvent: On<M>, listener: L) returns (outcome: Outcome)
      modifies this`eventDictionary
      ensures outcome == (if old(eventDictionary).None? then NullReferenceException else Completed)
      ensures old(eventDictionary).None? ==> eventDictionary == old(eventDictionary)
      ensures old(eventDictionary).Some? ==>
        eventDictionary == Some(UnregisteredFixed(old(eventDictionary).value, onEvent.Value(), listener))
    {
      if eventDictionary.None? {
        return NullReferenceException;
      }
      var table := eventDictionary.value;
      var id := onEvent.Value();
      if id !in table {
        return Completed;
      }
      var thisEvent := WithoutLast(table[id], listener);
      if thisEvent == [] {
        eventDictionary := Some(table - {id});
      } else {
        eventDictionary := Some(table[id := thisEvent]);
      }
      outcome := Completed;
    }

    /**
     * Stores the message on the event first, whether or not anyone listens,
     * then calls the id's listeners in registration order. The table is not
     * changed. A missing dictionary or a null delegate ends in a
     * `NullReferenceException`.
     */
    method TriggerEvent<M>(onEvent: On<M>, message: M) returns (invoked: seq<L>, outcome: Outcome)
      modifies onEvent
      ensures onEvent.GetMessage() == Some(message)
      ensures eventDictionary == old(eventDictionary)
      ensures eventDictionary.None? ==> invoked == [] && outcome == NullReferenceException
      ensures eventDictionary.Some? ==>
        match Dispatch(eventDictionary.value, onEvent.Value())
        case Invoked(ls) => invoked == ls && outcome == Completed
        case NullDelegate => invoked == [] && outcome == NullReferenceException
    {
      onEvent.SetMessage(message);
      if eventDictionary.None? {
        return [], NullReferenceException;
      }
      var table := eventDictionary.value;
      var id := onEvent.Value();
      if id in table {
        var thisEvent := table[id];
        if thisEvent == [] {
          return [], NullReferenceException;
        }
        invoked := thisEvent;
      } else {
        invoked := [];
      }
      outcome := Completed;
    }
  }

  /** The tables a single listener passes through when it is added to an empty table and removed again. */
  lemma SingleListenerTables<L>(id: int, l: L)
    ensures Registered(map[], id, l) == map[id := [l]]
    ensures UnregisteredFixed(map[id := [l]], id, l) == map[]
    ensures Dispatch(map[id := [l]], id) == Invoked([l])
    ensures Dispatch<L>(map[], id) == Invoked([])
  {
    assert Listeners(map[], id) + [l] == [l];
    assert WithoutLast([l], l) == [];
    assert map[id := [l]] - {id} == map[];
  }

  /**
   * A component that registers a listener and later unregisters it (as
   * `OnEnable`/`OnDisable` do) is still called by the next trigger: the
   * removal never happens.
   */
  method DisabledListenerStillCalled<L(==)>(kind: OnKind, listener: L) returns (invoked: seq<L>)
    ensures invoked == [listener]
  {
    SingleListenerTables(OnValue(kind), listener);
    var manager := new EventManager<L>();
    manager.Awake();
    var onEvent := new On<int>(kind);
    var started := manager.StartListening(onEvent, listener);
    var stopped := manager.StopListening(onEvent, listener);
    var outcome;
    invoked, outcome := manager.TriggerEvent(onEvent, 0);
  }

  /** With the intended removal the same sequence calls nothing and does not fault. */
  method DisabledListenerNotCalledFixed<L(==)>(kind: OnKind, listener: L) returns (invoked: seq<L>, outcome: Outcome)
    ensures invoked == [] && outcome == Completed
  {
    SingleListenerTables(OnValue(kind), listener);
    var manager := new EventManager<L>();
    manager.Awake();
    var onEvent := new On<int>(kind);
    var started := manager.StartListening(onEvent, listener);
    var stopped := manager.StopListeningFixed(onEvent, listener);
    invoked, outcome := manager.TriggerEvent(onEvent, 0);
  }
}
