/** `Events`: a process-wide bus that maps each event class to the listeners registered for it,
    kept in registration order without repeats. */
module Events {
  import opened Wrappers

  /** An event listener; listeners are compared by identity, as the Java objects are. */
  class EventListener {
    const eventClass: string

    constructor (eventClass: string)
      ensures this.eventClass == eventClass
    {
      this.eventClass := eventClass;
    }
  }

  /** An event; only its runtime class takes part in dispatch. */
  datatype Event = Event(eventClass: string)

  predicate Distinct<T(==)>(s: seq<T>)
  {
    forall i, j :: 0 <= i < j < |s| ==> s[i] != s[j]
  }

  /** `LinkedHashSet.add`: appended when absent, otherwise the set is unchanged. */
  function Inserted(s: seq<EventListener>, l: EventListener): (r: seq<EventListener>)
    ensures Distinct(s) ==> Distinct(r)
    ensures l in r && (forall i :: 0 <= i < |s| ==> s[i] in r)
    ensures forall i :: 0 <= i < |r| ==> r[i] in s || r[i] == l
    ensures l in s ==> r == s
    ensures l !in s ==> r == s + [l]
  {
    if l in s then s else s + [l]
  }

  /** `LinkedHashSet.remove`: the listener is taken out, the others keep their order. */
  function Removed(s: seq<EventListener>, l: EventListener): (r: seq<EventListener>)
    ensures l !in r && (forall i :: 0 <= i < |s| && s[i] != l ==> s[i] in r)
    ensures forall i :: 0 <= i < |r| ==> r[i] in s && r[i] != l
    ensures |r| <= |s|
  {
    if s == [] then []
    else if s[0] == l then Removed(s[1..], l)
    else [s[0]] + Removed(s[1..], l)
  }

  /** The process-wide bus: the static `listenerMap` keyed by event class name. */
  class EventBus {
    var listenerMap: map<string, seq<EventListener>>

    /** No class maps to an empty set, sets hold no repeats, and each listener sits under the
        class it listens to. */
    predicate Valid()
      reads this
    {
      forall c :: c in listenerMap ==>
        listenerMap[c] != [] && Distinct(listenerMap[c]) &&
        forall i :: 0 <= i < |listenerMap[c]| ==> listenerMap[c][i].eventClass == c
    }

    /** The listeners registered for a class, empty when there are none. */
    function ListenersOf(c: string): seq<EventListener>
      reads this
    {
      if c in listenerMap then listenerMap[c] else []
    }

    constructor ()
      ensures listenerMap == map[] && Valid()
    {
      listenerMap := map[];
    }

    /** `registerListener`: adds the listener to its class's set, creating the set if absent. */
    method RegisterListener(l: EventListener)
      requires Valid()
      modifies this
      ensures Valid()
      ensures listenerMap == old(listenerMap)[l.eventClass := Inserted(old(ListenersOf(l.eventClass)), l)]
    {
      var c := l.eventClass;
      if c in listenerMap {
        listenerMap := listenerMap[c := Inserted(listenerMap[c], l)];
      } else {
        assert Inserted([], l) == [l];
        listenerMap := listenerMap[c := [l]];
      }
    }

    /** `removeListerner`: takes the listener out of its class's set and drops a set that
        becomes empty; a class with no entry is left alone. */
    method RemoveListener(l: EventListener)
      requires Valid()
      modifies this
      ensures Valid()
      ensures l.eventClass !in old(listenerMap) ==> listenerMap == old(listenerMap)
      ensures l.eventClass in old(listenerMap) && Removed(old(listenerMap)[l.eventClass], l) == [] ==>
        listenerMap == old(listenerMap) - {l.eventClass}
      ensures l.eventClass in old(listenerMap) && Removed(old(listenerMap)[l.eventClass], l) != [] ==>
        listenerMap == old(listenerMap)[l.eventClass := Removed(old(listenerMap)[l.eventClass], l)]
    {
      var c := l.eventClass;
      if c in listenerMap {
        var rest := Removed(listenerMap[c], l);
        RemovedKeeps(listenerMap[c], l);
        if rest == [] {
          listenerMap := listenerMap - {c};
        } else {
          listenerMap := listenerMap[c := rest];
        }
      }
    }

    /** `publish`: calls the listeners of exactly the event's class, in registration order.
        `throws` holds the listeners whose `onEvent` throws for this event: the first of them
        stops `forEach`, its exception leaves `publish`, and later listeners are not called.
        The result is the sequence of listeners called and the one that threw, if any. */
    method Publish(event: Event, throws: set<EventListener>)
      returns (called: seq<EventListener>, thrower: Option<EventListener>)
      requires Valid()
      ensures var ls := ListenersOf(event.eventClass); var k := FirstThrowing(ls, throws);
        (k == |ls| ==> thrower == None && called == ls) &&
        (k < |ls| ==> thrower == Some(ls[k]) && called == ls[..k + 1])
      ensures forall l :: l in called ==> l.eventClass == event.eventClass
    {
      called, thrower := [], None;
      if event.eventClass in listenerMap {
        var listeners := listenerMap[event.eventClass];
        var i := 0;
        while i < |listeners| && thrower == None
          invariant 0 <= i <= |listeners|
          invariant called == listeners[..i]
          invariant thrower == None ==> forall j :: 0 <= j < i ==> listeners[j] !in throws
          invariant thrower != None ==>
                      0 < i && thrower == Some(listeners[i - 1]) && listeners[i - 1] in throws &&
                      forall j :: 0 <= j < i - 1 ==> listeners[j] !in throws
        {
          called := called + [listeners[i]];
          if listeners[i] in throws {
            thrower := Some(listeners[i]);
          }
          i := i + 1;
        }
        if thrower == None {
          FirstThrowingAt(listeners, throws, i);
          assert listeners[..i] == listeners;
        } else {
          FirstThrowingAt(listeners, throws, i - 1);
        }
      } else {
        FirstThrowingAt([], throws, 0);
      }
    }
  }

  /** The position of the first listener in `ls` that throws, or `|ls|` when none does. */
  function FirstThrowing(ls: seq<EventListener>, throws: set<EventListener>): (k: nat)
    ensures k <= |ls|
  {
    if ls == [] then 0
    else if ls[0] in throws then 0
    else 1 + FirstThrowing(ls[1..], throws)
  }

  /** `FirstThrowing` is the position before which no listener throws and at which one does,
      if it lies inside the sequence. */
  lemma {:induction false} FirstThrowingAt(ls: seq<EventListener>, throws: set<EventListener>, k: nat)
    requires k <= |ls| && forall j :: 0 <= j < k ==> ls[j] !in throws
    requires k < |ls| ==> ls[k] in throws
    ensures FirstThrowing(ls, throws) == k
  {
    if ls != [] && k > 0 {
      assert ls[0] !in throws;
      FirstThrowingAt(ls[1..], throws, k - 1);
    }
  }

  /** Every listener before the first thrower completes, and the first thrower throws. */
  lemma {:induction false} FirstThrowingIsFirst(ls: seq<EventListener>, throws: set<EventListener>)
    ensures forall j :: 0 <= j < FirstThrowing(ls, throws) ==> ls[j] !in throws
    ensures FirstThrowing(ls, throws) < |ls| ==> ls[FirstThrowing(ls, throws)] in throws
    ensures FirstThrowing(ls, throws) == |ls| <==> forall j :: 0 <= j < |ls| ==> ls[j] !in throws
  {
    if ls != [] && ls[0] !in throws {
      FirstThrowingIsFirst(ls[1..], throws);
      forall j | 0 <= j < FirstThrowing(ls, throws)
        ensures ls[j] !in throws
      {
        if j > 0 { assert ls[j] == ls[1..][j - 1]; }
      }
    }
  }

  /** Removing keeps a set free of repeats and keeps the others' classes. */
  lemma {:induction false} RemovedKeeps(s: seq<EventListener>, l: EventListener)
    ensures Distinct(s) ==> Distinct(Removed(s, l))
  {
    if s != [] {
      RemovedKeeps(s[1..], l);
      if Distinct(s) {
        assert Distinct(s[1..]);
        if s[0] != l {
          assert s[0] !in s[1..];
          assert s[0] !in Removed(s[1..], l);
        }
      }
    }
  }

  /** Removing a listener the set does not hold changes nothing. */
  lemma {:induction false} RemovedAbsent(s: seq<EventListener>, l: EventListener)
    requires l !in s
    ensures Removed(s, l) == s
  {
    if s != [] {
      RemovedAbsent(s[1..], l);
      assert [s[0]] + s[1..] == s;
    }
  }

  /** Removing the listener at position i of a set without repeats cuts out exactly that
      position; the others keep their order. */
  lemma {:induction false} RemovedAt(s: seq<EventListener>, l: EventListener, i: nat)
    requires Distinct(s) && i < |s| && s[i] == l
    ensures Removed(s, l) == s[..i] + s[i + 1..]
  {
    var t := s[1..];
    DistinctTail(s);
    if i == 0 {
      RemovedAbsent(t, l);
    } else {
      assert s[0] != s[i];
      assert Removed(s, l) == [s[0]] + Removed(t, l);
      RemovedAt(t, l, i - 1);
      assert t[..i - 1] == s[1..i] && t[i..] == s[i + 1..];
      assert [s[0]] + s[1..i] == s[..i];
      assert [s[0]] + (s[1..i] + s[i + 1..]) == ([s[0]] + s[1..i]) + s[i + 1..];
    }
  }

  /** The tail of a set without repeats has none, and does not hold the head. */
  lemma DistinctTail(s: seq<EventListener>)
    requires Distinct(s) && s != []
    ensures Distinct(s[1..]) && s[0] !in s[1..]
  {
    forall j | 0 <= j < |s| - 1
      ensures s[1..][j] != s[0]
    {
      assert s[1..][j] == s[j + 1];
    }
  }

  /** `remove` on a `LinkedHashSet`: absent, the set is unchanged; present, exactly its position
      is cut out and the other listeners keep their registration order. */
  lemma RemovedOrder(s: seq<EventListener>, l: EventListener)
    ensures l !in s ==> Removed(s, l) == s
    ensures Distinct(s) && l in s ==> exists i :: 0 <= i < |s| && s[i] == l && Removed(s, l) == s[..i] + s[i + 1..]
  {
    if l !in s {
      RemovedAbsent(s, l);
    } else if Distinct(s) {
      var i :| 0 <= i < |s| && s[i] == l;
      RemovedAt(s, l, i);
    }
  }

  /** Registering the same listener twice keeps one copy. */
  lemma InsertedIdempotent(s: seq<EventListener>, l: EventListener)
    ensures Inserted(Inserted(s, l), l) == Inserted(s, l)
  {
  }

  /** Taking out a listener that was added last gives the set back. */
  lemma {:induction false} RemoveUndoesInsert(s: seq<EventListener>, l: EventListener)
    requires l !in s
    ensures Removed(Inserted(s, l), l) == s
  {
    if s != [] {
      assert (s + [l])[1..] == s[1..] + [l];
      RemoveUndoesInsert(s[1..], l);
      assert [s[0]] + s[1..] == s;
    } else {
      assert Removed([l], l) == Removed([], l);
    }
  }
}
