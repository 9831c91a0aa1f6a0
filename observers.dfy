/**
  The observer registry of the application: an `Observable` holding a
  duplicate-free list of observers, and an `EventEmitter` mapping event types
  to lists of handlers. Observers and handlers are opaque identities; calling
  one is recorded as a value in the trace that `NotifyObservers` and `Emit`
  return.
*/
module Observers {

  /** No element occurs twice. */
  predicate NoDuplicates<T(==)>(s: seq<T>) {
    forall i, j :: 0 <= i < j < |s| ==> s[i] != s[j]
  }

  /** Position of the first occurrence of `x`, as Python's `list.index`. */
  function IndexOf<T(==)>(s: seq<T>, x: T): (i: nat)
    requires x in s
    ensures i < |s| && s[i] == x
    ensures x !in s[..i]
  {
    if s[0] == x then 0 else 1 + IndexOf(s[1..], x)
  }

  /** Python's `list.remove` when the element is present: drop its first occurrence. */
  function RemoveFirst<T(==)>(s: seq<T>, x: T): (r: seq<T>)
    ensures x !in s ==> r == s
    ensures x in s ==> |r| == |s| - 1 && multiset(r) == multiset(s) - multiset{x}
    ensures x in s ==> forall j :: 0 <= j < |r| ==> r[j] == (if j < IndexOf(s, x) then s[j] else s[j + 1])
  {
    if x in s then
      var i := IndexOf(s, x);
      assert s == s[..i] + [x] + s[i + 1..];
      s[..i] + s[i + 1..]
    else s
  }

  /** Removing from a duplicate-free list leaves it duplicate-free and without `x`. */
  lemma {:induction false} RemoveFirstKeepsNoDuplicates<T>(s: seq<T>, x: T)
    requires NoDuplicates(s)
    ensures NoDuplicates(RemoveFirst(s, x))
    ensures x !in RemoveFirst(s, x)
  {
    var r := RemoveFirst(s, x);
    if x in s {
      var i := IndexOf(s, x);
      assert r == s[..i] + s[i + 1..];
      forall a, b | 0 <= a < b < |r| ensures r[a] != r[b] {
        var a' := if a < i then a else a + 1;
        var b' := if b < i then b else b + 1;
        assert r[a] == s[a'] && r[b] == s[b'];
      }
      forall j | 0 <= j < |r| ensures r[j] != x {
        var j' := if j < i then j else j + 1;
        assert r[j] == s[j'] && j' != i;
      }
    }
  }

  /** One call `observer.update(eventType, data)`. */
  datatype Notification<O, D> = Notification(observer: O, eventType: string, data: D)

  /** The calls that notifying `observers` makes, in list order. */
  function Broadcast<O, D>(observers: seq<O>, eventType: string, data: D): (r: seq<Notification<O, D>>)
    ensures |r| == |observers|
    ensures forall i :: 0 <= i < |r| ==> r[i] == Notification(observers[i], eventType, data)
  {
    if observers == [] then []
    else [Notification(observers[0], eventType, data)] + Broadcast(observers[1..], eventType, data)
  }

  class Observable<O(==), D> {
    var observers: seq<O>

    ghost predicate Valid()
      reads this
    {
      NoDuplicates(observers)
    }

    constructor ()
      ensures Valid() && observers == []
    {
      observers := [];
    }

    /** Appends `o` unless it is already registered. */
    method AddObserver(o: O)
      requires Valid()
      modifies this
      ensures Valid()
      ensures o in old(observers) ==> observers == old(observers)
      ensures o !in old(observers) ==> observers == old(observers) + [o]
    {
      if o !in observers {
        observers := observers + [o];
      }
    }

    /** Removes `o` if it is registered; the others keep their order. */
    method RemoveObserver(o: O)
      requires Valid()
      modifies this
      ensures Valid()
      ensures o !in observers
      ensures observers == RemoveFirst(old(observers), o)
    {
      RemoveFirstKeepsNoDuplicates(observers, o);
      if o in observers {
        observers := RemoveFirst(observers, o);
      }
    }

    /** Calls every registered observer once, in registration order. */
    method NotifyObservers(eventType: string, data: D) returns (calls: seq<Notification<O, D>>)
      ensures calls == Broadcast(observers, eventType, data)
    {
      calls := [];
      var i := 0;
      while i < |observers|
        invariant 0 <= i <= |observers|
        invariant |calls| == i
        invariant forall k :: 0 <= k < i ==> calls[k] == Notification(observers[k], eventType, data)
      {
        calls := calls + [Notification(observers[i], eventType, data)];
        i := i + 1;
      }
    }
  }

  /** One call `handler(*args)`. */
  datatype HandlerCall<H, A> = HandlerCall(handler: H, args: A)

  class EventEmitter<H(==)> {
    var handlers: map<string, seq<H>>

    /** No event type is kept with an empty handler list. */
    ghost predicate Valid()
      reads this
    {
      forall t :: t in handlers ==> handlers[t] != []
    }

    constructor ()
      ensures Valid() && handlers == map[]
    {
      handlers := map[];
    }

    /** Appends `h` to the list of `eventType`, creating the list if needed; duplicates are kept. */
    method On(eventType: string, h: H)
      requires Valid()
      modifies this
      ensures Valid()
      ensures eventType !in old(handlers) ==> handlers == old(handlers)[eventType := [h]]
      ensures eventType in old(handlers) ==>
                handlers == old(handlers)[eventType := old(handlers)[eventType] + [h]]
    {
      if eventType !in handlers {
        handlers := handlers[eventType := [h]];
      } else {
        handlers := handlers[eventType := handlers[eventType] + [h]];
      }
    }

    /**
      Removes the first occurrence of `h` from the list of `eventType` and drops
      the key once its list is empty. `raised` models the `ValueError` of
      `list.remove` for a known event type that lacks `h`; then nothing changes.
    */
    method Off(eventType: string, h: H) returns (raised: bool)
      requires Valid()
      modifies this
      ensures Valid()
      ensures raised <==> eventType in old(handlers) && h !in old(handlers)[eventType]
      ensures eventType !in old(handlers) || raised ==> handlers == old(handlers)
      ensures eventType in old(handlers) && !raised ==>
                var rest := RemoveFirst(old(handlers)[eventType], h);
                handlers == if rest == [] then old(handlers) - {eventType}
                            else old(handlers)[eventType := rest]
    {
      raised := false;
      if eventType in handlers {
        if h !in handlers[eventType] {
          raised := true;
          return;
        }
        handlers := handlers[eventType := RemoveFirst(handlers[eventType], h)];
        if handlers[eventType] == [] {
          handlers := handlers - {eventType};
        }
      }
    }

    /** Calls the handlers of `eventType` in registration order; none for an unknown type. */
    method Emit<A>(eventType: string, args: A) returns (calls: seq<HandlerCall<H, A>>)
      ensures eventType !in handlers ==> calls == []
      ensures eventType in handlers ==>
                |calls| == |handlers[eventType]| &&
                forall i :: 0 <= i < |calls| ==> calls[i] == HandlerCall(handlers[eventType][i], args)
    {
      calls := [];
      if eventType in handlers {
        var list := handlers[eventType];
        for i := 0 to |list|
          invariant |calls| == i
          invariant forall k :: 0 <= k < i ==> calls[k] == HandlerCall(list[k], args)
        {
          calls := calls + [HandlerCall(list[i], args)];
        }
      }
    }
  }
}
