/** The event bus: the process-wide `EventManager` table from an event type
    to the ordered list of handlers registered for it, the handler-id
    counter, and the `EventListener` subscribe/unsubscribe pairing. A
    handler's callback is abstract here: a handler is its id, and `send`
    returns the ids it invokes, in order. */
module Events {
  import opened Errors
  import opened Utils

  datatype BackendEvent =
    | ReceiveMessage(from: Bytes, message: Bytes)
    | SetPeerName(name: Bytes)
    | PeerConnected
    | PeerDisconnected

  datatype FrontendEvent = SendMessage(message: Bytes) | Terminate

  /** An event of either compound type, as handed to `send`. */
  datatype Event = Backend(backend: BackendEvent) | Frontend(frontend: FrontendEvent)

  /** The `typeid` of a compound event type: the key of the handler table. */
  datatype EventType = BackendEventType | FrontendEventType

  function TypeOf(e: Event): (t: EventType)
    ensures e.Backend? <==> t == BackendEventType
  {
    match e
    case Backend(_) => BackendEventType
    case Frontend(_) => FrontendEventType
  }

  /** `EventHandler::HandlerID`; the 64-bit width is not modelled. */
  type HandlerId = nat

  /** An `EventHandler`: its id and the event type it was created for. */
  datatype EventHandler = EventHandler(id: HandlerId, eventType: EventType)

  /** `m_handlers`: one entry per registered type, each with its handler
      ids in registration order. */
  type Table = seq<(EventType, seq<HandlerId>)>

  /** Where `find_if` stops looking for type `t`: the first entry of that
      type, or `|tbl|` (the end iterator) when there is none. */
  function IndexOf(tbl: Table, t: EventType): (r: nat)
    ensures r <= |tbl|
    ensures r < |tbl| ==> tbl[r].0 == t
    ensures forall j :: 0 <= j < r ==> tbl[j].0 != t
  {
    if |tbl| == 0 then 0
    else if tbl[0].0 == t then 0
    else 1 + IndexOf(tbl[1..], t)
  }

  /** The handlers `send` reaches for type `t`: the list of its entry, or
      none when the type has no entry. */
  function HandlersFor(tbl: Table, t: EventType): (r: seq<HandlerId>)
    ensures (forall i :: 0 <= i < |tbl| ==> tbl[i].0 != t) ==> r == []
    ensures r != [] ==> exists i :: 0 <= i < |tbl| && tbl[i] == (t, r)
  {
    var i := IndexOf(tbl, t);
    if i < |tbl| then tbl[i].1 else []
  }

  /** The table after `add_listener` of handler `id` for type `t`: appended
      to the entry of `t` when there is one, otherwise a new entry at the
      end holding only `id`. */
  function Added(tbl: Table, t: EventType, id: HandlerId): (r: Table)
    ensures |tbl| <= |r| <= |tbl| + 1
    ensures forall i :: 0 <= i < |tbl| ==> r[i].0 == tbl[i].0
    ensures |r| == |tbl| + 1 ==> r[|tbl|] == (t, [id])
  {
    var i := IndexOf(tbl, t);
    if i < |tbl| then tbl[i := (t, tbl[i].1 + [id])] else tbl + [(t, [id])]
  }

  /** `ids` with every occurrence of `id` removed, the rest in order (what
      `remove_if` followed by `erase` leaves). */
  function Without(ids: seq<HandlerId>, id: HandlerId): (r: seq<HandlerId>)
    ensures |r| <= |ids|
    ensures id !in r
  {
    if |ids| == 0 then []
    else Without(ids[..|ids| - 1], id) + (if ids[|ids| - 1] == id then [] else [ids[|ids| - 1]])
  }

  /** The table after `remove_listener(t, id)`; the entry for `t` must
      exist, since the source dereferences the iterator unchecked. */
  function Removed(tbl: Table, t: EventType, id: HandlerId): (r: Table)
    requires IndexOf(tbl, t) < |tbl|
    ensures |r| == |tbl|
    ensures forall i :: 0 <= i < |tbl| ==> r[i].0 == tbl[i].0 && |r[i].1| <= |tbl[i].1|
    ensures id !in HandlersFor(r, t)
  {
    var i := IndexOf(tbl, t);
    tbl[i := (t, Without(tbl[i].1, id))]
  }

  /** At most one entry per event type. */
  predicate UniqueTypes(tbl: Table)
  {
    forall i, j :: 0 <= i < |tbl| && 0 <= j < |tbl| && tbl[i].0 == tbl[j].0 ==> i == j
  }

  /** Every registered id was handed out before the counter reached `n`. */
  predicate IdsBelow(tbl: Table, n: HandlerId)
  {
    forall i, x :: 0 <= i < |tbl| && x in tbl[i].1 ==> x < n
  }

  /** `IndexOf` is the only position with its two defining properties. */
  lemma IndexOfUnique(tbl: Table, t: EventType, i: nat)
    requires i <= |tbl|
    requires i < |tbl| ==> tbl[i].0 == t
    requires forall j :: 0 <= j < i ==> tbl[j].0 != t
    ensures IndexOf(tbl, t) == i
  {
  }

  /** `add_listener` adds `id` at the end of the list of `t` and leaves the
      list of every other type as it was. */
  lemma AddedHandlersFor(tbl: Table, t: EventType, id: HandlerId, u: EventType)
    ensures HandlersFor(Added(tbl, t, id), u) ==
      (if u == t then HandlersFor(tbl, t) + [id] else HandlersFor(tbl, u))
  {
    var i := IndexOf(tbl, t);
    var a := Added(tbl, t, id);
    var j := IndexOf(tbl, u);
    if i < |tbl| {
      IndexOfUnique(a, u, j);
    } else if u == t {
      IndexOfUnique(a, u, |tbl|);
    } else if j < |tbl| {
      IndexOfUnique(a, u, j);
    } else {
      IndexOfUnique(a, u, |a|);
    }
  }

  /** Adding a listener keeps one entry per type and changes the table's
      length only when the type was new. */
  lemma AddedShape(tbl: Table, t: EventType, id: HandlerId)
    requires UniqueTypes(tbl)
    ensures UniqueTypes(Added(tbl, t, id))
    ensures |Added(tbl, t, id)| == |tbl| + (if IndexOf(tbl, t) < |tbl| then 0 else 1)
  {
  }

  /** Removal of `id` leaves the other ids of the list in order. */
  lemma {:induction false} WithoutAppend(a: seq<HandlerId>, b: seq<HandlerId>, id: HandlerId)
    ensures Without(a + b, id) == Without(a, id) + Without(b, id)
  {
    if |b| == 0 {
      assert a + b == a;
    } else {
      var b' := b[..|b| - 1];
      assert (a + b)[..|a + b| - 1] == a + b';
      WithoutAppend(a, b', id);
    }
  }

  /** An id survives removal exactly when it is present and differs from
      the removed one. */
  lemma {:induction false} WithoutMembers(ids: seq<HandlerId>, id: HandlerId, x: HandlerId)
    ensures x in Without(ids, id) <==> x in ids && x != id
  {
    if |ids| > 0 {
      WithoutMembers(ids[..|ids| - 1], id, x);
      assert ids == ids[..|ids| - 1] + [ids[|ids| - 1]];
    }
  }

  /** Removing an id that is not in the list leaves it unchanged. */
  lemma {:induction false} WithoutAbsent(ids: seq<HandlerId>, id: HandlerId)
    requires id !in ids
    ensures Without(ids, id) == ids
  {
    if |ids| > 0 {
      var p := ids[..|ids| - 1];
      assert ids == p + [ids[|ids| - 1]];
      assert id !in p;
      WithoutAbsent(p, id);
    }
  }

  /** `remove_listener` filters the list of `t` and leaves every other
      type's list, and the set of entries, as they were. */
  lemma RemovedHandlersFor(tbl: Table, t: EventType, id: HandlerId, u: EventType)
    requires IndexOf(tbl, t) < |tbl|
    ensures |Removed(tbl, t, id)| == |tbl|
    ensures forall k :: 0 <= k < |tbl| ==> Removed(tbl, t, id)[k].0 == tbl[k].0
    ensures HandlersFor(Removed(tbl, t, id), u) ==
      (if u == t then Without(HandlersFor(tbl, t), id) else HandlersFor(tbl, u))
  {
    var r := Removed(tbl, t, id);
    IndexOfUnique(r, u, IndexOf(tbl, u));
  }

  /** Removing `id` from a list that was `l` with `id` appended gives `l`
      back when `id` was not in `l`. */
  lemma WithoutAppended(l: seq<HandlerId>, id: HandlerId)
    requires id !in l
    ensures Without(l + [id], id) == l
  {
    WithoutAppend(l, [id], id);
    WithoutAbsent(l, id);
    assert Without([id], id) == Without([], id);
    assert Without(l, id) + [] == l;
  }

  /** Adding a fresh id for `t` and removing it leaves `tbl`, or `tbl` with
      an empty entry for `t` at the end when the addition created it. */
  lemma ListenerRoundTripTable(tbl: Table, t: EventType, id: HandlerId)
    requires id !in HandlersFor(tbl, t)
    ensures IndexOf(Added(tbl, t, id), t) < |Added(tbl, t, id)|
    ensures Removed(Added(tbl, t, id), t, id) ==
      (if IndexOf(tbl, t) < |tbl| then tbl else tbl + [(t, [])])
  {
    if IndexOf(tbl, t) < |tbl| {
      RoundTripExistingEntry(tbl, t, id);
    } else {
      RoundTripNewEntry(tbl, t, id);
    }
  }

  lemma RoundTripExistingEntry(tbl: Table, t: EventType, id: HandlerId)
    requires IndexOf(tbl, t) < |tbl| && id !in HandlersFor(tbl, t)
    ensures IndexOf(Added(tbl, t, id), t) < |Added(tbl, t, id)|
    ensures Removed(Added(tbl, t, id), t, id) == tbl
  {
    var i := IndexOf(tbl, t);
    var l := tbl[i].1;
    var a := tbl[i := (t, l + [id])];
    assert Added(tbl, t, id) == a;
    IndexOfUnique(a, t, i);
    WithoutAppended(l, id);
    assert Removed(a, t, id) == a[i := (t, l)];
    assert a[i := (t, l)] == tbl;
  }

  lemma RoundTripNewEntry(tbl: Table, t: EventType, id: HandlerId)
    requires IndexOf(tbl, t) == |tbl|
    ensures IndexOf(Added(tbl, t, id), t) < |Added(tbl, t, id)|
    ensures Removed(Added(tbl, t, id), t, id) == tbl + [(t, [])]
  {
    var i := |tbl|;
    var a := tbl + [(t, [id])];
    assert Added(tbl, t, id) == a;
    IndexOfUnique(a, t, i);
    WithoutAppended([], id);
    assert Removed(a, t, id) == a[i := (t, [])];
    assert a[i := (t, [])] == tbl + [(t, [])];
  }

  /** Subscribing a fresh id and unsubscribing it again gives every type its
      old list back; the table itself is restored except that an entry the
      subscription created stays behind with an empty list. */
  lemma ListenerRoundTrip(tbl: Table, t: EventType, id: HandlerId)
    requires id !in HandlersFor(tbl, t)
    ensures IndexOf(Added(tbl, t, id), t) < |Added(tbl, t, id)|
    ensures Removed(Added(tbl, t, id), t, id) ==
      (if IndexOf(tbl, t) < |tbl| then tbl else tbl + [(t, [])])
    ensures forall u :: HandlersFor(Removed(Added(tbl, t, id), t, id), u) == HandlersFor(tbl, u)
  {
    ListenerRoundTripTable(tbl, t, id);
    var a := Added(tbl, t, id);
    forall u
      ensures HandlersFor(Removed(a, t, id), u) == HandlersFor(tbl, u)
    {
      RemovedHandlersFor(a, t, id, u);
      AddedHandlersFor(tbl, t, id, u);
      WithoutAppended(HandlersFor(tbl, t), id);
    }
  }

  /** An id at or above the counter is not registered for any type, so the
      id a new handler gets is never in the table. */
  lemma CounterIsFresh(tbl: Table, n: HandlerId, t: EventType)
    requires IdsBelow(tbl, n)
    ensures n !in HandlersFor(tbl, t)
  {
  }

  /** `EventManager` together with `EventHandler::id_counter`: the two
      pieces of static state of the bus. */
  class EventManager {
    var handlers: Table
    var idCounter: HandlerId

    /** One entry per type, and every registered id below the counter. */
    predicate Valid()
      reads this
    {
      UniqueTypes(handlers) && IdsBelow(handlers, idCounter)
    }

    /** The bus at program start: no handlers, counter at 0. */
    constructor ()
      ensures handlers == [] && idCounter == 0
      ensures Valid()
    {
      handlers := [];
      idCounter := 0;
    }

    /** The `find_if` over `m_handlers` shared by all three operations. */
    method FindEntry(t: EventType) returns (i: nat)
      ensures i == IndexOf(handlers, t)
    {
      i := 0;
      while i < |handlers| && handlers[i].0 != t
        invariant i <= |handlers|
        invariant forall j :: 0 <= j < i ==> handlers[j].0 != t
      {
        i := i + 1;
      }
      IndexOfUnique(handlers, t, i);
    }

    /** The `EventHandler` constructor: the handler takes the current
      counter value as its id, and the counter goes up by one. */
    method NewHandler(t: EventType) returns (h: EventHandler)
      requires Valid()
      modifies this
      ensures h == EventHandler(old(idCounter), t)
      ensures idCounter == old(idCounter) + 1 && handlers == old(handlers)
      ensures Valid()
    {
      h := EventHandler(idCounter, t);
      idCounter := idCounter + 1;
    }

    /** `add_listener`. */
    method AddListener(h: EventHandler)
      requires Valid() && h.id < idCounter
      modifies this
      ensures handlers == Added(old(handlers), h.eventType, h.id)
      ensures idCounter == old(idCounter)
      ensures Valid()
    {
      var t := h.eventType;
      var i := FindEntry(t);
      if i < |handlers| {
        handlers := handlers[i := (t, handlers[i].1 + [h.id])];
      } else {
        handlers := handlers + [(t, [h.id])];
      }
      AddedShape(old(handlers), t, h.id);
    }

    /** `remove_listener`: `remove_if` then `erase` over the list of `t`. */
    method RemoveListener(t: EventType, id: HandlerId)
      requires Valid() && IndexOf(handlers, t) < |handlers|
      modifies this
      ensures handlers == Removed(old(handlers), t, id)
      ensures idCounter == old(idCounter)
      ensures Valid()
    {
      var i := FindEntry(t);
      var ids := handlers[i].1;
      var kept: seq<HandlerId> := [];
      for k := 0 to |ids|
        invariant kept == Without(ids[..k], id)
      {
        assert ids[..k + 1][..k] == ids[..k];
        if ids[k] != id {
          kept := kept + [ids[k]];
        }
      }
      assert ids[..|ids|] == ids;
      WithoutMembers(ids, id, id);
      forall x | x in kept
        ensures x in ids
      {
        WithoutMembers(ids, id, x);
      }
      handlers := handlers[i := (t, kept)];
    }

    /** `send`: the handler ids invoked, in the order they are called. */
    method Send(e: Event) returns (invoked: seq<HandlerId>)
      ensures invoked == HandlersFor(handlers, TypeOf(e))
    {
      invoked := [];
      var i := FindEntry(TypeOf(e));
      if i < |handlers| {
        var ids := handlers[i].1;
        for k := 0 to |ids|
          invariant invoked == ids[..k]
        {
          assert ids[..k + 1] == ids[..k] + [ids[k]];
          invoked := invoked + [ids[k]];
        }
      }
    }

    /** The `EventListener` constructor: create a handler for `t` and
      register it. */
    method Subscribe(t: EventType) returns (id: HandlerId)
      requires Valid()
      modifies this
      ensures id == old(idCounter) && idCounter == old(idCounter) + 1
      ensures id !in HandlersFor(old(handlers), t)
      ensures handlers == Added(old(handlers), t, id)
      ensures Valid()
    {
      CounterIsFresh(handlers, idCounter, t);
      var h := NewHandler(t);
      AddListener(h);
      id := h.id;
    }

    /** The `EventListener` destructor: remove the handler it registered. */
    method Unsubscribe(t: EventType, id: HandlerId)
      requires Valid() && IndexOf(handlers, t) < |handlers|
      modifies this
      ensures handlers == Removed(old(handlers), t, id)
      ensures idCounter == old(idCounter)
      ensures Valid()
    {
      RemoveListener(t, id);
    }
  }
}
