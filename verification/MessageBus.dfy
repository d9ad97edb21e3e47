/**
 The message bus used by one thread at a time: a shared table of event buses, where getBus
 creates the missing ones and every operation acts on the bus obtained.
 */
module MessageBuses {
  import opened BusSpec

  /** What the message bus relies on of an event bus: a name and a set of subscribers. */
  class EventBus {
    const identifier: string
    var subscribers: set<Subscriber>

    constructor (identifier: string)
      ensures this.identifier == identifier && subscribers == {}
    {
      this.identifier := identifier;
      subscribers := {};
    }
  }

  class MessageBus {
    var hashMap: map<string, EventBus>

    /** Every bus stands in the table under its own name; so no bus stands under two. */
    ghost predicate Valid()
      reads this
    {
      forall id :: id in hashMap ==> hashMap[id].identifier == id
    }

    ghost function Contents(): (v: View)
      reads this, hashMap.Values
    {
      map id | id in hashMap :: hashMap[id].subscribers
    }

    constructor ()
      ensures Valid() && hashMap == map[] && Contents() == map[]
    {
      hashMap := map[];
    }

    method GetBus(identifier: string) returns (bus: EventBus)
      requires Valid()
      modifies this
      ensures Valid()
      ensures identifier in hashMap && hashMap[identifier] == bus
      ensures identifier in old(hashMap) ==> hashMap == old(hashMap)
      ensures identifier !in old(hashMap) ==>
                fresh(bus) && bus.subscribers == {} && hashMap == old(hashMap)[identifier := bus]
    {
      if identifier in hashMap {
        bus := hashMap[identifier];
      } else {
        bus := new EventBus(identifier);
        hashMap := hashMap[identifier := bus];
      }
    }

    method Register(identifier: string, obj: Subscriber)
      requires Valid()
      modifies this, hashMap.Values
      ensures Valid() && fresh(hashMap.Values - old(hashMap.Values))
      ensures Contents() == Serve(old(Contents()), Request(identifier, BusSpec.Register(obj)))
      ensures forall id :: id in old(hashMap) ==> id in hashMap && hashMap[id] == old(hashMap[id])
      ensures hashMap.Keys == old(hashMap.Keys) + {identifier}
    {
      var bus := GetBus(identifier);
      bus.subscribers := bus.subscribers + {obj};
    }

    /** The event bus reports an object that is not registered (known is false then). */
    method Unregister(identifier: string, obj: Subscriber) returns (known: bool)
      requires Valid()
      modifies this, hashMap.Values
      ensures Valid() && fresh(hashMap.Values - old(hashMap.Values))
      ensures known <==> obj in SubsOf(old(Contents()), identifier)
      ensures Contents() == Serve(old(Contents()), Request(identifier, BusSpec.Unregister(obj)))
      ensures forall id :: id in old(hashMap) ==> id in hashMap && hashMap[id] == old(hashMap[id])
      ensures hashMap.Keys == old(hashMap.Keys) + {identifier}
    {
      var bus := GetBus(identifier);
      known := obj in bus.subscribers;
      if known {
        bus.subscribers := bus.subscribers - {obj};
      }
      assert bus.subscribers == SubsOf(old(Contents()), identifier) - {obj};
    }

    /** Hands the message to every subscriber of the identifier. */
    method Post(identifier: string, msg: Message) returns (receivers: set<Subscriber>)
      requires Valid()
      modifies this
      ensures Valid() && fresh(hashMap.Values - old(hashMap.Values))
      ensures receivers == SubsOf(old(Contents()), identifier)
      ensures Contents() == Serve(old(Contents()), Request(identifier, BusSpec.Post(msg)))
      ensures forall id :: id in old(hashMap) ==> id in hashMap && hashMap[id] == old(hashMap[id])
      ensures hashMap.Keys == old(hashMap.Keys) + {identifier}
    {
      var bus := GetBus(identifier);
      receivers := bus.subscribers;
    }

    method RegisterDefault(obj: Subscriber)
      requires Valid()
      modifies this, hashMap.Values
      ensures Valid() && fresh(hashMap.Values - old(hashMap.Values))
      ensures Contents() == Serve(old(Contents()), Request("msg", BusSpec.Register(obj)))
      ensures forall id :: id in old(hashMap) ==> id in hashMap && hashMap[id] == old(hashMap[id])
      ensures hashMap.Keys == old(hashMap.Keys) + {"msg"}
    {
      Register("msg", obj);
    }

    method UnregisterDefault(obj: Subscriber) returns (known: bool)
      requires Valid()
      modifies this, hashMap.Values
      ensures Valid() && fresh(hashMap.Values - old(hashMap.Values))
      ensures known <==> obj in SubsOf(old(Contents()), "msg")
      ensures Contents() == Serve(old(Contents()), Request("msg", BusSpec.Unregister(obj)))
      ensures forall id :: id in old(hashMap) ==> id in hashMap && hashMap[id] == old(hashMap[id])
      ensures hashMap.Keys == old(hashMap.Keys) + {"msg"}
    {
      known := Unregister("msg", obj);
    }

    method PostDefault(msg: Message) returns (receivers: set<Subscriber>)
      requires Valid()
      modifies this
      ensures Valid() && fresh(hashMap.Values - old(hashMap.Values))
      ensures receivers == SubsOf(old(Contents()), "msg")
      ensures Contents() == Serve(old(Contents()), Request("msg", BusSpec.Post(msg)))
      ensures forall id :: id in old(hashMap) ==> id in hashMap && hashMap[id] == old(hashMap[id])
      ensures hashMap.Keys == old(hashMap.Keys) + {"msg"}
    {
      receivers := Post("msg", msg);
    }
  }

  /** One call of a client. */
  method ServeRequest(bus: MessageBus, r: Request) returns (receivers: set<Subscriber>)
    requires bus.Valid()
    modifies bus, bus.hashMap.Values
    ensures bus.Valid() && fresh(bus.hashMap.Values - old(bus.hashMap.Values))
    ensures bus.Contents() == Serve(old(bus.Contents()), r)
    ensures forall id :: id in old(bus.hashMap) ==> id in bus.hashMap && bus.hashMap[id] == old(bus.hashMap[id])
    ensures r.action.Post? ==> receivers == SubsOf(old(bus.Contents()), r.identifier)
  {
    receivers := {};
    match r.action {
      case Register(x) => bus.Register(r.identifier, x);
      case Unregister(x) => var known := bus.Unregister(r.identifier, x);
      case Post(msg) => receivers := bus.Post(r.identifier, msg);
    }
  }

  /** Any client that makes its calls one after the other: the bus ends as the abstract map does,
      every message reaches whom it reaches there, and no identifier changes its bus. */
  method ServeRequests(bus: MessageBus, rs: seq<Request>) returns (delivered: seq<(Message, set<Subscriber>)>)
    requires bus.Valid()
    modifies bus, bus.hashMap.Values
    ensures bus.Valid() && fresh(bus.hashMap.Values - old(bus.hashMap.Values))
    ensures bus.Contents() == ServeAll(old(bus.Contents()), rs)
    ensures delivered == Deliveries(old(bus.Contents()), rs)
    ensures forall id :: id in old(bus.hashMap) ==> id in bus.hashMap && bus.hashMap[id] == old(bus.hashMap[id])
  {
    delivered := [];
    for i := 0 to |rs|
      invariant bus.Valid() && fresh(bus.hashMap.Values - old(bus.hashMap.Values))
      invariant bus.Contents() == ServeAll(old(bus.Contents()), rs[..i])
      invariant delivered == Deliveries(old(bus.Contents()), rs[..i])
      invariant forall id :: id in old(bus.hashMap) ==> id in bus.hashMap && bus.hashMap[id] == old(bus.hashMap[id])
    {
      assert rs[..i + 1][..i] == rs[..i];
      var receivers := ServeRequest(bus, rs[i]);
      if rs[i].action.Post? {
        delivered := delivered + [(rs[i].action.message, receivers)];
      }
    }
    assert rs[..|rs|] == rs;
  }

  /** A bus once obtained stays the bus of its identifier, whatever is asked of it or of others in
      between: a caller may keep it, and sees on it what is registered through the table. */
  method KeepBus(bus: MessageBus, id: string, rs: seq<Request>) returns (first: EventBus, again: EventBus)
    requires bus.Valid()
    modifies bus, bus.hashMap.Values
    ensures bus.Valid() && first == again
    ensures bus.Contents() == ServeAll(old(bus.Contents())[id := SubsOf(old(bus.Contents()), id)], rs)
    ensures first.subscribers == SubsOf(bus.Contents(), id)
  {
    first := bus.GetBus(id);
    assert bus.Contents() == old(bus.Contents())[id := SubsOf(old(bus.Contents()), id)];
    var delivered := ServeRequests(bus, rs);
    ghost var after := bus.Contents();
    again := bus.GetBus(id);
    assert bus.Contents() == after;
  }
}
