/** Which subscribers a posted message reaches when calls interleave. */
module BusDelivery {
  import opened BusSpec
  import opened BusProtocol
  import opened BusLaws

  /** The subscribers that a posting step reaches. */
  function Receivers(s: State, e: Event): set<Subscriber>
    requires Enabled(s, e)
  {
    if e.Act? && s.pc[e.t].action.Post? then s.buses[s.pc[e.t].bus].subscribers else {}
  }

  /** The action is on a bus that has the subscriber: a post reaches it, and an unregistration of it
      is not one of an unknown object. */
  predicate Finds(s: State, e: Event, x: Subscriber)
    requires Enabled(s, e)
  {
    e.Act? && x in s.buses[s.pc[e.t].bus].subscribers
  }

  /** What the table shows of the buses: the subscribers under each bound identifier. */
  function ViewOf(s: State): View
    requires Naming(s)
  {
    map id | id in s.table :: s.buses[s.table[id]].subscribers
  }

  /** Message by message, the subscribers that the posts of a run reach. */
  function Delivered(es: seq<Event>): seq<(Message, set<Subscriber>)>
    requires IsRun(INITIAL, es)
  {
    if es == [] then []
    else
      var s, e := After(INITIAL, es[..|es| - 1]), es[|es| - 1];
      Delivered(es[..|es| - 1]) +
      if e.Act? && s.pc[e.t].action.Post? then [(s.pc[e.t].action.message, Receivers(s, e))] else []
  }

  /** Thread t takes no step among the events from i up to k. */
  predicate Rests(es: seq<Event>, t: Thread, i: nat, k: nat)
    requires k <= |es|
  {
    forall n :: i <= n < k ==> es[n].t != t
  }

  /** The step by which a call obtains its bus: a read that finds one, or the put after a miss. */
  predicate Obtains(s: State, e: Event, id: string, a: Action) {
    && e.t in s.pc && s.pc[e.t].id == id && s.pc[e.t].action == a
    && ((e.Read? && id in s.table) || e.Put?)
  }

  /** A call of thread t for the identifier: it obtains its bus by event i and acts on it by event j. */
  predicate CallAt(es: seq<Event>, t: Thread, id: string, a: Action, i: nat, j: nat)
    requires IsRun(INITIAL, es)
  {
    && i < j < |es|
    && es[i].t == t && Obtains(At(es, i), es[i], id, a)
    && es[j] == Act(t) && Rests(es, t, i + 1, j)
  }

  /** No put for the identifier among the events from i up to k. */
  predicate NoPut(es: seq<Event>, id: string, i: nat, k: nat)
    requires IsRun(INITIAL, es) && k <= |es|
  {
    forall n {:trigger At(es, n)} :: i <= n < k ==> !IsPutOf(At(es, n), es[n], id)
  }

  lemma PublishedStep(s: State, e: Event, id: string, b: BusId)
    requires Inv(s) && Enabled(s, e) && id in s.table && Published(s, b)
    ensures id in Next(s, e).table && Published(Next(s, e), b)
    ensures !IsPutOf(s, e, id) ==> Next(s, e).table[id] == s.table[id]
    ensures IsPutOf(s, e, id) ==> Next(s, e).table[id] != b
  {
  }

  lemma BoundIsPublished(s: State, id: string)
    requires Inv(s) && id in s.table
    ensures Published(s, s.table[id])
  {
    assert s.table[id] in s.table.Values;
  }

  lemma NoPutSnoc(es: seq<Event>, id: string, i: nat, k: nat)
    requires IsRun(INITIAL, es) && i <= k < |es|
    ensures NoPut(es, id, i, k + 1) <==> NoPut(es, id, i, k) && !IsPutOf(At(es, k), es[k], id)
  {
  }

  lemma SameBindingStep(es: seq<Event>, id: string, i: nat, k: nat, b: BusId)
    requires IsRun(INITIAL, es) && i <= k < |es| && id in At(es, k).table && Published(At(es, k), b)
    requires At(es, k).table[id] == b <==> NoPut(es, id, i, k)
    ensures id in At(es, k + 1).table && Published(At(es, k + 1), b)
    ensures At(es, k + 1).table[id] == b <==> NoPut(es, id, i, k + 1)
  {
    NoPutSnoc(es, id, i, k);
    AtStep(es, k);
    PublishedStep(At(es, k), es[k], id, b);
  }

  /** Between two moments the binding is the same exactly when nothing is put for the identifier. */
  lemma {:induction false} SameBindingIffNoPut(es: seq<Event>, id: string, i: nat, k: nat)
    requires IsRun(INITIAL, es) && i <= k <= |es| && id in At(es, i).table
    ensures id in At(es, k).table && Published(At(es, k), At(es, i).table[id])
    ensures At(es, k).table[id] == At(es, i).table[id] <==> NoPut(es, id, i, k)
  {
    if i == k {
      InvAt(es, i);
      BoundIsPublished(At(es, i), id);
    } else {
      SameBindingIffNoPut(es, id, i, k - 1);
      SameBindingStep(es, id, i, k - 1, At(es, i).table[id]);
    }
  }

  /** The identifier is bound and no thread is between a null read and the put for it. */
  predicate Settled(s: State, id: string) {
    id in s.table && Pending(s, id) == {}
  }

  lemma SettledStep(es: seq<Event>, id: string, i: nat, k: nat)
    requires IsRun(INITIAL, es) && i <= k < |es| && Settled(At(es, k), id) && NoPut(es, id, i, k)
    ensures Settled(At(es, k + 1), id) && NoPut(es, id, i, k + 1)
  {
    NoPutSnoc(es, id, i, k);
    AtStep(es, k);
    PendingStep(At(es, k), es[k], id);
  }

  lemma {:induction false} SettledNoPut(es: seq<Event>, id: string, i: nat, k: nat)
    requires IsRun(INITIAL, es) && i <= k <= |es| && Settled(At(es, i), id)
    ensures Settled(At(es, k), id) && NoPut(es, id, i, k)
  {
    if i < k {
      SettledNoPut(es, id, i, k - 1);
      SettledStep(es, id, i, k - 1);
    }
  }

  lemma {:induction false} RestsKeeps(es: seq<Event>, t: Thread, i: nat, k: nat)
    requires IsRun(INITIAL, es) && i <= k <= |es| && Rests(es, t, i, k)
    ensures t in At(es, k).pc <==> t in At(es, i).pc
    ensures t in At(es, k).pc ==> At(es, k).pc[t] == At(es, i).pc[t]
  {
    if i < k {
      RestsKeeps(es, t, i, k - 1);
      AtStep(es, k - 1);
    }
  }

  /** A call acts on the bus that the identifier is bound to right after the bus was obtained. */
  lemma CallActsOn(es: seq<Event>, t: Thread, id: string, a: Action, i: nat, j: nat)
    requires IsRun(INITIAL, es) && CallAt(es, t, id, a, i, j)
    ensures id in At(es, i + 1).table && At(es, i + 1).table[id] < |At(es, j).buses|
    ensures t in At(es, j).pc && At(es, j).pc[t] == Got(id, a, At(es, i + 1).table[id])
  {
    AtStep(es, i);
    RestsKeeps(es, t, i + 1, j);
    AtStep(es, j);
  }

  /** The bus that a call acts on. */
  function BusOf(es: seq<Event>, t: Thread, id: string, a: Action, i: nat, j: nat): (b: BusId)
    requires IsRun(INITIAL, es) && CallAt(es, t, id, a, i, j)
    ensures id in At(es, i + 1).table && b == At(es, i + 1).table[id]
  {
    CallActsOn(es, t, id, a, i, j);
    At(es, j).pc[t].bus
  }

  /** Two calls for an identifier act on the same bus exactly when nothing is put for it after
      the first has obtained its bus and until the second has, whatever else happens meanwhile. */
  lemma SameBusExact(es: seq<Event>, id: string, t: Thread, a: Action, i: nat, j: nat,
                     u: Thread, a': Action, p: nat, q: nat)
    requires IsRun(INITIAL, es) && CallAt(es, t, id, a, i, j) && CallAt(es, u, id, a', p, q) && i <= p
    ensures BusOf(es, t, id, a, i, j) == BusOf(es, u, id, a', p, q) <==> NoPut(es, id, i + 1, p + 1)
  {
    var b, b' := BusOf(es, t, id, a, i, j), BusOf(es, u, id, a', p, q);
    SameBindingIffNoPut(es, id, i + 1, p + 1);
  }

  /** The step unregisters the subscriber under the identifier. */
  predicate Unregisters(s: State, e: Event, id: string, x: Subscriber) {
    e.Act? && e.t in s.pc && s.pc[e.t].id == id && s.pc[e.t].action == Unregister(x)
  }

  /** No event from j up to k unregisters the subscriber under the identifier. */
  predicate Kept(es: seq<Event>, id: string, x: Subscriber, j: nat, k: nat)
    requires IsRun(INITIAL, es) && k <= |es|
  {
    forall n {:trigger At(es, n)} :: j <= n < k ==> !Unregisters(At(es, n), es[n], id, x)
  }

  predicate Subscribed(s: State, b: BusId, x: Subscriber) {
    b < |s.buses| && x in s.buses[b].subscribers
  }

  lemma SubscribedStep(s: State, e: Event, id: string, b: BusId, x: Subscriber)
    requires Inv(s) && Enabled(s, e) && Named(s, b, id) && Subscribed(s, b, x)
    requires !Unregisters(s, e, id, x)
    ensures Named(Next(s, e), b, id) && Subscribed(Next(s, e), b, x)
  {
  }

  lemma {:induction false} SubscriberStays(es: seq<Event>, id: string, b: BusId, x: Subscriber, j: nat, k: nat)
    requires IsRun(INITIAL, es) && j <= k <= |es|
    requires Named(At(es, j), b, id) && Subscribed(At(es, j), b, x)
    requires Kept(es, id, x, j, k)
    ensures Named(At(es, k), b, id) && Subscribed(At(es, k), b, x)
  {
    if j < k {
      SubscriberStays(es, id, b, x, j, k - 1);
      AtStep(es, k - 1);
      SubscribedStep(At(es, k - 1), es[k - 1], id, b, x);
    }
  }

  /** A completed registration is on the bus bound when the call obtained it. */
  lemma Registered(es: seq<Event>, t: Thread, id: string, x: Subscriber, i: nat, j: nat)
    requires IsRun(INITIAL, es) && CallAt(es, t, id, Register(x), i, j)
    ensures id in At(es, i + 1).table
    ensures Named(At(es, j + 1), At(es, i + 1).table[id], id) && Subscribed(At(es, j + 1), At(es, i + 1).table[id], x)
  {
    CallActsOn(es, t, id, Register(x), i, j);
    AtStep(es, j);
  }

  /** Delivery, under any interleaving: a completed registration is found by every later call under
      the identifier, so reached if that is a post, unless it is unregistered, or the identifier
      rebound, in between. */
  lemma Delivery(es: seq<Event>, id: string, t: Thread, x: Subscriber, i: nat, j: nat,
                 u: Thread, a: Action, p: nat, q: nat)
    requires IsRun(INITIAL, es)
    requires CallAt(es, t, id, Register(x), i, j) && CallAt(es, u, id, a, p, q) && i <= p && j < q
    requires NoPut(es, id, i + 1, p + 1)
    requires Kept(es, id, x, j + 1, q)
    ensures Enabled(At(es, q), es[q]) && Finds(At(es, q), es[q], x)
    ensures a.Post? ==> x in Receivers(At(es, q), es[q])
  {
    Registered(es, t, id, x, i, j);
    SubscriberStays(es, id, At(es, i + 1).table[id], x, j + 1, q);
    SameBusExact(es, id, t, Register(x), i, j, u, a, p, q);
    CallActsOn(es, t, id, Register(x), i, j);
    CallActsOn(es, u, id, a, p, q);
  }

  /** In particular when nobody is creating for the identifier once the registering call has its bus. */
  lemma SettledDelivery(es: seq<Event>, id: string, t: Thread, x: Subscriber, i: nat, j: nat,
                        u: Thread, a: Action, p: nat, q: nat)
    requires IsRun(INITIAL, es)
    requires CallAt(es, t, id, Register(x), i, j) && CallAt(es, u, id, a, p, q) && i <= p && j < q
    requires Settled(At(es, i + 1), id)
    requires Kept(es, id, x, j + 1, q)
    ensures Enabled(At(es, q), es[q]) && Finds(At(es, q), es[q], x)
    ensures a.Post? ==> x in Receivers(At(es, q), es[q])
  {
    SettledNoPut(es, id, i + 1, p + 1);
    Delivery(es, id, t, x, i, j, u, a, p, q);
  }

  // ---------- The actions on one bus ----------

  /** The actions taken on one bus in a run, in order. */
  function ActsOn(es: seq<Event>, b: BusId): seq<Action>
    requires IsRun(INITIAL, es)
  {
    if es == [] then []
    else
      var s, e := After(INITIAL, es[..|es| - 1]), es[|es| - 1];
      ActsOn(es[..|es| - 1], b) + if e.Act? && s.pc[e.t].bus == b then [s.pc[e.t].action] else []
  }

  lemma ApplySnoc(subs: set<Subscriber>, actions: seq<Action>, a: Action)
    ensures ApplyAll(subs, actions + [a]) == Apply(ApplyAll(subs, actions), a)
    ensures ApplyAll(subs, actions + []) == ApplyAll(subs, actions)
  {
    assert (actions + [a])[..|actions|] == actions && actions + [] == actions;
  }

  /** A bus has the subscribers that the actions on it leave, from none. */
  lemma {:induction false} SubscribersAre(es: seq<Event>, b: BusId)
    requires IsRun(INITIAL, es)
    ensures b < |After(INITIAL, es).buses| ==> After(INITIAL, es).buses[b].subscribers == ApplyAll({}, ActsOn(es, b))
    ensures b >= |After(INITIAL, es).buses| ==> ActsOn(es, b) == []
  {
    if es != [] {
      var before, e := es[..|es| - 1], es[|es| - 1];
      SubscribersAre(before, b);
      if e.Act? {
        ApplySnoc({}, ActsOn(before, b), After(INITIAL, before).pc[e.t].action);
      }
      assert ActsOn(before, b) + [] == ActsOn(before, b);
    }
  }

  /** Nobody has acted on a bus that is still to be put. */
  lemma {:induction false} UnpublishedUnacted(es: seq<Event>, t: Thread)
    requires IsRun(INITIAL, es) && t in After(INITIAL, es).pc && After(INITIAL, es).pc[t].Made?
    ensures ActsOn(es, After(INITIAL, es).pc[t].bus) == []
  {
    var before, e := es[..|es| - 1], es[|es| - 1];
    InvAfter(INITIAL, before);
    if e == Create(t) {
      SubscribersAre(before, |After(INITIAL, before).buses|);
    } else {
      UnpublishedUnacted(before, t);
    }
  }

  // ---------- Why the hypotheses are needed ----------

  /** Two threads miss, and each constructs and puts a bus. */
  function Race(id: string, x: Subscriber, msg: Message): seq<Event> {
    [Call(0, id, Register(x)), Call(1, id, Post(msg))] + [Read(0), Read(1)] + [Create(0), Create(1)] + [Put(0), Put(1)]
  }

  /** The first registers on the bus it obtained, and afterwards a third thread posts. */
  function Later(id: string, msg: Message): seq<Event> {
    [Act(0), Act(1)] + [Call(2, id, Post(msg)), Read(2)]
  }

  lemma ExtendByTwo(es: seq<Event>, e: Event, f: Event)
    requires IsRun(INITIAL, es) && Enabled(After(INITIAL, es), e) && Enabled(Next(After(INITIAL, es), e), f)
    ensures IsRun(INITIAL, es + [e, f])
    ensures After(INITIAL, es + [e, f]) == Next(Next(After(INITIAL, es), e), f)
  {
    RunTwo(After(INITIAL, es), e, f);
    RunConcat(INITIAL, es, [e, f]);
  }

  /** Where the race ends: two buses under one name, and each thread holding its own. */
  function Raced(id: string, x: Subscriber, msg: Message): State {
    State(map[id := 1], [Bus(id, 0, {}), Bus(id, 1, {})], map[0 := Got(id, Register(x), 0), 1 := Got(id, Post(msg), 1)])
  }

  /** Both threads have read null. */
  function BothMissed(id: string, x: Subscriber, msg: Message): State {
    State(map[], [], map[0 := Missed(id, Register(x)), 1 := Missed(id, Post(msg))])
  }

  lemma BothMiss(id: string, x: Subscriber, msg: Message)
    ensures var es := [Call(0, id, Register(x)), Call(1, id, Post(msg))] + [Read(0), Read(1)];
            IsRun(INITIAL, es) && After(INITIAL, es) == BothMissed(id, x, msg)
  {
    RunTwo(INITIAL, Call(0, id, Register(x)), Call(1, id, Post(msg)));
    ExtendByTwo([Call(0, id, Register(x)), Call(1, id, Post(msg))], Read(0), Read(1));
  }

  lemma BothPut(id: string, x: Subscriber, msg: Message)
    ensures IsRun(BothMissed(id, x, msg), [Create(0), Create(1)] + [Put(0), Put(1)])
    ensures After(BothMissed(id, x, msg), [Create(0), Create(1)] + [Put(0), Put(1)]) == Raced(id, x, msg)
  {
    var s := BothMissed(id, x, msg);
    RunTwo(s, Create(0), Create(1));
    var s' := After(s, [Create(0), Create(1)]);
    assert s'.buses == [Bus(id, 0, {}), Bus(id, 1, {})];
    RunTwo(s', Put(0), Put(1));
    RunConcat(s, [Create(0), Create(1)], [Put(0), Put(1)]);
  }

  lemma RaceRuns(id: string, x: Subscriber, msg: Message)
    ensures IsRun(INITIAL, Race(id, x, msg)) && After(INITIAL, Race(id, x, msg)) == Raced(id, x, msg)
  {
    var es := [Call(0, id, Register(x)), Call(1, id, Post(msg))] + [Read(0), Read(1)];
    BothMiss(id, x, msg);
    BothPut(id, x, msg);
    RunConcat(INITIAL, es, [Create(0), Create(1)] + [Put(0), Put(1)]);
    assert es + ([Create(0), Create(1)] + [Put(0), Put(1)]) == Race(id, x, msg);
  }

  lemma LaterRuns(id: string, x: Subscriber, msg: Message)
    ensures IsRun(Raced(id, x, msg), Later(id, msg))
    ensures var s := After(Raced(id, x, msg), Later(id, msg));
            && s.buses == [Bus(id, 0, {x}), Bus(id, 1, {})]
            && s.pc == map[2 := Got(id, Post(msg), 1)]
  {
    var s := Raced(id, x, msg);
    RunTwo(s, Act(0), Act(1));
    var s' := After(s, [Act(0), Act(1)]);
    var none: set<Subscriber> := {};
    assert Apply(none, Register(x)) == {x};
    assert s'.buses == [Bus(id, 0, {x}), Bus(id, 1, {})] && s'.pc == map[];
    RunTwo(s', Call(2, id, Post(msg)), Read(2));
    RunConcat(s, [Act(0), Act(1)], [Call(2, id, Post(msg)), Read(2)]);
  }

  /** Agreement and delivery both fail without their hypotheses: the racing calls obtain different
      buses, and the completed registration stays on the one that the table lost, where the
      later post does not find it. */
  lemma LostRegistration(id: string, x: Subscriber, msg: Message)
    ensures IsRun(INITIAL, Race(id, x, msg)) && !SameBus(Returned(INITIAL, Race(id, x, msg), id))
    ensures IsRun(INITIAL, Race(id, x, msg) + Later(id, msg))
    ensures var s := After(INITIAL, Race(id, x, msg) + Later(id, msg));
            && Subscribed(s, 0, x)
            && Enabled(s, Act(2)) && s.pc[2].action == Post(msg) && Receivers(s, Act(2)) == {}
  {
    RaceRuns(id, x, msg);
    ReturnsAlways(Race(id, x, msg), id);
    var s := Raced(id, x, msg);
    assert 0 in s.pc && s.pc[0].bus == 0 && 1 in s.pc && s.pc[1].bus == 1;
    LaterRuns(id, x, msg);
    RunConcat(INITIAL, Race(id, x, msg), Later(id, msg));
  }
}
