/**
 Concurrent use explained by sequential use: the calls of a run take effect one after the other,
 in the order of their action steps, as the requests of a single thread would.
 */
module BusSequential {
  import opened BusSpec
  import opened BusProtocol
  import opened BusLaws
  import opened BusDelivery

  /** The requests served by a run, in the order of their action steps. */
  function Requests(es: seq<Event>): seq<Request>
    requires IsRun(INITIAL, es)
  {
    if es == [] then []
    else
      var s, e := After(INITIAL, es[..|es| - 1]), es[|es| - 1];
      Requests(es[..|es| - 1]) + if e.Act? then [Request(s.pc[e.t].id, s.pc[e.t].action)] else []
  }

  lemma RequestsNext(es: seq<Event>, k: nat)
    requires IsRun(INITIAL, es) && k < |es|
    ensures IsRun(INITIAL, es[..k]) && IsRun(INITIAL, es[..k + 1]) && Enabled(At(es, k), es[k])
    ensures Requests(es[..k + 1]) ==
            Requests(es[..k]) +
            if es[k].Act? then [Request(At(es, k).pc[es[k].t].id, At(es, k).pc[es[k].t].action)] else []
  {
    RunPrefix(INITIAL, es, k);
    assert es[..k + 1][..k] == es[..k];
  }

  /** The request is what the thread of the action step q asked for. */
  predicate AskedBy(es: seq<Event>, q: nat, r: Request)
    requires IsRun(INITIAL, es) && q < |es|
  {
    var s, t := At(es, q), es[q].t;
    es[q] == Act(t) && t in s.pc && s.pc[t].Got? && s.pc[t].id == r.identifier && s.pc[t].action == r.action
  }

  lemma {:induction false} RequestsSoFar(es: seq<Event>, k: nat) returns (qs: seq<nat>)
    requires IsRun(INITIAL, es) && k <= |es|
    ensures IsRun(INITIAL, es[..k]) && |qs| == |Requests(es[..k])| && Increasing(qs)
    ensures forall q: nat :: q in qs <==> q < k && es[q].Act?
    ensures forall i :: 0 <= i < |qs| ==> qs[i] < |es| && AskedBy(es, qs[i], Requests(es[..k])[i])
  {
    qs := [];
    if k > 0 {
      qs := RequestsSoFar(es, k - 1);
      RequestsNext(es, k - 1);
      if es[k - 1].Act? {
        IncreasingSnoc(qs, k - 1);
        qs := qs + [k - 1];
      }
    }
  }

  /** The requests of a run are those of its action steps, each once and in their order. */
  lemma RequestsExact(es: seq<Event>) returns (qs: seq<nat>)
    requires IsRun(INITIAL, es)
    ensures |qs| == |Requests(es)| && Increasing(qs)
    ensures forall q: nat :: q in qs <==> q < |es| && es[q].Act?
    ensures forall i :: 0 <= i < |qs| ==> qs[i] < |es| && AskedBy(es, qs[i], Requests(es)[i])
  {
    qs := RequestsSoFar(es, |es|);
    assert es[..|es|] == es;
  }

  /** The actions on the bus bound to the identifier; none while it is not bound. */
  function BoundActs(es: seq<Event>, id: string): seq<Action>
    requires IsRun(INITIAL, es)
  {
    var s := After(INITIAL, es);
    if id in s.table then ActsOn(es, s.table[id]) else []
  }

  lemma ActionsOnSnoc(rs: seq<Request>, r: Request, id: string)
    ensures ActionsOn(rs + [r], id) == ActionsOn(rs, id) + if r.identifier == id then [r.action] else []
    ensures ActionsOn(rs + [], id) == ActionsOn(rs, id)
  {
    assert (rs + [r])[..|rs|] == rs && rs + [] == rs;
  }

  /** An action under some identifier is one on the bus in the table. */
  lemma ActIsBound(es: seq<Event>, id: string)
    requires IsRun(INITIAL, es) && es != [] && es[|es| - 1].Act? && Puts(INITIAL, es, id) <= 1
    ensures var s, t := After(INITIAL, es[..|es| - 1]), es[|es| - 1].t;
            BoundActs(es, id) == BoundActs(es[..|es| - 1], id) + if s.pc[t].id == id then [s.pc[t].action] else []
  {
    var before, t := es[..|es| - 1], es[|es| - 1].t;
    var s := After(INITIAL, before);
    InvAfter(INITIAL, before);
    if s.pc[t].id == id {
      OnePutBus(before, id, t);
    } else if id in s.table {
      assert Named(s, s.table[id], id) && Named(s, s.pc[t].bus, s.pc[t].id);
    }
  }

  /** Reads, constructions and the first put leave the actions on the bound bus as they were. */
  lemma OtherKeepsBound(es: seq<Event>, id: string)
    requires IsRun(INITIAL, es) && es != [] && !es[|es| - 1].Act? && Puts(INITIAL, es, id) <= 1
    ensures BoundActs(es, id) == BoundActs(es[..|es| - 1], id)
  {
    var before, e := es[..|es| - 1], es[|es| - 1];
    if IsPutOf(After(INITIAL, before), e, id) {
      BoundIffPut(before, id);
      UnpublishedUnacted(before, e.t);
    }
  }

  /** With at most one put for an identifier, all that is ever done under it is done, in the same
      order, to the bus in the table. */
  lemma {:induction false} AllOnOneBus(es: seq<Event>, id: string)
    requires IsRun(INITIAL, es) && Puts(INITIAL, es, id) <= 1
    ensures BoundActs(es, id) == ActionsOn(Requests(es), id)
  {
    if es != [] {
      var before, e := es[..|es| - 1], es[|es| - 1];
      var s := After(INITIAL, before);
      AllOnOneBus(before, id);
      if e.Act? {
        ActIsBound(es, id);
        ActionsOnSnoc(Requests(before), Request(s.pc[e.t].id, s.pc[e.t].action), id);
      } else {
        OtherKeepsBound(es, id);
        ActionsOnSnoc(Requests(before), Request(id, Post(0)), id);
      }
    }
  }

  /** The subscribers of the bus in the table are those that the requests leave when they are
      served one by one. */
  lemma SequentialSubscribers(es: seq<Event>, id: string)
    requires IsRun(INITIAL, es) && Puts(INITIAL, es, id) <= 1
    ensures var s, subs := After(INITIAL, es), SubsOf(ServeAll(map[], Requests(es)), id);
            && (id in s.table ==> s.table[id] < |s.buses| && s.buses[s.table[id]].subscribers == subs)
            && (id !in s.table ==> subs == {})
  {
    InvAfter(INITIAL, es);
    AllOnOneBus(es, id);
    Locality(map[], Requests(es), id);
    if id in After(INITIAL, es).table {
      SubscribersAre(es, After(INITIAL, es).table[id]);
    }
  }

  /** A post reaches what it would reach if the requests so far had been served one by one. */
  lemma SequentialPost(es: seq<Event>, t: Thread)
    requires IsRun(INITIAL, es) && Enabled(After(INITIAL, es), Act(t)) && After(INITIAL, es).pc[t].action.Post?
    requires Puts(INITIAL, es, After(INITIAL, es).pc[t].id) <= 1
    ensures Receivers(After(INITIAL, es), Act(t)) == SubsOf(ServeAll(map[], Requests(es)), After(INITIAL, es).pc[t].id)
  {
    var id := After(INITIAL, es).pc[t].id;
    OnePutBus(es, id, t);
    SequentialSubscribers(es, id);
  }

  lemma DeliveriesSnoc(rs: seq<Request>, r: Request)
    ensures Deliveries(map[], rs + [r]) ==
            Deliveries(map[], rs) +
            if r.action.Post? then [(r.action.message, SubsOf(ServeAll(map[], rs), r.identifier))] else []
  {
    assert (rs + [r])[..|rs|] == rs;
  }

  /** Linearizability: a run in which all calls for an identifier obtain one bus delivers exactly
      what a single thread delivers that serves the same requests, each at its action step. */
  lemma {:induction false} Linearizable(es: seq<Event>)
    requires IsRun(INITIAL, es) && OnePutEach(es)
    ensures Delivered(es) == Deliveries(map[], Requests(es))
  {
    if es != [] {
      var before, e := es[..|es| - 1], es[|es| - 1];
      var s := After(INITIAL, before);
      OnePutBefore(es);
      Linearizable(before);
      if e.Act? {
        DeliveriesSnoc(Requests(before), Request(s.pc[e.t].id, s.pc[e.t].action));
        if s.pc[e.t].action.Post? {
          SequentialPost(before, e.t);
        }
      } else {
        assert Requests(before) + [] == Requests(before) && Delivered(before) + [] == Delivered(before);
      }
    }
  }

  // ---------- Calls that nobody interrupts ----------

  /** The steps by which a thread at its read obtains its bus, alone. */
  function Obtain(s: State, t: Thread, id: string): seq<Event> {
    if id in s.table then [Read(t)] else [Read(t), Create(t)] + [Put(t)]
  }

  /** The state with a fresh bus put for the identifier and obtained by thread t. */
  function WithNewBus(s: State, t: Thread, id: string, a: Action): State {
    State(s.table[id := |s.buses|], s.buses + [Bus(id, t, {})], s.pc[t := Got(id, a, |s.buses|)])
  }

  lemma MissAlone(s: State, t: Thread, id: string, a: Action)
    requires t in s.pc && s.pc[t] == Reading(id, a) && id !in s.table
    ensures IsRun(s, [Read(t), Create(t)] + [Put(t)])
    ensures After(s, [Read(t), Create(t)] + [Put(t)]) == WithNewBus(s, t, id, a)
  {
    RunTwo(s, Read(t), Create(t));
    var s' := Next(Next(s, Read(t)), Create(t));
    RunOne(s', Put(t));
    RunConcat(s, [Read(t), Create(t)], [Put(t)]);
    assert Next(s', Put(t)).pc == WithNewBus(s, t, id, a).pc;
  }

  lemma NewBusView(s: State, t: Thread, id: string, a: Action)
    requires Naming(s) && id !in s.table
    ensures Naming(WithNewBus(s, t, id, a))
    ensures ViewOf(WithNewBus(s, t, id, a)) == ViewOf(s)[id := {}]
  {
  }

  /** Alone, a thread obtains the bus in the table, after creating it if it is missing. */
  lemma ObtainAlone(s: State, t: Thread, id: string, a: Action)
    requires Naming(s) && t in s.pc && s.pc[t] == Reading(id, a)
    ensures IsRun(s, Obtain(s, t, id))
    ensures var s' := After(s, Obtain(s, t, id));
            && Naming(s') && id in s'.table && s'.pc == s.pc[t := Got(id, a, s'.table[id])]
            && ViewOf(s') == ViewOf(s)[id := SubsOf(ViewOf(s), id)]
  {
    if id in s.table {
      RunOne(s, Read(t));
      NamingStep(s, Read(t));
      assert ViewOf(Next(s, Read(t))) == ViewOf(s);
    } else {
      MissAlone(s, t, id, a);
      NewBusView(s, t, id, a);
    }
  }

  lemma ActView(s: State, t: Thread, id: string)
    requires Naming(s) && t in s.pc && s.pc[t].Got? && s.pc[t].id == id
    requires id in s.table && s.table[id] == s.pc[t].bus
    ensures Enabled(s, Act(t)) && Naming(Next(s, Act(t)))
    ensures ViewOf(Next(s, Act(t))) == Serve(ViewOf(s), Request(id, s.pc[t].action))
  {
    NamingStep(s, Act(t));
    assert forall id' :: id' in s.table && id' != id ==> s.table[id'] != s.pc[t].bus;
  }

  lemma RunAround(s: State, e: Event, es: seq<Event>, f: Event)
    requires Enabled(s, e) && IsRun(Next(s, e), es) && Enabled(After(Next(s, e), es), f)
    ensures IsRun(s, [e] + (es + [f])) && After(s, [e] + (es + [f])) == Next(After(Next(s, e), es), f)
  {
    RunOne(s, e);
    RunOne(After(Next(s, e), es), f);
    RunConcat(Next(s, e), es, [f]);
    RunConcat(s, [e], es + [f]);
  }

  /** The steps of a whole call, alone. */
  function Alone(s: State, t: Thread, r: Request): seq<Event> {
    [Call(t, r.identifier, r.action)] + (Obtain(s, t, r.identifier) + [Act(t)])
  }

  /** Before the action: the thread has the bus in the table, which shows what it showed before. */
  lemma CallObtains(s: State, t: Thread, r: Request)
    requires Naming(s) && t !in s.pc
    ensures var s1 := Next(s, Call(t, r.identifier, r.action));
            && IsRun(s1, Obtain(s, t, r.identifier))
            && var s2 := After(s1, Obtain(s, t, r.identifier));
               && Naming(s2) && r.identifier in s2.table
               && s2.pc == s.pc[t := Got(r.identifier, r.action, s2.table[r.identifier])]
               && ViewOf(s2) == ViewOf(s)[r.identifier := SubsOf(ViewOf(s), r.identifier)]
  {
    var call := Call(t, r.identifier, r.action);
    NamingStep(s, call);
    assert ViewOf(Next(s, call)) == ViewOf(s);
    ObtainAlone(Next(s, call), t, r.identifier, r.action);
  }

  lemma ServeBound(v: View, r: Request)
    ensures Serve(v[r.identifier := SubsOf(v, r.identifier)], r) == Serve(v, r)
  {
  }

  /** From any state that keeps the naming invariant, whatever other threads are in the middle
      of, a call that nobody interrupts does to the map that the table shows what the request does. */
  lemma CallAlone(s: State, t: Thread, r: Request)
    requires Naming(s) && t !in s.pc
    ensures IsRun(s, Alone(s, t, r))
    ensures Naming(After(s, Alone(s, t, r))) && After(s, Alone(s, t, r)).pc == s.pc
    ensures ViewOf(After(s, Alone(s, t, r))) == Serve(ViewOf(s), r)
  {
    CallObtains(s, t, r);
    var s1 := Next(s, Call(t, r.identifier, r.action));
    var s2 := After(s1, Obtain(s, t, r.identifier));
    ActView(s2, t, r.identifier);
    ServeBound(ViewOf(s), r);
    assert Next(s2, Act(t)).pc == s.pc;
    RunAround(s, Call(t, r.identifier, r.action), Obtain(s, t, r.identifier), Act(t));
  }
}
