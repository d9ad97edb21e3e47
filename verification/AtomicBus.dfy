/**
 The intended getBus, one atomic compute-if-absent, and the proof that the concurrent getBus
 refines it in every run in which all calls for an identifier obtain the same bus.
 */
module AtomicBus {
  import opened BusSpec
  import P = BusProtocol
  import opened BusLaws
  import D = BusDelivery

  type Thread = P.Thread

  /** A thread in a call: before, or after, the atomic step that obtains the bus. */
  datatype Pc = Calling(id: string, action: Action) | Holding(id: string, action: Action)

  datatype State = State(view: View, pc: map<Thread, Pc>)

  datatype Event = Call(t: Thread, id: string, action: Action) | Get(t: Thread) | Act(t: Thread)

  const INITIAL := State(map[], map[])

  predicate Enabled(s: State, e: Event) {
    match e
    case Call(t, _, _) => t !in s.pc
    case Get(t) => t in s.pc && s.pc[t].Calling?
    case Act(t) => t in s.pc && s.pc[t].Holding? && s.pc[t].id in s.view
  }

  function Next(s: State, e: Event): State
    requires Enabled(s, e)
  {
    match e
    case Call(t, id, action) => s.(pc := s.pc[t := Calling(id, action)])
    case Get(t) =>
      var p := s.pc[t];
      State(s.view[p.id := SubsOf(s.view, p.id)], s.pc[t := Holding(p.id, p.action)])
    case Act(t) =>
      var p := s.pc[t];
      State(s.view[p.id := Apply(s.view[p.id], p.action)], s.pc - {t})
  }

  function Receivers(s: State, e: Event): set<Subscriber>
    requires Enabled(s, e)
  {
    if e.Act? && s.pc[e.t].action.Post? then s.view[s.pc[e.t].id] else {}
  }

  predicate IsRun(es: seq<Event>)
    decreases es, 0
  {
    es == [] || (IsRun(es[..|es| - 1]) && Enabled(After(es[..|es| - 1]), es[|es| - 1]))
  }

  function After(es: seq<Event>): State
    requires IsRun(es)
    decreases es, 1
  {
    if es == [] then INITIAL else Next(After(es[..|es| - 1]), es[|es| - 1])
  }

  /** Message by message, the subscribers that the posts of a run reach. */
  function Deliveries(es: seq<Event>): seq<(Message, set<Subscriber>)>
    requires IsRun(es)
  {
    if es == [] then []
    else
      var before, e := es[..|es| - 1], es[|es| - 1];
      Deliveries(before) +
      if e.Act? && After(before).pc[e.t].action.Post?
      then [(After(before).pc[e.t].action.message, Receivers(After(before), e))] else []
  }

  // ---------- Abstraction ----------

  function AbsPc(p: P.Pc): Pc {
    if p.Got? then Holding(p.id, p.action) else Calling(p.id, p.action)
  }

  /** The bus bound to an identifier stands for it; buses not in the table are not seen. */
  function Abs(s: P.State): State
    requires P.Naming(s)
  {
    State(D.ViewOf(s), map t | t in s.pc :: AbsPc(s.pc[t]))
  }

  /** The atomic step that a concurrent step amounts to: a hit or a put is the compute-if-absent,
      a null read and a construction are invisible. */
  function AbsEvent(s: P.State, e: P.Event): seq<Event>
    requires P.Enabled(s, e)
  {
    match e
    case Call(t, id, action) => [Call(t, id, action)]
    case Read(t) => if s.pc[t].id in s.table then [Get(t)] else []
    case Create(_) => []
    case Put(t) => [Get(t)]
    case Act(t) => [Act(t)]
  }

  function AbsRun(es: seq<P.Event>): seq<Event>
    requires P.IsRun(P.INITIAL, es)
  {
    if es == [] then []
    else AbsRun(es[..|es| - 1]) + AbsEvent(P.After(P.INITIAL, es[..|es| - 1]), es[|es| - 1])
  }

  /** Every obtained bus is the bound one. */
  predicate Agreed(s: P.State) {
    forall t :: t in s.pc && s.pc[t].Got? ==> s.pc[t].id in s.table && s.table[s.pc[t].id] == s.pc[t].bus
  }

  /** A bus still to be put has no subscribers. */
  predicate UnpublishedEmpty(s: P.State) {
    forall t :: t in s.pc && s.pc[t].Made? && s.pc[t].bus < |s.buses| ==> s.buses[s.pc[t].bus].subscribers == {}
  }

  /** What holds in every reachable state of a run with at most one put for each identifier. */
  predicate Sound(s: P.State) {
    P.Inv(s) && Agreed(s) && UnpublishedEmpty(s)
  }

  lemma SoundAfter(es: seq<P.Event>)
    requires P.IsRun(P.INITIAL, es) && OnePutEach(es)
    ensures Sound(P.After(P.INITIAL, es))
  {
    var s := P.After(P.INITIAL, es);
    P.InvAfter(P.INITIAL, es);
    forall t | t in s.pc && s.pc[t].Got? ensures s.pc[t].id in s.table && s.table[s.pc[t].id] == s.pc[t].bus {
      OnePutBus(es, s.pc[t].id, t);
    }
    forall t | t in s.pc && s.pc[t].Made? && s.pc[t].bus < |s.buses| ensures s.buses[s.pc[t].bus].subscribers == {} {
      D.UnpublishedUnacted(es, t);
      D.SubscribersAre(es, s.pc[t].bus);
    }
  }

  /** A null read or a construction changes nothing that the atomic machine sees. */
  lemma NullReadStep(s: P.State, t: Thread)
    requires P.Naming(s) && P.Enabled(s, P.Read(t)) && s.pc[t].id !in s.table && P.Naming(P.Next(s, P.Read(t)))
    ensures Abs(P.Next(s, P.Read(t))) == Abs(s)
  {
  }

  lemma CreateStep(s: P.State, t: Thread)
    requires P.Naming(s) && P.Enabled(s, P.Create(t)) && P.Naming(P.Next(s, P.Create(t)))
    ensures Abs(P.Next(s, P.Create(t))) == Abs(s)
  {
    assert Abs(P.Next(s, P.Create(t))).view == Abs(s).view;
  }

  lemma CallStep(s: P.State, e: P.Event)
    requires P.Inv(s) && P.Enabled(s, e) && P.Naming(P.Next(s, e)) && e.Call?
    ensures var a := AbsEvent(s, e)[0];
            Enabled(Abs(s), a) && Next(Abs(s), a) == Abs(P.Next(s, e))
  {
  }

  lemma HitStep(s: P.State, t: Thread)
    requires P.Inv(s) && P.Enabled(s, P.Read(t)) && P.Naming(P.Next(s, P.Read(t)))
    requires s.pc[t].id in s.table
    ensures Enabled(Abs(s), Get(t)) && Next(Abs(s), Get(t)) == Abs(P.Next(s, P.Read(t)))
  {
    assert Next(Abs(s), Get(t)).view == Abs(s).view;
  }

  lemma PutStep(s: P.State, t: Thread)
    requires P.Naming(s) && P.Enabled(s, P.Put(t)) && P.Naming(P.Next(s, P.Put(t)))
    requires s.pc[t].id !in s.table && s.buses[s.pc[t].bus].subscribers == {}
    ensures Enabled(Abs(s), Get(t)) && Next(Abs(s), Get(t)) == Abs(P.Next(s, P.Put(t)))
  {
    var id, s' := s.pc[t].id, P.Next(s, P.Put(t));
    assert Abs(s').view == Abs(s).view[id := {}];
    assert Abs(s').pc == Abs(s).pc[t := Holding(id, s.pc[t].action)];
  }

  lemma ActStep(s: P.State, e: P.Event)
    requires P.Inv(s) && Agreed(s) && P.Enabled(s, e) && P.Naming(P.Next(s, e)) && e.Act?
    ensures Enabled(Abs(s), Act(e.t)) && Next(Abs(s), Act(e.t)) == Abs(P.Next(s, e))
    ensures Receivers(Abs(s), Act(e.t)) == D.Receivers(s, e)
  {
    var p := s.pc[e.t];
    assert forall id :: id in s.table && id != p.id ==> s.table[id] != p.bus;
    assert Next(Abs(s), Act(e.t)).view == Abs(P.Next(s, e)).view;
    assert Next(Abs(s), Act(e.t)).pc == Abs(P.Next(s, e)).pc;
  }

  /** One concurrent step is one atomic step or none, and posts reach the same subscribers. */
  predicate StepRefined(s: P.State, e: P.Event)
    requires P.Naming(s) && P.Enabled(s, e) && P.Naming(P.Next(s, e))
  {
    if AbsEvent(s, e) == [] then Abs(P.Next(s, e)) == Abs(s) && !e.Act?
    else
      var a := AbsEvent(s, e)[0];
      && Enabled(Abs(s), a) && Next(Abs(s), a) == Abs(P.Next(s, e))
      && (e.Act? ==> Receivers(Abs(s), a) == D.Receivers(s, e))
  }

  lemma StepRefines(s: P.State, e: P.Event)
    requires Sound(s) && P.Enabled(s, e) && P.Naming(P.Next(s, e))
    requires e.Put? ==> s.pc[e.t].id !in s.table
    ensures StepRefined(s, e)
  {
    match e
    case Call(_, _, _) => CallStep(s, e);
    case Read(t) => if s.pc[t].id in s.table { HitStep(s, t); } else { NullReadStep(s, t); }
    case Create(t) => CreateStep(s, t);
    case Put(t) => PutStep(s, t);
    case Act(_) => ActStep(s, e);
  }

  /** Concurrent and atomic run after the same events: same state, same deliveries. */
  predicate Refines(es: seq<P.Event>)
    requires P.IsRun(P.INITIAL, es)
  {
    && P.Naming(P.After(P.INITIAL, es))
    && IsRun(AbsRun(es)) && After(AbsRun(es)) == Abs(P.After(P.INITIAL, es))
    && Deliveries(AbsRun(es)) == D.Delivered(es)
  }

  lemma AtomicSnoc(run: seq<Event>, a: Event)
    requires IsRun(run) && Enabled(After(run), a)
    ensures IsRun(run + [a]) && After(run + [a]) == Next(After(run), a)
    ensures Deliveries(run + [a]) ==
            Deliveries(run) + if a.Act? && After(run).pc[a.t].action.Post?
                              then [(After(run).pc[a.t].action.message, Receivers(After(run), a))] else []
  {
    assert (run + [a])[..|run|] == run;
  }

  lemma RefinesNext(es: seq<P.Event>)
    requires P.IsRun(P.INITIAL, es) && es != [] && Refines(es[..|es| - 1])
    requires P.Naming(P.After(P.INITIAL, es)) && StepRefined(P.After(P.INITIAL, es[..|es| - 1]), es[|es| - 1])
    ensures Refines(es)
  {
    var before, e := es[..|es| - 1], es[|es| - 1];
    var s, run := P.After(P.INITIAL, before), AbsRun(before);
    if AbsEvent(s, e) == [] {
      assert AbsRun(es) == run;
      assert D.Delivered(es) == D.Delivered(before) + [];
    } else {
      AtomicSnoc(run, AbsEvent(s, e)[0]);
      assert AbsRun(es) == run + [AbsEvent(s, e)[0]];
    }
  }

  /** Conditional refinement: if all calls for an identifier obtain the same bus, whatever the
      identifier, then the run is a run of the atomic machine, state by state and delivery by
      delivery. */
  lemma {:induction false} Refinement(es: seq<P.Event>)
    requires P.IsRun(P.INITIAL, es)
    requires OnePutEach(es)
    ensures Sound(P.After(P.INITIAL, es))
    ensures IsRun(AbsRun(es)) && After(AbsRun(es)) == Abs(P.After(P.INITIAL, es))
    ensures Deliveries(AbsRun(es)) == D.Delivered(es)
  {
    SoundAfter(es);
    if es != [] {
      var before, e := es[..|es| - 1], es[|es| - 1];
      OnePutBefore(es);
      Refinement(before);
      StepRefines(P.After(P.INITIAL, before), e);
      RefinesNext(es);
    }
  }

  /** In particular if no two threads are ever pending for one identifier at once. */
  lemma NoOverlapRefinement(es: seq<P.Event>)
    requires P.IsRun(P.INITIAL, es) && forall id :: NoOverlap(es, id)
    ensures Sound(P.After(P.INITIAL, es))
    ensures IsRun(AbsRun(es)) && After(AbsRun(es)) == Abs(P.After(P.INITIAL, es))
    ensures Deliveries(AbsRun(es)) == D.Delivered(es)
  {
    forall id ensures Puts(P.INITIAL, es, id) <= 1 {
      NoOverlapOnePut(es, id);
    }
    Refinement(es);
  }
}
