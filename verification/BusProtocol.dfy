/**
 getBus called by any number of threads at once. One call is four atomic steps on the shared
 table: the read, after a miss the construction and the put, and the action on the bus obtained.
 Steps of different threads interleave freely.
 */
module BusProtocol {
  import opened BusSpec

  type Thread = nat
  type BusId = nat  // the index of a bus among all buses ever constructed

  datatype Bus = Bus(name: string, maker: Thread, subscribers: set<Subscriber>)

  /** Where a thread stands in its current call. A thread that is in no call has no program counter. */
  datatype Pc =
    | Reading(id: string, action: Action)
    | Missed(id: string, action: Action)
    | Made(id: string, action: Action, bus: BusId)
    | Got(id: string, action: Action, bus: BusId)
  {
    /** Between a null read of the identifier and the put for it. */
    predicate Creating(id': string) {
      (Missed? || Made?) && id == id'
    }

    predicate Holds(b: BusId) {
      (Made? || Got?) && bus == b
    }
  }

  datatype State = State(table: map<string, BusId>, buses: seq<Bus>, pc: map<Thread, Pc>)

  datatype Event =
    | Call(t: Thread, id: string, action: Action)
    | Read(t: Thread)
    | Create(t: Thread)
    | Put(t: Thread)
    | Act(t: Thread)

  const INITIAL := State(map[], [], map[])

  predicate Enabled(s: State, e: Event) {
    match e
    case Call(t, _, _) => t !in s.pc
    case Read(t) => t in s.pc && s.pc[t].Reading?
    case Create(t) => t in s.pc && s.pc[t].Missed?
    case Put(t) => t in s.pc && s.pc[t].Made?
    case Act(t) => t in s.pc && s.pc[t].Got? && s.pc[t].bus < |s.buses|
  }

  function Next(s: State, e: Event): State
    requires Enabled(s, e)
  {
    match e
    case Call(t, id, action) => s.(pc := s.pc[t := Reading(id, action)])
    case Read(t) =>
      var p := s.pc[t];
      s.(pc := s.pc[t := if p.id in s.table then Got(p.id, p.action, s.table[p.id]) else Missed(p.id, p.action)])
    case Create(t) =>
      var p := s.pc[t];
      s.(buses := s.buses + [Bus(p.id, t, {})], pc := s.pc[t := Made(p.id, p.action, |s.buses|)])
    case Put(t) =>
      var p := s.pc[t];
      s.(table := s.table[p.id := p.bus], pc := s.pc[t := Got(p.id, p.action, p.bus)])
    case Act(t) =>
      var p := s.pc[t];
      var b := s.buses[p.bus];
      s.(buses := s.buses[p.bus := b.(subscribers := Apply(b.subscribers, p.action))], pc := s.pc - {t})
  }

  // ---------- Runs ----------

  predicate IsRun(s: State, es: seq<Event>)
    decreases es, 0
  {
    es == [] ||
    (IsRun(s, es[..|es| - 1]) && Enabled(After(s, es[..|es| - 1]), es[|es| - 1]))
  }

  function After(s: State, es: seq<Event>): State
    requires IsRun(s, es)
    decreases es, 1
  {
    if es == [] then s else Next(After(s, es[..|es| - 1]), es[|es| - 1])
  }

  lemma {:induction false} RunPrefix(s: State, es: seq<Event>, k: nat)
    requires IsRun(s, es) && k <= |es|
    ensures IsRun(s, es[..k])
    ensures k < |es| ==> Enabled(After(s, es[..k]), es[k])
    ensures k < |es| ==> IsRun(s, es[..k + 1]) && After(s, es[..k + 1]) == Next(After(s, es[..k]), es[k])
  {
    if k == |es| {
      assert es[..k] == es;
    } else if k == |es| - 1 {
      assert es[..k + 1] == es;
    } else {
      RunPrefix(s, es[..|es| - 1], k);
      assert es[..|es| - 1][..k] == es[..k] && es[..|es| - 1][..k + 1] == es[..k + 1];
    }
  }

  lemma {:induction false} RunConcat(s: State, es: seq<Event>, fs: seq<Event>)
    requires IsRun(s, es) && IsRun(After(s, es), fs)
    ensures IsRun(s, es + fs) && After(s, es + fs) == After(After(s, es), fs)
  {
    if fs == [] {
      assert es + fs == es;
    } else {
      RunConcat(s, es, fs[..|fs| - 1]);
      assert (es + fs)[..|es + fs| - 1] == es + fs[..|fs| - 1];
    }
  }

  /** The state after the first k events of a run from the start. */
  function At(es: seq<Event>, k: nat): State
    requires IsRun(INITIAL, es) && k <= |es|
  {
    RunPrefix(INITIAL, es, k);
    After(INITIAL, es[..k])
  }

  lemma InvAt(es: seq<Event>, k: nat)
    requires IsRun(INITIAL, es) && k <= |es|
    ensures Inv(At(es, k))
  {
    RunPrefix(INITIAL, es, k);
    InvAfter(INITIAL, es[..k]);
  }

  lemma AtStep(es: seq<Event>, k: nat)
    requires IsRun(INITIAL, es) && k < |es|
    ensures Enabled(At(es, k), es[k]) && At(es, k + 1) == Next(At(es, k), es[k])
    ensures Inv(At(es, k))
  {
    RunPrefix(INITIAL, es, k);
    InvAt(es, k);
  }

  lemma RunOne(s: State, e: Event)
    requires Enabled(s, e)
    ensures IsRun(s, [e]) && After(s, [e]) == Next(s, e)
  {
    assert [e][..0] == [];
  }

  lemma RunTwo(s: State, e: Event, f: Event)
    requires Enabled(s, e) && Enabled(Next(s, e), f)
    ensures IsRun(s, [e, f]) && After(s, [e, f]) == Next(Next(s, e), f)
  {
    RunOne(s, e);
    assert [e, f][..1] == [e];
  }

  // ---------- Naming and non-aliasing ----------

  predicate Named(s: State, b: BusId, id: string) {
    b < |s.buses| && s.buses[b].name == id
  }

  /** Every bus in the table, in flight or obtained was constructed for that identifier. */
  predicate Naming(s: State) {
    && (forall id :: id in s.table ==> Named(s, s.table[id], id))
    && (forall t :: t in s.pc && (s.pc[t].Made? || s.pc[t].Got?) ==> Named(s, s.pc[t].bus, s.pc[t].id))
  }

  /** No thread constructs two buses for one identifier. */
  predicate MakesOnce(s: State) {
    forall b, b' :: 0 <= b < b' < |s.buses| ==>
      s.buses[b].name != s.buses[b'].name || s.buses[b].maker != s.buses[b'].maker
  }

  /** Once a bus is constructed its identifier is bound, or its maker is about to bind it. */
  predicate MadeIsPut(s: State) {
    && (forall b :: 0 <= b < |s.buses| ==>
          s.buses[b].name in s.table ||
          (s.buses[b].maker in s.pc && s.pc[s.buses[b].maker].Made? && s.pc[s.buses[b].maker].bus == b))
    && (forall t :: t in s.pc && s.pc[t].Made? && s.pc[t].bus < |s.buses| ==> s.buses[s.pc[t].bus].maker == t)
  }

  /** A thread that missed has never constructed a bus for that identifier. */
  predicate MissIsFirst(s: State) {
    forall t, b :: t in s.pc && s.pc[t].Missed? && 0 <= b < |s.buses| ==>
      s.buses[b].name != s.pc[t].id || s.buses[b].maker != t
  }

  /** A bus still to be put is held by its maker only. */
  predicate Unpublished(s: State) {
    forall t :: t in s.pc && s.pc[t].Made? ==>
      && s.pc[t].bus !in s.table.Values
      && (forall t' :: t' in s.pc && t' != t ==> !s.pc[t'].Holds(s.pc[t].bus))
  }

  predicate Inv(s: State) {
    Naming(s) && MakesOnce(s) && MadeIsPut(s) && MissIsFirst(s) && Unpublished(s)
  }

  lemma NamingStep(s: State, e: Event)
    requires Naming(s) && Enabled(s, e)
    ensures Naming(Next(s, e))
  {
  }

  lemma MakesOnceStep(s: State, e: Event)
    requires Inv(s) && Enabled(s, e)
    ensures MakesOnce(Next(s, e))
  {
  }

  lemma MadeIsPutStep(s: State, e: Event)
    requires Inv(s) && Enabled(s, e)
    ensures MadeIsPut(Next(s, e))
  {
  }

  lemma MissIsFirstStep(s: State, e: Event)
    requires Inv(s) && Enabled(s, e)
    ensures MissIsFirst(Next(s, e))
  {
  }

  lemma UnpublishedStep(s: State, e: Event)
    requires Inv(s) && Enabled(s, e)
    ensures Unpublished(Next(s, e))
  {
  }

  lemma InvStep(s: State, e: Event)
    requires Inv(s) && Enabled(s, e)
    ensures Inv(Next(s, e))
  {
    NamingStep(s, e);
    MakesOnceStep(s, e);
    MadeIsPutStep(s, e);
    MissIsFirstStep(s, e);
    UnpublishedStep(s, e);
  }

  lemma {:induction false} InvAfter(s: State, es: seq<Event>)
    requires Inv(s) && IsRun(s, es)
    ensures Inv(After(s, es))
  {
    if es != [] {
      InvAfter(s, es[..|es| - 1]);
      InvStep(After(s, es[..|es| - 1]), es[|es| - 1]);
    }
  }

  /** A bus that is mapped, in flight or obtained for an identifier serves that one only. */
  ghost predicate Unaliased(s: State) {
    && (forall id, id' :: id in s.table && id' in s.table && s.table[id] == s.table[id'] ==> id == id')
    && (forall t, id :: t in s.pc && id in s.table && s.pc[t].Holds(s.table[id]) ==> s.pc[t].id == id)
    && (forall t, t', b: BusId :: t in s.pc && t' in s.pc && s.pc[t].Holds(b) && s.pc[t'].Holds(b) ==>
          s.pc[t].id == s.pc[t'].id)
  }

  lemma NamingUnaliased(s: State)
    requires Naming(s)
    ensures Unaliased(s)
  {
  }

  /** After every run, under every interleaving, buses carry the name of the identifier they
      were constructed for, and none is shared by two identifiers. */
  lemma {:induction false} NoAliasing(es: seq<Event>)
    requires IsRun(INITIAL, es)
    ensures Naming(After(INITIAL, es)) && Unaliased(After(INITIAL, es))
  {
    InvAfter(INITIAL, es);
    NamingUnaliased(After(INITIAL, es));
  }
}
