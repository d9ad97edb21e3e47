/**
 What concurrent getBus promises over whole runs: how many buses an identifier can get, when its
 binding is final, and exactly when all calls for it obtain the same bus.
 */
module BusLaws {
  import opened BusSpec
  import opened BusProtocol

  /** The threads between a null read of the identifier and the put for it. */
  function Pending(s: State, id: string): set<Thread> {
    set t | t in s.pc && s.pc[t].Creating(id)
  }

  predicate IsPutOf(s: State, e: Event, id: string) {
    e.Put? && e.t in s.pc && s.pc[e.t].id == id
  }

  /** How many puts for the identifier a run makes. */
  function Puts(s: State, es: seq<Event>, id: string): nat
    requires IsRun(s, es)
  {
    if es == [] then 0
    else
      var before := es[..|es| - 1];
      Puts(s, before, id) + if IsPutOf(After(s, before), es[|es| - 1], id) then 1 else 0
  }

  // ---------- Rebinding and stability ----------

  lemma PendingStep(s: State, e: Event, id: string)
    requires Enabled(s, e) && id in s.table
    ensures id in Next(s, e).table
    ensures IsPutOf(s, e, id) ==> Pending(s, id) == Pending(Next(s, e), id) + {e.t} && e.t !in Pending(Next(s, e), id)
    ensures !IsPutOf(s, e, id) ==> Pending(Next(s, e), id) == Pending(s, id) && Next(s, e).table[id] == s.table[id]
  {
    var s' := Next(s, e);
    assert forall t :: t != e.t ==> (t in Pending(s', id) <==> t in Pending(s, id));
  }

  /** Rebinding measure: once an identifier is bound, every put for it uses up one of the threads
      pending at that moment, and none joins them. So it is rebound at most |Pending| times. */
  lemma {:induction false} RebindingMeasure(s: State, es: seq<Event>, id: string)
    requires IsRun(s, es) && id in s.table
    ensures id in After(s, es).table
    ensures Pending(After(s, es), id) <= Pending(s, id)
    ensures |Pending(After(s, es), id)| + Puts(s, es, id) == |Pending(s, id)|
    ensures Puts(s, es, id) == 0 ==> After(s, es).table[id] == s.table[id]
  {
    if es != [] {
      RebindingMeasure(s, es[..|es| - 1], id);
      PendingStep(After(s, es[..|es| - 1]), es[|es| - 1], id);
    }
  }

  /** The bus is constructed, and no thread is about to put it. */
  predicate Published(s: State, b: BusId) {
    b < |s.buses| && forall t :: t in s.pc && s.pc[t].Made? ==> s.pc[t].bus != b
  }

  /** Stability: a binding with no pending thread is final. */
  lemma Stable(s: State, es: seq<Event>, id: string)
    requires IsRun(s, es) && id in s.table && Pending(s, id) == {}
    ensures id in After(s, es).table && After(s, es).table[id] == s.table[id]
    ensures Pending(After(s, es), id) == {}
  {
    RebindingMeasure(s, es, id);
  }

  /** The steps that take a pending thread to the bus it constructs. */
  function Finish(s: State, t: Thread): seq<Event>
    requires t in s.pc
  {
    if s.pc[t].Missed? then [Create(t), Put(t)] else [Put(t)]
  }

  /** The put of a constructed bus binds its identifier to a bus it was not bound to. */
  lemma PutRebinds(s: State, t: Thread, id: string)
    requires Inv(s) && t in s.pc && s.pc[t].Made? && s.pc[t].id == id
    ensures var s', b := Next(s, Put(t)), s.pc[t].bus;
            && Inv(s') && id in s'.table && s'.table[id] == b
            && Named(s', b, id) && s'.buses[b].maker == t
            && s'.pc == s.pc[t := Got(id, s.pc[t].action, b)]
            && Pending(s', id) == Pending(s, id) - {t}
            && (id in s.table ==> b != s.table[id])
  {
    InvStep(s, Put(t));
    assert id in s.table ==> s.table[id] in s.table.Values;
  }

  lemma CreateKeepsPending(s: State, t: Thread, id: string)
    requires Inv(s) && t in s.pc && s.pc[t].Missed? && s.pc[t].id == id
    ensures var s' := Next(s, Create(t));
            && Inv(s') && s'.table == s.table && Pending(s', id) == Pending(s, id)
            && s'.pc == s.pc[t := Made(id, s.pc[t].action, |s.buses|)]
  {
    InvStep(s, Create(t));
  }

  /** A pending thread that goes on alone binds its identifier to its own bus. */
  lemma FinishRuns(s: State, t: Thread, id: string)
    requires Inv(s) && t in Pending(s, id)
    ensures IsRun(s, Finish(s, t))
    ensures var s' := After(s, Finish(s, t));
            && Inv(s') && id in s'.table
            && Named(s', s'.table[id], id) && s'.buses[s'.table[id]].maker == t
            && Pending(s', id) == Pending(s, id) - {t}
            && (id in s.table ==> s'.table[id] != s.table[id])
  {
    if s.pc[t].Missed? {
      CreateKeepsPending(s, t, id);
      RunTwo(s, Create(t), Put(t));
      PutRebinds(Next(s, Create(t)), t, id);
    } else {
      RunOne(s, Put(t));
      PutRebinds(s, t, id);
    }
  }

  lemma FinishPuts(s: State, t: Thread, id: string)
    requires Inv(s) && t in Pending(s, id)
    ensures IsRun(s, Finish(s, t)) && Puts(s, Finish(s, t), id) >= 1
  {
    FinishRuns(s, t, id);
    var es := Finish(s, t);
    var n := |es| - 1;
    if s.pc[t].Missed? {
      assert es[..1] == [Create(t)];
      RunOne(s, Create(t));
    }
    assert IsPutOf(After(s, es[..n]), es[n], id);
  }

  /** A binding is final exactly when no thread is pending for it. */
  lemma StableIffNonePending(s: State, id: string)
    requires Inv(s) && id in s.table
    ensures Pending(s, id) == {} <==>
            forall es :: IsRun(s, es) ==> id in After(s, es).table && After(s, es).table[id] == s.table[id]
  {
    forall es | Pending(s, id) == {} && IsRun(s, es)
      ensures id in After(s, es).table && After(s, es).table[id] == s.table[id]
    {
      Stable(s, es, id);
    }
    if t :| t in Pending(s, id) {
      FinishRuns(s, t, id);
    }
  }

  // ---------- Duplicate buses ----------

  /** The buses ever constructed for the identifier. */
  function BusesOf(s: State, id: string): set<BusId> {
    set b: BusId | b < |s.buses| && s.buses[b].name == id
  }

  predicate IsMissOf(s: State, e: Event, id: string) {
    e.Read? && e.t in s.pc && s.pc[e.t].id == id && id !in s.table
  }

  /** The threads that read null for the identifier. */
  function Missers(s: State, es: seq<Event>, id: string): set<Thread>
    requires IsRun(s, es)
  {
    if es == [] then {}
    else
      var before := es[..|es| - 1];
      Missers(s, before, id) + if IsMissOf(After(s, before), es[|es| - 1], id) then {es[|es| - 1].t} else {}
  }

  lemma {:induction false} BoundIffPut(es: seq<Event>, id: string)
    requires IsRun(INITIAL, es)
    ensures id in After(INITIAL, es).table <==> Puts(INITIAL, es, id) > 0
  {
    if es != [] {
      BoundIffPut(es[..|es| - 1], id);
    }
  }

  /** Reads give null only before the first put. */
  lemma MissesPrecedePuts(es: seq<Event>, id: string, k: nat)
    requires IsRun(INITIAL, es) && k < |es| && IsMissOf(At(es, k), es[k], id)
    ensures IsRun(INITIAL, es[..k]) && Puts(INITIAL, es[..k], id) == 0
  {
    RunPrefix(INITIAL, es, k);
    BoundIffPut(es[..k], id);
  }

  lemma {:induction false} MakersMissed(es: seq<Event>, id: string)
    requires IsRun(INITIAL, es)
    ensures Pending(After(INITIAL, es), id) <= Missers(INITIAL, es, id)
    ensures forall b :: b in BusesOf(After(INITIAL, es), id) ==>
              After(INITIAL, es).buses[b].maker in Missers(INITIAL, es, id)
  {
    if es != [] {
      var before, e := es[..|es| - 1], es[|es| - 1];
      MakersMissed(before, id);
      var s, s' := After(INITIAL, before), After(INITIAL, es);
      assert e.Create? && s.pc[e.t].id == id ==> e.t in Pending(s, id);
      forall b | b in BusesOf(s', id) ensures s'.buses[b].maker in Missers(INITIAL, es, id) {
        assert b < |s.buses| ==> b in BusesOf(s, id);
      }
      forall t | t in Pending(s', id) ensures t in Missers(INITIAL, es, id) {
        assert t != e.t ==> t in Pending(s, id);
      }
    }
  }

  /** The threads that have read null for the identifier and not yet constructed a bus. */
  function Undone(s: State, id: string): set<Thread> {
    set t | t in s.pc && s.pc[t].Missed? && s.pc[t].id == id
  }

  lemma {:induction false} MisserPendsOrBound(es: seq<Event>, id: string, t: Thread)
    requires IsRun(INITIAL, es) && t in Missers(INITIAL, es, id)
    ensures id in After(INITIAL, es).table || t in Pending(After(INITIAL, es), id)
  {
    var before := es[..|es| - 1];
    if t in Missers(INITIAL, before, id) {
      MisserPendsOrBound(before, id, t);
    }
  }

  lemma MissesOnce(es: seq<Event>, id: string, e: Event)
    requires IsRun(INITIAL, es) && IsMissOf(After(INITIAL, es), e, id) && Enabled(After(INITIAL, es), e)
    ensures e.t !in Missers(INITIAL, es, id)
  {
    if e.t in Missers(INITIAL, es, id) {
      MisserPendsOrBound(es, id, e.t);
    }
  }

  predicate IsCreateOf(s: State, e: Event, id: string) {
    e.Create? && e.t in s.pc && s.pc[e.t].id == id
  }

  /** A null read adds its thread, and the construction takes it away. */
  lemma UndoneStep(s: State, e: Event, id: string)
    requires Enabled(s, e)
    ensures IsMissOf(s, e, id) ==> Undone(Next(s, e), id) == Undone(s, id) + {e.t} && e.t !in Undone(s, id)
    ensures IsCreateOf(s, e, id) ==> Undone(s, id) == Undone(Next(s, e), id) + {e.t} && e.t !in Undone(Next(s, e), id)
    ensures !IsMissOf(s, e, id) && !IsCreateOf(s, e, id) ==> Undone(Next(s, e), id) == Undone(s, id)
  {
    assert forall t :: t != e.t ==> (t in Undone(Next(s, e), id) <==> t in Undone(s, id));
  }

  lemma BusesStep(s: State, e: Event, id: string)
    requires Enabled(s, e)
    ensures IsCreateOf(s, e, id) ==>
              BusesOf(Next(s, e), id) == BusesOf(s, id) + {|s.buses|} && |s.buses| !in BusesOf(s, id)
    ensures !IsCreateOf(s, e, id) ==> BusesOf(Next(s, e), id) == BusesOf(s, id)
  {
  }

  /** Exactly as many buses are constructed for an identifier as threads read null for it, but for
      those threads that have still to construct theirs. */
  lemma {:induction false} DuplicationExact(es: seq<Event>, id: string)
    requires IsRun(INITIAL, es)
    ensures |BusesOf(After(INITIAL, es), id)| + |Undone(After(INITIAL, es), id)| == |Missers(INITIAL, es, id)|
  {
    if es != [] {
      var before, e := es[..|es| - 1], es[|es| - 1];
      DuplicationExact(before, id);
      UndoneStep(After(INITIAL, before), e, id);
      BusesStep(After(INITIAL, before), e, id);
      if IsMissOf(After(INITIAL, before), e, id) {
        MissesOnce(before, id, e);
      }
    }
  }

  /** After the first put no thread joins those that read null. */
  lemma {:induction false} MissersFinal(es: seq<Event>, fs: seq<Event>, id: string)
    requires IsRun(INITIAL, es) && IsRun(INITIAL, es + fs) && Puts(INITIAL, es, id) > 0
    ensures Missers(INITIAL, es + fs, id) == Missers(INITIAL, es, id) && Puts(INITIAL, es + fs, id) > 0
  {
    if fs == [] {
      assert es + fs == es;
    } else {
      var before := es + fs[..|fs| - 1];
      assert (es + fs)[..|es + fs| - 1] == before;
      MissersFinal(es, fs[..|fs| - 1], id);
      BoundIffPut(before, id);
    }
  }

  /** Duplication bound: the buses ever constructed for an identifier have pairwise different
      makers, and number at most the threads that read null before its first put. */
  lemma DuplicationBound(es: seq<Event>, fs: seq<Event>, id: string)
    requires IsRun(INITIAL, es) && IsRun(INITIAL, es + fs) && Puts(INITIAL, es, id) > 0
    ensures var s := After(INITIAL, es + fs);
            && (forall b, b' :: b in BusesOf(s, id) && b' in BusesOf(s, id) && b != b' ==>
                  s.buses[b].maker != s.buses[b'].maker)
            && (forall b :: b in BusesOf(s, id) ==> s.buses[b].maker in Missers(INITIAL, es, id))
            && |BusesOf(s, id)| <= |Missers(INITIAL, es, id)|
  {
    InvAfter(INITIAL, es + fs);
    MissersFinal(es, fs, id);
    MakersMissed(es + fs, id);
    DuplicationExact(es + fs, id);
    var s := After(INITIAL, es + fs);
    forall b, b' | b in BusesOf(s, id) && b' in BusesOf(s, id) && b != b'
      ensures s.buses[b].maker != s.buses[b'].maker
    {
      assert b < b' || b' < b;
    }
  }

  // ---------- Do all calls obtain the same bus? ----------

  /** The bus, if any, that a call for the identifier obtains in this step. */
  function Obtained(s: State, e: Event, id: string): set<BusId>
    requires Enabled(s, e)
  {
    if e.Read? && s.pc[e.t].id == id && id in s.table then {s.table[id]}
    else if IsPutOf(s, e, id) then {s.pc[e.t].bus}
    else {}
  }

  /** The buses that the calls for an identifier have obtained. */
  function Returned(s: State, es: seq<Event>, id: string): set<BusId>
    requires IsRun(s, es)
  {
    if es == [] then {}
    else
      var before := es[..|es| - 1];
      Returned(s, before, id) + Obtained(After(s, before), es[|es| - 1], id)
  }

  predicate SameBus(bs: set<BusId>) {
    forall b, b' :: b in bs && b' in bs ==> b == b'
  }

  /** The buses bs obtained so far, and the number n of puts so far, in state s. */
  predicate ReturnsSoFar(s: State, bs: set<BusId>, n: nat, id: string) {
    && (forall t :: t in s.pc && s.pc[t].Made? ==> s.pc[t].bus !in bs)
    && (n == 0 <==> id !in s.table)
    && (n == 0 ==> bs == {})
    && (n > 0 ==> s.table[id] in bs)
    && (SameBus(bs) <==> n <= 1)
    && (forall b :: b in bs ==> b < |s.buses|)
    && (forall t :: t in s.pc && s.pc[t].Got? && s.pc[t].id == id ==> s.pc[t].bus in bs)
  }

  lemma ReturnsStep(s: State, e: Event, bs: set<BusId>, n: nat, id: string)
    requires Inv(s) && Enabled(s, e) && ReturnsSoFar(s, bs, n, id)
    ensures ReturnsSoFar(Next(s, e), bs + Obtained(s, e, id), n + if IsPutOf(s, e, id) then 1 else 0, id)
  {
    var s', bs' := Next(s, e), bs + Obtained(s, e, id);
    if IsPutOf(s, e, id) {
      var b := s.pc[e.t].bus;
      assert b in bs';
      if n > 0 {
        assert s.table[id] in bs' && s.table[id] != b;
      }
    } else {
      assert bs' == bs;
    }
  }

  lemma {:induction false} ReturnsAlways(es: seq<Event>, id: string)
    requires IsRun(INITIAL, es)
    ensures ReturnsSoFar(After(INITIAL, es), Returned(INITIAL, es, id), Puts(INITIAL, es, id), id)
  {
    if es != [] {
      var before := es[..|es| - 1];
      ReturnsAlways(before, id);
      InvAfter(INITIAL, before);
      ReturnsStep(After(INITIAL, before), es[|es| - 1], Returned(INITIAL, before, id), Puts(INITIAL, before, id), id);
    }
  }

  /** Agreement: all calls of a run obtain one and the same bus for an identifier exactly when
      the run puts at most one bus for it. */
  lemma AgreementIffOnePut(es: seq<Event>, id: string)
    requires IsRun(INITIAL, es)
    ensures SameBus(Returned(INITIAL, es, id)) <==> Puts(INITIAL, es, id) <= 1
  {
    ReturnsAlways(es, id);
  }

  /** At most one put for every identifier, that is, all calls for an identifier obtain one bus. */
  ghost predicate OnePutEach(es: seq<Event>)
    requires IsRun(INITIAL, es)
  {
    forall id :: Puts(INITIAL, es, id) <= 1
  }

  /** So it was before the last event, and if that is a put its identifier was not yet bound. */
  lemma OnePutBefore(es: seq<Event>)
    requires IsRun(INITIAL, es) && es != [] && OnePutEach(es)
    ensures OnePutEach(es[..|es| - 1])
    ensures var s, e := After(INITIAL, es[..|es| - 1]), es[|es| - 1]; e.Put? ==> s.pc[e.t].id !in s.table
  {
    var before, e := es[..|es| - 1], es[|es| - 1];
    forall id ensures Puts(INITIAL, before, id) <= 1 {
      assert Puts(INITIAL, es, id) <= 1;
    }
    if e.Put? {
      var id := After(INITIAL, before).pc[e.t].id;
      assert Puts(INITIAL, es, id) == Puts(INITIAL, before, id) + 1;
      BoundIffPut(before, id);
    }
  }

  /** With at most one put, every call in progress that has its bus has the one in the table. */
  lemma OnePutBus(es: seq<Event>, id: string, t: Thread)
    requires IsRun(INITIAL, es) && Puts(INITIAL, es, id) <= 1
    requires var s := After(INITIAL, es); t in s.pc && s.pc[t].Got? && s.pc[t].id == id
    ensures id in After(INITIAL, es).table && After(INITIAL, es).table[id] == After(INITIAL, es).pc[t].bus
  {
    ReturnsAlways(es, id);
  }

  /** At no time are two threads pending for the identifier. */
  predicate NoOverlap(es: seq<Event>, id: string)
    requires IsRun(INITIAL, es)
  {
    forall k :: 0 <= k <= |es| ==> |Pending(At(es, k), id)| <= 1
  }

  lemma NoOverlapPrefix(es: seq<Event>, id: string)
    requires IsRun(INITIAL, es) && es != [] && NoOverlap(es, id)
    ensures NoOverlap(es[..|es| - 1], id)
    ensures |Pending(After(INITIAL, es[..|es| - 1]), id)| <= 1
  {
    var before := es[..|es| - 1];
    forall k | 0 <= k <= |before| ensures At(es, k) == At(before, k) {
      assert es[..k] == before[..k];
    }
    assert before[..|before|] == before;
    assert At(before, |before|) == After(INITIAL, before);
  }

  lemma {:induction false} NoOverlapOnePut(es: seq<Event>, id: string)
    requires IsRun(INITIAL, es) && NoOverlap(es, id)
    ensures id in After(INITIAL, es).table ==> Pending(After(INITIAL, es), id) == {}
    ensures Puts(INITIAL, es, id) == if id in After(INITIAL, es).table then 1 else 0
  {
    if es != [] {
      var before, e := es[..|es| - 1], es[|es| - 1];
      var s := After(INITIAL, before);
      NoOverlapPrefix(es, id);
      NoOverlapOnePut(before, id);
      if id in s.table {
        PendingStep(s, e, id);
      } else if IsPutOf(s, e, id) {
        Singleton(Pending(s, id), e.t);
        assert forall t :: t in Pending(After(INITIAL, es), id) ==> t in Pending(s, id) && t != e.t;
      }
    }
  }

  lemma Singleton<X>(xs: set<X>, x: X)
    requires x in xs && |xs| <= 1
    ensures xs == {x}
  {
    assert |xs - {x}| == |xs| - 1;
    assert xs - {x} == {};
  }

  lemma TwoElements<X>(xs: set<X>) returns (x: X, y: X)
    requires |xs| > 1
    ensures x in xs && y in xs && x != y
  {
    x :| x in xs;
    assert |xs - {x}| == |xs| - 1;
    y :| y in xs - {x};
  }

  lemma {:induction false} PutsConcat(s: State, es: seq<Event>, fs: seq<Event>, id: string)
    requires IsRun(s, es) && IsRun(After(s, es), fs)
    ensures IsRun(s, es + fs) && Puts(s, es + fs, id) == Puts(s, es, id) + Puts(After(s, es), fs, id)
  {
    RunConcat(s, es, fs);
    if fs == [] {
      assert es + fs == es;
    } else {
      var fs' := fs[..|fs| - 1];
      PutsConcat(s, es, fs', id);
      RunConcat(s, es, fs');
      assert (es + fs)[..|es + fs| - 1] == es + fs';
    }
  }

  /** Two threads pending at once can both go on to put, and then obtain different buses. */
  lemma OverlapForks(es: seq<Event>, id: string, t: Thread, t': Thread) returns (fs: seq<Event>)
    requires IsRun(INITIAL, es) && t != t'
    requires t in Pending(After(INITIAL, es), id) && t' in Pending(After(INITIAL, es), id)
    ensures IsRun(INITIAL, es + fs) && !SameBus(Returned(INITIAL, es + fs, id))
  {
    var s := After(INITIAL, es);
    InvAfter(INITIAL, es);
    var f := Finish(s, t);
    FinishRuns(s, t, id);
    FinishPuts(s, t, id);
    var s' := After(s, f);
    var f' := Finish(s', t');
    FinishRuns(s', t', id);
    FinishPuts(s', t', id);
    PutsConcat(s, f, f', id);
    RunConcat(s, f, f');
    fs := f + f';
    PutsConcat(INITIAL, es, fs, id);
    AgreementIffOnePut(es + fs, id);
  }

  /** The non-overlap condition is exact: with it all calls of the run obtain one bus, and
      without it some moment of the run can continue so that they do not. */
  lemma NoOverlapExact(es: seq<Event>, id: string)
    requires IsRun(INITIAL, es)
    ensures NoOverlap(es, id) ==> SameBus(Returned(INITIAL, es, id))
    ensures !NoOverlap(es, id) ==>
              exists k, fs ::
                0 <= k <= |es| && IsRun(INITIAL, es[..k] + fs) && !SameBus(Returned(INITIAL, es[..k] + fs, id))
  {
    if NoOverlap(es, id) {
      NoOverlapOnePut(es, id);
      AgreementIffOnePut(es, id);
    } else {
      var k :| 0 <= k <= |es| && |Pending(At(es, k), id)| > 1;
      RunPrefix(INITIAL, es, k);
      var t, t' := TwoElements(Pending(At(es, k), id));
      var fs := OverlapForks(es[..k], id, t, t');
    }
  }
}
