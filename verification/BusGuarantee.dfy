/** Exactly when a subscriber can rely on being found by all calls to come. */
module BusGuarantee {
  import opened BusSpec
  import opened BusProtocol
  import opened BusLaws
  import opened BusDelivery
  import opened BusSequential

  predicate FindsAt(es: seq<Event>, q: nat, x: Subscriber)
    requires IsRun(INITIAL, es) && q < |es|
  {
    Enabled(At(es, q), es[q]) && Finds(At(es, q), es[q], x)
  }

  /** In every continuation of the run, every call with this action that obtains its bus from now
      on finds the subscriber, unless it has been unregistered by then. */
  ghost predicate AlwaysFound(es: seq<Event>, id: string, x: Subscriber, a: Action)
    requires IsRun(INITIAL, es)
  {
    forall run: seq<Event>, u: Thread, p: nat, q: nat ::
      es <= run && IsRun(INITIAL, run) && |es| <= p && CallAt(run, u, id, a, p, q) && Kept(run, id, x, |es|, q) ==>
        FindsAt(run, q, x)
  }

  /** The identifier is bound, nobody is creating for it, and the subscriber is on the bound bus. */
  predicate Secured(s: State, id: string, x: Subscriber) {
    Settled(s, id) && Subscribed(s, s.table[id], x)
  }

  // ---------- Secured is enough ----------

  lemma SecuredIsFound(es: seq<Event>, id: string, x: Subscriber, a: Action,
                       run: seq<Event>, u: Thread, p: nat, q: nat)
    requires IsRun(INITIAL, es) && Secured(After(INITIAL, es), id, x)
    requires es <= run && IsRun(INITIAL, run) && |es| <= p && CallAt(run, u, id, a, p, q)
    requires Kept(run, id, x, |es|, q)
    ensures FindsAt(run, q, x)
  {
    var k := |es|;
    assert run[..k] == es;
    InvAt(run, k);
    SettledNoPut(run, id, k, p + 1);
    SameBindingIffNoPut(run, id, k, p + 1);
    SubscriberStays(run, id, At(run, k).table[id], x, k, q);
    CallActsOn(run, u, id, a, p, q);
    AtStep(run, q);
  }

  // ---------- Secured is needed ----------

  lemma {:induction false} AboveAll(ts: set<Thread>) returns (u: Thread)
    ensures forall t :: t in ts ==> t < u
  {
    u := 0;
    if t :| t in ts {
      var v := AboveAll(ts - {t});
      u := if t < v then v else t + 1;
      forall t' | t' in ts ensures t' < u {
        assert t' != t ==> t' in ts - {t};
      }
    }
  }

  /** The state before the last event, when a run is followed by a call, some steps and the action. */
  lemma BeforeLast(es: seq<Event>, call: Event, mid: seq<Event>, act: Event)
    requires IsRun(INITIAL, es) && Enabled(After(INITIAL, es), call) && IsRun(Next(After(INITIAL, es), call), mid)
    requires Enabled(After(Next(After(INITIAL, es), call), mid), act)
    ensures var run := es + ([call] + (mid + [act]));
            && IsRun(INITIAL, run)
            && At(run, |run| - 1) == After(Next(After(INITIAL, es), call), mid)
  {
    var s, run := After(INITIAL, es), es + ([call] + (mid + [act]));
    RunAround(s, call, mid, act);
    RunConcat(INITIAL, es, [call] + (mid + [act]));
    assert run[..|run| - 1] == es + ([call] + mid);
    RunOne(s, call);
    RunConcat(s, [call], mid);
    RunConcat(INITIAL, es, [call] + mid);
  }

  /** A thread that has its bus right after its read or its put has obtained it by that step. */
  lemma JustObtained(run: seq<Event>, u: Thread, id: string, a: Action, q: nat)
    requires IsRun(INITIAL, run) && 0 < q < |run|
    requires run[q - 1] == Read(u) || run[q - 1] == Put(u)
    requires run[q] == Act(u) && u in At(run, q).pc && At(run, q).pc[u].Got?
    requires At(run, q).pc[u].id == id && At(run, q).pc[u].action == a
    ensures CallAt(run, u, id, a, q - 1, q)
  {
    AtStep(run, q - 1);
  }

  lemma FindsShown(s: State, u: Thread, id: string, x: Subscriber)
    requires Naming(s) && id in s.table && u in s.pc && s.pc[u].Got? && s.pc[u].bus == s.table[id]
    ensures Enabled(s, Act(u)) && (Finds(s, Act(u), x) <==> x in SubsOf(ViewOf(s), id))
  {
  }

  /** The run with a fresh thread's call appended. */
  function WithCall(es: seq<Event>, u: Thread, id: string, a: Action): (run: seq<Event>)
    requires IsRun(INITIAL, es)
    ensures |es| + 3 <= |run| && es <= run
  {
    es + Alone(After(INITIAL, es), u, Request(id, a))
  }

  lemma WithCallActs(es: seq<Event>, u: Thread, id: string, a: Action, x: Subscriber)
    requires IsRun(INITIAL, es) && Naming(After(INITIAL, es)) && u !in After(INITIAL, es).pc
    ensures var run := WithCall(es, u, id, a);
            && IsRun(INITIAL, run)
            && var s := At(run, |run| - 1);
               && u in s.pc && s.pc[u].Got? && s.pc[u].id == id && s.pc[u].action == a
               && Enabled(s, Act(u)) && (Finds(s, Act(u), x) <==> x in SubsOf(ViewOf(After(INITIAL, es)), id))
  {
    var s, call := After(INITIAL, es), Call(u, id, a);
    CallObtains(s, u, Request(id, a));
    FindsShown(After(Next(s, call), Obtain(s, u, id)), u, id, x);
    BeforeLast(es, call, Obtain(s, u, id), Act(u));
  }

  lemma WithCallEvents(es: seq<Event>, u: Thread, id: string, a: Action)
    requires IsRun(INITIAL, es)
    ensures var run := WithCall(es, u, id, a); var q := |run| - 1;
            && run[q] == Act(u) && (run[q - 1] == Read(u) || run[q - 1] == Put(u))
            && forall n :: |es| <= n < q ==> !run[n].Act?
  {
  }

  /** A fresh thread that calls next, and is not interrupted, finds what the table shows. */
  lemma FreshCall(es: seq<Event>, u: Thread, id: string, a: Action, x: Subscriber)
    requires IsRun(INITIAL, es) && Naming(After(INITIAL, es)) && u !in After(INITIAL, es).pc
    ensures var run := WithCall(es, u, id, a); var q := |run| - 1;
            && IsRun(INITIAL, run) && CallAt(run, u, id, a, q - 1, q)
            && (FindsAt(run, q, x) <==> x in SubsOf(ViewOf(After(INITIAL, es)), id))
  {
    var run := WithCall(es, u, id, a);
    WithCallActs(es, u, id, a, x);
    WithCallEvents(es, u, id, a);
    JustObtained(run, u, id, a, |run| - 1);
  }

  /** A pending thread that goes on alone puts a bus without subscribers. */
  lemma PutHidesAll(es: seq<Event>, id: string, t: Thread)
    requires IsRun(INITIAL, es) && t in Pending(After(INITIAL, es), id)
    ensures var run := es + Finish(After(INITIAL, es), t);
            && IsRun(INITIAL, run) && Naming(After(INITIAL, run))
            && SubsOf(ViewOf(After(INITIAL, run)), id) == {}
            && forall n :: |es| <= n < |run| ==> !run[n].Act?
  {
    var s := After(INITIAL, es);
    InvAfter(INITIAL, es);
    FinishRuns(s, t, id);
    RunConcat(INITIAL, es, Finish(s, t));
    if s.pc[t].Missed? {
      RunTwo(s, Create(t), Put(t));
    } else {
      RunOne(s, Put(t));
      UnpublishedUnacted(es, t);
      SubscribersAre(es, s.pc[t].bus);
    }
  }

  /** The subscriber can be hidden: some continuation without actions leaves it out of sight. */
  lemma Hidden(es: seq<Event>, id: string, x: Subscriber) returns (run: seq<Event>)
    requires IsRun(INITIAL, es) && !Secured(After(INITIAL, es), id, x)
    ensures es <= run && IsRun(INITIAL, run) && Naming(After(INITIAL, run))
    ensures x !in SubsOf(ViewOf(After(INITIAL, run)), id)
    ensures forall n :: |es| <= n < |run| ==> !run[n].Act?
  {
    run := es;
    InvAfter(INITIAL, es);
    if t :| t in Pending(After(INITIAL, es), id) {
      PutHidesAll(es, id, t);
      run := es + Finish(After(INITIAL, es), t);
    }
  }

  lemma KeptIfNoAct(run: seq<Event>, id: string, x: Subscriber, j: nat, k: nat)
    requires IsRun(INITIAL, run) && k <= |run| && forall n :: j <= n < k ==> !run[n].Act?
    ensures Kept(run, id, x, j, k)
  {
  }

  lemma UnsecuredIsMissed(es: seq<Event>, id: string, x: Subscriber, a: Action)
    requires IsRun(INITIAL, es) && !Secured(After(INITIAL, es), id, x)
    ensures !AlwaysFound(es, id, x, a)
  {
    var es' := Hidden(es, id, x);
    var u := AboveAll(After(INITIAL, es').pc.Keys);
    FreshCall(es', u, id, a, x);
    var run := WithCall(es', u, id, a);
    var q := |run| - 1;
    WithCallEvents(es', u, id, a);
    KeptIfNoAct(run, id, x, |es|, q);
    assert !FindsAt(run, q, x);
  }

  /** Exact delivery: after any run, all posts that obtain their bus from then on reach a subscriber,
      in every continuation and as long as it is not unregistered, if and only if the identifier is
      bound, no thread is between its null read and its put for it, and the subscriber is on the
      bound bus. The same holds of every other action, so of unregistrations that must know it. */
  lemma FoundIffSecured(es: seq<Event>, id: string, x: Subscriber, a: Action)
    requires IsRun(INITIAL, es)
    ensures AlwaysFound(es, id, x, a) <==> Secured(After(INITIAL, es), id, x)
  {
    if Secured(After(INITIAL, es), id, x) {
      forall run: seq<Event>, u: Thread, p: nat, q: nat |
        es <= run && IsRun(INITIAL, run) && |es| <= p && CallAt(run, u, id, a, p, q) && Kept(run, id, x, |es|, q)
        ensures FindsAt(run, q, x)
      {
        SecuredIsFound(es, id, x, a, run, u, p, q);
      }
    } else {
      UnsecuredIsMissed(es, id, x, a);
    }
  }
}
