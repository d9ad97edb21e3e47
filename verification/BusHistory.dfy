/**
 What every bus holds and what every post reaches, read off the events of the run: for all buses,
 those that the table has lost included, and whatever is put when.
 */
module BusHistory {
  import opened BusSpec
  import opened BusProtocol
  import opened BusLaws
  import opened BusDelivery

  /** The step is the action a, taken on bus b. */
  predicate ActsWith(s: State, e: Event, b: BusId, a: Action) {
    e.Act? && e.t in s.pc && s.pc[e.t].Got? && s.pc[e.t].bus == b && s.pc[e.t].action == a
  }

  // ---------- One step ----------

  /** Only actions change subscribers, and an action only those of the bus it is taken on. */
  lemma OnlyActsChange(s: State, e: Event, b: BusId)
    requires Enabled(s, e) && b < |s.buses|
    requires !(e.Act? && s.pc[e.t].bus == b)
    ensures b < |Next(s, e).buses| && Next(s, e).buses[b] == s.buses[b]
  {
  }

  lemma SubscribedNext(s: State, e: Event, b: BusId, x: Subscriber)
    requires Enabled(s, e)
    ensures Subscribed(Next(s, e), b, x) <==>
            ActsWith(s, e, b, Register(x)) || (Subscribed(s, b, x) && !ActsWith(s, e, b, Unregister(x)))
  {
  }

  // ---------- Whole runs ----------

  /** Event n, before k, registers the subscriber on the bus, and none after it unregisters it there. */
  predicate RegisteredAt(es: seq<Event>, b: BusId, x: Subscriber, n: nat, k: nat)
    requires IsRun(INITIAL, es) && k <= |es|
  {
    && n < k && ActsWith(At(es, n), es[n], b, Register(x))
    && forall m {:trigger At(es, m)} :: n < m < k ==> !ActsWith(At(es, m), es[m], b, Unregister(x))
  }

  predicate RegisteredBefore(es: seq<Event>, b: BusId, x: Subscriber, k: nat)
    requires IsRun(INITIAL, es) && k <= |es|
  {
    exists n :: 0 <= n < k && RegisteredAt(es, b, x, n, k)
  }

  lemma RegisteredAtSnoc(es: seq<Event>, b: BusId, x: Subscriber, n: nat, k: nat)
    requires IsRun(INITIAL, es) && n <= k < |es|
    ensures RegisteredAt(es, b, x, n, k + 1) <==>
            if n == k then ActsWith(At(es, k), es[k], b, Register(x))
            else RegisteredAt(es, b, x, n, k) && !ActsWith(At(es, k), es[k], b, Unregister(x))
  {
    if n < k {
      if RegisteredAt(es, b, x, n, k + 1) {
        assert RegisteredAt(es, b, x, n, k);
        assert !ActsWith(At(es, k), es[k], b, Unregister(x));
      }
      if RegisteredAt(es, b, x, n, k) && !ActsWith(At(es, k), es[k], b, Unregister(x)) {
        assert RegisteredAt(es, b, x, n, k + 1);
      }
    }
  }

  lemma RegisteredSnoc(es: seq<Event>, b: BusId, x: Subscriber, k: nat)
    requires IsRun(INITIAL, es) && k < |es|
    ensures RegisteredBefore(es, b, x, k + 1) <==>
            ActsWith(At(es, k), es[k], b, Register(x)) ||
            (RegisteredBefore(es, b, x, k) && !ActsWith(At(es, k), es[k], b, Unregister(x)))
  {
    if RegisteredBefore(es, b, x, k + 1) {
      var n :| 0 <= n < k + 1 && RegisteredAt(es, b, x, n, k + 1);
      RegisteredAtSnoc(es, b, x, n, k);
    }
    RegisteredAtSnoc(es, b, x, k, k);
    if RegisteredBefore(es, b, x, k) {
      var n :| 0 <= n < k && RegisteredAt(es, b, x, n, k);
      RegisteredAtSnoc(es, b, x, n, k);
    }
  }

  /** In every interleaving and at every moment, a bus has exactly the subscribers whose
      registration on it was not followed by an unregistration on it. */
  lemma {:induction false} SubscribedExact(es: seq<Event>, b: BusId, x: Subscriber, k: nat)
    requires IsRun(INITIAL, es) && k <= |es|
    ensures Subscribed(At(es, k), b, x) <==> RegisteredBefore(es, b, x, k)
  {
    if k > 0 {
      SubscribedExact(es, b, x, k - 1);
      AtStep(es, k - 1);
      SubscribedNext(At(es, k - 1), es[k - 1], b, x);
      RegisteredSnoc(es, b, x, k - 1);
    }
  }

  /** A completed unregistration has taken the subscriber off the bus that the call obtained. */
  lemma Unregistered(es: seq<Event>, t: Thread, id: string, x: Subscriber, i: nat, j: nat)
    requires IsRun(INITIAL, es) && CallAt(es, t, id, Unregister(x), i, j)
    ensures id in At(es, i + 1).table && At(es, i + 1).table[id] < |At(es, j + 1).buses|
    ensures x !in At(es, j + 1).buses[At(es, i + 1).table[id]].subscribers
  {
    CallActsOn(es, t, id, Unregister(x), i, j);
    AtStep(es, j);
  }

  /** It stays off that bus until a registration of it there. */
  lemma {:induction false} StaysOff(es: seq<Event>, b: BusId, x: Subscriber, j: nat, k: nat)
    requires IsRun(INITIAL, es) && j <= k <= |es| && !Subscribed(At(es, j), b, x)
    requires forall n {:trigger At(es, n)} :: j <= n < k ==> !ActsWith(At(es, n), es[n], b, Register(x))
    ensures !Subscribed(At(es, k), b, x)
  {
    if j < k {
      StaysOff(es, b, x, j, k - 1);
      AtStep(es, k - 1);
      SubscribedNext(At(es, k - 1), es[k - 1], b, x);
    }
  }

  // ---------- Posts ----------

  /** What a call is about to find, and a post to reach, under any interleaving: the subscribers
      registered, and not since unregistered, on the bus that the call obtained. */
  lemma FindsExact(es: seq<Event>, t: Thread, x: Subscriber)
    requires IsRun(INITIAL, es) && Enabled(After(INITIAL, es), Act(t))
    ensures var s := After(INITIAL, es);
            && (Finds(s, Act(t), x) <==> RegisteredBefore(es, s.pc[t].bus, x, |es|))
            && (x in Receivers(s, Act(t)) <==> s.pc[t].action.Post? && RegisteredBefore(es, s.pc[t].bus, x, |es|))
  {
    SubscribedExact(es, After(INITIAL, es).pc[t].bus, x, |es|);
    assert es[..|es|] == es;
  }

  /** A post call reaches exactly the subscribers, at the time of its action, of the bus that the
      identifier was bound to when the call obtained it, bound still or not. */
  lemma PostReaches(es: seq<Event>, u: Thread, id: string, msg: Message, p: nat, q: nat)
    requires IsRun(INITIAL, es) && CallAt(es, u, id, Post(msg), p, q)
    ensures Enabled(At(es, q), es[q])
    ensures id in At(es, p + 1).table && At(es, p + 1).table[id] < |At(es, q).buses|
    ensures Receivers(At(es, q), es[q]) == At(es, q).buses[At(es, p + 1).table[id]].subscribers
  {
    CallActsOn(es, u, id, Post(msg), p, q);
    AtStep(es, q);
  }

  /** The action step q posts on the bus b. */
  predicate PostsOn(es: seq<Event>, q: nat, msg: Message, b: BusId)
    requires IsRun(INITIAL, es) && q < |es|
  {
    ActsWith(At(es, q), es[q], b, Post(msg))
  }

  /** The delivery is what the action step q makes: its message, and exactly the subscribers that
      are registered by then on the bus it is taken on. */
  ghost predicate DeliveredBy(es: seq<Event>, q: nat, d: (Message, set<Subscriber>))
    requires IsRun(INITIAL, es) && q < |es|
  {
    exists b :: PostsOn(es, q, d.0, b) && forall x :: x in d.1 <==> RegisteredBefore(es, b, x, q)
  }

  predicate IsPost(s: State, e: Event) {
    e.Act? && e.t in s.pc && s.pc[e.t].action.Post?
  }

  lemma DeliveredNext(es: seq<Event>, k: nat)
    requires IsRun(INITIAL, es) && k < |es|
    ensures IsRun(INITIAL, es[..k]) && IsRun(INITIAL, es[..k + 1]) && Enabled(At(es, k), es[k])
    ensures Delivered(es[..k + 1]) ==
            Delivered(es[..k]) +
            if IsPost(At(es, k), es[k])
            then [(At(es, k).pc[es[k].t].action.message, Receivers(At(es, k), es[k]))] else []
  {
    RunPrefix(INITIAL, es, k);
    assert es[..k + 1][..k] == es[..k];
  }

  lemma PostDelivers(es: seq<Event>, q: nat)
    requires IsRun(INITIAL, es) && q < |es| && Enabled(At(es, q), es[q]) && IsPost(At(es, q), es[q])
    ensures DeliveredBy(es, q, (At(es, q).pc[es[q].t].action.message, Receivers(At(es, q), es[q])))
  {
    var b := At(es, q).pc[es[q].t].bus;
    assert PostsOn(es, q, At(es, q).pc[es[q].t].action.message, b);
    forall x ensures x in Receivers(At(es, q), es[q]) <==> RegisteredBefore(es, b, x, q) {
      SubscribedExact(es, b, x, q);
    }
  }

  /** The post steps among the first k events, in order. */
  ghost predicate PostSteps(es: seq<Event>, k: nat, qs: seq<nat>)
    requires IsRun(INITIAL, es) && k <= |es|
  {
    && Increasing(qs)
    && (forall q: nat {:trigger q in qs} :: q in qs <==> q < k && IsPost(At(es, q), es[q]))
  }

  lemma PostStepsNext(es: seq<Event>, k: nat, qs: seq<nat>)
    requires IsRun(INITIAL, es) && k < |es| && PostSteps(es, k, qs)
    ensures PostSteps(es, k + 1, if IsPost(At(es, k), es[k]) then qs + [k] else qs)
  {
    if IsPost(At(es, k), es[k]) {
      IncreasingSnoc(qs, k);
    }
  }

  lemma {:induction false} DeliveredSoFar(es: seq<Event>, k: nat) returns (qs: seq<nat>)
    requires IsRun(INITIAL, es) && k <= |es|
    ensures IsRun(INITIAL, es[..k]) && |qs| == |Delivered(es[..k])| && PostSteps(es, k, qs)
    ensures forall i :: 0 <= i < |qs| ==> qs[i] < |es| && DeliveredBy(es, qs[i], Delivered(es[..k])[i])
  {
    qs := [];
    if k > 0 {
      qs := DeliveredSoFar(es, k - 1);
      DeliveredNext(es, k - 1);
      PostStepsNext(es, k - 1, qs);
      if IsPost(At(es, k - 1), es[k - 1]) {
        PostDelivers(es, k - 1);
        qs := qs + [k - 1];
      }
    }
  }

  /** Deliveries under any interleaving: there is one for every post step of the run, in the order
      of these steps, and it is made to whom that post reaches. */
  lemma DeliveredExact(es: seq<Event>) returns (qs: seq<nat>)
    requires IsRun(INITIAL, es)
    ensures |qs| == |Delivered(es)| && PostSteps(es, |es|, qs)
    ensures forall i :: 0 <= i < |qs| ==> qs[i] < |es| && DeliveredBy(es, qs[i], Delivered(es)[i])
  {
    qs := DeliveredSoFar(es, |es|);
    assert es[..|es|] == es;
  }

  // ---------- What the counts of a run count ----------

  /** By event n a call for the identifier obtains the bus b. */
  predicate ObtainsAt(es: seq<Event>, id: string, n: nat, b: BusId)
    requires IsRun(INITIAL, es) && n < |es|
  {
    && es[n].t in At(es, n).pc && Obtains(At(es, n), es[n], id, At(es, n).pc[es[n].t].action)
    && id in At(es, n + 1).table && At(es, n + 1).table[id] == b
  }

  lemma ReturnedNext(es: seq<Event>, id: string, k: nat, b: BusId)
    requires IsRun(INITIAL, es) && k < |es|
    ensures IsRun(INITIAL, es[..k]) && IsRun(INITIAL, es[..k + 1])
    ensures b in Returned(INITIAL, es[..k + 1], id) <==> b in Returned(INITIAL, es[..k], id) || ObtainsAt(es, id, k, b)
  {
    RunPrefix(INITIAL, es, k);
    AtStep(es, k);
    assert es[..k + 1][..k] == es[..k];
  }

  predicate ObtainedBy(es: seq<Event>, id: string, k: nat, b: BusId)
    requires IsRun(INITIAL, es) && k <= |es|
  {
    exists n :: 0 <= n < k && ObtainsAt(es, id, n, b)
  }

  lemma {:induction false} ReturnedSoFar(es: seq<Event>, id: string, k: nat, b: BusId)
    requires IsRun(INITIAL, es) && k <= |es|
    ensures IsRun(INITIAL, es[..k])
    ensures b in Returned(INITIAL, es[..k], id) <==> ObtainedBy(es, id, k, b)
  {
    if k > 0 {
      assert ObtainedBy(es, id, k, b) <==> ObtainedBy(es, id, k - 1, b) || ObtainsAt(es, id, k - 1, b);
      ReturnedSoFar(es, id, k - 1, b);
      ReturnedNext(es, id, k - 1, b);
    }
  }

  /** The buses returned for an identifier are those that some call obtained. */
  lemma ReturnedExact(es: seq<Event>, id: string, b: BusId)
    requires IsRun(INITIAL, es)
    ensures b in Returned(INITIAL, es, id) <==> exists n :: 0 <= n < |es| && ObtainsAt(es, id, n, b)
  {
    ReturnedSoFar(es, id, |es|, b);
    assert es[..|es|] == es;
  }

  /** By event n the thread reads null for the identifier. */
  predicate ReadsNullAt(es: seq<Event>, id: string, n: nat, t: Thread)
    requires IsRun(INITIAL, es) && n < |es|
  {
    es[n] == Read(t) && t in At(es, n).pc && At(es, n).pc[t].id == id && id !in At(es, n).table
  }

  lemma {:induction false} MissersSoFar(es: seq<Event>, id: string, k: nat, t: Thread)
    requires IsRun(INITIAL, es) && k <= |es|
    ensures IsRun(INITIAL, es[..k])
    ensures t in Missers(INITIAL, es[..k], id) <==> exists n :: 0 <= n < k && ReadsNullAt(es, id, n, t)
  {
    if k > 0 {
      MissersSoFar(es, id, k - 1, t);
      RunPrefix(INITIAL, es, k - 1);
      assert es[..k][..k - 1] == es[..k - 1];
      assert t in Missers(INITIAL, es[..k], id) <==>
             t in Missers(INITIAL, es[..k - 1], id) || ReadsNullAt(es, id, k - 1, t);
    }
  }

  /** The threads that missed an identifier are those that at some event read null for it. */
  lemma MissersExact(es: seq<Event>, id: string, t: Thread)
    requires IsRun(INITIAL, es)
    ensures t in Missers(INITIAL, es, id) <==> exists n :: 0 <= n < |es| && ReadsNullAt(es, id, n, t)
  {
    MissersSoFar(es, id, |es|, t);
    assert es[..|es|] == es;
  }

  lemma {:induction false} PutsSoFar(es: seq<Event>, id: string, k: nat) returns (qs: seq<nat>)
    requires IsRun(INITIAL, es) && k <= |es|
    ensures IsRun(INITIAL, es[..k]) && |qs| == Puts(INITIAL, es[..k], id) && Increasing(qs)
    ensures forall q: nat {:trigger q in qs} :: q in qs <==> q < k && IsPutOf(At(es, q), es[q], id)
  {
    qs := [];
    if k > 0 {
      qs := PutsSoFar(es, id, k - 1);
      RunPrefix(INITIAL, es, k - 1);
      assert es[..k][..k - 1] == es[..k - 1];
      if IsPutOf(At(es, k - 1), es[k - 1], id) {
        IncreasingSnoc(qs, k - 1);
        qs := qs + [k - 1];
      }
    }
  }

  /** The puts counted for an identifier are the put steps of threads that create for it. */
  lemma PutsExact(es: seq<Event>, id: string) returns (qs: seq<nat>)
    requires IsRun(INITIAL, es)
    ensures |qs| == Puts(INITIAL, es, id) && Increasing(qs)
    ensures forall q: nat {:trigger q in qs} :: q in qs <==> q < |es| && IsPutOf(At(es, q), es[q], id)
  {
    qs := PutsSoFar(es, id, |es|);
    assert es[..|es|] == es;
  }
}
