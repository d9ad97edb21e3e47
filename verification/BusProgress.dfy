/** How many steps the calls of a thread take, whatever the other threads do. */
module BusProgress {
  import opened BusSpec
  import opened BusProtocol
  import opened BusLaws

  /** The only step open to a thread in a call. */
  function OwnStep(t: Thread, p: Pc): Event {
    match p
    case Reading(_, _) => Read(t)
    case Missed(_, _) => Create(t)
    case Made(_, _, _) => Put(t)
    case Got(_, _, _) => Act(t)
  }

  lemma NeverBlocked(s: State, e: Event)
    requires Inv(s) && e.t in s.pc
    ensures Enabled(s, e) <==> e == OwnStep(e.t, s.pc[e.t])
  {
  }

  /** The steps a thread has before it to the end of its call, if its read is a hit. */
  function StepsLeft(s: State, t: Thread): nat {
    if t !in s.pc then 0
    else
      match s.pc[t]
      case Reading(_, _) => 2
      case Missed(_, _) => 3
      case Made(_, _, _) => 2
      case Got(_, _, _) => 1
  }

  lemma StepCost(s: State, e: Event, t: Thread)
    requires Enabled(s, e)
    ensures StepsLeft(Next(s, e), t) + (if e.t == t then 1 else 0) ==
            StepsLeft(s, t) + (if e.t == t && e.Call? then 3 else 0) +
            (if e == Read(t) && s.pc[t].id !in s.table then 2 else 0)
  {
  }

  function Steps(es: seq<Event>, t: Thread): nat {
    if es == [] then 0 else Steps(es[..|es| - 1], t) + if es[|es| - 1].t == t then 1 else 0
  }

  function Calls(es: seq<Event>, t: Thread): nat {
    if es == [] then 0
    else Calls(es[..|es| - 1], t) + if es[|es| - 1].t == t && es[|es| - 1].Call? then 1 else 0
  }

  /** The identifiers for which the thread has read null. */
  function MissedIds(es: seq<Event>, t: Thread): set<string>
    requires IsRun(INITIAL, es)
  {
    if es == [] then {}
    else
      var s, e := After(INITIAL, es[..|es| - 1]), es[|es| - 1];
      MissedIds(es[..|es| - 1], t) + if e == Read(t) && s.pc[t].id !in s.table then {s.pc[t].id} else {}
  }

  /** An identifier once missed is bound, or the thread is on the way to bind it. */
  lemma {:induction false} MissedIsBound(es: seq<Event>, t: Thread, id: string)
    requires IsRun(INITIAL, es) && id in MissedIds(es, t)
    ensures var s := After(INITIAL, es); id in s.table || (t in s.pc && s.pc[t].Creating(id))
  {
    var before := es[..|es| - 1];
    if id in MissedIds(before, t) {
      MissedIsBound(before, t, id);
    }
  }

  /** A thread reads null for an identifier at most once. */
  lemma MissIsNew(es: seq<Event>, t: Thread)
    requires IsRun(INITIAL, es) && Enabled(After(INITIAL, es), Read(t))
    ensures After(INITIAL, es).pc[t].id in MissedIds(es, t) ==> After(INITIAL, es).pc[t].id in After(INITIAL, es).table
  {
    if After(INITIAL, es).pc[t].id in MissedIds(es, t) {
      MissedIsBound(es, t, After(INITIAL, es).pc[t].id);
    }
  }

  /** Exact cost: in every run each call of a thread takes three steps, and two more for every
      identifier the thread finds missing, once in its life; less what its current call still lacks. */
  lemma {:induction false} ExactSteps(es: seq<Event>, t: Thread)
    requires IsRun(INITIAL, es)
    ensures Steps(es, t) + StepsLeft(After(INITIAL, es), t) == 3 * Calls(es, t) + 2 * |MissedIds(es, t)|
  {
    if es != [] {
      var before, e := es[..|es| - 1], es[|es| - 1];
      ExactSteps(before, t);
      StepCost(After(INITIAL, before), e, t);
      if e == Read(t) {
        MissIsNew(before, t);
      }
    }
  }

  // ---------- One call ----------

  /** The steps a thread has before it to the end of its call if nobody else moves. */
  function ToEnd(s: State, t: Thread): nat {
    StepsLeft(s, t) + if t in s.pc && s.pc[t].Reading? && s.pc[t].id !in s.table then 2 else 0
  }

  lemma OwnStepLeads(s: State, t: Thread)
    requires Inv(s) && t in s.pc
    ensures var e := OwnStep(t, s.pc[t]);
            && Enabled(s, e) && Inv(Next(s, e)) && ToEnd(Next(s, e), t) == ToEnd(s, t) - 1
            && Next(s, e).pc - {t} == s.pc - {t}
  {
    NeverBlocked(s, OwnStep(t, s.pc[t]));
    InvStep(s, OwnStep(t, s.pc[t]));
  }

  /** Progress: from every reachable state, whatever the others have left undone, a thread that is
      scheduled alone ends its call, after exactly ToEnd steps, and nobody else's call is touched. */
  lemma {:induction false} EndsAlone(s: State, t: Thread) returns (es: seq<Event>)
    requires Inv(s) && t in s.pc
    ensures IsRun(s, es) && |es| == ToEnd(s, t) <= 4 && forall n :: 0 <= n < |es| ==> es[n].t == t
    ensures After(s, es).pc == s.pc - {t}
    decreases ToEnd(s, t)
  {
    var e := OwnStep(t, s.pc[t]);
    var s' := Next(s, e);
    OwnStepLeads(s, t);
    RunOne(s, e);
    es := [e];
    if t in s'.pc {
      var more := EndsAlone(s', t);
      RunConcat(s, [e], more);
      es := [e] + more;
    }
  }

  /** Event c is a call of the thread, and up to k the call has not acted. */
  predicate InCall(es: seq<Event>, t: Thread, id: string, c: nat, k: nat) {
    && c < k <= |es| && es[c].t == t && es[c].Call? && es[c].id == id
    && forall n :: c < n < k ==> es[n] != Act(t)
  }

  lemma OthersKeepRequest(s: State, e: Event, t: Thread)
    requires Enabled(s, e) && t in s.pc && t in Next(s, e).pc
    ensures e != Act(t) && Next(s, e).pc[t].id == s.pc[t].id && Next(s, e).pc[t].action == s.pc[t].action
  {
  }

  lemma OnlyCallsStart(s: State, e: Event, t: Thread)
    requires Enabled(s, e) && t !in s.pc && t in Next(s, e).pc
    ensures e.t == t && e.Call? && Next(s, e).pc[t].id == e.id && Next(s, e).pc[t].action == e.action
  {
  }

  lemma InCallSnoc(es: seq<Event>, t: Thread, id: string, c: nat, k: nat)
    requires InCall(es, t, id, c, k) && k < |es| && es[k] != Act(t)
    ensures InCall(es, t, id, c, k + 1)
  {
  }

  /** What a thread in a call is going to do, and under which identifier, is what its last call asked
      for, whatever has happened since. */
  lemma {:induction false} AskedFor(es: seq<Event>, t: Thread, k: nat) returns (c: nat)
    requires IsRun(INITIAL, es) && k <= |es| && t in At(es, k).pc
    ensures InCall(es, t, At(es, k).pc[t].id, c, k) && es[c].action == At(es, k).pc[t].action
  {
    var s, e := At(es, k - 1), es[k - 1];
    AtStep(es, k - 1);
    if t in s.pc {
      c := AskedFor(es, t, k - 1);
      OthersKeepRequest(s, e, t);
      InCallSnoc(es, t, s.pc[t].id, c, k - 1);
    } else {
      c := k - 1;
      OnlyCallsStart(s, e, t);
    }
  }

  /** How often the thread reads null for the identifier from event c up to k. */
  function NullReads(es: seq<Event>, t: Thread, id: string, c: nat, k: nat): nat
    requires IsRun(INITIAL, es) && k <= |es|
  {
    if k <= c then 0
    else NullReads(es, t, id, c, k - 1) + if es[k - 1].t == t && IsMissOf(At(es, k - 1), es[k - 1], id) then 1 else 0
  }

  /** The steps of the thread from event c up to k. */
  function OwnSteps(es: seq<Event>, t: Thread, c: nat, k: nat): nat
    requires k <= |es|
  {
    if k <= c then 0 else OwnSteps(es, t, c, k - 1) + if es[k - 1].t == t then 1 else 0
  }

  /** What the call has cost up to k and what is before it, given the number of its null reads. */
  predicate Accounted(s: State, t: Thread, id: string, steps: nat, nulls: nat) {
    && t in s.pc && s.pc[t].id == id
    && steps + StepsLeft(s, t) == 3 + 2 * nulls
    && nulls <= if s.pc[t].Reading? then 0 else 1
  }

  lemma CallGoesOn(s: State, e: Event, t: Thread, id: string, steps: nat, nulls: nat)
    requires Enabled(s, e) && e != Act(t) && Accounted(s, t, id, steps, nulls)
    ensures Accounted(Next(s, e), t, id, steps + if e.t == t then 1 else 0,
                      nulls + if e.t == t && IsMissOf(s, e, id) then 1 else 0)
  {
    StepCost(s, e, t);
  }

  lemma CallStarts(s: State, e: Event)
    requires Enabled(s, e) && e.Call?
    ensures Accounted(Next(s, e), e.t, e.id, 1, 0)
  {
  }

  lemma CountsNext(es: seq<Event>, t: Thread, id: string, c: nat, k: nat)
    requires IsRun(INITIAL, es) && c <= k < |es|
    ensures OwnSteps(es, t, c, k + 1) == OwnSteps(es, t, c, k) + if es[k].t == t then 1 else 0
    ensures NullReads(es, t, id, c, k + 1) ==
            NullReads(es, t, id, c, k) + if es[k].t == t && IsMissOf(At(es, k), es[k], id) then 1 else 0
    ensures OwnSteps(es, t, c, c) == 0 && NullReads(es, t, id, c, c) == 0
  {
  }

  lemma {:induction false} CallSoFar(es: seq<Event>, t: Thread, id: string, c: nat, k: nat)
    requires IsRun(INITIAL, es) && InCall(es, t, id, c, k)
    ensures Accounted(At(es, k), t, id, OwnSteps(es, t, c, k), NullReads(es, t, id, c, k))
  {
    var n := k - 1;
    AtStep(es, n);
    CountsNext(es, t, id, c, n);
    if n == c {
      CallStarts(At(es, c), es[c]);
    } else {
      CallSoFar(es, t, id, c, n);
      CallGoesOn(At(es, n), es[n], t, id, OwnSteps(es, t, c, n), NullReads(es, t, id, c, n));
    }
  }

  /** Cost of one call: from its start to its action a thread takes three steps of its own, or five
      if it reads null, however many steps the others take in between. */
  lemma CallCost(es: seq<Event>, t: Thread, id: string, c: nat, j: nat)
    requires IsRun(INITIAL, es) && j < |es| && InCall(es, t, id, c, j) && es[j] == Act(t)
    ensures OwnSteps(es, t, c, j + 1) == 3 + 2 * NullReads(es, t, id, c, j)
    ensures NullReads(es, t, id, c, j) <= 1
  {
    CallSoFar(es, t, id, c, j);
    AtStep(es, j);
  }
}
