/**
 The abstract message bus: a map from identifiers to sets of subscribers. A bus comes into being,
 without subscribers, the first time its identifier is used, whatever it is used for.
 */
module BusSpec {
  type Subscriber = nat  // the identity of a registered object
  type Message = nat     // the identity of a posted object

  type View = map<string, set<Subscriber>>

  /** What is asked of the bus obtained for an identifier. */
  datatype Action =
    | Register(subscriber: Subscriber)
    | Unregister(subscriber: Subscriber)
    | Post(message: Message)

  datatype Request = Request(identifier: string, action: Action)

  /** The subscribers of one bus after an action on it. */
  function Apply(subs: set<Subscriber>, a: Action): set<Subscriber> {
    match a
    case Register(x) => subs + {x}
    case Unregister(x) => subs - {x}
    case Post(_) => subs
  }

  function SubsOf(v: View, id: string): set<Subscriber> {
    if id in v then v[id] else {}
  }

  /** The whole map after one request. */
  function Serve(v: View, r: Request): View {
    v[r.identifier := Apply(SubsOf(v, r.identifier), r.action)]
  }

  function ServeAll(v: View, rs: seq<Request>): View {
    if rs == [] then v else Serve(ServeAll(v, rs[..|rs| - 1]), rs[|rs| - 1])
  }

  /** What each post among the requests reaches, in order. */
  function Deliveries(v: View, rs: seq<Request>): seq<(Message, set<Subscriber>)> {
    if rs == [] then []
    else
      var before, r := rs[..|rs| - 1], rs[|rs| - 1];
      Deliveries(v, before) +
      if r.action.Post? then [(r.action.message, SubsOf(ServeAll(v, before), r.identifier))] else []
  }

  predicate Increasing(qs: seq<nat>) {
    forall i, j :: 0 <= i < j < |qs| ==> qs[i] < qs[j]
  }

  lemma IncreasingSnoc(qs: seq<nat>, k: nat)
    requires Increasing(qs) && forall q :: q in qs ==> q < k
    ensures Increasing(qs + [k]) && forall q :: q in qs + [k] <==> q in qs || q == k
  {
    forall i, j | 0 <= i < j < |qs + [k]| ensures (qs + [k])[i] < (qs + [k])[j] {
      assert qs[i] in qs;
    }
  }

  /** The actions that the requests ask of one identifier, in order. */
  function ActionsOn(rs: seq<Request>, id: string): seq<Action> {
    if rs == [] then []
    else
      var r := rs[|rs| - 1];
      ActionsOn(rs[..|rs| - 1], id) + if r.identifier == id then [r.action] else []
  }

  function ApplyAll(subs: set<Subscriber>, actions: seq<Action>): set<Subscriber> {
    if actions == [] then subs
    else Apply(ApplyAll(subs, actions[..|actions| - 1]), actions[|actions| - 1])
  }

  /** Locality: what an identifier's subscribers are after any sequence of requests is decided by
      the requests for that identifier alone, and only requested identifiers get a bus. */
  lemma {:induction false} Locality(v: View, rs: seq<Request>, id: string)
    ensures SubsOf(ServeAll(v, rs), id) == ApplyAll(SubsOf(v, id), ActionsOn(rs, id))
    ensures id in ServeAll(v, rs) <==> id in v || ActionsOn(rs, id) != []
  {
    if rs != [] {
      Locality(v, rs[..|rs| - 1], id);
      var r, earlier := rs[|rs| - 1], ActionsOn(rs[..|rs| - 1], id);
      assert (earlier + [r.action])[..|earlier|] == earlier && earlier + [] == earlier;
    }
  }

  /** A subscriber is registered exactly when the last action naming it is its registration. */
  lemma {:induction false} LastActionDecides(subs: set<Subscriber>, actions: seq<Action>, x: Subscriber)
    ensures x in ApplyAll(subs, actions) <==>
            (exists i :: 0 <= i < |actions| && actions[i] == Register(x) &&
                         forall j :: i < j < |actions| ==> actions[j] != Unregister(x)) ||
            (x in subs && forall j :: 0 <= j < |actions| ==> actions[j] != Unregister(x))
  {
    if actions != [] {
      var n := |actions| - 1;
      LastActionDecides(subs, actions[..n], x);
      if actions[n] != Unregister(x) && actions[n] != Register(x) && x in ApplyAll(subs, actions[..n]) {
        if i :| 0 <= i < n && actions[..n][i] == Register(x) &&
                forall j :: i < j < n ==> actions[..n][j] != Unregister(x) {
          assert actions[i] == Register(x);
        }
      }
    }
  }

  // ---------- Whole request sequences, request by request ----------

  /** After the requests, and starting from v, the registration of the subscriber under the
      identifier has not been followed by its unregistration. */
  predicate StillRegistered(v: View, rs: seq<Request>, id: string, x: Subscriber) {
    || (exists n :: 0 <= n < |rs| && rs[n] == Request(id, Register(x)) &&
                    forall m :: n < m < |rs| ==> rs[m] != Request(id, Unregister(x)))
    || (x in SubsOf(v, id) && forall m :: 0 <= m < |rs| ==> rs[m] != Request(id, Unregister(x)))
  }

  lemma StillRegisteredSnoc(v: View, rs: seq<Request>, r: Request, id: string, x: Subscriber)
    ensures StillRegistered(v, rs + [r], id, x) <==>
            r == Request(id, Register(x)) || (StillRegistered(v, rs, id, x) && r != Request(id, Unregister(x)))
  {
    var rs' := rs + [r];
    assert rs'[|rs|] == r;
    if n :| 0 <= n < |rs| && rs[n] == Request(id, Register(x)) &&
            forall m :: n < m < |rs| ==> rs[m] != Request(id, Unregister(x)) {
      assert rs'[n] == rs[n];
    }
    if n :| 0 <= n < |rs'| && rs'[n] == Request(id, Register(x)) &&
            forall m :: n < m < |rs'| ==> rs'[m] != Request(id, Unregister(x)) {
      assert forall m :: n < m < |rs| ==> rs[m] == rs'[m];
    }
    assert forall m :: 0 <= m < |rs| ==> rs[m] == rs'[m];
  }

  /** From any map, any sequence of requests leaves under every identifier exactly those. */
  lemma {:induction false} ServedExact(v: View, rs: seq<Request>, id: string, x: Subscriber)
    ensures x in SubsOf(ServeAll(v, rs), id) <==> StillRegistered(v, rs, id, x)
  {
    if rs != [] {
      var before, r := rs[..|rs| - 1], rs[|rs| - 1];
      ServedExact(v, before, id, x);
      StillRegisteredSnoc(v, before, r, id, x);
      assert rs == before + [r];
    }
  }

  /** The delivery is what the request q makes: its message, and exactly the subscribers that are
      registered under its identifier by then. */
  ghost predicate DeliveredFor(v: View, rs: seq<Request>, q: nat, d: (Message, set<Subscriber>))
    requires q < |rs|
  {
    && rs[q].action == Post(d.0)
    && forall x :: x in d.1 <==> StillRegistered(v, rs[..q], rs[q].identifier, x)
  }

  lemma PostServed(v: View, rs: seq<Request>, q: nat)
    requires q < |rs| && rs[q].action.Post?
    ensures DeliveredFor(v, rs, q, (rs[q].action.message, SubsOf(ServeAll(v, rs[..q]), rs[q].identifier)))
  {
    forall x ensures x in SubsOf(ServeAll(v, rs[..q]), rs[q].identifier) <==>
                     StillRegistered(v, rs[..q], rs[q].identifier, x)
    {
      ServedExact(v, rs[..q], rs[q].identifier, x);
    }
  }

  lemma {:induction false} DeliveriesSoFar(v: View, rs: seq<Request>, k: nat) returns (qs: seq<nat>)
    requires k <= |rs|
    ensures |qs| == |Deliveries(v, rs[..k])| && Increasing(qs)
    ensures forall q: nat :: q in qs <==> q < k && rs[q].action.Post?
    ensures forall i :: 0 <= i < |qs| ==> qs[i] < |rs| && DeliveredFor(v, rs, qs[i], Deliveries(v, rs[..k])[i])
  {
    qs := [];
    if k > 0 {
      qs := DeliveriesSoFar(v, rs, k - 1);
      assert rs[..k][..k - 1] == rs[..k - 1];
      if rs[k - 1].action.Post? {
        PostServed(v, rs, k - 1);
        IncreasingSnoc(qs, k - 1);
        qs := qs + [k - 1];
      }
    }
  }

  /** From any map, there is one delivery for every post among the requests, in their order, and it
      is made to whom that post reaches. */
  lemma DeliveriesExact(v: View, rs: seq<Request>) returns (qs: seq<nat>)
    ensures |qs| == |Deliveries(v, rs)| && Increasing(qs)
    ensures forall q: nat :: q in qs <==> q < |rs| && rs[q].action.Post?
    ensures forall i :: 0 <= i < |qs| ==> qs[i] < |rs| && DeliveredFor(v, rs, qs[i], Deliveries(v, rs)[i])
  {
    qs := DeliveriesSoFar(v, rs, |rs|);
    assert rs[..|rs|] == rs;
  }
}
