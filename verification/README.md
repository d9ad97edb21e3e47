# Verified model of jyudp's message bus and circular array

A Dafny model of two parts of the repository, with proofs about every run of each.

- **Message bus** (`BusSpec.dfy`, `MessageBus.dfy`, `BusProtocol.dfy`, `BusLaws.dfy`,
  `BusProgress.dfy`, `BusDelivery.dfy`, `BusHistory.dfy`, `BusSequential.dfy`, `BusGuarantee.dfy`, `AtomicBus.dfy`). Used by one thread at a
  time, the bus is a map from identifiers to sets of subscribers. Used by any number of threads, one
  `getBus` call is a read, a construction and a put that interleave with those of other threads; it is
  not an atomic compute-if-absent. The laws say what holds all the same in every interleaving, exactly
  when all calls obtain one bus, and that the bus is then linearizable.
- **Circular array** (`CircularArray.dfy`, `ArrayList.dfy`, `RingLayout.dfy`, `RingLaws.dfy`). The
  class keeps its fields equal to closed forms of the history of adds; the laws of those closed forms
  are therefore laws of every run. Positions and sizes are 32-bit integers, and no operation overflows
  them.

`Java.dfy` and `ModularArithmetic.dfy` hold the integer width and facts about remainders. The static
members of the bus are members of one `MessageBus` object in the sequential model, and the shared
table of the state machine in the concurrent one; an overload without identifier has `Default` in its
name.

## Where the code does less than it seems to

- Two threads can race in `getBus`. Then calls for one identifier obtain different buses, and a
  completed registration is missed by a later post (`LostRegistration`). It is lost for good, because
  a replaced bus is never bound again (`SameBindingIffNoPut`), and no call that obtains its bus after
  that acts on it (`SameBusExact`).
- How far this can go is exact. All posts and unregistrations that obtain their bus from some moment
  on find a subscriber if and only if at that moment the identifier is bound, no thread is between its
  null read and its put for it, and the subscriber is on the bound bus (`FoundIffSecured`). There are as many buses as threads that read null
  (`DuplicationExact`), one bus for all calls if and only if there is one put (`AgreementIffOnePut`), a
  final binding if and only if no thread is between its null read and its put
  (`StableIffNonePending`), and the same bus for two calls if and only if nothing is put between them
  (`SameBusExact`).
- An array created with size 0 stores one entry, so the capacity is max(1, size) (`RingCapacity`). The
  overflow flag means that something was overwritten except after the first add to such an array
  (`OverflowFlag`).
- The order in which the array is printed is the order of arrival only as long as nothing has been
  overwritten, or when the number of adds is a multiple of the capacity (`StorageOrder`).

## Model

| member | source | states |
|---|---|---|
| `BusProtocol.NoAliasing` | NetSocket/src/EventBus/MessageBus.java:18-24 | in every interleaving each bus mapped, in flight or obtained was made for that identifier, and none serves two |
| `BusProtocol.InvStep` | NetSocket/src/EventBus/MessageBus.java:18-24 | every step of every thread keeps naming, one construction per thread and identifier, and sole ownership of a bus not yet put |
| `BusLaws.RebindingMeasure` | NetSocket/src/EventBus/MessageBus.java:19-23 | once an identifier is bound, pending threads plus puts so far stay constant, so it is rebound at most as often as threads were pending |
| `BusLaws.StableIffNonePending` | NetSocket/src/EventBus/MessageBus.java:18-24 | a binding is the same in all continuations iff no thread is between null read and put |
| `BusLaws.FinishRuns` | NetSocket/src/EventBus/MessageBus.java:19-23 | any pending thread can go on alone, and then replaces the binding by its own bus |
| `BusLaws.DuplicationExact` | NetSocket/src/EventBus/MessageBus.java:18-23 | in every run the buses of an identifier are exactly as many as the threads that read null for it and have constructed theirs |
| `BusLaws.DuplicationBound` | NetSocket/src/EventBus/MessageBus.java:18-23 | they have different makers, and number at most the threads that read null before the first put |
| `BusLaws.MissesPrecedePuts` | NetSocket/src/EventBus/MessageBus.java:18-22 | every null read comes before the first put |
| `BusLaws.AgreementIffOnePut` | NetSocket/src/EventBus/MessageBus.java:16-25 | all calls of a run obtain one bus for an identifier iff the run puts at most one |
| `BusLaws.NoOverlapExact` | NetSocket/src/EventBus/MessageBus.java:16-25 | without overlapping creations all calls agree; with an overlap some continuation of that moment makes them disagree |
| `BusLaws.OverlapForks` | NetSocket/src/EventBus/MessageBus.java:18-23 | two threads pending at once can both go on to put and obtain different buses |
| `BusProgress.EndsAlone` | NetSocket/src/EventBus/MessageBus.java:16-37 | from every reachable state a thread scheduled alone ends its call after a known number of steps, four at most, and disturbs no other call |
| `BusProgress.CallCost` | NetSocket/src/EventBus/MessageBus.java:16-37 | from its start to its action a call takes three steps of its thread, five if it reads null, under any interleaving |
| `BusProgress.AskedFor` | NetSocket/src/EventBus/MessageBus.java:26-37 | in every interleaving a thread acts as its last call asked, under that identifier, whatever has happened since |
| `BusProgress.ExactSteps` | NetSocket/src/EventBus/MessageBus.java:16-37 | in every run a call costs three steps, and two more once for every identifier the thread finds missing |
| `BusDelivery.SameBindingIffNoPut` | NetSocket/src/EventBus/MessageBus.java:18-24 | at two moments of a run the binding is the same iff nothing was put in between; a replaced bus never comes back |
| `BusDelivery.SameBusExact` | NetSocket/src/EventBus/MessageBus.java:16-37 | two calls for an identifier act on one bus iff nothing is put for it between their obtaining it |
| `BusDelivery.Delivery` | NetSocket/src/EventBus/MessageBus.java:18-37 | a completed registration is found by every later post or unregistration under the identifier unless unregistered before, or the identifier rebound, under any interleaving |
| `BusDelivery.SettledDelivery` | NetSocket/src/EventBus/MessageBus.java:18-37 | the same with no condition on later events but unregistration, if nobody is mid-creation once the registering call has its bus |
| `BusHistory.OnlyActsChange` | NetSocket/src/EventBus/MessageBus.java:26-37 | no step changes a bus but an action, and an action only the bus it is taken on |
| `BusHistory.SubscribedExact` | NetSocket/src/EventBus/MessageBus.java:26-37 | at every moment of every interleaving every bus ever made, lost ones included, has exactly the subscribers whose registration on it no unregistration on it has followed |
| `BusHistory.Unregistered` | NetSocket/src/EventBus/MessageBus.java:30-33 | a completed unregistration has taken the subscriber off the bus that its call obtained, bound still or not |
| `BusHistory.StaysOff` | NetSocket/src/EventBus/MessageBus.java:26-33 | from then on it is not on that bus until a registration of it there |
| `BusHistory.FindsExact` | NetSocket/src/EventBus/MessageBus.java:26-37 | in every interleaving a call finds, and a post reaches, a subscriber iff no unregistration has followed its registration on the bus obtained |
| `BusHistory.PostReaches` | NetSocket/src/EventBus/MessageBus.java:34-37 | a post reaches exactly the subscribers of the bus that its identifier was bound to when the call obtained it |
| `BusHistory.DeliveredExact` | NetSocket/src/EventBus/MessageBus.java:34-37 | the deliveries of any run are one for each post step, in their order, each with exactly those subscribers |
| `BusHistory.ReturnedExact` | NetSocket/src/EventBus/MessageBus.java:16-25 | the buses that agreement is about are exactly those that some call obtained |
| `BusHistory.PutsExact` | NetSocket/src/EventBus/MessageBus.java:22 | the puts that agreement is counted by are exactly the put steps of threads that create for the identifier |
| `BusHistory.MissersExact` | NetSocket/src/EventBus/MessageBus.java:18-19 | the threads that duplication is counted by are exactly those that at some step read null |
| `BusDelivery.LostRegistration` | NetSocket/src/EventBus/MessageBus.java:18-37 | a run of two racing threads after which a completed registration is not reached by a later post |
| `BusSequential.AllOnOneBus` | NetSocket/src/EventBus/MessageBus.java:16-37 | with at most one put for an identifier, all that is done under it is done, in the same order, to the bus in the table |
| `BusSequential.SequentialPost` | NetSocket/src/EventBus/MessageBus.java:34-37 | then a post reaches what it would reach if the requests so far had been served one by one |
| `BusSequential.RequestsExact` | NetSocket/src/EventBus/MessageBus.java:26-37 | the requests of a run are those of its action steps, each once and in their order |
| `BusSequential.Linearizable` | NetSocket/src/EventBus/MessageBus.java:16-37 | a concurrent run in which all calls agree delivers what one thread delivers that serves the same requests in the order of their action steps |
| `BusSequential.CallAlone` | NetSocket/src/EventBus/MessageBus.java:16-37 | in any reachable state, with any other threads mid-call, an uninterrupted call does to the map that the table shows what the sequential operation does |
| `BusGuarantee.FoundIffSecured` | NetSocket/src/EventBus/MessageBus.java:16-37 | after any run, all posts (or unregistrations) that obtain their bus from then on find a subscriber in every continuation that does not unregister it before iff the identifier is bound, nobody is mid-creation for it and the subscriber is on the bound bus |
| `BusGuarantee.FreshCall` | NetSocket/src/EventBus/MessageBus.java:16-37 | after any run, an uninterrupted call of a thread that was idle finds exactly the subscribers of the bus in the table |
| `BusGuarantee.PutHidesAll` | NetSocket/src/EventBus/MessageBus.java:19-23 | a pending thread that goes on alone leaves the identifier without subscribers |
| `AtomicBus.Refinement` | NetSocket/src/EventBus/MessageBus.java:16-37 | in every such run the bus is an atomic compute-if-absent, state by state and delivery by delivery |
| `AtomicBus.NoOverlapRefinement` | NetSocket/src/EventBus/MessageBus.java:16-37 | so it is in every run without overlapping creations |
| `MessageBuses.MessageBus.GetBus` | NetSocket/src/EventBus/MessageBus.java:16-25 | the bus of that name in the table, the old one if there was one and otherwise a fresh empty one |
| `MessageBuses.MessageBus.Register` | NetSocket/src/EventBus/MessageBus.java:26-29 | the abstract map changes by the registration under that identifier, nowhere else; every bus stays in the table under its name, and only the identifier asked for can join |
| `MessageBuses.MessageBus.Unregister` | NetSocket/src/EventBus/MessageBus.java:30-33 | the same for unregistering, and whether the object was known; every bus stays in the table under its name, and only the identifier asked for can join |
| `MessageBuses.MessageBus.Post` | NetSocket/src/EventBus/MessageBus.java:34-37 | the message reaches exactly the subscribers of the identifier; every bus stays in the table under its name, and only the identifier asked for can join |
| `MessageBuses.MessageBus.RegisterDefault` | NetSocket/src/EventBus/MessageBus.java:38-41 | acts on the entry "msg" only, and replaces no bus |
| `MessageBuses.MessageBus.UnregisterDefault` | NetSocket/src/EventBus/MessageBus.java:42-45 | acts on the entry "msg" only, and replaces no bus |
| `MessageBuses.MessageBus.PostDefault` | NetSocket/src/EventBus/MessageBus.java:46-49 | acts on the entry "msg" only, and replaces no bus |
| `MessageBuses.ServeRequests` | NetSocket/src/EventBus/MessageBus.java:26-37 | any sequence of calls leaves the bus as the abstract map, delivers what the abstract map delivers, and replaces no bus |
| `MessageBuses.KeepBus` | NetSocket/src/EventBus/MessageBus.java:16-37 | two calls of `getBus` with any requests between them return one bus, which has what was registered through the table |
| `BusSpec.Locality` | NetSocket/src/EventBus/MessageBus.java:26-49 | after any sequence of requests an identifier's subscribers depend on the requests for it alone |
| `BusSpec.ServedExact` | NetSocket/src/EventBus/MessageBus.java:26-37 | from any map, after any requests, a subscriber is there iff no unregistration follows its registration or its presence at the start |
| `BusSpec.DeliveriesExact` | NetSocket/src/EventBus/MessageBus.java:34-37 | from any map, the deliveries are one for each post, in their order, each to exactly the subscribers there by then |
| `BusSpec.LastActionDecides` | NetSocket/src/EventBus/MessageBus.java:26-33 | a subscriber is registered iff no unregistration follows its last registration |
| `ArrayLists.ArrayList.RemoveAt` | NetProtocol/src/BufferData/CircularArray.java:70-72 | indexed removal on a backing array with shifting: the contents without that element, all others in order |
| `ArrayLists.ArrayList.InsertAt` | NetProtocol/src/BufferData/CircularArray.java:73 | indexed insertion on a backing array that grows when full: the contents with that element between the two parts |
| `CircularArrays.CircularArray.constructor` | NetProtocol/src/BufferData/CircularArray.java:57-60 | a new array of any non-negative size has an empty history, position 0 and no overflow |
| `CircularArrays.CircularArray.Add` | NetProtocol/src/BufferData/CircularArray.java:65-75 | the history grows by the entry; the position is ((k-1) mod c) + 1, the flag is set iff k > max, list and evictions are closed forms of the history; indices are in range and the position does not overflow |
| `CircularArrays.CircularArray.PutAt` | NetProtocol/src/BufferData/CircularArray.java:70-73 | remove and insert at one index is a write to one slot, or an append at the end |
| `CircularArrays.CircularArray.Size` | NetProtocol/src/BufferData/CircularArray.java:80-82 | the size is the smaller of the number of adds and the capacity |
| `CircularArrays.CircularArray.Entries` | NetProtocol/src/BufferData/CircularArray.java:85-87 | the order in which the entries are printed is storage order |
| `CircularArrays.CircularArray.KeepsMostRecent` | NetProtocol/src/BufferData/CircularArray.java:38-41 | in every valid state, reading from the position round gives what a bounded queue holds; the overwritten entries followed by these are the whole history |
| `CircularArrays.AddReached` | NetProtocol/src/BufferData/CircularArray.java:65-75 | reset, slot write and increment lead from the closed forms for k adds to those for k + 1: position ((k-1) mod c) + 1, overflow flag iff k > max, list, evictions |
| `CircularArrays.CircularArray.OverflowFlag` | NetProtocol/src/BufferData/CircularArray.java:66-74 | in every valid state the flag says that something was overwritten, except after the first add to an array of size 0, when it is set and nothing was |
| `RingLayout.SlotLaw` | NetProtocol/src/BufferData/CircularArray.java:66-74 | slot i holds the entry with the largest index below k that is congruent to i modulo the capacity |
| `RingLayout.NextSlot` | NetProtocol/src/BufferData/CircularArray.java:66-69 | the reset puts add number k into slot k mod c; it happens exactly when k is a positive multiple of c, and for size 0 always |
| `RingLaws.AgeOrderIsFifo` | NetProtocol/src/BufferData/CircularArray.java:65-75 | the list read from the position round is a bounded queue that drops its oldest element when full |
| `RingLaws.Compositional` | NetProtocol/src/BufferData/CircularArray.java:65-75 | what further adds leave in the list, read in age order, depends on the past through the stored entries alone |
| `RingLaws.EntryLifetime` | NetProtocol/src/BufferData/CircularArray.java:66-74 | an entry stays in its slot through the next c - 1 adds and is replaced by exactly the c-th |
| `RingLaws.Forgetting` | NetProtocol/src/BufferData/CircularArray.java:65-75 | list and position depend only on the last c entries and on the number of adds modulo c |
| `RingLaws.ReplayFixpoint` | NetProtocol/src/BufferData/CircularArray.java:65-75 | adding the stored entries of a full array again, oldest first, changes neither list nor position |
| `RingLaws.EvictedIsPrefix` | NetProtocol/src/BufferData/CircularArray.java:70-73 | entries are overwritten in the order of their arrival |
| `RingLaws.Conservation` | NetProtocol/src/BufferData/CircularArray.java:70-73 | everything added is either stored or was overwritten, each entry as often as it was added |
| `RingLaws.OverflowMeansEvicted` | NetProtocol/src/BufferData/CircularArray.java:66-69 | more than max adds have overwritten something, and fewer nothing, unless this is the first add to an array of size 0 |
| `RingLaws.MonotoneCapacity` | NetProtocol/src/BufferData/CircularArray.java:57-75 | for one history, the age-ordered list of the smaller array is a suffix of that of the larger |
| `RingLaws.StorageOrder` | NetProtocol/src/BufferData/CircularArray.java:65-87 | for distinct entries, printed order is arrival order iff the position is the list size, iff k <= c or c divides k; otherwise it is a proper rotation |

## Left out

- The subscriber library: reflection, dispatch by event type, events without subscribers. A bus is a name and a set of subscribers, and an unknown object at unregistration is reported by a flag (in the concurrent model by the predicate `Finds`) instead of an exception.
- The concurrent map's internals: each read and each put is one atomic step, and so is each action on an event bus; identifiers are not null.
- A negative size of a circular array, which its list rejects; and its use by several threads, for which it has no synchronisation.
- The characters of the circular array's textual form; only the order of the entries is modelled.
- The client driver (NetTest/src/Client/TestClient.java), which sends without end and has no state of its own.
- The UDP sessions, acknowledgements, packet codec, packet splitting, receive buffers and persistence of NetProtocol are not part of this model, nor are the socket classes, the crash log and the build configuration.
