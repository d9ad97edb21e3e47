/**
 Laws of the circular array over whole histories of adds. CircularArray keeps its fields equal
 to Layout and Position of its history, so each law here is a law of every run of that class.
 */
module RingLaws {
  import opened ModularArithmetic
  import opened RingLayout

  // ---------- The array is a bounded first-in first-out queue ----------

  /** Reference: a queue of at most c entries that drops its oldest entry when full. */
  function BoundedFifo<T>(c: nat, h: seq<T>): (q: seq<T>)
    requires 0 < c
    ensures |q| <= c
  {
    if h == [] then []
    else
      var q := BoundedFifo(c, h[..|h| - 1]);
      (if |q| == c then q[1..] else q) + [h[|h| - 1]]
  }

  lemma WindowNext<T>(c: nat, h: seq<T>)
    requires 0 < c && h != []
    ensures var w, last := Window(c, h[..|h| - 1]), h[|h| - 1];
            Window(c, h) == (if |w| == c then w[1..] else w) + [last]
  {
  }

  lemma {:induction false} FifoIsWindow<T>(c: nat, h: seq<T>)
    requires 0 < c
    ensures BoundedFifo(c, h) == Window(c, h)
  {
    if h != [] {
      FifoIsWindow(c, h[..|h| - 1]);
      WindowNext(c, h);
    }
  }

  /** The element read at offset t from the write position is the t-th oldest of the last c. */
  lemma AgeOrderAt<T>(c: nat, h: seq<T>, t: nat)
    requires 0 < c < |h| && t < c
    ensures Position(c, |h|) <= |Layout(c, h)| == c
    ensures AgeOrder(Layout(c, h), Position(c, |h|))[t] == h[|h| - c + t]
  {
    var k, p, q := |h|, Position(c, |h|), (|h| - 1) / c;
    PositionCases(c, k);
    var j := k - c + t;
    assert k == q * c + p;
    if p + t < c {
      assert j == (q - 1) * c + (p + t);
      DivModUnique(j, c, q - 1, p + t);
    } else {
      DivModUnique(j, c, q, p + t - c);
    }
    LayoutAt(c, h, j);
  }

  /** Reading from the write position round to it gives the last entries in arrival order. */
  lemma AgeOrderIsWindow<T>(c: nat, h: seq<T>)
    requires 0 < c
    ensures Position(c, |h|) <= |Layout(c, h)| == Min(|h|, c)
    ensures AgeOrder(Layout(c, h), Position(c, |h|)) == Window(c, h)
  {
    PositionCases(c, |h|);
    if |h| <= c {
      ShortLayout(c, h);
    } else {
      forall t | 0 <= t < c
        ensures AgeOrder(Layout(c, h), Position(c, |h|))[t] == Window(c, h)[t]
      {
        AgeOrderAt(c, h, t);
      }
    }
  }

  /** Window refinement: that is exactly what the bounded queue holds. */
  lemma AgeOrderIsFifo<T>(c: nat, h: seq<T>)
    requires 0 < c
    ensures Position(c, |h|) <= |Layout(c, h)|
    ensures AgeOrder(Layout(c, h), Position(c, |h|)) == BoundedFifo(c, h)
  {
    AgeOrderIsWindow(c, h);
    FifoIsWindow(c, h);
  }

  lemma WindowConcat<T>(c: nat, h: seq<T>, more: seq<T>)
    ensures Window(c, h + more) == Window(c, Window(c, h) + more)
  {
    var d := |h| - Min(|h|, c);
    var all, kept := h + more, Window(c, h) + more;
    assert kept == all[d..];
    assert Min(|kept|, c) == Min(|all|, c);
    assert kept[|kept| - Min(|kept|, c)..] == all[d + (|kept| - Min(|kept|, c))..];
  }

  lemma FifoConcat<T>(c: nat, h: seq<T>, more: seq<T>)
    requires 0 < c
    ensures BoundedFifo(c, h + more) == BoundedFifo(c, BoundedFifo(c, h) + more)
  {
    FifoIsWindow(c, h);
    FifoIsWindow(c, h + more);
    FifoIsWindow(c, Window(c, h) + more);
    WindowConcat(c, h, more);
  }

  /** The stored entries, oldest first, after the adds h. */
  function Stored<T>(c: nat, h: seq<T>): seq<T>
    requires 0 < c
  {
    AgeOrderIsFifo(c, h);
    AgeOrder(Layout(c, h), Position(c, |h|))
  }

  /** What is stored now decides what further adds leave: a new array to which the stored entries
      are added, oldest first, is from then on indistinguishable to a reader in age order. */
  lemma Compositional<T>(c: nat, h: seq<T>, more: seq<T>)
    requires 0 < c
    ensures Stored(c, h + more) == Stored(c, Stored(c, h) + more)
  {
    AgeOrderIsFifo(c, h);
    AgeOrderIsFifo(c, h + more);
    AgeOrderIsFifo(c, Stored(c, h) + more);
    FifoConcat(c, h, more);
  }

  // ---------- How long an entry stays ----------

  /** Entry j stays in slot j % c while fewer than c further adds follow, and the c-th puts its
      own entry there. */
  lemma EntryLifetime<T>(c: nat, h: seq<T>, j: nat, k: nat)
    requires 0 < c && j < k <= |h|
    ensures k <= j + c ==> j % c < |Layout(c, h[..k])| && Layout(c, h[..k])[j % c] == h[j]
    ensures k == j + c + 1 ==> j % c < |Layout(c, h[..k])| && Layout(c, h[..k])[j % c] == h[j + c]
  {
    if k <= j + c {
      LayoutAt(c, h[..k], j);
    }
    if k == j + c + 1 {
      ModShift(j, 1, c);
      LayoutAt(c, h[..k], j + c);
    }
  }

  /** Two histories that agree, slot by slot, on the last adds leave the same list. */
  lemma SameLastEntries<T>(c: nat, h1: seq<T>, h2: seq<T>)
    requires 0 < c <= |h1| && c <= |h2| && |h1| % c == |h2| % c
    requires h1[|h1| - c..] == h2[|h2| - c..]
    ensures Layout(c, h1) == Layout(c, h2)
  {
    forall i | 0 <= i < c ensures Layout(c, h1)[i] == Layout(c, h2)[i] {
      var j1 := SlotSource(c, |h1|, i);
      SlotLaw(c, |h1|, i);
      var j2 := j1 - |h1| + |h2|;
      ModAdd(|h1|, |h2|, j1 - |h1|, c);
      LayoutAt(c, h2, j2);
      assert h1[j1] == h1[|h1| - c..][j1 - |h1| + c] == h2[|h2| - c..][j1 - |h1| + c];
    }
  }

  lemma SamePosition(c: nat, k1: nat, k2: nat)
    requires 0 < c <= k1 && c <= k2 && k1 % c == k2 % c
    ensures Position(c, k1) == Position(c, k2)
  {
    ModAdd(k1, k2, -1, c);
  }

  /** Forgetting: list and position depend on the last c entries and on the number of adds
      modulo c, on nothing else. */
  lemma Forgetting<T>(c: nat, h1: seq<T>, h2: seq<T>)
    requires 0 < c <= |h1| && c <= |h2| && |h1| % c == |h2| % c
    requires Window(c, h1) == Window(c, h2)
    ensures Layout(c, h1) == Layout(c, h2) && Position(c, |h1|) == Position(c, |h2|)
  {
    SameLastEntries(c, h1, h2);
    SamePosition(c, |h1|, |h2|);
  }

  /** Replay fixpoint: adding the c stored entries again, oldest first, changes neither the
      list nor the position. */
  lemma ReplayFixpoint<T>(c: nat, h: seq<T>)
    requires 0 < c && |Layout(c, h)| == c
    ensures Position(c, |h|) <= c
    ensures var again := h + AgeOrder(Layout(c, h), Position(c, |h|));
            Layout(c, again) == Layout(c, h) && Position(c, |again|) == Position(c, |h|)
  {
    AgeOrderIsWindow(c, h);
    var again := h + Window(c, h);
    ModShift(|h|, 1, c);
    assert Window(c, again) == Window(c, h);
    Forgetting(c, again, h);
  }

  // ---------- Conservation ----------

  /** The entries overwritten by the adds of h, in the order of their eviction. */
  function Evicted<T>(c: nat, h: seq<T>): (gone: seq<T>)
    requires 0 < c
  {
    if h == [] then []
    else
      var before := h[..|h| - 1];
      Evicted(c, before) +
      if |Layout(c, before)| < c then [] else [Layout(c, before)[|before| % c]]
  }

  lemma EvictedAdd<T>(c: nat, h: seq<T>, e: T)
    requires 0 < c
    ensures |h| < c ==> Evicted(c, h + [e]) == Evicted(c, h)
    ensures |h| >= c ==> |h| % c < |Layout(c, h)| && Evicted(c, h + [e]) == Evicted(c, h) + [Layout(c, h)[|h| % c]]
  {
    assert (h + [e])[..|h|] == h;
  }

  /** The add after c or more evicts the entry made c adds earlier. */
  lemma EvictedNext<T>(c: nat, h: seq<T>)
    requires 0 < c <= |h|
    ensures |h| % c < |Layout(c, h)| && Layout(c, h)[|h| % c] == h[|h| - c]
  {
    ModShift(|h| - c, 1, c);
    LayoutAt(c, h, |h| - c);
  }

  /** Eviction is first-in first-out: the evicted entries are the history up to the window. */
  lemma {:induction false} EvictedIsPrefix<T>(c: nat, h: seq<T>)
    requires 0 < c
    ensures Evicted(c, h) == h[..|h| - Min(|h|, c)]
  {
    if h != [] {
      var before := h[..|h| - 1];
      EvictedIsPrefix(c, before);
      if |before| >= c {
        EvictedNext(c, before);
      }
    }
  }

  /** The list holds the window, each entry as often as it occurs there. */
  lemma StoredMultiset<T>(c: nat, h: seq<T>)
    requires 0 < c
    ensures multiset(Layout(c, h)) == multiset(Window(c, h))
  {
    var list, p := Layout(c, h), Position(c, |h|);
    AgeOrderIsWindow(c, h);
    assert list == list[..p] + list[p..];
  }

  /** Nothing is lost or duplicated: evicted and stored entries together are the history. */
  lemma Conservation<T>(c: nat, h: seq<T>)
    requires 0 < c
    ensures Evicted(c, h) + Window(c, h) == h
    ensures multiset(h) == multiset(Evicted(c, h)) + multiset(Layout(c, h))
  {
    EvictedIsPrefix(c, h);
    StoredMultiset(c, h);
    assert h == Evicted(c, h) + Window(c, h);
  }

  /** The overflow flag, which is set when more than max entries were added, says that something
      was overwritten, except after the first add to an array created with size 0. */
  lemma {:induction false} OverflowMeansEvicted<T>(max: nat, h: seq<T>)
    ensures (|h| > max <==> Evicted(RingCapacity(max), h) != []) <==> !(max == 0 && |h| == 1)
  {
    EvictedIsPrefix(RingCapacity(max), h);
  }

  // ---------- Capacity ----------

  lemma WindowSuffix<T>(c1: nat, c2: nat, h: seq<T>)
    requires c1 <= c2
    ensures var small, large := Window(c1, h), Window(c2, h);
            |small| <= |large| && small == large[|large| - |small|..]
  {
  }

  /** With more capacity the same history leaves a longer age-ordered list that ends in the
      shorter one. */
  lemma MonotoneCapacity<T>(c1: nat, c2: nat, h: seq<T>)
    requires 0 < c1 <= c2
    ensures Position(c1, |h|) <= |Layout(c1, h)| && Position(c2, |h|) <= |Layout(c2, h)|
    ensures var small := AgeOrder(Layout(c1, h), Position(c1, |h|));
            var large := AgeOrder(Layout(c2, h), Position(c2, |h|));
            |small| <= |large| && small == large[|large| - |small|..]
  {
    AgeOrderIsWindow(c1, h);
    AgeOrderIsWindow(c2, h);
    WindowSuffix(c1, c2, h);
  }

  // ---------- Storage order against arrival order ----------

  ghost predicate Distinct<T>(h: seq<T>) {
    forall i, j :: 0 <= i < j < |h| ==> h[i] != h[j]
  }

  /** Between two multiples of c the first slot does not hold the oldest entry. */
  lemma WrappedFirst<T>(c: nat, h: seq<T>)
    requires 0 < c < |h| && Distinct(h) && |h| % c != 0
    ensures Layout(c, h)[0] != Window(c, h)[0]
  {
    var j := SlotSource(c, |h|, 0);
    SlotLaw(c, |h|, 0);
    assert Layout(c, h)[0] == h[j] && Window(c, h)[0] == h[|h| - c];
    if j == |h| - c {
      ModShift(|h| - c, 1, c);
    }
  }

  /** For distinct entries the stored order, which is the order printed, is the arrival order
      exactly when the write position is at the end of the list, that is, when nothing has been
      overwritten or c divides the number of adds; otherwise the list is a proper rotation. */
  lemma StorageOrder<T>(c: nat, h: seq<T>)
    requires 0 < c && Distinct(h)
    ensures Layout(c, h) == Window(c, h) <==> Position(c, |h|) == |Layout(c, h)|
    ensures Layout(c, h) == Window(c, h) <==> |h| <= c || |h| % c == 0
    ensures Layout(c, h) != Window(c, h) ==>
              0 < Position(c, |h|) < c == |Layout(c, h)| && Layout(c, h)[0] != Window(c, h)[0]
  {
    PositionCases(c, |h|);
    AgeOrderIsWindow(c, h);
    if |h| > c && |h| % c != 0 {
      WrappedFirst(c, h);
    } else {
      assert AgeOrder(Layout(c, h), Position(c, |h|)) == Layout(c, h);
    }
  }
}
