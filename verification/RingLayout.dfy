/**
 What the storage of a circular array of capacity c holds after a history of adds, as closed
 forms of the history alone: which entry sits in which slot, and where the next entry goes.
 */
module RingLayout {
  import opened ModularArithmetic

  function Min(a: nat, b: nat): nat {
    if a < b then a else b
  }

  /** The number of entries that fit in an array created with size max: with max == 0 one
      entry is stored nevertheless. */
  function RingCapacity(max: nat): (c: nat)
    ensures 0 < c && max <= c
  {
    if max == 0 then 1 else max
  }

  /** The history index of the entry held by slot i after k adds. */
  function SlotSource(c: nat, k: nat, i: nat): (j: nat)
    requires 0 < c && i < Min(k, c)
    ensures j < k
  {
    i + (k - 1 - i) / c * c
  }

  /** Slot law: slot i holds the entry with the largest index below k that is congruent to i. */
  lemma SlotLaw(c: nat, k: nat, i: nat)
    requires 0 < c && i < Min(k, c)
    ensures var j := SlotSource(c, k, i);
            && k - c <= j < k && j % c == i
            && forall j' :: j < j' < k ==> j' % c != i
  {
    var j := SlotSource(c, k, i);
    DivModUnique(j, c, (k - 1 - i) / c, i);
    forall j' | j < j' < k ensures j' % c != i {
      if j' % c == i {
        CongruentClose(j', j, c);
      }
    }
  }

  /** The stored list after the adds h. */
  function Layout<T>(c: nat, h: seq<T>): (list: seq<T>)
    requires 0 < c
  {
    seq(Min(|h|, c), i requires 0 <= i < Min(|h|, c) => h[SlotSource(c, |h|, i)])
  }

  /** The write position after k adds. */
  function Position(c: nat, k: nat): nat
    requires 0 < c
  {
    if k == 0 then 0 else (k - 1) % c + 1
  }

  /** The last Min(|h|, c) entries of the history, in arrival order. */
  function Window<T>(c: nat, h: seq<T>): seq<T> {
    h[|h| - Min(|h|, c)..]
  }

  /** A list read from `position` to its end and then from its start to `position`. */
  function AgeOrder<T>(list: seq<T>, position: nat): seq<T>
    requires position <= |list|
  {
    list[position..] + list[..position]
  }

  /** An index in the last c adds is the one its slot shows. */
  lemma SlotUnique(c: nat, k: nat, j: nat)
    requires 0 < c && k - c <= j < k
    ensures j % c < Min(k, c) && SlotSource(c, k, j % c) == j
  {
    if k < c {
      DivModUnique(j, c, 0, j);
    }
    SlotLaw(c, k, j % c);
    CongruentClose(SlotSource(c, k, j % c), j, c);
  }

  /** The stored list is determined entry by entry by the last c adds. */
  lemma LayoutAt<T>(c: nat, h: seq<T>, j: nat)
    requires 0 < c && |h| - c <= j < |h|
    ensures j % c < |Layout(c, h)| && Layout(c, h)[j % c] == h[j]
  {
    SlotUnique(c, |h|, j);
  }

  lemma ShortLayout<T>(c: nat, h: seq<T>)
    requires 0 < c && |h| <= c
    ensures Layout(c, h) == h
  {
    forall i | 0 <= i < |h| ensures Layout(c, h)[i] == h[i] {
      DivModUnique(i, c, 0, i);
      LayoutAt(c, h, i);
    }
  }

  /** One more add: a new slot while there is room, afterwards the overwriting of slot |h| % c. */
  lemma LayoutAdd<T>(c: nat, h: seq<T>, e: T)
    requires 0 < c
    ensures |h| < c ==> Layout(c, h + [e]) == Layout(c, h) + [e]
    ensures |h| >= c ==> |h| % c < |Layout(c, h)| && Layout(c, h + [e]) == Layout(c, h)[|h| % c := e]
  {
    var k := |h|;
    if k < c {
      ShortLayout(c, h);
      ShortLayout(c, h + [e]);
    } else {
      var old', new' := Layout(c, h), Layout(c, h + [e]);
      forall i | 0 <= i < c ensures new'[i] == old'[k % c := e][i] {
        var j := SlotSource(c, k + 1, i);
        SlotLaw(c, k + 1, i);
        if i == k % c {
          SlotUnique(c, k + 1, k);
        } else {
          assert j != k;
          SlotUnique(c, k, j);
          assert new'[i] == (h + [e])[j] == h[j];
        }
      }
    }
  }

  /** Where the write position stands: at the slot of the next add, or one past the last slot. */
  lemma PositionCases(c: nat, k: nat)
    requires 0 < c
    ensures Position(c, k) <= c
    ensures k <= c ==> Position(c, k) == k
    ensures k > 0 && k % c == 0 ==> Position(c, k) == c
    ensures k % c != 0 ==> Position(c, k) == k % c
    ensures Position(c, k) % c == k % c
    ensures Position(c, k) <= Min(k, c)
  {
    if k > 0 {
      var q, p := (k - 1) / c, Position(c, k);
      assert k == q * c + p;
      if p == c {
        assert k == (q + 1) * c + 0;
        DivModUnique(k, c, q + 1, 0);
        DivModUnique(p, c, 1, 0);
        if k < c { MulMonotone(1, q + 1, c); }
      } else {
        DivModUnique(k, c, q, p);
        DivModUnique(p, c, 0, p);
        if k < c { DivModUnique(k, c, 0, k); }
        if k == c { DivModUnique(k, c, 1, 0); }
      }
    } else {
      DivModUnique(0, c, 0, 0);
    }
  }

  /** The reset of the write position takes it to slot k % c, which is one past the list while
      there is room, and taken afterwards. After k adds the next one resets the position exactly
      when k is a positive multiple of c, and with max == 0 always. */
  lemma NextSlot(max: nat, k: nat)
    ensures var c, p := RingCapacity(max), Position(RingCapacity(max), k);
            && (if p >= max then 0 else p) == k % c
            && Position(c, k + 1) == k % c + 1
            && (k < c ==> k % c == k)
            && 0 <= k % c < c
            && (p >= max || k > max <==> k + 1 > max)
            && (p >= max <==> k % c == 0 && (k > 0 || max == 0))
  {
    var c := RingCapacity(max);
    PositionCases(c, k);
    if k < c {
      DivModUnique(k, c, 0, k);
    } else if k == c {
      DivModUnique(k, c, 1, 0);
    }
    if max == 0 {
      DivModUnique(k, 1, k, 0);
    }
  }
}
