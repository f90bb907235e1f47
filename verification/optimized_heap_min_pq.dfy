/** The indexed binary min-heap: a 1-based list of (element, priority)
    nodes whose slot 0 is unused, kept in heap order, plus a map from
    each element to the slot that holds it. */
module OptimizedHeap {
  import opened Wrappers

  /** One slot of the heap list. Slot 0 holds Java's `null`; every other
      slot holds a `PriorityNode`. */
  datatype Slot<E> = Sentinel | Node(element: E, priority: real)

  /** Slot 0 is the sentinel and every other slot holds a node. */
  ghost predicate WellShaped<E>(s: seq<Slot<E>>)
  {
    |s| >= 1 && s[0] == Sentinel && forall k :: 1 <= k < |s| ==> s[k].Node?
  }

  /** No element is stored in two slots. */
  ghost predicate Distinct<E>(s: seq<Slot<E>>)
    requires WellShaped(s)
  {
    forall i, j :: 1 <= i < j < |s| ==> s[i].element != s[j].element
  }

  /** Every entry of the index map names a slot that holds its key. */
  ghost predicate IndexSound<E>(s: seq<Slot<E>>, m: map<E, nat>)
    requires WellShaped(s)
  {
    forall e :: e in m ==> 1 <= m[e] < |s| && s[m[e]].element == e
  }

  /** Every stored element has an entry in the index map. */
  ghost predicate IndexComplete<E>(s: seq<Slot<E>>, m: map<E, nat>)
    requires WellShaped(s)
  {
    forall k :: 1 <= k < |s| ==> s[k].element in m
  }

  /** The list and the index map describe each other exactly. */
  ghost predicate Consistent<E>(s: seq<Slot<E>>, m: map<E, nat>)
  {
    WellShaped(s) && Distinct(s) && IndexSound(s, m) && IndexComplete(s, m)
  }

  /** Heap order on every edge (k/2, k) whose parent slot is at least `lo`. */
  ghost predicate OrderedFrom<E>(s: seq<Slot<E>>, lo: nat)
    requires WellShaped(s)
  {
    forall k :: 2 <= k < |s| && k / 2 >= lo ==> s[k / 2].priority <= s[k].priority
  }

  /** The min-heap property: no node has a smaller priority than its parent. */
  ghost predicate HeapOrdered<E>(s: seq<Slot<E>>)
    requires WellShaped(s)
  {
    OrderedFrom(s, 1)
  }

  /** What `swim` needs at slot `k`: heap order everywhere except on the
      edge into `k`, and `k`'s parent no greater than `k`'s children. */
  ghost predicate SwimReady<E>(s: seq<Slot<E>>, k: nat)
    requires WellShaped(s)
  {
    && (forall i :: 2 <= i < |s| && i != k ==> s[i / 2].priority <= s[i].priority)
    && (k >= 2 && 2 * k < |s| ==> s[k / 2].priority <= s[2 * k].priority)
    && (k >= 2 && 2 * k + 1 < |s| ==> s[k / 2].priority <= s[2 * k + 1].priority)
  }

  /** What `sink` needs at slot `k`: heap order on the edges below `lo`
      except those leaving `k`, and `k`'s parent (when it is at least `lo`)
      no greater than `k`'s children. */
  ghost predicate SinkReady<E>(s: seq<Slot<E>>, lo: nat, k: nat)
    requires WellShaped(s)
  {
    && (forall i :: 2 <= i < |s| && i / 2 >= lo && i / 2 != k ==> s[i / 2].priority <= s[i].priority)
    && (k >= 2 && k / 2 >= lo && 2 * k < |s| ==> s[k / 2].priority <= s[2 * k].priority)
    && (k >= 2 && k / 2 >= lo && 2 * k + 1 < |s| ==> s[k / 2].priority <= s[2 * k + 1].priority)
  }

  /** The element-to-priority pairs the structure stores. */
  ghost function ContentsOf<E>(s: seq<Slot<E>>, m: map<E, nat>): map<E, real>
    requires WellShaped(s) && IndexSound(s, m)
  {
    map e | e in m :: s[m[e]].priority
  }

  /** In a consistent structure the map sends each stored element to its slot. */
  lemma IndexOfSlot<E>(s: seq<Slot<E>>, m: map<E, nat>, k: nat)
    requires Consistent(s, m) && 1 <= k < |s|
    ensures s[k].element in m && m[s[k].element] == k
  {
  }

  /** The root of a heap-ordered list has the least priority of all. */
  lemma {:induction false} RootIsMin<E>(s: seq<Slot<E>>, k: nat)
    requires WellShaped(s) && HeapOrdered(s) && 1 <= k < |s|
    ensures s[1].priority <= s[k].priority
  {
    if k > 1 {
      RootIsMin(s, k / 2);
    }
  }

  /** Two consistent structures whose lists hold the same nodes, in any
      order, store the same pairs. */
  lemma ContentsOfPermutation<E>(a: seq<Slot<E>>, ma: map<E, nat>, b: seq<Slot<E>>, mb: map<E, nat>)
    requires Consistent(a, ma) && Consistent(b, mb)
    requires multiset(a) == multiset(b)
    ensures ContentsOf(a, ma) == ContentsOf(b, mb)
  {
    forall e | e in ma
      ensures e in mb && b[mb[e]].priority == a[ma[e]].priority
    {
      var x := a[ma[e]];
      assert x in multiset(a);
      assert x in b;
      var k :| 0 <= k < |b| && b[k] == x;
      IndexOfSlot(b, mb, k);
    }
    forall e | e in mb
      ensures e in ma
    {
      var x := b[mb[e]];
      assert x in multiset(b);
      assert x in a;
      var k :| 0 <= k < |a| && a[k] == x;
      IndexOfSlot(a, ma, k);
    }
  }

  /** The index map of a consistent structure has one entry per slot in use. */
  lemma {:induction false} IndexCount<E>(s: seq<Slot<E>>, m: map<E, nat>)
    requires Consistent(s, m)
    ensures |m| == |s| - 1
    decreases |s|
  {
    if |s| == 1 {
      assert m.Keys == {};
    } else {
      var n := |s| - 1;
      var e := s[n].element;
      IndexOfSlot(s, m, n);
      var s', m' := s[..n], m - {e};
      forall k | 1 <= k < n ensures s'[k].element in m' {
        IndexOfSlot(s, m, k);
      }
      assert Consistent(s', m');
      IndexCount(s', m');
      assert m'.Keys == m.Keys - {e};
    }
  }

  /** The list `s` with slots `i` and `j` exchanged. */
  function Swapped<E>(s: seq<Slot<E>>, i: nat, j: nat): seq<Slot<E>>
    requires i < |s| && j < |s|
  {
    s[i := s[j]][j := s[i]]
  }

  /** The index map `m` re-recording the two nodes that `Swapped` moves. */
  function Reindexed<E>(s: seq<Slot<E>>, m: map<E, nat>, i: nat, j: nat): map<E, nat>
    requires WellShaped(s) && 1 <= i < |s| && 1 <= j < |s|
  {
    m[s[j].element := i][s[i].element := j]
  }

  /** An exchange keeps the list well formed, its elements distinct and the
      index map sound (and complete, when it was), and only permutes nodes. */
  lemma ExchangeKeepsIndex<E>(s: seq<Slot<E>>, m: map<E, nat>, i: nat, j: nat)
    requires WellShaped(s) && Distinct(s) && IndexSound(s, m)
    requires 1 <= i < |s| && 1 <= j < |s|
    ensures WellShaped(Swapped(s, i, j)) && Distinct(Swapped(s, i, j))
    ensures IndexSound(Swapped(s, i, j), Reindexed(s, m, i, j))
    ensures IndexComplete(s, m) ==> IndexComplete(Swapped(s, i, j), Reindexed(s, m, i, j))
    ensures multiset(Swapped(s, i, j)) == multiset(s)
  {
    SwapDistinct(s, i, j);
    SwapIndexSound(s, m, i, j);
    SwapPermutes(s, i, j);
  }

  lemma SwapDistinct<E>(s: seq<Slot<E>>, i: nat, j: nat)
    requires WellShaped(s) && Distinct(s) && 1 <= i < |s| && 1 <= j < |s|
    ensures WellShaped(Swapped(s, i, j)) && Distinct(Swapped(s, i, j))
  {
    var s' := Swapped(s, i, j);
    forall a, b | 1 <= a < b < |s'| ensures s'[a].element != s'[b].element {
      var a0 := if a == i then j else if a == j then i else a;
      var b0 := if b == i then j else if b == j then i else b;
      assert s'[a] == s[a0] && s'[b] == s[b0] && a0 != b0;
    }
  }

  lemma SwapIndexSound<E>(s: seq<Slot<E>>, m: map<E, nat>, i: nat, j: nat)
    requires WellShaped(s) && Distinct(s) && IndexSound(s, m)
    requires 1 <= i < |s| && 1 <= j < |s|
    ensures WellShaped(Swapped(s, i, j))
    ensures IndexSound(Swapped(s, i, j), Reindexed(s, m, i, j))
    ensures IndexComplete(s, m) ==> IndexComplete(Swapped(s, i, j), Reindexed(s, m, i, j))
  {
    var s', m' := Swapped(s, i, j), Reindexed(s, m, i, j);
    forall e | e in m' ensures 1 <= m'[e] < |s'| && s'[m'[e]].element == e {
      if e != s[i].element && e != s[j].element {
        assert m'[e] == m[e] && m[e] != i && m[e] != j;
      }
    }
  }

  lemma SwapPermutes<E>(s: seq<Slot<E>>, i: nat, j: nat)
    requires i < |s| && j < |s|
    ensures multiset(Swapped(s, i, j)) == multiset(s)
  {
    if i != j {
      calc {
        multiset(Swapped(s, i, j));
        multiset(s[i := s[j]]) - multiset{s[i := s[j]][j]} + multiset{s[i]};
        multiset(s) - multiset{s[i]} + multiset{s[j]} - multiset{s[j]} + multiset{s[i]};
        multiset(s);
      }
    }
  }

  /** One step of `swim`: swapping `k` with its strictly greater parent
      moves the one possible violation up to the parent. */
  lemma SwimStep<E>(s: seq<Slot<E>>, k: nat)
    requires WellShaped(s) && 2 <= k < |s| && SwimReady(s, k)
    requires s[k / 2].priority > s[k].priority
    ensures WellShaped(Swapped(s, k / 2, k)) && SwimReady(Swapped(s, k / 2, k), k / 2)
  {
    var p, s' := k / 2, Swapped(s, k / 2, k);
    forall i | 2 <= i < |s'| && i != p ensures s'[i / 2].priority <= s'[i].priority {
      if i == k {
      } else if i / 2 == p {
        assert s'[i] == s[i];
      } else if i / 2 == k {
        assert i == 2 * k || i == 2 * k + 1;
        assert s'[i] == s[i];
      } else {
        assert s'[i] == s[i] && s'[i / 2] == s[i / 2];
      }
    }
    if p >= 2 {
      assert s[p / 2].priority <= s[p].priority;
      if 2 * p + 1 < |s| {
        var sib := if k == 2 * p then 2 * p + 1 else 2 * p;
        assert sib / 2 == p && sib != k;
        assert s[p].priority <= s[sib].priority;
      }
    }
  }

  /** `swim` may stop at the root or below a parent that is no greater. */
  lemma SwimDone<E>(s: seq<Slot<E>>, k: nat)
    requires WellShaped(s) && 1 <= k < |s| && SwimReady(s, k)
    requires k == 1 || s[k / 2].priority <= s[k].priority
    ensures HeapOrdered(s)
  {
  }

  /** One step of `sink`: swapping `k` with its smaller child `j`, when
      that child is strictly smaller, moves the one possible violation
      down to `j`. */
  lemma SinkStep<E>(s: seq<Slot<E>>, lo: nat, k: nat, j: nat)
    requires WellShaped(s) && 1 <= lo <= k && SinkReady(s, lo, k)
    requires (j == 2 * k || j == 2 * k + 1) && j < |s|
    requires j == 2 * k && 2 * k + 1 < |s| ==> s[2 * k].priority <= s[2 * k + 1].priority
    requires j == 2 * k + 1 ==> s[2 * k + 1].priority < s[2 * k].priority
    requires s[k].priority > s[j].priority
    ensures WellShaped(Swapped(s, k, j)) && SinkReady(Swapped(s, k, j), lo, j)
  {
    var s' := Swapped(s, k, j);
    forall i | 2 <= i < |s'| && i / 2 >= lo && i / 2 != j ensures s'[i / 2].priority <= s'[i].priority {
      if i == k {
        assert s'[i / 2] == s[i / 2];
      } else if i == j {
      } else if i / 2 == k {
        assert s'[i] == s[i];
      } else {
        assert s'[i] == s[i] && s'[i / 2] == s[i / 2];
      }
    }
    if 2 * j < |s| {
      assert (2 * j) / 2 == j;
      assert s[j].priority <= s[2 * j].priority;
    }
    if 2 * j + 1 < |s| {
      assert (2 * j + 1) / 2 == j;
      assert s[j].priority <= s[2 * j + 1].priority;
    }
  }

  /** `sink` may stop at a slot with no children or no smaller child. */
  lemma SinkDone<E>(s: seq<Slot<E>>, lo: nat, k: nat)
    requires WellShaped(s) && 1 <= lo <= k && SinkReady(s, lo, k)
    requires 2 * k < |s| ==> s[k].priority <= s[2 * k].priority
    requires 2 * k + 1 < |s| ==> s[k].priority <= s[2 * k + 1].priority
    ensures OrderedFrom(s, lo)
  {
  }

  /** The list holds exactly the pairs of `pairs`, one node per key. */
  ghost predicate HoldsPairs<E>(s: seq<Slot<E>>, pairs: map<E, real>)
    requires WellShaped(s)
  {
    && (forall k :: 1 <= k < |s| ==> s[k].element in pairs && s[k].priority == pairs[s[k].element])
    && (forall e :: e in pairs ==> Node(e, pairs[e]) in s)
  }

  /** Appending a node for a new key keeps the list distinct and holding the pairs. */
  lemma AppendHolds<E>(s: seq<Slot<E>>, pairs: map<E, real>, e: E, p: real)
    requires WellShaped(s) && Distinct(s) && HoldsPairs(s, pairs) && e !in pairs
    ensures WellShaped(s + [Node(e, p)]) && Distinct(s + [Node(e, p)])
    ensures HoldsPairs(s + [Node(e, p)], pairs[e := p])
  {
    var s', pairs' := s + [Node(e, p)], pairs[e := p];
    forall x | x in pairs' ensures Node(x, pairs'[x]) in s' {
      if x != e {
        assert Node(x, pairs[x]) in s;
      } else {
        assert s'[|s|] == Node(e, p);
      }
    }
  }

  /** Permuting the nodes keeps the stored pairs. */
  lemma HoldsPairsPermutation<E>(a: seq<Slot<E>>, b: seq<Slot<E>>, pairs: map<E, real>)
    requires WellShaped(a) && WellShaped(b) && HoldsPairs(a, pairs)
    requires multiset(a) == multiset(b)
    ensures HoldsPairs(b, pairs)
  {
    forall k | 1 <= k < |b| ensures b[k].element in pairs && b[k].priority == pairs[b[k].element] {
      assert b[k] in multiset(b);
      assert b[k] in a;
    }
    forall e | e in pairs ensures Node(e, pairs[e]) in b {
      assert Node(e, pairs[e]) in multiset(a);
    }
  }

  /** A consistent structure whose list holds `pairs` stores exactly `pairs`. */
  lemma ContentsOfHeld<E>(s: seq<Slot<E>>, m: map<E, nat>, pairs: map<E, real>)
    requires Consistent(s, m) && HoldsPairs(s, pairs)
    ensures ContentsOf(s, m) == pairs
  {
    forall e | e in pairs ensures e in m {
      var k :| 0 <= k < |s| && s[k] == Node(e, pairs[e]);
    }
  }

  /** Appending a node for a new element at the next free slot keeps the
      structure consistent, leaves only that slot to swim, and adds the pair. */
  lemma GrowKeepsIndex<E>(s: seq<Slot<E>>, m: map<E, nat>, e: E, p: real)
    requires Consistent(s, m) && HeapOrdered(s) && e !in m
    ensures Consistent(s + [Node(e, p)], m[e := |s|])
    ensures SwimReady(s + [Node(e, p)], |s|)
    ensures ContentsOf(s + [Node(e, p)], m[e := |s|]) == ContentsOf(s, m)[e := p]
  {
    GrowConsistent(s, m, e, p);
    var s', m' := s + [Node(e, p)], m[e := |s|];
    forall i | 2 <= i < |s'| && i != |s| ensures s'[i / 2].priority <= s'[i].priority {
      assert s'[i] == s[i] && s'[i / 2] == s[i / 2];
    }
    assert m'.Keys == m.Keys + {e};
  }

  lemma GrowConsistent<E>(s: seq<Slot<E>>, m: map<E, nat>, e: E, p: real)
    requires Consistent(s, m) && e !in m
    ensures Consistent(s + [Node(e, p)], m[e := |s|])
  {
    var s', m' := s + [Node(e, p)], m[e := |s|];
    forall i, j | 1 <= i < j < |s'| ensures s'[i].element != s'[j].element {
      if j == |s| {
        assert s[i].element in m;
      }
    }
  }

  /** Moving the root to the last slot and dropping that slot leaves a
      consistent structure, without the old root's pair, in which only the
      new root may need to sink. */
  lemma ShrinkKeepsIndex<E>(s: seq<Slot<E>>, m: map<E, nat>)
    requires Consistent(s, m) && HeapOrdered(s) && |s| >= 2
    ensures
      var n := |s| - 1;
      var s' := Swapped(s, 1, n)[..n];
      var m' := Reindexed(s, m, 1, n) - {s[1].element};
      && Consistent(s', m')
      && SinkReady(s', 1, 1)
      && ContentsOf(s', m') == ContentsOf(s, m) - {s[1].element}
  {
    var n := |s| - 1;
    ExchangeKeepsIndex(s, m, 1, n);
    ShrinkConsistent(s, m);
    ShrinkOrdered(s);
    ShrinkContents(s, m);
  }

  lemma ShrinkOrdered<E>(s: seq<Slot<E>>)
    requires WellShaped(s) && HeapOrdered(s) && |s| >= 2
    ensures var n := |s| - 1; WellShaped(Swapped(s, 1, n)[..n]) && SinkReady(Swapped(s, 1, n)[..n], 1, 1)
  {
    var n := |s| - 1;
    var s' := Swapped(s, 1, n)[..n];
    forall i | 2 <= i < |s'| && i / 2 != 1 ensures s'[i / 2].priority <= s'[i].priority {
      assert s'[i] == s[i] && s'[i / 2] == s[i / 2];
    }
  }

  lemma ShrinkContents<E>(s: seq<Slot<E>>, m: map<E, nat>)
    requires Consistent(s, m) && |s| >= 2
    requires var n := |s| - 1; Consistent(Swapped(s, 1, n)[..n], Reindexed(s, m, 1, n) - {s[1].element})
    ensures var n := |s| - 1;
      ContentsOf(Swapped(s, 1, n)[..n], Reindexed(s, m, 1, n) - {s[1].element}) == ContentsOf(s, m) - {s[1].element}
  {
    var n := |s| - 1;
    var s', m' := Swapped(s, 1, n)[..n], Reindexed(s, m, 1, n) - {s[1].element};
    forall e | e in m' ensures s'[m'[e]].priority == s[m[e]].priority {
      IndexOfSlot(s, m, m'[e]);
    }
    assert m'.Keys == m.Keys - {s[1].element};
  }

  /** Dropping the last slot after exchanging it with the root, and the
      root's element from the map, keeps the structure consistent. */
  lemma ShrinkConsistent<E>(s: seq<Slot<E>>, m: map<E, nat>)
    requires Consistent(s, m) && |s| >= 2
    requires var n := |s| - 1; Consistent(Swapped(s, 1, n), Reindexed(s, m, 1, n))
    ensures var n := |s| - 1; Consistent(Swapped(s, 1, n)[..n], Reindexed(s, m, 1, n) - {s[1].element})
  {
    var n := |s| - 1;
    var s1, m1 := Swapped(s, 1, n), Reindexed(s, m, 1, n);
    var s', m' := s1[..n], m1 - {s[1].element};
    assert s1[n] == s[1];
    forall e | e in m' ensures 1 <= m'[e] < |s'| && s'[m'[e]].element == e {
      assert m1[e] != n;
    }
    forall k | 1 <= k < |s'| ensures s'[k].element in m' {
      assert s1[k].element != s1[n].element;
    }
  }

  /** Overwriting the priority in slot `k` keeps the structure consistent,
      changes exactly that element's pair, and leaves one violation that
      `swim` (smaller priority) or `sink` (otherwise) repairs. */
  lemma RepriorityKeepsIndex<E>(s: seq<Slot<E>>, m: map<E, nat>, k: nat, p: real)
    requires Consistent(s, m) && HeapOrdered(s) && 1 <= k < |s|
    ensures
      var s' := s[k := Node(s[k].element, p)];
      && Consistent(s', m)
      && ContentsOf(s', m) == ContentsOf(s, m)[s[k].element := p]
      && (p < s[k].priority ==> SwimReady(s', k))
      && (p >= s[k].priority ==> SinkReady(s', 1, k))
  {
    var s' := s[k := Node(s[k].element, p)];
    assert Consistent(s', m);
    IndexOfSlot(s, m, k);
    forall e | e in m && e != s[k].element ensures m[e] != k {
    }
    if p < s[k].priority {
      forall i | 2 <= i < |s'| && i != k ensures s'[i / 2].priority <= s'[i].priority {
        assert s'[i] == s[i];
      }
      if k >= 2 && 2 * k < |s| {
        assert (2 * k) / 2 == k;
        assert s[k / 2].priority <= s[k].priority <= s[2 * k].priority;
      }
      if k >= 2 && 2 * k + 1 < |s| {
        assert (2 * k + 1) / 2 == k;
        assert s[k / 2].priority <= s[k].priority <= s[2 * k + 1].priority;
      }
    } else {
      forall i | 2 <= i < |s'| && i / 2 != k ensures s'[i / 2].priority <= s'[i].priority {
        assert s'[i / 2] == s[i / 2];
      }
      if k >= 2 && 2 * k < |s| {
        assert (2 * k) / 2 == k;
        assert s[k / 2].priority <= s[k].priority <= s[2 * k].priority;
      }
      if k >= 2 && 2 * k + 1 < |s| {
        assert (2 * k + 1) / 2 == k;
        assert s[k / 2].priority <= s[k].priority <= s[2 * k + 1].priority;
      }
    }
  }

  class OptimizedHeapMinPQ<E(==)> {
    /** The heap of element-priority nodes; slot 0 is unused. */
    var elements: seq<Slot<E>>
    /** Each element's slot in `elements`. */
    var elementsToIndex: map<E, nat>

    /** The class invariant: consistent index map and heap order. */
    ghost predicate Valid()
      reads this
    {
      Consistent(elements, elementsToIndex) && HeapOrdered(elements)
    }

    /** The element-to-priority pairs this queue stores. */
    ghost function Contents(): map<E, real>
      reads this
      requires Valid()
    {
      ContentsOf(elements, elementsToIndex)
    }

    /** Constructs an empty instance. */
    constructor ()
      ensures Valid() && Contents() == map[]
    {
      elements := [Sentinel];
      elementsToIndex := map[];
    }

    /** Constructs an instance holding the given pairs: the nodes are
        appended in the map's (unspecified) iteration order, every internal
        slot is sunk from `size()/2` down to 1, and the index map is rebuilt. */
    constructor FromMap(elementsAndPriorities: map<E, real>)
      ensures Valid() && Contents() == elementsAndPriorities
    {
      elements := [Sentinel];
      elementsToIndex := map[];
      new;
      var given := elementsAndPriorities;
      var rest := given.Keys;
      ghost var done: map<E, real> := map[];
      while rest != {}
        invariant rest !! done.Keys && rest + done.Keys == given.Keys
        invariant forall e :: e in done ==> done[e] == given[e]
        invariant WellShaped(elements) && Distinct(elements) && HoldsPairs(elements, done)
        invariant elementsToIndex == map[]
        decreases rest
      {
        var e :| e in rest;
        AppendHolds(elements, done, e, given[e]);
        elements := elements + [Node(e, given[e])];
        done := done[e := given[e]];
        rest := rest - {e};
      }
      assert done == given;
      ghost var loaded := elements;
      Heapify();
      IndexAll();
      HoldsPairsPermutation(loaded, elements, given);
      ContentsOfHeld(elements, elementsToIndex, given);
    }

    /** Sinks every internal slot, from `size()/2` down to 1, so that the
        whole list is heap ordered. */
    method Heapify()
      requires WellShaped(elements) && Distinct(elements) && IndexSound(elements, elementsToIndex)
      modifies this
      ensures WellShaped(elements) && Distinct(elements) && IndexSound(elements, elementsToIndex)
      ensures HeapOrdered(elements)
      ensures multiset(elements) == multiset(old(elements))
    {
      var k := Size() / 2;
      while k >= 1
        invariant 0 <= k <= Size() / 2
        invariant WellShaped(elements) && Distinct(elements) && IndexSound(elements, elementsToIndex)
        invariant OrderedFrom(elements, k + 1)
        invariant multiset(elements) == multiset(old(elements))
        decreases k
      {
        ghost var before := elements;
        Sink(k, k);
        assert |elements| == |multiset(elements)| == |multiset(before)| == |before|;
        k := k - 1;
      }
    }

    /** Records every slot's element in the index map. */
    method IndexAll()
      requires WellShaped(elements) && Distinct(elements) && IndexSound(elements, elementsToIndex)
      modifies this
      ensures elements == old(elements)
      ensures Consistent(elements, elementsToIndex)
    {
      var i := 1;
      while i < |elements|
        invariant 1 <= i <= |elements|
        invariant elements == old(elements)
        invariant WellShaped(elements) && Distinct(elements) && IndexSound(elements, elementsToIndex)
        invariant forall j :: 1 <= j < i ==> elements[j].element in elementsToIndex
      {
        elementsToIndex := elementsToIndex[elements[i].element := i];
        i := i + 1;
      }
    }

    /** The number of slots in use. */
    function Size(): int
      reads this
    {
      |elements| - 1
    }

    /** `size()` counts the stored pairs, and so the index map's entries. */
    lemma SizeCountsPairs()
      requires Valid()
      ensures Size() == |Contents()| == |elementsToIndex|
    {
      IndexCount(elements, elementsToIndex);
      assert Contents().Keys == elementsToIndex.Keys;
    }

    /** Whether slot `i` holds a strictly greater priority than slot `j`. */
    function Greater(i: nat, j: nat): bool
      reads this
      requires WellShaped(elements) && 1 <= i < |elements| && 1 <= j < |elements|
    {
      elements[i].priority > elements[j].priority
    }

    /** Swaps the nodes in slots `i` and `j` and re-records both in the index map. */
    method Exchange(i: nat, j: nat)
      requires WellShaped(elements) && Distinct(elements) && IndexSound(elements, elementsToIndex)
      requires 1 <= i < |elements| && 1 <= j < |elements|
      modifies this
      ensures elements == Swapped(old(elements), i, j)
      ensures elementsToIndex == Reindexed(old(elements), old(elementsToIndex), i, j)
      ensures WellShaped(elements) && Distinct(elements) && IndexSound(elements, elementsToIndex)
      ensures old(IndexComplete(elements, elementsToIndex)) ==> IndexComplete(elements, elementsToIndex)
      ensures multiset(elements) == multiset(old(elements))
    {
      ExchangeKeepsIndex(elements, elementsToIndex, i, j);
      var swap1 := elements[i];
      var swap2 := elements[j];
      elements := elements[j := swap1];
      elements := elements[i := swap2];
      elementsToIndex := elementsToIndex[elements[i].element := i];
      elementsToIndex := elementsToIndex[elements[j].element := j];
    }

    /** Moves the node at slot `k` down, swapping it with its smaller
        child while that child is strictly smaller. */
    method Sink(k: nat, ghost lo: nat)
      requires WellShaped(elements) && Distinct(elements) && IndexSound(elements, elementsToIndex)
      requires 1 <= lo <= k && SinkReady(elements, lo, k)
      modifies this
      ensures WellShaped(elements) && Distinct(elements) && IndexSound(elements, elementsToIndex)
      ensures old(IndexComplete(elements, elementsToIndex)) ==> IndexComplete(elements, elementsToIndex)
      ensures OrderedFrom(elements, lo)
      ensures multiset(elements) == multiset(old(elements))
    {
      var k := k;
      while 2 * k <= Size()
        invariant lo <= k
        invariant WellShaped(elements) && Distinct(elements) && IndexSound(elements, elementsToIndex)
        invariant old(IndexComplete(elements, elementsToIndex)) ==> IndexComplete(elements, elementsToIndex)
        invariant SinkReady(elements, lo, k)
        invariant multiset(elements) == multiset(old(elements))
        decreases |elements| - k
      {
        var j := 2 * k;
        if j < Size() && Greater(j, j + 1) {
          j := j + 1;
        }
        if !Greater(k, j) {
          SinkDone(elements, lo, k);
          return;
        }
        SinkStep(elements, lo, k, j);
        Exchange(k, j);
        k := j;
      }
      SinkDone(elements, lo, k);
    }

    /** Moves the node at slot `k` up, swapping it with its parent while
        the parent is strictly greater. */
    method Swim(k: nat)
      requires Consistent(elements, elementsToIndex)
      requires 1 <= k < |elements| && SwimReady(elements, k)
      modifies this
      ensures Consistent(elements, elementsToIndex) && HeapOrdered(elements)
      ensures multiset(elements) == multiset(old(elements))
    {
      var k := k;
      while k > 1 && Greater(k / 2, k)
        invariant 1 <= k < |elements|
        invariant Consistent(elements, elementsToIndex)
        invariant SwimReady(elements, k)
        invariant multiset(elements) == multiset(old(elements))
        decreases k
      {
        SwimStep(elements, k);
        Exchange(k / 2, k);
        k := k / 2;
      }
      SwimDone(elements, k);
    }

    /** Whether `element` is stored. */
    function Contains(element: E): (b: bool)
      reads this
      requires Valid()
      ensures b <==> element in Contents()
      ensures b <==> exists k :: 1 <= k < |elements| && elements[k].element == element
    {
      if element in elementsToIndex then
        assert elements[elementsToIndex[element]].element == element;
        true
      else
        assert forall k :: 1 <= k < |elements| ==> elements[k].element in elementsToIndex;
        false
    }

    /** Adds `element` with `priority`; an element already present is
        rejected and the queue is left as it was. */
    method Add(element: E, priority: real) returns (r: Outcome)
      requires Valid()
      modifies this
      ensures Valid()
      ensures old(element in Contents()) ==>
        r == Fail(IllegalArgumentException) && elements == old(elements) && elementsToIndex == old(elementsToIndex)
      ensures old(element !in Contents()) ==>
        r == Pass && Contents() == old(Contents())[element := priority]
    {
      if Contains(element) {
        return Fail(IllegalArgumentException);
      }
      ghost var s0, m0 := elements, elementsToIndex;
      GrowKeepsIndex(s0, m0, element, priority);
      elements := elements + [Node(element, priority)];
      elementsToIndex := elementsToIndex[element := Size()];
      assert elements == s0 + [Node(element, priority)] && elementsToIndex == m0[element := |s0|];
      ghost var grown, grownIndex := elements, elementsToIndex;
      Swim(Size());
      ContentsOfPermutation(grown, grownIndex, elements, elementsToIndex);
      r := Pass;
    }

    /** The priority of `element`; Java dereferences a missing map entry,
        which throws `NullPointerException`. */
    method GetPriority(element: E) returns (r: Result<real>)
      requires Valid()
      ensures element in Contents() ==> r == Success(Contents()[element])
      ensures element !in Contents() ==> r == Failure(NullPointerException)
    {
      if element !in elementsToIndex {
        return Failure(NullPointerException);
      }
      var curr := elements[elementsToIndex[element]];
      r := Success(curr.priority);
    }

    /** The element at the root, which has the least priority. */
    method PeekMin() returns (r: Result<E>)
      requires Valid()
      ensures |Contents()| == 0 <==> r == Failure(NoSuchElementException)
      ensures r.Success? ==>
        && r.value in Contents()
        && forall e :: e in Contents() ==> Contents()[r.value] <= Contents()[e]
      ensures r.Success? ==> 1 < |elements| && r.value == elements[1].element
    {
      SizeCountsPairs();
      if Size() == 0 {
        return Failure(NoSuchElementException);
      }
      RootHoldsMinimum();
      r := Success(elements[1].element);
    }

    /** The root's node has the least priority stored. */
    lemma RootHoldsMinimum()
      requires Valid() && 1 < |elements|
      ensures elements[1].element in Contents()
      ensures forall e :: e in Contents() ==> Contents()[elements[1].element] <= Contents()[e]
    {
      IndexOfSlot(elements, elementsToIndex, 1);
      forall e | e in Contents() ensures Contents()[elements[1].element] <= Contents()[e] {
        RootIsMin(elements, elementsToIndex[e]);
      }
    }

    /** Removes and returns an element of least priority: the root is
        swapped with the last slot, dropped, and the new root sunk. */
    method RemoveMin() returns (r: Result<E>)
      requires Valid()
      modifies this
      ensures Valid()
      ensures old(|Contents()|) == 0 ==>
        r == Failure(NoSuchElementException) && elements == old(elements) && elementsToIndex == old(elementsToIndex)
      ensures old(|Contents()|) != 0 ==>
        && r.Success? && r.value in old(Contents())
        && (forall e :: e in old(Contents()) ==> old(Contents())[r.value] <= old(Contents())[e])
        && Contents() == old(Contents()) - {r.value}
      ensures r.Success? ==> 1 < |old(elements)| && r.value == old(elements)[1].element
    {
      SizeCountsPairs();
      if Size() == 0 {
        return Failure(NoSuchElementException);
      }
      RootHoldsMinimum();
      var min := elements[1];
      ghost var s0, m0 := elements, elementsToIndex;
      ShrinkKeepsIndex(s0, m0);
      Exchange(1, Size());
      elements := elements[..Size()];
      elementsToIndex := elementsToIndex - {min.element};
      ghost var s2, m2 := elements, elementsToIndex;
      Sink(1, 1);
      ContentsOfPermutation(s2, m2, elements, elementsToIndex);
      r := Success(min.element);
    }

    /** Sets the priority of a stored element and restores heap order
        by swimming (smaller priority) or sinking (otherwise). */
    method ChangePriority(element: E, priority: real) returns (r: Outcome)
      requires Valid()
      modifies this
      ensures Valid()
      ensures old(element !in Contents()) ==>
        r == Fail(NoSuchElementException) && elements == old(elements) && elementsToIndex == old(elementsToIndex)
      ensures old(element in Contents()) ==>
        r == Pass && Contents() == old(Contents())[element := priority]
    {
      if !Contains(element) {
        return Fail(NoSuchElementException);
      }
      var index := elementsToIndex[element];
      var oldPriority := elements[index].priority;
      ghost var s0 := elements;
      elements := elements[index := Node(element, priority)];
      RepriorityKeepsIndex(s0, elementsToIndex, index, priority);
      ghost var s1, m1 := elements, elementsToIndex;
      if priority < oldPriority {
        Swim(index);
      } else {
        Sink(index, 1);
      }
      ContentsOfPermutation(s1, m1, elements, elementsToIndex);
      r := Pass;
    }
  }
}
