/** The reference priority queue: (element, priority) nodes kept in an
    unordered list, every query answered by a linear scan. */
module UnsortedArray {
  import opened Wrappers

  /** An element paired with its priority. */
  datatype PriorityNode<E> = PriorityNode(element: E, priority: real)

  /** No element occurs in two nodes. */
  ghost predicate DistinctElements<E>(s: seq<PriorityNode<E>>)
  {
    forall i, j :: 0 <= i < j < |s| ==> s[i].element != s[j].element
  }

  /** Some node of `s` holds `e`. */
  ghost predicate Holds<E>(s: seq<PriorityNode<E>>, e: E)
  {
    exists i :: 0 <= i < |s| && s[i].element == e
  }

  /** Slot `i` holds a least priority of `s`, and no earlier slot does. */
  ghost predicate IsFirstMin<E>(s: seq<PriorityNode<E>>, i: int)
  {
    && 0 <= i < |s|
    && (forall j :: 0 <= j < |s| ==> s[i].priority <= s[j].priority)
    && (forall j :: 0 <= j < i ==> s[i].priority < s[j].priority)
  }

  /** The element-to-priority pairs of a list of nodes (later nodes win,
      which never matters when the elements are distinct). */
  ghost function PairsOf<E>(s: seq<PriorityNode<E>>): map<E, real>
  {
    if s == [] then map[] else PairsOf(s[..|s| - 1])[s[|s| - 1].element := s[|s| - 1].priority]
  }

  /** The pairs of a list with distinct elements are exactly its nodes. */
  lemma {:induction false} PairsOfNodes<E>(s: seq<PriorityNode<E>>)
    requires DistinctElements(s)
    ensures forall e :: e in PairsOf(s) <==> Holds(s, e)
    ensures forall i :: 0 <= i < |s| ==> s[i].element in PairsOf(s) && PairsOf(s)[s[i].element] == s[i].priority
  {
    if s != [] {
      var init := s[..|s| - 1];
      PairsOfNodes(init);
      forall e | Holds(s, e) ensures e in PairsOf(s) {
        var i :| 0 <= i < |s| && s[i].element == e;
        if i < |s| - 1 {
          assert init[i].element == e;
        }
      }
      forall e | e in PairsOf(s) ensures Holds(s, e) {
        if e != s[|s| - 1].element {
          assert e in PairsOf(init);
          assert Holds(init, e);
          var i :| 0 <= i < |init| && init[i].element == e;
          assert s[i].element == e;
        }
      }
      forall i | 0 <= i < |s| ensures PairsOf(s)[s[i].element] == s[i].priority {
        if i < |s| - 1 {
          assert init[i] == s[i];
        }
      }
    }
  }

  /** Two lists with distinct elements and the same nodes, in any order,
      have the same pairs. */
  lemma SamePairs<E>(a: seq<PriorityNode<E>>, b: seq<PriorityNode<E>>, pairs: map<E, real>)
    requires DistinctElements(a)
    requires forall e :: e in pairs <==> Holds(a, e)
    requires forall i :: 0 <= i < |a| ==> a[i].element in pairs && pairs[a[i].element] == a[i].priority
    ensures PairsOf(a) == pairs
  {
    PairsOfNodes(a);
    forall e | e in pairs ensures e in PairsOf(a) && PairsOf(a)[e] == pairs[e] {
      var i :| 0 <= i < |a| && a[i].element == e;
    }
    forall e | e in PairsOf(a) ensures e in pairs {
      assert Holds(a, e);
    }
    assert PairsOf(a).Keys == pairs.Keys;
  }

  class UnsortedArrayMinPQ<E(==)> {
    /** The element-priority nodes, in no particular order. */
    var elements: seq<PriorityNode<E>>

    /** The class invariant: each element is stored once. */
    ghost predicate Valid()
      reads this
    {
      DistinctElements(elements)
    }

    /** The element-to-priority pairs this queue stores. */
    ghost function Contents(): map<E, real>
      reads this
    {
      PairsOf(elements)
    }

    /** Constructs an empty instance. */
    constructor ()
      ensures Valid() && elements == []
    {
      elements := [];
    }

    /** Constructs an instance by adding every pair of the map, in its
        (unspecified) iteration order. */
    constructor FromMap(elementsAndPriorities: map<E, real>)
      ensures Valid() && Contents() == elementsAndPriorities
      ensures |elements| == |elementsAndPriorities|
    {
      elements := [];
      new;
      var given := elementsAndPriorities;
      var rest := given.Keys;
      while rest != {}
        invariant rest <= given.Keys && Valid()
        invariant forall e :: e in given && e !in rest <==> Holds(elements, e)
        invariant forall i :: 0 <= i < |elements| ==> elements[i] == PriorityNode(elements[i].element, given[elements[i].element])
        invariant |elements| + |rest| == |given|
        decreases rest
      {
        var e :| e in rest;
        var r := Add(e, given[e]);
        rest := rest - {e};
      }
      SamePairs(elements, elements, given);
    }

    /** Adds `element` with `priority` at the end; an element already
        present is rejected and nothing changes. */
    method Add(element: E, priority: real) returns (r: Outcome)
      requires Valid()
      modifies this
      ensures Valid()
      ensures old(Holds(elements, element)) ==> r == Fail(IllegalArgumentException) && elements == old(elements)
      ensures !old(Holds(elements, element)) ==> r == Pass && elements == old(elements) + [PriorityNode(element, priority)]
      ensures !old(Holds(elements, element)) ==> Contents() == old(Contents())[element := priority]
    {
      var present := Contains(element);
      if present {
        return Fail(IllegalArgumentException);
      }
      elements := elements + [PriorityNode(element, priority)];
      assert elements[..|elements| - 1] == old(elements);
      r := Pass;
    }

    /** Whether some node holds `element`, by a scan from the front. */
    method Contains(element: E) returns (b: bool)
      ensures b <==> Holds(elements, element)
    {
      var i := 0;
      while i < |elements|
        invariant 0 <= i <= |elements|
        invariant forall j :: 0 <= j < i ==> elements[j].element != element
      {
        if elements[i].element == element {
          return true;
        }
        i := i + 1;
      }
      return false;
    }

    /** The priority of the first node holding `element`. */
    method GetPriority(element: E) returns (r: Result<real>)
      ensures r.Failure? <==> !Holds(elements, element)
      ensures r.Failure? ==> r.error == NoSuchElementException
      ensures r.Success? ==> exists i :: 0 <= i < |elements| && elements[i] == PriorityNode(element, r.value)
      ensures Valid() && element in Contents() ==> r == Success(Contents()[element])
    {
      var i := 0;
      while i < |elements|
        invariant 0 <= i <= |elements|
        invariant forall j :: 0 <= j < i ==> elements[j].element != element
      {
        if elements[i].element == element {
          if Valid() {
            PairsOfNodes(elements);
          }
          return Success(elements[i].priority);
        }
        i := i + 1;
      }
      if Valid() {
        PairsOfNodes(elements);
      }
      return Failure(NoSuchElementException);
    }

    /** The element of least priority, the earliest one on ties. */
    method PeekMin() returns (r: Result<E>)
      ensures elements == [] <==> r.Failure?
      ensures r.Failure? ==> r.error == NoSuchElementException
      ensures r.Success? ==> exists i :: IsFirstMin(elements, i) && r.value == elements[i].element
    {
      if |elements| == 0 {
        return Failure(NoSuchElementException);
      }
      var min := elements[0].priority;
      var minElement := elements[0].element;
      ghost var at := 0;
      var i := 0;
      while i < |elements|
        invariant 0 <= i <= |elements| && 0 <= at < |elements| && at <= i
        invariant min == elements[at].priority && minElement == elements[at].element
        invariant forall j :: 0 <= j < i ==> min <= elements[j].priority
        invariant forall j :: 0 <= j < at ==> min < elements[j].priority
      {
        if min > elements[i].priority {
          min := elements[i].priority;
          minElement := elements[i].element;
          at := i;
        }
        i := i + 1;
      }
      r := Success(minElement);
    }

    /** Removes the first node of least priority and returns its element;
        the other nodes keep their order. */
    method RemoveMin() returns (r: Result<E>)
      requires Valid()
      modifies this
      ensures Valid()
      ensures old(elements) == [] ==> r == Failure(NoSuchElementException) && elements == old(elements)
      ensures old(elements) != [] ==> exists i ::
        && IsFirstMin(old(elements), i)
        && r == Success(old(elements)[i].element)
        && elements == old(elements)[..i] + old(elements)[i + 1..]
      ensures old(elements) != [] ==> r.Success? && Contents() == old(Contents()) - {r.value}
    {
      if |elements| == 0 {
        return Failure(NoSuchElementException);
      }
      var toRemove := 0;
      var minPriority := elements[0].priority;
      var i := 0;
      while i < |elements|
        invariant 0 <= i <= |elements| && 0 <= toRemove < |elements| && toRemove <= i
        invariant minPriority == elements[toRemove].priority
        invariant forall j :: 0 <= j < i ==> minPriority <= elements[j].priority
        invariant forall j :: 0 <= j < toRemove ==> minPriority < elements[j].priority
      {
        if elements[i].priority < minPriority {
          minPriority := elements[i].priority;
          toRemove := i;
        }
        i := i + 1;
      }
      ghost var before := elements;
      var removed := elements[toRemove];
      elements := elements[..toRemove] + elements[toRemove + 1..];
      RemovePairs(before, toRemove);
      r := Success(removed.element);
    }

    /** Sets the priority of every node holding `element` (there is at most
        one); an absent element is rejected and nothing changes. */
    method ChangePriority(element: E, priority: real) returns (r: Outcome)
      requires Valid()
      modifies this
      ensures Valid()
      ensures !old(Holds(elements, element)) ==> r == Fail(NoSuchElementException) && elements == old(elements)
      ensures old(Holds(elements, element)) ==>
        && r == Pass
        && |elements| == |old(elements)|
        && (forall i :: 0 <= i < |elements| ==>
              elements[i] == if old(elements)[i].element == element then PriorityNode(element, priority) else old(elements)[i])
      ensures old(Holds(elements, element)) ==> Contents() == old(Contents())[element := priority]
    {
      var present := Contains(element);
      if !present {
        return Fail(NoSuchElementException);
      }
      ghost var before := elements;
      var i := 0;
      while i < |elements|
        invariant 0 <= i <= |elements| && |elements| == |before|
        invariant forall j :: 0 <= j < |elements| ==>
          elements[j] == if j < i && before[j].element == element then PriorityNode(element, priority) else before[j]
      {
        if elements[i].element == element {
          elements := elements[i := PriorityNode(element, priority)];
        }
        i := i + 1;
      }
      RepricePairs(before, elements, element, priority);
      r := Pass;
    }

    /** The number of stored nodes. */
    function Size(): nat
      reads this
    {
      |elements|
    }

    /** `size()` counts the stored pairs. */
    lemma SizeCountsPairs()
      requires Valid()
      ensures Size() == |Contents()|
    {
      PairsCount(elements);
    }
  }

  /** Dropping slot `i` of a distinct list drops exactly its element's pair. */
  lemma RemovePairs<E>(s: seq<PriorityNode<E>>, i: int)
    requires DistinctElements(s) && 0 <= i < |s|
    ensures DistinctElements(s[..i] + s[i + 1..])
    ensures PairsOf(s[..i] + s[i + 1..]) == PairsOf(s) - {s[i].element}
  {
    var t := s[..i] + s[i + 1..];
    var pairs := PairsOf(s) - {s[i].element};
    RemoveDistinct(s, i);
    PairsOfNodes(s);
    forall j | 0 <= j < |t|
      ensures t[j].element in pairs && pairs[t[j].element] == t[j].priority
    {
      var j0 := if j < i then j else j + 1;
      assert t[j] == s[j0] && j0 != i;
    }
    forall e | Holds(t, e) ensures e in pairs {
      var j :| 0 <= j < |t| && t[j].element == e;
      assert t[j].element in pairs;
    }
    forall e | e in pairs ensures Holds(t, e) {
      assert Holds(s, e);
      var j :| 0 <= j < |s| && s[j].element == e;
      if j < i {
        assert t[j].element == e;
      } else {
        assert t[j - 1].element == e;
      }
    }
    SamePairs(t, t, pairs);
  }

  lemma RemoveDistinct<E>(s: seq<PriorityNode<E>>, i: int)
    requires DistinctElements(s) && 0 <= i < |s|
    ensures DistinctElements(s[..i] + s[i + 1..])
  {
    var t := s[..i] + s[i + 1..];
    forall a, b | 0 <= a < b < |t|
      ensures t[a].element != t[b].element
    {
      var a0 := if a < i then a else a + 1;
      var b0 := if b < i then b else b + 1;
      assert t[a] == s[a0] && t[b] == s[b0] && a0 < b0;
    }
  }

  /** Repricing the node of `e` in a distinct list changes exactly its pair. */
  lemma RepricePairs<E>(s: seq<PriorityNode<E>>, t: seq<PriorityNode<E>>, e: E, p: real)
    requires DistinctElements(s) && Holds(s, e) && |t| == |s|
    requires forall j :: 0 <= j < |s| ==> t[j] == if s[j].element == e then PriorityNode(e, p) else s[j]
    ensures DistinctElements(t)
    ensures PairsOf(t) == PairsOf(s)[e := p]
  {
    PairsOfNodes(s);
    forall x ensures x in PairsOf(s)[e := p] <==> Holds(t, x) {
      if Holds(t, x) {
        var j :| 0 <= j < |t| && t[j].element == x;
        assert s[j].element == x;
      }
      if x in PairsOf(s) {
        var j :| 0 <= j < |s| && s[j].element == x;
        assert t[j].element == x;
      }
      if x == e {
        var j :| 0 <= j < |s| && s[j].element == x;
        assert t[j].element == x;
      }
    }
    SamePairs(t, t, PairsOf(s)[e := p]);
  }

  /** A distinct list has one pair per node. */
  lemma {:induction false} PairsCount<E>(s: seq<PriorityNode<E>>)
    requires DistinctElements(s)
    ensures |PairsOf(s)| == |s|
  {
    if s != [] {
      var init := s[..|s| - 1];
      PairsCount(init);
      PairsOfNodes(init);
      assert !Holds(init, s[|s| - 1].element);
    }
  }
}
