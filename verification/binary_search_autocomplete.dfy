/** `BinarySearchAutocomplete`: the terms kept sorted by `CharSequence.compare`;
    a query binary-searches for the prefix and then scans the contiguous run
    of terms that start with it.

    The JDK's `Collections.sort` and `Collections.binarySearch` are library
    code: `SortTerms` stands in for the first (any correct sort gives the same
    list, see `SortedUnique`), and `BinarySearch` follows the JDK's
    `indexedBinarySearch` step by step, since its exact result matters here. */
module BinarySearch {
  import opened Wrappers
  import opened Terms
  import opened Lists

  // ---------------------------------------------------------------------
  // Sorting
  // ---------------------------------------------------------------------

  /** Inserts `x` into a sorted list before the first term above it. */
  function Insert(s: seq<Term>, x: Term): (r: seq<Term>)
    requires Sorted(s)
    ensures Sorted(r)
    ensures multiset(r) == multiset(s) + multiset{x}
  {
    if s == [] then [x]
    else if Compare(x, s[0]) <= 0 then
      InsertFrontSorted(s, x);
      [x] + s
    else
      var rest := Insert(s[1..], x);
      assert s == [s[0]] + s[1..];
      CompareFlip(s[0], x);
      InsertBehindSorted(s[0], s[1..], x, rest);
      [s[0]] + rest
  }

  lemma InsertFrontSorted(s: seq<Term>, x: Term)
    requires Sorted(s) && s != [] && Compare(x, s[0]) <= 0
    ensures Sorted([x] + s)
  {
    forall j | 0 <= j < |s|
      ensures Compare(x, s[j]) <= 0
    {
      if j > 0 {
        CompareTrans(x, s[0], s[j]);
      }
    }
  }

  lemma InsertBehindSorted(h: Term, t: seq<Term>, x: Term, rest: seq<Term>)
    requires Sorted([h] + t) && Sorted(rest) && Compare(h, x) < 0
    requires multiset(rest) == multiset(t) + multiset{x}
    ensures Sorted([h] + rest)
  {
    forall j | 0 <= j < |rest|
      ensures Compare(h, rest[j]) <= 0
    {
      assert rest[j] in multiset(rest);
      if rest[j] != x {
        assert rest[j] in multiset(t);
        HeadBelowTail(h, t, rest[j]);
      }
    }
    ConsSorted(h, rest);
  }

  /** The head of a sorted list is at or below each term of its tail. */
  lemma HeadBelowTail(h: Term, t: seq<Term>, y: Term)
    requires Sorted([h] + t) && y in t
    ensures Compare(h, y) <= 0
  {
    var k :| 0 <= k < |t| && t[k] == y;
    assert ([h] + t)[0] == h && ([h] + t)[k + 1] == t[k];
  }

  /** A term at or below every term of a sorted list can go in front of it. */
  lemma ConsSorted(h: Term, rest: seq<Term>)
    requires Sorted(rest)
    requires forall j :: 0 <= j < |rest| ==> Compare(h, rest[j]) <= 0
    ensures Sorted([h] + rest)
  {
    forall i, j | 0 <= i < j < |rest| + 1
      ensures Compare(([h] + rest)[i], ([h] + rest)[j]) <= 0
    {
      if i > 0 {
        assert ([h] + rest)[i] == rest[i - 1];
      }
    }
  }

  /** Stands in for `Collections.sort(elements, CharSequence::compare)`. */
  function SortTerms(s: seq<Term>): (r: seq<Term>)
    ensures Sorted(r)
    ensures multiset(r) == multiset(s)
  {
    if s == [] then []
    else
      assert s == s[..|s| - 1] + [s[|s| - 1]];
      Insert(SortTerms(s[..|s| - 1]), s[|s| - 1])
  }

  /** The head of a sorted list is at or below each of its terms. */
  lemma HeadIsLeast(a: seq<Term>, x: Term)
    requires Sorted(a) && x in a
    ensures Compare(a[0], x) <= 0
  {
    var j :| 0 <= j < |a| && a[j] == x;
    if j == 0 {
      CompareZero(a[0], x);
    }
  }

  lemma TailSorted(a: seq<Term>)
    requires Sorted(a) && a != []
    ensures Sorted(a[1..])
  {
    forall i, j | 0 <= i < j < |a| - 1
      ensures Compare(a[1..][i], a[1..][j]) <= 0
    {
      assert a[1..][i] == a[i + 1] && a[1..][j] == a[j + 1];
    }
  }

  /** A sorted list is determined by its terms: whatever sort the library
      uses, the sorted `elements` are the same list. */
  lemma {:induction false} SortedUnique(a: seq<Term>, b: seq<Term>)
    requires Sorted(a) && Sorted(b)
    requires multiset(a) == multiset(b)
    ensures a == b
  {
    if a != [] {
      SameHead(a, b);
      SameTail(a, b);
      TailSorted(a);
      TailSorted(b);
      SortedUnique(a[1..], b[1..]);
      assert a == [a[0]] + a[1..] && b == [b[0]] + b[1..];
    }
  }

  /** Two sorted lists with the same terms start with the same term. */
  lemma SameHead(a: seq<Term>, b: seq<Term>)
    requires Sorted(a) && Sorted(b) && a != []
    requires multiset(a) == multiset(b)
    ensures b != [] && a[0] == b[0]
  {
    assert a[0] in multiset(b);
    assert b[0] in multiset(a);
    HeadIsLeast(b, a[0]);
    HeadIsLeast(a, b[0]);
    CompareFlip(a[0], b[0]);
    CompareZero(a[0], b[0]);
  }

  /** Lists with the same terms and the same head have tails with the same terms. */
  lemma SameTail(a: seq<Term>, b: seq<Term>)
    requires a != [] && b != [] && a[0] == b[0]
    requires multiset(a) == multiset(b)
    ensures multiset(a[1..]) == multiset(b[1..])
  {
    assert a == [a[0]] + a[1..] && b == [b[0]] + b[1..];
    assert multiset(a) == multiset{a[0]} + multiset(a[1..]);
    assert multiset(b) == multiset{b[0]} + multiset(b[1..]);
    assert multiset(a[1..]) == multiset(a) - multiset{a[0]};
    assert multiset(b[1..]) == multiset(b) - multiset{b[0]};
  }

  // ---------------------------------------------------------------------
  // The JDK binary search
  // ---------------------------------------------------------------------

  /** `Collections.binarySearch(s, key, CharSequence::compare)` on the range
      `low..high`: the index of some term equal to `key`, or `-(insertion
      point) - 1` when there is none. */
  function Search(s: seq<Term>, key: Term, low: int, high: int): int
    requires 0 <= low <= high + 1 <= |s|
    decreases high - low
  {
    if low > high then -(low + 1)
    else
      var mid := (low + high) / 2;
      var cmp := Compare(s[mid], key);
      if cmp < 0 then Search(s, key, mid + 1, high)
      else if cmp > 0 then Search(s, key, low, mid - 1)
      else mid
  }

  /** The search over the whole list. */
  function BinarySearch(s: seq<Term>, key: Term): int
  {
    Search(s, key, 0, |s| - 1)
  }

  /** Every term before `i` is below `key`. */
  ghost predicate AllBelow(s: seq<Term>, key: Term, i: int)
    requires 0 <= i <= |s|
  {
    forall j :: 0 <= j < i ==> Compare(s[j], key) < 0
  }

  /** No term from `i` on is below `key`. */
  ghost predicate NoneBelowFrom(s: seq<Term>, key: Term, i: int)
    requires 0 <= i <= |s|
  {
    forall j :: i <= j < |s| ==> Compare(key, s[j]) <= 0
  }

  lemma NotStored(s: seq<Term>, key: Term, i: nat)
    requires i <= |s|
    requires AllBelow(s, key, i)
    requires forall j :: i <= j < |s| ==> Compare(key, s[j]) < 0
    ensures key !in s
  {
    forall j | 0 <= j < |s|
      ensures s[j] != key
    {
      if j < i {
        CompareZero(s[j], key);
      } else {
        CompareZero(key, s[j]);
      }
    }
  }

  lemma BelowThrough(s: seq<Term>, key: Term, mid: nat)
    requires mid < |s| && Sorted(s) && Compare(s[mid], key) < 0
    ensures AllBelow(s, key, mid + 1)
  {
    forall j | 0 <= j < mid + 1
      ensures Compare(s[j], key) < 0
    {
      if j < mid {
        CompareTrans(s[j], s[mid], key);
      }
    }
  }

  lemma AboveFrom(s: seq<Term>, key: Term, mid: nat)
    requires mid < |s| && Sorted(s) && Compare(s[mid], key) > 0
    ensures forall j :: mid <= j < |s| ==> Compare(key, s[j]) < 0
  {
    CompareFlip(key, s[mid]);
    forall j | mid <= j < |s|
      ensures Compare(key, s[j]) < 0
    {
      if j > mid {
        CompareTrans(key, s[mid], s[j]);
      }
    }
  }

  /** What the JDK promises of a search over `low..high` that returned `r`. */
  ghost predicate Promised(s: seq<Term>, key: Term, low: int, high: int, r: int)
    requires 0 <= low <= high + 1 <= |s|
  {
    && (r >= 0 ==> low <= r <= high && s[r] == key)
    && (r < 0 ==> low <= -(r + 1) <= high + 1
                  && AllBelow(s, key, -(r + 1)) && NoneBelowFrom(s, key, -(r + 1))
                  && key !in s)
  }

  /** A promise about a narrower range holds for a wider one. */
  lemma PromiseWiden(s: seq<Term>, key: Term, low: int, high: int, low': int, high': int, r: int)
    requires 0 <= low <= low' <= high' + 1 <= high + 1 <= |s|
    requires Promised(s, key, low', high', r)
    ensures Promised(s, key, low, high, r)
  {
  }

  /** On a sorted list the search keeps the JDK's promise. */
  lemma {:induction false} SearchCorrect(s: seq<Term>, key: Term, low: int, high: int)
    requires 0 <= low <= high + 1 <= |s|
    requires Sorted(s)
    requires AllBelow(s, key, low)
    requires forall j :: high < j < |s| ==> Compare(key, s[j]) < 0
    ensures Promised(s, key, low, high, Search(s, key, low, high))
    decreases high - low
  {
    if low > high {
      NotStored(s, key, low);
      assert Search(s, key, low, high) == -(low + 1);
    } else {
      var mid := (low + high) / 2;
      var cmp := Compare(s[mid], key);
      if cmp < 0 {
        BelowThrough(s, key, mid);
        SearchCorrect(s, key, mid + 1, high);
        SearchRight(s, key, low, high, mid);
      } else if cmp > 0 {
        AboveFrom(s, key, mid);
        SearchCorrect(s, key, low, mid - 1);
        SearchLeft(s, key, low, high, mid);
      } else {
        CompareZero(s[mid], key);
        assert Search(s, key, low, high) == mid;
      }
    }
  }

  /** A probe below `key` hands the search to the upper half. */
  lemma SearchRight(s: seq<Term>, key: Term, low: int, high: int, mid: int)
    requires 0 <= low <= high < |s| && mid == (low + high) / 2
    requires Compare(s[mid], key) < 0 && Promised(s, key, mid + 1, high, Search(s, key, mid + 1, high))
    ensures Promised(s, key, low, high, Search(s, key, low, high))
  {
    assert Search(s, key, low, high) == Search(s, key, mid + 1, high);
    PromiseWiden(s, key, low, high, mid + 1, high, Search(s, key, low, high));
  }

  /** A probe above `key` hands the search to the lower half. */
  lemma SearchLeft(s: seq<Term>, key: Term, low: int, high: int, mid: int)
    requires 0 <= low <= high < |s| && mid == (low + high) / 2
    requires Compare(s[mid], key) > 0 && Promised(s, key, low, mid - 1, Search(s, key, low, mid - 1))
    ensures Promised(s, key, low, high, Search(s, key, low, high))
  {
    assert Search(s, key, low, high) == Search(s, key, low, mid - 1);
    PromiseWiden(s, key, low, high, low, mid - 1, Search(s, key, low, high));
  }

  /** The search over a sorted list finds `key` or its insertion point. */
  lemma BinarySearchCorrect(s: seq<Term>, key: Term)
    requires Sorted(s)
    ensures var r := BinarySearch(s, key);
      && (r >= 0 ==> r < |s| && s[r] == key)
      && (r < 0 ==> 0 <= -(r + 1) <= |s|
                    && AllBelow(s, key, -(r + 1)) && NoneBelowFrom(s, key, -(r + 1))
                    && key !in s)
  {
    SearchCorrect(s, key, 0, |s| - 1);
  }

  // ---------------------------------------------------------------------
  // The contiguous scan
  // ---------------------------------------------------------------------

  /** The run of terms from index `i` that start with `prefix`, stopping at
      the first that does not. */
  function Run(s: seq<Term>, i: nat, prefix: Term): (r: seq<Term>)
    requires i <= |s|
    ensures i + |r| <= |s| && r == s[i..i + |r|]
    ensures forall x :: x in r ==> StartsWith(x, prefix)
    ensures i + |r| == |s| || !StartsWith(s[i + |r|], prefix)
    decreases |s| - i
  {
    if i == |s| || !StartsWith(s[i], prefix) then []
    else [s[i]] + Run(s, i + 1, prefix)
  }

  /** A term that starts with the prefix heads the run from its index. */
  lemma RunStep(s: seq<Term>, i: nat, prefix: Term)
    requires i < |s| && StartsWith(s[i], prefix)
    ensures forall m :: m + Run(s, i, prefix) == m + [s[i]] + Run(s, i + 1, prefix)
  {
    forall m
      ensures m + Run(s, i, prefix) == m + [s[i]] + Run(s, i + 1, prefix)
    {
      assert Run(s, i, prefix) == [s[i]] + Run(s, i + 1, prefix);
    }
  }

  /** No term below the prefix starts with it. */
  lemma FilterBelow(s: seq<Term>, i: nat, prefix: Term)
    requires i <= |s| && AllBelow(s, prefix, i)
    ensures Filter(s[..i], prefix) == []
  {
    forall j | 0 <= j < i
      ensures !StartsWith(s[..i][j], prefix)
    {
      if StartsWith(s[j], prefix) {
        PrefixNotAbove(prefix, s[j]);
        CompareFlip(s[j], prefix);
      }
    }
    FilterNone(s[..i], prefix);
  }

  /** In a sorted list, after a term not below the prefix that does not
      start with it, no term starts with the prefix. */
  lemma FilterBeyond(s: seq<Term>, e: nat, prefix: Term)
    requires e <= |s| && Sorted(s)
    requires e < |s| ==> Compare(prefix, s[e]) <= 0 && !StartsWith(s[e], prefix)
    ensures Filter(s[e..], prefix) == []
  {
    forall j | 0 <= j < |s| - e
      ensures !StartsWith(s[e..][j], prefix)
    {
      if j > 0 && StartsWith(s[e + j], prefix) {
        PrefixInterval(prefix, s[e], s[e + j]);
      }
    }
    FilterNone(s[e..], prefix);
  }

  /** Filtering a list filters the three slices it is cut into. */
  lemma FilterThree(s: seq<Term>, i: nat, e: nat, prefix: Term)
    requires i <= e <= |s|
    ensures Filter(s, prefix) == Filter(s[..i], prefix) + Filter(s[i..e], prefix) + Filter(s[e..], prefix)
  {
    assert s == s[..i] + s[i..e] + s[e..];
    FilterAppend(s[..i] + s[i..e], s[e..], prefix);
    FilterAppend(s[..i], s[i..e], prefix);
  }

  /** Started where nothing before is at or above the prefix and nothing
      after is below it, the run is exactly the filtered list. */
  lemma RunIsFilter(s: seq<Term>, i: nat, prefix: Term)
    requires i <= |s| && Sorted(s)
    requires AllBelow(s, prefix, i) && NoneBelowFrom(s, prefix, i)
    ensures Run(s, i, prefix) == Filter(s, prefix)
  {
    var r := Run(s, i, prefix);
    var e := i + |r|;
    assert s[i..e] == r;
    FilterThree(s, i, e, prefix);
    FilterBelow(s, i, prefix);
    FilterAll(r, prefix);
    FilterBeyond(s, e, prefix);
    EmptyAround(Filter(s[..i], prefix), Filter(s[i..e], prefix), Filter(s[e..], prefix));
  }

  /** Where the query code starts its scan: the found index, or the
      insertion point when the search fails, with the boundary written
      `start < 1` rather than `start < 0`. */
  function StartAsWritten(found: int): int
  {
    if found < 1 then -(found + 1) else found
  }

  /** When the prefix is not itself stored, the query code as written
      returns exactly the stored terms that start with it. */
  lemma AsWrittenCorrectWhenAbsent(s: seq<Term>, prefix: Term)
    requires Sorted(s) && prefix !in s
    ensures var start := StartAsWritten(BinarySearch(s, prefix));
      && 0 <= start <= |s|
      && Run(s, start, prefix) == Filter(s, prefix)
  {
    BinarySearchCorrect(s, prefix);
    var start := StartAsWritten(BinarySearch(s, prefix));
    RunIsFilter(s, start, prefix);
  }

  /** Finding: a prefix equal to the smallest stored term is found at index
      0, which the `start < 1` branch turns into index -1. */
  lemma SmallestTermIsFoundAtZero()
    ensures BinarySearch(["a", "ab"], "a") == 0
    ensures StartAsWritten(0) == -1
    ensures Filter(["a", "ab"], "a") == ["a", "ab"]
  {
    assert ["a", "ab"][0] == "a";
  }

  /** Finding: with duplicate terms the search may land inside the run of
      copies of the prefix, and the scan from there misses the copies
      before it. */
  lemma DuplicatesBeforeTheFoundIndexAreMissed()
    ensures BinarySearch(["a", "a", "a"], "a") == 1
    ensures Run(["a", "a", "a"], StartAsWritten(1), "a") == ["a", "a"]
    ensures Filter(["a", "a", "a"], "a") == ["a", "a", "a"]
  {
    var s: seq<Term> := ["a", "a", "a"];
    assert s[1] == "a";
    assert s[1..][1..] == ["a"];
  }

  class BinarySearchAutocomplete {
    /** The added terms, sorted, duplicates kept. */
    var elements: seq<Term>

    ghost predicate Valid()
      reads this
    {
      Sorted(elements)
    }

    /** An empty instance. */
    constructor ()
      ensures Valid() && elements == []
    {
      elements := [];
    }

    /** Appends every term, then sorts: afterwards `elements` is sorted and
        holds every term added so far, duplicates kept. */
    method AddAll(terms: seq<Term>)
      modifies this
      ensures Valid()
      ensures multiset(elements) == multiset(old(elements)) + multiset(terms)
    {
      var k := 0;
      while k < |terms|
        invariant 0 <= k <= |terms|
        invariant elements == old(elements) + terms[..k]
      {
        assert terms[..k + 1] == terms[..k] + [terms[k]];
        elements := elements + [terms[k]];
        k := k + 1;
      }
      assert terms[..k] == terms;
      elements := SortTerms(elements);
    }

    /** The loop of `allMatches`: collects terms from `start` while they
        start with `prefix`, and stops at the first that does not. */
    method Scan(start: nat, prefix: Term) returns (matchList: seq<Term>)
      requires start <= |elements|
      ensures matchList == Run(elements, start, prefix)
    {
      matchList := [];
      var i := start;
      while i < |elements|
        invariant start <= i <= |elements|
        invariant Run(elements, start, prefix) == matchList + Run(elements, i, prefix)
      {
        if StartsWith(elements[i], prefix) {
          RunStep(elements, i, prefix);
          matchList := matchList + [elements[i]];
        } else {
          assert Run(elements, i, prefix) == [];
          break;
        }
        i := i + 1;
      }
    }

    /** `allMatches` as written: it throws `IndexOutOfBoundsException`
        exactly when the search returns 0; otherwise it returns the run
        from the found index or the insertion point. */
    method AllMatchesAsWritten(prefix: Term) returns (r: Result<seq<Term>>)
      requires Valid()
      ensures r.Failure? <==> BinarySearch(elements, prefix) == 0
      ensures r.Failure? ==> r.error == IndexOutOfBoundsException
      ensures r.Success? ==>
        var start := StartAsWritten(BinarySearch(elements, prefix));
        0 <= start <= |elements| && r.value == Run(elements, start, prefix)
    {
      BinarySearchCorrect(elements, prefix);
      var start := BinarySearch(elements, prefix);
      if start < 1 {
        start := -(start + 1);
      }
      if start < 0 {
        return Failure(IndexOutOfBoundsException);
      }
      var matchList := Scan(start, prefix);
      return Success(matchList);
    }

    /** The first index whose term is not below `prefix`. */
    method LowerBound(prefix: Term) returns (lo: nat)
      requires Valid()
      ensures lo <= |elements|
      ensures AllBelow(elements, prefix, lo) && NoneBelowFrom(elements, prefix, lo)
    {
      lo := 0;
      var hi := |elements|;
      while lo < hi
        invariant 0 <= lo <= hi <= |elements|
        invariant AllBelow(elements, prefix, lo)
        invariant NoneBelowFrom(elements, prefix, hi)
        decreases hi - lo
      {
        var mid := (lo + hi) / 2;
        if Compare(elements[mid], prefix) < 0 {
          forall j | 0 <= j < mid + 1
            ensures Compare(elements[j], prefix) < 0
          {
            if j < mid {
              CompareTrans(elements[j], elements[mid], prefix);
            }
          }
          lo := mid + 1;
        } else {
          assert Compare(prefix, elements[mid]) <= 0 by {
            CompareFlip(prefix, elements[mid]);
            CompareZero(prefix, elements[mid]);
            CompareZero(elements[mid], prefix);
          }
          forall j | mid < j < |elements|
            ensures Compare(prefix, elements[j]) <= 0
          {
            CompareTrans(prefix, elements[mid], elements[j]);
          }
          hi := mid;
        }
      }
    }

    /** `allMatches` corrected to start at the first term not below the
        prefix: exactly the stored terms that start with `prefix`, in
        sorted order, duplicates kept. */
    method AllMatches(prefix: Term) returns (matchList: seq<Term>)
      requires Valid()
      ensures matchList == Filter(elements, prefix)
    {
      var start := LowerBound(prefix);
      matchList := Scan(start, prefix);
      RunIsFilter(elements, start, prefix);
    }
  }
}
