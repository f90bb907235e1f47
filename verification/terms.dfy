/** Autocompletion terms: Java `CharSequence`s as sequences of chars, the
    prefix test `startsWith`, the lexicographic order `CharSequence.compare`,
    and the prefix filter every autocompletion structure must compute. */
module Terms {

  type Term = seq<char>

  /** `term.toString().startsWith(prefix.toString())`. */
  predicate StartsWith(term: Term, prefix: Term)
  {
    prefix <= term
  }

  /** `CharSequence.compare(a, b)`: the difference of the first differing
      chars, or else the difference of the lengths. */
  function Compare(a: Term, b: Term): int
  {
    if a == [] || b == [] then |a| - |b|
    else if a[0] != b[0] then a[0] as int - b[0] as int
    else Compare(a[1..], b[1..])
  }

  /** `Compare` is zero exactly on equal terms. */
  lemma {:induction false} CompareZero(a: Term, b: Term)
    ensures Compare(a, b) == 0 <==> a == b
  {
    if a != [] && b != [] && a[0] == b[0] {
      CompareZero(a[1..], b[1..]);
      assert a == [a[0]] + a[1..] && b == [b[0]] + b[1..];
    }
  }

  /** Swapping the arguments of `Compare` flips its sign. */
  lemma {:induction false} CompareFlip(a: Term, b: Term)
    ensures Compare(a, b) < 0 <==> Compare(b, a) > 0
  {
    if a != [] && b != [] && a[0] == b[0] {
      CompareFlip(a[1..], b[1..]);
    }
  }

  /** `Compare` orders terms transitively, strictly when either step is strict. */
  lemma {:induction false} CompareTrans(a: Term, b: Term, c: Term)
    requires Compare(a, b) <= 0 && Compare(b, c) <= 0
    ensures Compare(a, c) <= 0
    ensures Compare(a, b) < 0 || Compare(b, c) < 0 ==> Compare(a, c) < 0
  {
    if a != [] && b != [] && c != [] && a[0] == b[0] == c[0] {
      CompareTrans(a[1..], b[1..], c[1..]);
    }
  }

  /** A term is never below a prefix of it. */
  lemma {:induction false} PrefixNotAbove(p: Term, x: Term)
    requires StartsWith(x, p)
    ensures Compare(p, x) <= 0
  {
    if p != [] {
      PrefixNotAbove(p[1..], x[1..]);
    }
  }

  /** The terms that start with `p` form an interval of the order: a term
      between `p` and a term starting with `p` also starts with `p`. */
  lemma {:induction false} PrefixInterval(p: Term, b: Term, c: Term)
    requires Compare(p, b) <= 0 && Compare(b, c) <= 0 && StartsWith(c, p)
    ensures StartsWith(b, p)
  {
    if p != [] {
      assert c != [] && c[0] == p[0];
      assert b != [];
      assert b[0] == p[0];
      PrefixInterval(p[1..], b[1..], c[1..]);
    }
  }

  /** Ascending by `Compare`, duplicates allowed. */
  ghost predicate Sorted(s: seq<Term>)
  {
    forall i, j :: 0 <= i < j < |s| ==> Compare(s[i], s[j]) <= 0
  }

  /** Strictly ascending by `Compare`: each term once. */
  ghost predicate StrictlySorted(s: seq<Term>)
  {
    forall i, j :: 0 <= i < j < |s| ==> Compare(s[i], s[j]) < 0
  }

  /** The terms of `s` that start with `prefix`, in their order in `s`,
      duplicates kept. */
  function Filter(s: seq<Term>, prefix: Term): (r: seq<Term>)
    ensures |r| <= |s|
  {
    if s == [] then []
    else
      var rest := Filter(s[1..], prefix);
      assert s == [s[0]] + s[1..];
      if StartsWith(s[0], prefix) then [s[0]] + rest else rest
  }

  /** Filtering a strictly sorted list keeps it strictly sorted. */
  lemma {:induction false} FilterStrictlySorted(s: seq<Term>, prefix: Term)
    requires StrictlySorted(s)
    ensures StrictlySorted(Filter(s, prefix))
  {
    if s != [] {
      var tail := s[1..];
      var rest := Filter(tail, prefix);
      forall i, j | 0 <= i < j < |tail|
        ensures Compare(tail[i], tail[j]) < 0
      {
        assert tail[i] == s[i + 1] && tail[j] == s[j + 1];
      }
      FilterStrictlySorted(tail, prefix);
      if StartsWith(s[0], prefix) {
        forall j | 0 <= j < |rest|
          ensures Compare(s[0], rest[j]) < 0
        {
          FilterMember(tail, prefix, rest[j]);
          var k :| 0 <= k < |tail| && tail[k] == rest[j];
          assert s[k + 1] == rest[j];
        }
        forall i, j | 0 <= i < j < |rest| + 1
          ensures Compare(([s[0]] + rest)[i], ([s[0]] + rest)[j]) < 0
        {
          if i > 0 {
            assert ([s[0]] + rest)[i] == rest[i - 1];
          }
        }
      }
    }
  }

  /** A term is kept exactly when it is in the list and starts with the prefix. */
  lemma {:induction false} FilterMember(s: seq<Term>, prefix: Term, x: Term)
    ensures x in Filter(s, prefix) <==> x in s && StartsWith(x, prefix)
  {
    if s != [] {
      FilterMember(s[1..], prefix, x);
      assert s == [s[0]] + s[1..];
    }
  }

  /** Filtering keeps every copy of a matching term and no copy of any other. */
  lemma {:induction false} FilterCounts(s: seq<Term>, prefix: Term, x: Term)
    ensures multiset(Filter(s, prefix))[x] == if StartsWith(x, prefix) then multiset(s)[x] else 0
  {
    if s != [] {
      FilterCounts(s[1..], prefix, x);
      assert s == [s[0]] + s[1..];
    }
  }

  /** Filtering distributes over concatenation. */
  lemma {:induction false} FilterAppend(a: seq<Term>, b: seq<Term>, prefix: Term)
    ensures Filter(a + b, prefix) == Filter(a, prefix) + Filter(b, prefix)
  {
    if a != [] {
      assert (a + b)[1..] == a[1..] + b;
      FilterAppend(a[1..], b, prefix);
    } else {
      assert a + b == b;
    }
  }

  /** Filtering a list extended by one term. */
  lemma FilterSnoc(s: seq<Term>, x: Term, prefix: Term)
    ensures Filter(s + [x], prefix) == Filter(s, prefix) + if StartsWith(x, prefix) then [x] else []
  {
    FilterAppend(s, [x], prefix);
    assert [x][1..] == [];
  }

  /** Filtering with the empty prefix keeps every term. */
  lemma {:induction false} FilterEmptyPrefix(s: seq<Term>)
    ensures Filter(s, []) == s
  {
    if s != [] {
      FilterEmptyPrefix(s[1..]);
      assert s == [s[0]] + s[1..];
    }
  }

  /** Filtering a list whose every term starts with the prefix keeps it whole. */
  lemma {:induction false} FilterAll(s: seq<Term>, prefix: Term)
    requires forall i :: 0 <= i < |s| ==> StartsWith(s[i], prefix)
    ensures Filter(s, prefix) == s
  {
    if s != [] {
      FilterAll(s[1..], prefix);
      assert s == [s[0]] + s[1..];
    }
  }

  /** Filtering a list none of whose terms starts with the prefix gives nothing. */
  lemma {:induction false} FilterNone(s: seq<Term>, prefix: Term)
    requires forall i :: 0 <= i < |s| ==> !StartsWith(s[i], prefix)
    ensures Filter(s, prefix) == []
  {
    if s != [] {
      FilterNone(s[1..], prefix);
    }
  }
}
